/** helpers/preprocess_goodreads_unread.py: for every user of a ratings file, the
    user's rows are overwritten in place with books drawn without replacement from the
    titles whose code the user has not read, with rating 0. The random draw is modelled
    as a choice of any admissible draw. The pool rule is a parameter: `ByCode` is the
    script as written, `ByBook` the corrected rule that never hands a user a read book. */
module Unread {
  import opened Tables
  import opened Encoding
  import opened BookInfo

  /** A row of ratings_df; `encBook` becomes NaN when the drawn title has no code. */
  datatype Entry = Entry(book: int, user: int, encBook: Option<nat>, encUser: nat, rating: int, time: int)

  function FromOut(o: OutRow): Entry
  {
    Entry(o.book, o.user, Some(o.encBook), o.encUser, o.rating, o.time)
  }

  /** The number of rows of user u. */
  function CountIn(s: seq<Entry>, u: nat): nat
  {
    if s == [] then 0
    else CountIn(s[..|s| - 1], u) + (if s[|s| - 1].encUser == u then 1 else 0)
  }

  /** How many rows of the same user come before row k: row k receives that draw. */
  function Occ(s: seq<Entry>, k: nat): nat
    requires k < |s|
  {
    CountIn(s[..k], s[k].encUser)
  }

  /** `ratings_df.index.unique()`: the users in order of first appearance. */
  function UniqueUsers(s: seq<Entry>): (us: seq<nat>)
    ensures forall u :: u in us <==> exists k :: 0 <= k < |s| && s[k].encUser == u
    ensures forall i, j :: 0 <= i < j < |us| ==> us[i] != us[j]
  {
    if s == [] then []
    else
      var front := UniqueUsers(s[..|s| - 1]);
      assert forall k :: 0 <= k < |s| - 1 ==> s[..|s| - 1][k] == s[k];
      if s[|s| - 1].encUser in front then front else front + [s[|s| - 1].encUser]
  }

  /** `ratings_df.loc[user_id, 'encoded_book_id']`: the book codes the user has read. */
  function ReadSet(s: seq<Entry>, u: nat): set<nat>
  {
    set k | 0 <= k < |s| && s[k].encUser == u && s[k].encBook.Some? :: s[k].encBook.value
  }

  /** The book ids the user has read. */
  function ReadBooks(s: seq<Entry>, u: nat): set<int>
  {
    set k | 0 <= k < |s| && s[k].encUser == u :: s[k].book
  }

  /** How a title is matched against what the user has read. `ByCode` is line 41 as
      written: the title table's code index against the read codes. `ByBook` is the
      corrected rule: the title's book id against the read book ids. */
  datatype PoolRule = ByCode | ByBook

  /** What a user has read, as a pool rule sees it. */
  datatype Reads = Reads(rule: PoolRule, codes: set<nat>, books: set<int>)

  function ReadsOf(rule: PoolRule, s: seq<Entry>, u: nat): Reads
  {
    Reads(rule, ReadSet(s, u), ReadBooks(s, u))
  }

  /** `~titles_df.index.isin(read_books)` under `ByCode`: a NaN index never matches, so
      a title without a code is always in the pool. Under `ByBook` a title is in the
      pool iff the user has not read its book. */
  predicate InPool(t: Title, read: Reads)
  {
    match read.rule
    case ByCode => t.encBook.None? || t.encBook.value !in read.codes
    case ByBook => t.book !in read.books
  }

  /** The positions below n of the titles in the pool, ascending. */
  function Pool(titles: seq<Title>, read: Reads, n: nat): (ps: seq<nat>)
    requires n <= |titles|
    ensures forall i, j :: 0 <= i < j < |ps| ==> ps[i] < ps[j]
    ensures forall p: nat :: p in ps <==> p < n && InPool(titles[p], read)
  {
    if n == 0 then []
    else
      var front := Pool(titles, read, n - 1);
      assert forall i :: 0 <= i < |front| ==> front[i] in front;
      if InPool(titles[n - 1], read) then front + [n - 1] else front
  }

  /** What `sample(n=need)` may return: need distinct title positions from the pool. */
  predicate ValidSample(chosen: seq<nat>, titles: seq<Title>, read: Reads, need: nat)
  {
    && |chosen| == need
    && (forall i, j :: 0 <= i < j < |chosen| ==> chosen[i] != chosen[j])
    && (forall i :: 0 <= i < |chosen| ==> chosen[i] < |titles| && InPool(titles[chosen[i]], read))
  }

  /** Lines 45-47: the row takes the drawn title's code and book id and rating 0. */
  function Sampled(e: Entry, t: Title): Entry
  {
    e.(encBook := t.encBook, book := t.book, rating := 0)
  }

  /** Row k of `out` holds the draw of its user that belongs to it. */
  predicate RowSampled(rule: PoolRule, orig: seq<Entry>, out: seq<Entry>, titles: seq<Title>, picks: map<nat, seq<nat>>, k: nat)
    requires k < |orig| && |out| == |orig|
  {
    && orig[k].encUser in picks
    && ValidSample(picks[orig[k].encUser], titles, ReadsOf(rule, orig, orig[k].encUser), CountIn(orig, orig[k].encUser))
    && Occ(orig, k) < |picks[orig[k].encUser]|
    && out[k] == Sampled(orig[k], titles[picks[orig[k].encUser][Occ(orig, k)]])
  }

  /** The whole overwritten table, given the draw of each user. */
  predicate SampledFrom(rule: PoolRule, orig: seq<Entry>, out: seq<Entry>, titles: seq<Title>, picks: map<nat, seq<nat>>)
  {
    && |out| == |orig|
    && forall k :: 0 <= k < |orig| ==> RowSampled(rule, orig, out, titles, picks, k)
  }

  /** The columns the sampler never writes. */
  predicate KeepsUserColumns(orig: seq<Entry>, out: seq<Entry>)
  {
    && |out| == |orig|
    && forall k :: 0 <= k < |orig| ==>
         out[k].user == orig[k].user && out[k].encUser == orig[k].encUser && out[k].time == orig[k].time
  }

  /** Every user's pool is large enough for the draw. */
  predicate PoolsSuffice(rule: PoolRule, orig: seq<Entry>, titles: seq<Title>)
  {
    forall k :: 0 <= k < |orig| ==>
      |Pool(titles, ReadsOf(rule, orig, orig[k].encUser), |titles|)| >= CountIn(orig, orig[k].encUser)
  }

  // ---------------------------------------------------------------------------
  // Counting lemmas

  lemma CountInStep(s: seq<Entry>, k: nat, u: nat)
    requires k < |s|
    ensures CountIn(s[..k + 1], u) == CountIn(s[..k], u) + (if s[k].encUser == u then 1 else 0)
  {
    assert s[..k + 1][..k] == s[..k];
  }

  lemma {:induction false} CountInMono(s: seq<Entry>, i: nat, j: nat, u: nat)
    requires i <= j <= |s|
    ensures CountIn(s[..i], u) <= CountIn(s[..j], u)
    decreases j - i
  {
    if i < j {
      CountInMono(s, i, j - 1, u);
      CountInStep(s, j - 1, u);
    }
  }

  /** Later rows of a user receive later draws. */
  lemma OccGrows(s: seq<Entry>, i: nat, j: nat)
    requires i < j < |s| && s[i].encUser == s[j].encUser
    ensures Occ(s, i) < Occ(s, j)
  {
    CountInStep(s, i, s[i].encUser);
    CountInMono(s, i + 1, j, s[i].encUser);
  }

  /** A row's draw index stays below its user's row count. */
  lemma OccBound(s: seq<Entry>, k: nat)
    requires k < |s|
    ensures Occ(s, k) < CountIn(s, s[k].encUser)
  {
    CountInStep(s, k, s[k].encUser);
    CountInMono(s, k + 1, |s|, s[k].encUser);
    assert s[..|s|] == s;
  }

  lemma {:induction false} DistinctCard(s: seq<nat>)
    requires forall i, j :: 0 <= i < j < |s| ==> s[i] != s[j]
    ensures |set x: nat | x in s| == |s|
  {
    if s != [] {
      var front := s[..|s| - 1];
      var last := s[|s| - 1];
      assert s == front + [last];
      DistinctCard(front);
      var a := set x: nat | x in front;
      assert |a| == |front|;
      assert last !in a by {
        forall i | 0 <= i < |front| ensures front[i] != last {
          assert front[i] == s[i];
        }
      }
      assert |a + {last}| == |a| + 1;
      assert (set x: nat | x in s) == a + {last};
    } else {
      assert (set x: nat | x in s) == {};
    }
  }

  lemma {:induction false} SubsetCard(a: set<nat>, b: set<nat>)
    requires a <= b
    ensures |a| <= |b|
  {
    if a != {} {
      var x :| x in a;
      SubsetCard(a - {x}, b - {x});
    }
  }

  /** The first `need` titles of a large enough pool are a valid draw. */
  lemma PoolPrefixIsSample(titles: seq<Title>, read: Reads, need: nat)
    requires |Pool(titles, read, |titles|)| >= need
    ensures ValidSample(Pool(titles, read, |titles|)[..need], titles, read, need)
  {
    var pool := Pool(titles, read, |titles|);
    var c := pool[..need];
    forall i | 0 <= i < |c| ensures c[i] < |titles| && InPool(titles[c[i]], read) {
      assert c[i] == pool[i] && pool[i] in pool;
    }
    forall i, j | 0 <= i < j < |c| ensures c[i] != c[j] {
      assert c[i] == pool[i] && c[j] == pool[j];
    }
  }

  /** `sample(n=need)` succeeds exactly when the pool holds at least need titles. */
  lemma SampleExistsIff(titles: seq<Title>, read: Reads, need: nat)
    ensures (exists c :: ValidSample(c, titles, read, need)) <==> |Pool(titles, read, |titles|)| >= need
  {
    var pool := Pool(titles, read, |titles|);
    if |pool| >= need {
      PoolPrefixIsSample(titles, read, need);
    }
    if c :| ValidSample(c, titles, read, need) {
      DistinctCard(c);
      DistinctCard(pool);
      forall x | x in c ensures x in pool {
        var i :| 0 <= i < |c| && c[i] == x;
      }
      SubsetCard(set x: nat | x in c, set x: nat | x in pool);
      assert |c| <= |pool|;
    }
  }

  // ---------------------------------------------------------------------------
  // The sampler

  /** Lines 45-47 for one user: the user's rows, in table order, take the drawn titles
      in the order of the draw. `orig` is the table before the loop over the users. */
  method OverwriteUser(rows: array<Entry>, ghost orig: seq<Entry>, u: nat, chosen: seq<nat>, titles: seq<Title>)
    requires |orig| == rows.Length && forall k :: 0 <= k < |orig| ==> rows[k].encUser == orig[k].encUser
    requires |chosen| == CountIn(orig, u)
    requires forall i :: 0 <= i < |chosen| ==> chosen[i] < |titles|
    modifies rows
    ensures forall k :: 0 <= k < |orig| && orig[k].encUser == u ==>
      Occ(orig, k) < |chosen| && rows[k] == Sampled(old(rows[k]), titles[chosen[Occ(orig, k)]])
    ensures forall k :: 0 <= k < |orig| && orig[k].encUser != u ==> rows[k] == old(rows[k])
  {
    var j := 0;
    var c := 0;
    while j < rows.Length
      invariant 0 <= j <= rows.Length
      invariant c == CountIn(orig[..j], u)
      invariant forall k :: j <= k < rows.Length ==> rows[k] == old(rows[k])
      invariant forall k :: 0 <= k < j && orig[k].encUser != u ==> rows[k] == old(rows[k])
      invariant forall k :: 0 <= k < j && orig[k].encUser == u ==>
        Occ(orig, k) < |chosen| && rows[k] == Sampled(old(rows[k]), titles[chosen[Occ(orig, k)]])
    {
      CountInStep(orig, j, u);
      if rows[j].encUser == u {
        OccBound(orig, j);
        rows[j] := Sampled(rows[j], titles[chosen[c]]);
        c := c + 1;
      }
      j := j + 1;
    }
  }

  /** Lines 37-47 for one ratings file. `ok` is false when some user's pool is too
      small for the draw (where `sample` raises, line 42). The in-memory table is then left
      partly overwritten, and this file is not written, because `to_csv` (line 53) comes
      after the loop. */
  method SampleUnread(rows: array<Entry>, titles: seq<Title>, rule: PoolRule) returns (ok: bool, ghost picks: map<nat, seq<nat>>)
    modifies rows
    ensures ok <==> PoolsSuffice(rule, old(rows[..]), titles)
    ensures ok ==> SampledFrom(rule, old(rows[..]), rows[..], titles, picks)
    ensures KeepsUserColumns(old(rows[..]), rows[..])
  {
    ghost var orig := rows[..];
    var users := UniqueUsers(rows[..]);
    picks := map[];
    ghost var done: set<nat> := {};
    var i := 0;
    while i < |users|
      invariant 0 <= i <= |users|
      invariant forall j :: 0 <= j < i ==> users[j] in done
      invariant forall v :: v in done ==> exists j :: 0 <= j < i && users[j] == v
      invariant LoopInv(rule, orig, rows[..], titles, picks, done)
    {
      var u := users[i];
      assert u !in done;
      UserUntouched(rule, orig, rows[..], titles, picks, done, u);
      var read := ReadsOf(rule, rows[..], u);
      var need := CountIn(rows[..], u);
      var pool := Pool(titles, read, |titles|);
      if |pool| < need {
        assert u in users;
        PoolTooSmall(rule, orig, titles, u);
        ok := false;
        return;
      }
      SampleExistsIff(titles, read, need);
      var chosen :| ValidSample(chosen, titles, read, need);
      ghost var before := rows[..];
      OverwriteUser(rows, orig, u, chosen, titles);
      StepKeepsSampled(rule, orig, before, rows[..], titles, picks, u, chosen, done);
      picks := picks[u := chosen];
      done := done + {u};
      i := i + 1;
    }
    ok := true;
    forall k | 0 <= k < |orig| ensures orig[k].encUser in done {
      assert orig[k].encUser in users;
    }
    AllDone(rule, orig, rows[..], titles, picks, done);
  }

  /** The invariant of the loop over the users: the users in `done` have had their
      rows overwritten by a valid draw, the others are as read from the file. */
  predicate LoopInv(rule: PoolRule, orig: seq<Entry>, cur: seq<Entry>, titles: seq<Title>, picks: map<nat, seq<nat>>, done: set<nat>)
  {
    && KeepsUserColumns(orig, cur)
    && (forall k :: 0 <= k < |orig| && orig[k].encUser in done ==> RowSampled(rule, orig, cur, titles, picks, k))
    && (forall k :: 0 <= k < |orig| && orig[k].encUser in done ==>
          |Pool(titles, ReadsOf(rule, orig, orig[k].encUser), |titles|)| >= CountIn(orig, orig[k].encUser))
    && (forall k :: 0 <= k < |orig| && orig[k].encUser !in done ==> cur[k] == orig[k])
  }

  /** A user not yet handled still has its rows as read from the file. */
  lemma UserUntouched(rule: PoolRule, orig: seq<Entry>, cur: seq<Entry>, titles: seq<Title>, picks: map<nat, seq<nat>>,
                      done: set<nat>, u: nat)
    requires LoopInv(rule, orig, cur, titles, picks, done) && u !in done
    ensures ReadsOf(rule, cur, u) == ReadsOf(rule, orig, u)
    ensures CountIn(cur, u) == CountIn(orig, u)
  {
    assert forall k :: 0 <= k < |orig| && orig[k].encUser == u ==> cur[k] == orig[k];
    assert ReadSet(cur, u) == ReadSet(orig, u);
    assert ReadBooks(cur, u) == ReadBooks(orig, u);
    CountInSameUsers(cur, orig, u);
  }

  /** When a user of the file has too small a pool, the pools do not all suffice. */
  lemma PoolTooSmall(rule: PoolRule, orig: seq<Entry>, titles: seq<Title>, u: nat)
    requires exists k :: 0 <= k < |orig| && orig[k].encUser == u
    requires |Pool(titles, ReadsOf(rule, orig, u), |titles|)| < CountIn(orig, u)
    ensures !PoolsSuffice(rule, orig, titles)
  {
    var k :| 0 <= k < |orig| && orig[k].encUser == u;
  }

  /** Once every user is handled, the table is the sampled table. */
  lemma AllDone(rule: PoolRule, orig: seq<Entry>, cur: seq<Entry>, titles: seq<Title>, picks: map<nat, seq<nat>>, done: set<nat>)
    requires LoopInv(rule, orig, cur, titles, picks, done)
    requires forall k :: 0 <= k < |orig| ==> orig[k].encUser in done
    ensures PoolsSuffice(rule, orig, titles)
    ensures SampledFrom(rule, orig, cur, titles, picks)
  {
  }

  /** One pass of the loop over the users keeps the loop's invariant. */
  lemma StepKeepsSampled(rule: PoolRule, orig: seq<Entry>, before: seq<Entry>, after: seq<Entry>, titles: seq<Title>,
                         picks: map<nat, seq<nat>>, u: nat, chosen: seq<nat>, done: set<nat>)
    requires LoopInv(rule, orig, before, titles, picks, done) && u !in done && |after| == |orig|
    requires ValidSample(chosen, titles, ReadsOf(rule, orig, u), CountIn(orig, u))
    requires forall k :: 0 <= k < |orig| && orig[k].encUser == u ==>
      Occ(orig, k) < |chosen| && after[k] == Sampled(before[k], titles[chosen[Occ(orig, k)]])
    requires forall k :: 0 <= k < |orig| && orig[k].encUser != u ==> after[k] == before[k]
    ensures LoopInv(rule, orig, after, titles, picks[u := chosen], done + {u})
  {
    StepKeepsColumns(orig, before, after, titles, u, chosen);
    StepKeepsPools(rule, orig, titles, u, chosen, done);
    StepKeepsRows(rule, orig, before, after, titles, picks, u, chosen, done);
  }

  lemma StepKeepsColumns(orig: seq<Entry>, before: seq<Entry>, after: seq<Entry>, titles: seq<Title>,
                         u: nat, chosen: seq<nat>)
    requires KeepsUserColumns(orig, before) && |after| == |orig|
    requires forall k :: 0 <= k < |orig| && orig[k].encUser == u ==>
      Occ(orig, k) < |chosen| && chosen[Occ(orig, k)] < |titles| &&
      after[k] == Sampled(before[k], titles[chosen[Occ(orig, k)]])
    requires forall k :: 0 <= k < |orig| && orig[k].encUser != u ==> after[k] == before[k]
    ensures KeepsUserColumns(orig, after)
  {
  }

  lemma StepKeepsPools(rule: PoolRule, orig: seq<Entry>, titles: seq<Title>, u: nat, chosen: seq<nat>, done: set<nat>)
    requires forall k :: 0 <= k < |orig| && orig[k].encUser in done ==>
      |Pool(titles, ReadsOf(rule, orig, orig[k].encUser), |titles|)| >= CountIn(orig, orig[k].encUser)
    requires ValidSample(chosen, titles, ReadsOf(rule, orig, u), CountIn(orig, u))
    ensures forall k :: 0 <= k < |orig| && orig[k].encUser in done + {u} ==>
      |Pool(titles, ReadsOf(rule, orig, orig[k].encUser), |titles|)| >= CountIn(orig, orig[k].encUser)
  {
    SampleExistsIff(titles, ReadsOf(rule, orig, u), CountIn(orig, u));
  }

  lemma StepKeepsRows(rule: PoolRule, orig: seq<Entry>, before: seq<Entry>, after: seq<Entry>, titles: seq<Title>,
                      picks: map<nat, seq<nat>>, u: nat, chosen: seq<nat>, done: set<nat>)
    requires |before| == |orig| && |after| == |orig| && u !in done
    requires forall k :: 0 <= k < |orig| && orig[k].encUser in done ==> RowSampled(rule, orig, before, titles, picks, k)
    requires forall k :: 0 <= k < |orig| && orig[k].encUser !in done ==> before[k] == orig[k]
    requires ValidSample(chosen, titles, ReadsOf(rule, orig, u), CountIn(orig, u))
    requires forall k :: 0 <= k < |orig| && orig[k].encUser == u ==>
      Occ(orig, k) < |chosen| && after[k] == Sampled(before[k], titles[chosen[Occ(orig, k)]])
    requires forall k :: 0 <= k < |orig| && orig[k].encUser != u ==> after[k] == before[k]
    ensures forall k :: 0 <= k < |orig| && orig[k].encUser in done + {u} ==>
      RowSampled(rule, orig, after, titles, picks[u := chosen], k)
    ensures forall k :: 0 <= k < |orig| && orig[k].encUser !in done + {u} ==> after[k] == orig[k]
  {
    forall k | 0 <= k < |orig| && orig[k].encUser in done + {u}
      ensures RowSampled(rule, orig, after, titles, picks[u := chosen], k)
    {
      if orig[k].encUser != u {
        assert RowSampled(rule, orig, before, titles, picks, k);
      }
    }
  }

  lemma {:induction false} CountInSameUsers(a: seq<Entry>, b: seq<Entry>, u: nat)
    requires |a| == |b| && forall k :: 0 <= k < |a| ==> a[k].encUser == b[k].encUser
    ensures CountIn(a, u) == CountIn(b, u)
  {
    if a != [] {
      var a' := a[..|a| - 1];
      var b' := b[..|b| - 1];
      CountInSameUsers(a', b', u);
    }
  }

  // ---------------------------------------------------------------------------
  // What the unreads file promises

  /** Under the script's rule, each negative has rating 0, keeps the user, encoded user
      and read date of the row it replaces, and is a title of book_titles.csv. A title
      that carries a code carries one the user has not read in the same file; a title
      without a code is drawn whatever its book (see ReadBookDrawnAsNegative). */
  lemma NegativeIsUnread(orig: seq<Entry>, out: seq<Entry>, titles: seq<Title>, picks: map<nat, seq<nat>>, k: nat)
    requires SampledFrom(ByCode, orig, out, titles, picks) && k < |orig|
    ensures out[k].rating == 0
    ensures out[k].user == orig[k].user && out[k].encUser == orig[k].encUser && out[k].time == orig[k].time
    ensures out[k].encBook.Some? ==> out[k].encBook.value !in ReadSet(orig, orig[k].encUser)
    ensures exists p :: 0 <= p < |titles| && out[k].book == titles[p].book && out[k].encBook == titles[p].encBook
  {
    assert RowSampled(ByCode, orig, out, titles, picks, k);
    var p := picks[orig[k].encUser][Occ(orig, k)];
    assert p < |titles| && InPool(titles[p], ReadsOf(ByCode, orig, orig[k].encUser));
  }

  /** The script's rule can hand a user a book that user has read: a train book with no
      catalogue line keeps a NaN `encoded_book_id` in book_titles.csv, and `isin` never
      matches NaN. Here user 0 read book 5 (code 0), whose title row has no code. */
  lemma ReadBookDrawnAsNegative()
    ensures var orig := [Entry(5, 7, Some(0), 0, 4, 100)];
            var titles := [Title(5, None, None, None)];
            var out := [Sampled(orig[0], titles[0])];
            && SampledFrom(ByCode, orig, out, titles, map[0 := [0]])
            && out[0].book in ReadBooks(orig, 0)
  {
    var orig := [Entry(5, 7, Some(0), 0, 4, 100)];
    var titles := [Title(5, None, None, None)];
    assert orig[..0] == [];
    assert CountIn(orig, 0) == 1 by {
      assert orig[..|orig| - 1] == [];
    }
    assert Occ(orig, 0) == 0;
    assert ValidSample([0], titles, ReadsOf(ByCode, orig, 0), 1);
    assert orig[0].book in ReadBooks(orig, 0);
  }

  /** The corrected rule: every negative names a book the user has not read in the same
      file, whether or not its title row carries a code. */
  lemma NegativeBookIsUnread(orig: seq<Entry>, out: seq<Entry>, titles: seq<Title>, picks: map<nat, seq<nat>>, k: nat)
    requires SampledFrom(ByBook, orig, out, titles, picks) && k < |orig|
    ensures out[k].rating == 0
    ensures out[k].user == orig[k].user && out[k].encUser == orig[k].encUser && out[k].time == orig[k].time
    ensures out[k].book !in ReadBooks(orig, orig[k].encUser)
    ensures forall j :: 0 <= j < |orig| && orig[j].encUser == orig[k].encUser ==> out[k].book != orig[j].book
  {
    assert RowSampled(ByBook, orig, out, titles, picks, k);
    var p := picks[orig[k].encUser][Occ(orig, k)];
    assert p < |titles| && InPool(titles[p], ReadsOf(ByBook, orig, orig[k].encUser));
    forall j | 0 <= j < |orig| && orig[j].encUser == orig[k].encUser
      ensures out[k].book != orig[j].book
    {
      assert orig[j].book in ReadBooks(orig, orig[k].encUser);
    }
  }

  /** The two rules pick the same titles when the title has a code and, on the user's
      rows, codes and books match one to one: they differ only on titles without a code. */
  lemma RulesAgreeOnCodedTitles(orig: seq<Entry>, u: nat, t: Title)
    requires t.encBook.Some?
    requires forall k :: 0 <= k < |orig| && orig[k].encUser == u ==>
      orig[k].encBook.Some? && (orig[k].encBook == t.encBook <==> orig[k].book == t.book)
    ensures InPool(t, ReadsOf(ByCode, orig, u)) <==> InPool(t, ReadsOf(ByBook, orig, u))
  {
    if t.encBook.value in ReadSet(orig, u) {
      var k :| 0 <= k < |orig| && orig[k].encUser == u && orig[k].encBook.Some? && orig[k].encBook.value == t.encBook.value;
      assert t.book in ReadBooks(orig, u);
    }
    if t.book in ReadBooks(orig, u) {
      var k :| 0 <= k < |orig| && orig[k].encUser == u && orig[k].book == t.book;
      assert t.encBook.value in ReadSet(orig, u);
    }
  }

  /** Sampling is without replacement: two rows of a user receive different titles,
      hence different books since book_titles.csv has one row per book. */
  lemma NegativesDistinct(rule: PoolRule, orig: seq<Entry>, out: seq<Entry>, titles: seq<Title>, picks: map<nat, seq<nat>>, i: nat, j: nat)
    requires SampledFrom(rule, orig, out, titles, picks)
    requires StrictlyIncreasing(TitleBooks(titles))
    requires i < j < |orig| && orig[i].encUser == orig[j].encUser
    ensures out[i].book != out[j].book
  {
    assert RowSampled(rule, orig, out, titles, picks, i);
    assert RowSampled(rule, orig, out, titles, picks, j);
    OccGrows(orig, i, j);
    var chosen := picks[orig[i].encUser];
    var pi := chosen[Occ(orig, i)];
    var pj := chosen[Occ(orig, j)];
    assert pi != pj;
    assert TitleBooks(titles)[pi] != TitleBooks(titles)[pj] by {
      if pi < pj {
        assert TitleBooks(titles)[pi] < TitleBooks(titles)[pj];
      } else {
        assert TitleBooks(titles)[pj] < TitleBooks(titles)[pi];
      }
    }
  }

  /** Every user has as many negatives as it had rows in the ratings file. */
  lemma NegativeCounts(orig: seq<Entry>, out: seq<Entry>, u: nat)
    requires KeepsUserColumns(orig, out)
    ensures CountIn(out, u) == CountIn(orig, u)
  {
    CountInSameUsers(out, orig, u);
  }

  /** The script for one mode: load the ratings file, sample, and return the rows to
      save, or `None` when the sample raises. The script's rule is `ByCode`. */
  method ProcessMode(ratings: seq<OutRow>, titles: seq<Title>, rule: PoolRule) returns (r: Option<seq<Entry>>)
    ensures r.Some? <==> PoolsSuffice(rule, Entries(ratings), titles)
    ensures r.Some? ==> KeepsUserColumns(Entries(ratings), r.value)
    ensures r.Some? ==> exists picks :: SampledFrom(rule, Entries(ratings), r.value, titles, picks)
  {
    var rows := new Entry[|ratings|](k requires 0 <= k < |ratings| => FromOut(ratings[k]));
    assert rows[..] == Entries(ratings);
    var ok, picks := SampleUnread(rows, titles, rule);
    if ok {
      r := Some(rows[..]);
    } else {
      r := None;
    }
  }

  function Entries(ratings: seq<OutRow>): (es: seq<Entry>)
    ensures |es| == |ratings| && forall k :: 0 <= k < |ratings| ==> es[k] == FromOut(ratings[k])
  {
    seq(|ratings|, k requires 0 <= k < |ratings| => FromOut(ratings[k]))
  }

  /** Lines 24-53: train first, then test, each against its own read sets; when the
      train sample raises, the test file is never processed. The script's rule is
      `ByCode`. */
  method SampleBothModes(train: seq<OutRow>, test: seq<OutRow>, titles: seq<Title>, rule: PoolRule)
    returns (trainUnreads: Option<seq<Entry>>, testUnreads: Option<seq<Entry>>)
    ensures trainUnreads.Some? <==> PoolsSuffice(rule, Entries(train), titles)
    ensures testUnreads.Some? <==> trainUnreads.Some? && PoolsSuffice(rule, Entries(test), titles)
    ensures trainUnreads.Some? ==> exists picks :: SampledFrom(rule, Entries(train), trainUnreads.value, titles, picks)
    ensures testUnreads.Some? ==> exists picks :: SampledFrom(rule, Entries(test), testUnreads.value, titles, picks)
  {
    trainUnreads := ProcessMode(train, titles, rule);
    if trainUnreads.None? {
      testUnreads := None;
      return;
    }
    testUnreads := ProcessMode(test, titles, rule);
  }
}
