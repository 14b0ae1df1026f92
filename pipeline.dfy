/** The two split scripts end to end: cleanup, parsing of the read date, the sort by
    (user_id, datetime_read) descending, ranking and the test flag, pruning of
    test-only books, label encoding, and the train / test outputs.
    helpers/preprocess_goodreads.py uses PolicyA, helpers/preprocess_goodreads_ratings.py
    uses PolicyB on the concatenation of two genre files and sorts its outputs by
    encoded user. */
module Pipeline {
  import opened Tables
  import opened Cleanup
  import opened Ordering
  import opened Split
  import opened Prune
  import opened Encoding

  /** `pd.to_datetime` on the `datetime_read` column; the parser is a parameter. */
  function ParseTimes(ds: seq<Dated>, parse: string -> int): (rows: seq<Row>)
    ensures |rows| == |ds|
  {
    seq(|ds|, k requires 0 <= k < |ds| => Row(ds[k].user, ds[k].book, ds[k].rating, parse(ds[k].dateRead)))
  }

  function BookIds(ps: seq<Ranked>): (ids: seq<int>)
    ensures |ids| == |ps| && forall k :: 0 <= k < |ps| ==> ids[k] == ps[k].row.book
  {
    seq(|ps|, k requires 0 <= k < |ps| => ps[k].row.book)
  }

  function UserIds(ps: seq<Ranked>): (ids: seq<int>)
    ensures |ids| == |ps| && forall k :: 0 <= k < |ps| ==> ids[k] == ps[k].row.user
  {
    seq(|ps|, k requires 0 <= k < |ps| => ps[k].row.user)
  }

  /** Lines 66-70 / 87-91: the encoded columns, fitted on the pruned table. */
  function EncodeTable(ps: seq<Ranked>): (table: seq<Labelled>)
    ensures |table| == |ps|
  {
    var bookCodes := Encode(BookIds(ps));
    var userCodes := Encode(UserIds(ps));
    seq(|ps|, k requires 0 <= k < |ps| =>
      var r := ps[k].row;
      Labelled(OutRow(r.book, r.user, bookCodes[k], userCodes[k], r.rating, r.time), ps[k].test))
  }

  lemma EncodeTableAt(ps: seq<Ranked>, k: nat)
    requires k < |ps|
    ensures EncodeTable(ps)[k].test == ps[k].test
    ensures EncodeTable(ps)[k].out.book == ps[k].row.book
    ensures EncodeTable(ps)[k].out.user == ps[k].row.user
    ensures EncodeTable(ps)[k].out.rating == ps[k].row.rating
    ensures EncodeTable(ps)[k].out.time == ps[k].row.time
    ensures EncodeTable(ps)[k].out.encBook == Encode(BookIds(ps))[k]
    ensures EncodeTable(ps)[k].out.encUser == Encode(UserIds(ps))[k]
  {
  }

  function Outs(table: seq<Labelled>): (outs: seq<OutRow>)
    ensures |outs| == |table| && forall k :: 0 <= k < |table| ==> outs[k] == table[k].out
  {
    seq(|table|, k requires 0 <= k < |table| => table[k].out)
  }

  /** `df.loc[df['test'] == False, columns]`. */
  function TrainOut(table: seq<Labelled>): seq<OutRow>
  {
    if table == [] then []
    else
      var head := if !table[0].test then [table[0].out] else [];
      head + TrainOut(table[1..])
  }

  /** `df.loc[df['test'], columns]`. */
  function TestOut(table: seq<Labelled>): seq<OutRow>
  {
    if table == [] then []
    else
      var head := if table[0].test then [table[0].out] else [];
      head + TestOut(table[1..])
  }

  /** The two outputs together make up the whole encoded table: each row lands in
      exactly one of them. */
  lemma {:induction false} OutputsPartition(table: seq<Labelled>)
    ensures multiset(TrainOut(table)) + multiset(TestOut(table)) == multiset(Outs(table))
  {
    if table != [] {
      OutputsPartition(table[1..]);
      assert Outs(table) == [table[0].out] + Outs(table[1..]);
    }
  }

  /** The train output holds exactly the rows flagged train. */
  lemma {:induction false} TrainOutMembers(table: seq<Labelled>)
    ensures forall o :: o in TrainOut(table) <==> Labelled(o, false) in table
  {
    if table != [] {
      TrainOutMembers(table[1..]);
      assert table == [table[0]] + table[1..];
    }
  }

  /** The test output holds exactly the rows flagged test. */
  lemma {:induction false} TestOutMembers(table: seq<Labelled>)
    ensures forall o :: o in TestOut(table) <==> Labelled(o, true) in table
  {
    if table != [] {
      TestOutMembers(table[1..]);
      assert table == [table[0]] + table[1..];
    }
  }

  // ---------------------------------------------------------------------------
  // What the output files promise

  /** The leak-free split: every test book and every test user also occur in train,
      and no train row of a user is more recent than one of its test rows. */
  predicate LeakFree(train: seq<OutRow>, test: seq<OutRow>)
  {
    && (forall t :: t in test ==> exists s :: s in train && s.book == t.book)
    && (forall t :: t in test ==> exists s :: s in train && s.user == t.user)
    && (forall t, s :: t in test && s in train && t.user == s.user ==> t.time >= s.time)
  }

  /** One encoded column: the codes of the rows cover exactly 0 .. n-1 for the n
      distinct raw ids, and follow the order of the raw ids (so equal ids share a code
      and no others do). */
  predicate DenseColumn(all: seq<OutRow>, key: OutRow -> int, code: OutRow -> nat)
  {
    && (set o | o in all :: code(o)) == Below(|set o | o in all :: key(o)|)
    && (forall a, b :: a in all && b in all ==> (key(a) < key(b) <==> code(a) < code(b)))
  }

  function BookOf(o: OutRow): int { o.book }
  function EncBookOf(o: OutRow): nat { o.encBook }
  function UserOf(o: OutRow): int { o.user }
  function EncUserOf(o: OutRow): nat { o.encUser }

  predicate DenseCodes(all: seq<OutRow>)
  {
    && DenseColumn(all, BookOf, EncBookOf)
    && DenseColumn(all, UserOf, EncUserOf)
  }

  lemma DenseColumnBySet(a: seq<OutRow>, b: seq<OutRow>, key: OutRow -> int, code: OutRow -> nat)
    requires DenseColumn(a, key, code) && multiset(a) == multiset(b)
    ensures DenseColumn(b, key, code)
  {
    forall o ensures o in a <==> o in b {
      assert o in a <==> o in multiset(a);
      assert o in b <==> o in multiset(b);
    }
    assert (set o | o in a :: code(o)) == (set o | o in b :: code(o));
    assert (set o | o in a :: key(o)) == (set o | o in b :: key(o));
  }

  /** The properties only depend on which rows there are, not on their order. */
  lemma DenseCodesBySet(a: seq<OutRow>, b: seq<OutRow>)
    requires DenseCodes(a) && multiset(a) == multiset(b)
    ensures DenseCodes(b)
  {
    DenseColumnBySet(a, b, BookOf, EncBookOf);
    DenseColumnBySet(a, b, UserOf, EncUserOf);
  }

  /** A column encoded by `Encode` is dense. */
  lemma EncodedColumn(outs: seq<OutRow>, ids: seq<int>, key: OutRow -> int, code: OutRow -> nat)
    requires |outs| == |ids|
    requires forall k :: 0 <= k < |outs| ==> key(outs[k]) == ids[k] && code(outs[k]) == Encode(ids)[k]
    ensures DenseColumn(outs, key, code)
  {
    var codes := Encode(ids);
    var onto := set k | 0 <= k < |ids| :: codes[k];
    var used := set o | o in outs :: code(o);
    EncodeOnto(ids);
    forall c | c in used ensures c in onto {
      var o :| o in outs && code(o) == c;
      var k :| 0 <= k < |outs| && outs[k] == o;
    }
    forall c | c in onto ensures c in used {
      var k :| 0 <= k < |ids| && codes[k] == c;
      assert outs[k] in outs;
    }
    var keys := set o | o in outs :: key(o);
    var distinct := set x | x in ids;
    forall x | x in keys ensures x in distinct {
      var o :| o in outs && key(o) == x;
      var k :| 0 <= k < |outs| && outs[k] == o;
    }
    forall x | x in distinct ensures x in keys {
      var k :| 0 <= k < |ids| && ids[k] == x;
      assert outs[k] in outs;
    }
    assert keys == distinct;
    forall a, b | a in outs && b in outs ensures key(a) < key(b) <==> code(a) < code(b) {
      var i :| 0 <= i < |outs| && outs[i] == a;
      var j :| 0 <= j < |outs| && outs[j] == b;
      EncodeOrder(ids, i, j);
    }
  }

  /** Encoding the pruned table gives dense, order-preserving codes. */
  lemma EncodedTableDense(ps: seq<Ranked>)
    ensures DenseCodes(Outs(EncodeTable(ps)))
  {
    var outs := Outs(EncodeTable(ps));
    forall k | 0 <= k < |outs|
      ensures outs[k].book == BookIds(ps)[k] && outs[k].encBook == Encode(BookIds(ps))[k]
      ensures outs[k].user == UserIds(ps)[k] && outs[k].encUser == Encode(UserIds(ps))[k]
    {
      EncodeTableAt(ps, k);
    }
    EncodedColumn(outs, BookIds(ps), BookOf, EncBookOf);
    EncodedColumn(outs, UserIds(ps), UserOf, EncUserOf);
  }

  /** The table the scripts build from a sorted table. */
  function SplitTable(sorted: seq<Row>, p: Policy): seq<Labelled>
  {
    EncodeTable(PruneNewBooks(Annotate(sorted, p)))
  }

  lemma ToTable(ps: seq<Ranked>, r: Ranked) returns (o: OutRow)
    requires r in ps
    ensures Labelled(o, r.test) in EncodeTable(ps)
    ensures o.book == r.row.book && o.user == r.row.user && o.time == r.row.time
  {
    var k :| 0 <= k < |ps| && ps[k] == r;
    EncodeTableAt(ps, k);
    o := EncodeTable(ps)[k].out;
    assert EncodeTable(ps)[k] in EncodeTable(ps);
  }

  lemma FromTable(ps: seq<Ranked>, o: OutRow, test: bool) returns (r: Ranked)
    requires Labelled(o, test) in EncodeTable(ps)
    ensures r in ps && r.test == test
    ensures o.book == r.row.book && o.user == r.row.user && o.time == r.row.time
    ensures o.rating == r.row.rating
  {
    var k :| 0 <= k < |EncodeTable(ps)| && EncodeTable(ps)[k] == Labelled(o, test);
    EncodeTableAt(ps, k);
    r := ps[k];
  }

  lemma TestBookInTrain(sorted: seq<Row>, p: Policy, t: OutRow)
    requires t in TestOut(SplitTable(sorted, p))
    ensures exists s :: s in TrainOut(SplitTable(sorted, p)) && s.book == t.book
  {
    var ranked := Annotate(sorted, p);
    var ps := PruneNewBooks(ranked);
    TrainOutMembers(EncodeTable(ps));
    TestOutMembers(EncodeTable(ps));
    var r := FromTable(ps, t, true);
    NoTestOnlyBooks(ranked);
    assert r.row.book in TestBooks(ps);
    var q :| q in ps && !q.test && q.row.book == r.row.book;
    var s := ToTable(ps, q);
  }

  lemma TestUserInTrain(sorted: seq<Row>, p: Policy, t: OutRow)
    requires SortedDesc(sorted)
    requires t in TestOut(SplitTable(sorted, p))
    ensures exists s :: s in TrainOut(SplitTable(sorted, p)) && s.user == t.user
  {
    var ranked := Annotate(sorted, p);
    var ps := PruneNewBooks(ranked);
    TrainOutMembers(EncodeTable(ps));
    TestOutMembers(EncodeTable(ps));
    var r := FromTable(ps, t, true);
    var rs := RankedTrainOfUser(sorted, p, r);
    var s := ToTable(ps, rs);
    assert s in TrainOut(SplitTable(sorted, p));
  }

  /** On the annotated table a user with a test row keeps a train row after pruning. */
  lemma RankedTrainOfUser(sorted: seq<Row>, p: Policy, r: Ranked) returns (rs: Ranked)
    requires SortedDesc(sorted)
    requires r in Annotate(sorted, p) && r.test
    ensures rs in PruneNewBooks(Annotate(sorted, p)) && !rs.test && rs.row.user == r.row.user
  {
    var ranked := Annotate(sorted, p);
    var i :| 0 <= i < |ranked| && ranked[i] == r;
    TestUserHasTrainRow(sorted, p, i);
    var j :| 0 <= j < |sorted| && sorted[j].user == sorted[i].user && !ranked[j].test;
    AnnotateAt(sorted, p, i);
    AnnotateAt(sorted, p, j);
    rs := ranked[j];
    assert rs in TrainRows(ranked);
    PruneKeepsTrain(ranked);
    assert rs in TrainRows(PruneNewBooks(ranked));
  }

  lemma TrainNotAfterTest(sorted: seq<Row>, p: Policy, t: OutRow, s: OutRow)
    requires SortedDesc(sorted)
    requires t in TestOut(SplitTable(sorted, p)) && s in TrainOut(SplitTable(sorted, p))
    requires t.user == s.user
    ensures t.time >= s.time
  {
    var ranked := Annotate(sorted, p);
    var ps := PruneNewBooks(ranked);
    TrainOutMembers(EncodeTable(ps));
    TestOutMembers(EncodeTable(ps));
    var rt := FromTable(ps, t, true);
    var rs := FromTable(ps, s, false);
    RankedNotAfterTest(sorted, p, rt, rs);
  }

  /** The same on the annotated table: a user's test rows are no older than its train rows. */
  lemma RankedNotAfterTest(sorted: seq<Row>, p: Policy, rt: Ranked, rs: Ranked)
    requires SortedDesc(sorted)
    requires rt in Annotate(sorted, p) && rs in Annotate(sorted, p)
    requires rt.test && !rs.test && rt.row.user == rs.row.user
    ensures rt.row.time >= rs.row.time
  {
    var ranked := Annotate(sorted, p);
    var i :| 0 <= i < |ranked| && ranked[i] == rt;
    var j :| 0 <= j < |ranked| && ranked[j] == rs;
    AnnotateAt(sorted, p, i);
    AnnotateAt(sorted, p, j);
    TestNotOlderThanTrain(sorted, p, i, j);
  }

  /** The outputs built from a sorted table are leak-free and densely encoded. */
  lemma SplitTableProperties(sorted: seq<Row>, p: Policy)
    requires SortedDesc(sorted)
    ensures LeakFree(TrainOut(SplitTable(sorted, p)), TestOut(SplitTable(sorted, p)))
    ensures DenseCodes(TrainOut(SplitTable(sorted, p)) + TestOut(SplitTable(sorted, p)))
  {
    var table := SplitTable(sorted, p);
    forall t | t in TestOut(table) ensures exists s :: s in TrainOut(table) && s.book == t.book {
      TestBookInTrain(sorted, p, t);
    }
    forall t | t in TestOut(table) ensures exists s :: s in TrainOut(table) && s.user == t.user {
      TestUserInTrain(sorted, p, t);
    }
    forall t, s | t in TestOut(table) && s in TrainOut(table) && t.user == s.user
      ensures t.time >= s.time
    {
      TrainNotAfterTest(sorted, p, t, s);
    }
    OutputsPartition(table);
    EncodedTableDense(PruneNewBooks(Annotate(sorted, p)));
    DenseCodesBySet(Outs(table), TrainOut(table) + TestOut(table));
  }

  /** Every output row is a row of the input table. */
  lemma SplitTableRows(sorted: seq<Row>, p: Policy, o: OutRow, test: bool)
    requires Labelled(o, test) in SplitTable(sorted, p)
    ensures Row(o.user, o.book, o.rating, o.time) in sorted
  {
    var ranked := Annotate(sorted, p);
    var ps := PruneNewBooks(ranked);
    var r := FromTable(ps, o, test);
    var i :| 0 <= i < |ranked| && ranked[i] == r;
    AnnotateAt(sorted, p, i);
  }

  // ---------------------------------------------------------------------------
  // The scripts

  datatype Partition = Partition(train: seq<OutRow>, test: seq<OutRow>)

  /** Every output row comes from a row the cleanup kept, with its parsed date. */
  predicate FromCleaned(outs: seq<OutRow>, cleaned: seq<Dated>, parse: string -> int)
  {
    forall o :: o in outs ==> exists d :: d in cleaned && OutOf(d, o, parse)
  }

  /** The output row `o` carries the ids and rating of `d` and its parsed read date. */
  predicate OutOf(d: Dated, o: OutRow, parse: string -> int)
  {
    o.user == d.user && o.book == d.book && o.rating == d.rating && o.time == parse(d.dateRead)
  }

  /** Lines 44-70 / 63-91: sort, rank, flag, prune and encode. The sort keeps equal
      keys in an unspecified order, so any sorted permutation may be chosen. */
  method SplitAndEncode(rows: seq<Row>, p: Policy) returns (table: seq<Labelled>)
    ensures exists sorted ::
              SortedDesc(sorted) && multiset(sorted) == multiset(rows) && table == SplitTable(sorted, p)
    ensures LeakFree(TrainOut(table), TestOut(table))
    ensures DenseCodes(TrainOut(table) + TestOut(table))
    ensures forall o, test :: Labelled(o, test) in table ==> Row(o.user, o.book, o.rating, o.time) in rows
  {
    SortedPermutationExists(rows);
    var sorted :| SortedDesc(sorted) && multiset(sorted) == multiset(rows);
    var ranked := Annotate(sorted, p);
    var pruned := PruneNewBooks(ranked);
    table := EncodeTable(pruned);
    SplitTableProperties(sorted, p);
    forall o, test | Labelled(o, test) in table ensures Row(o.user, o.book, o.rating, o.time) in rows {
      SplitTableRows(sorted, p, o, test);
      assert Row(o.user, o.book, o.rating, o.time) in multiset(sorted);
    }
  }

  lemma OutputsFromCleaned(table: seq<Labelled>, cleaned: seq<Dated>, parse: string -> int)
    requires forall o, test :: Labelled(o, test) in table ==>
      Row(o.user, o.book, o.rating, o.time) in ParseTimes(cleaned, parse)
    ensures FromCleaned(TrainOut(table) + TestOut(table), cleaned, parse)
  {
    TrainOutMembers(table);
    TestOutMembers(table);
    forall o | o in TrainOut(table) + TestOut(table)
      ensures exists d :: d in cleaned && OutOf(d, o, parse)
    {
      var test := o !in TrainOut(table);
      assert Labelled(o, test) in table;
      var rows := ParseTimes(cleaned, parse);
      var k :| 0 <= k < |rows| && rows[k] == Row(o.user, o.book, o.rating, o.time);
      assert cleaned[k] in cleaned;
    }
  }

  /** helpers/preprocess_goodreads.py: one interactions file, PolicyA, outputs in the
      order of the sorted table. */
  method PrepareGoodreads(records: seq<Record>, currentYear: int, parse: string -> int)
    returns (r: Result<Partition, CleanupError>)
    ensures r.Failure? <==> Cleanup.Cleanup(records, currentYear).Failure?
    ensures r.Success? ==> LeakFree(r.value.train, r.value.test)
    ensures r.Success? ==> DenseCodes(r.value.train + r.value.test)
    ensures r.Success? ==> FromCleaned(r.value.train + r.value.test, Cleanup.Cleanup(records, currentYear).value, parse)
    ensures r.Success? ==> exists sorted ::
              && SortedDesc(sorted)
              && multiset(sorted) == multiset(ParseTimes(Cleanup.Cleanup(records, currentYear).value, parse))
              && r.value == Partition(TrainOut(SplitTable(sorted, PolicyA)), TestOut(SplitTable(sorted, PolicyA)))
  {
    var cleaned := Cleanup.Cleanup(records, currentYear);
    if cleaned.Failure? {
      return Failure(cleaned.error);
    }
    var rows := ParseTimes(cleaned.value, parse);
    var table := SplitAndEncode(rows, PolicyA);
    OutputsFromCleaned(table, cleaned.value, parse);
    r := Success(Partition(TrainOut(table), TestOut(table)));
  }

  predicate ByEncodedUser(a: OutRow, b: OutRow)
  {
    a.encUser <= b.encUser
  }

  lemma SortedByUserExists(outs: seq<OutRow>)
    ensures exists s :: SortedBy(s, ByEncodedUser) && multiset(s) == multiset(outs)
  {
    assert TotalPreorder(ByEncodedUser);
    SortByProperties(outs, ByEncodedUser);
  }

  lemma LeakFreeBySet(train: seq<OutRow>, test: seq<OutRow>, train': seq<OutRow>, test': seq<OutRow>)
    requires LeakFree(train, test)
    requires multiset(train) == multiset(train') && multiset(test) == multiset(test')
    ensures LeakFree(train', test')
  {
    assert forall o :: o in train <==> o in multiset(train);
    assert forall o :: o in train' <==> o in multiset(train');
    assert forall o :: o in test <==> o in multiset(test);
    assert forall o :: o in test' <==> o in multiset(test');
  }

  lemma FromCleanedBySet(a: seq<OutRow>, b: seq<OutRow>, cleaned: seq<Dated>, parse: string -> int)
    requires FromCleaned(a, cleaned, parse) && multiset(a) == multiset(b)
    ensures FromCleaned(b, cleaned, parse)
  {
    assert forall o :: o in a <==> o in multiset(a);
    assert forall o :: o in b <==> o in multiset(b);
  }

  /** helpers/preprocess_goodreads_ratings.py: two genre files concatenated, PolicyB,
      and each output sorted by encoded user (line 92). */
  method PrepareRatings(fantasy: seq<Record>, romance: seq<Record>, currentYear: int, parse: string -> int)
    returns (r: Result<Partition, CleanupError>)
    ensures r.Failure? <==> Cleanup.Cleanup(fantasy + romance, currentYear).Failure?
    ensures r.Success? ==> LeakFree(r.value.train, r.value.test)
    ensures r.Success? ==> DenseCodes(r.value.train + r.value.test)
    ensures r.Success? ==> FromCleaned(r.value.train + r.value.test, Cleanup.Cleanup(fantasy + romance, currentYear).value, parse)
    ensures r.Success? ==> SortedBy(r.value.train, ByEncodedUser) && SortedBy(r.value.test, ByEncodedUser)
    ensures r.Success? ==> exists sorted ::
              && SortedDesc(sorted)
              && multiset(sorted) == multiset(ParseTimes(Cleanup.Cleanup(fantasy + romance, currentYear).value, parse))
              && multiset(r.value.train) == multiset(TrainOut(SplitTable(sorted, PolicyB)))
              && multiset(r.value.test) == multiset(TestOut(SplitTable(sorted, PolicyB)))
  {
    var records := fantasy + romance;
    var cleaned := Cleanup.Cleanup(records, currentYear);
    if cleaned.Failure? {
      return Failure(cleaned.error);
    }
    var rows := ParseTimes(cleaned.value, parse);
    var table := SplitAndEncode(rows, PolicyB);
    OutputsFromCleaned(table, cleaned.value, parse);
    SortedByUserExists(TrainOut(table));
    SortedByUserExists(TestOut(table));
    var train :| SortedBy(train, ByEncodedUser) && multiset(train) == multiset(TrainOut(table));
    var test :| SortedBy(test, ByEncodedUser) && multiset(test) == multiset(TestOut(table));
    LeakFreeBySet(TrainOut(table), TestOut(table), train, test);
    DenseCodesBySet(TrainOut(table) + TestOut(table), train + test);
    FromCleanedBySet(TrainOut(table) + TestOut(table), train + test, cleaned.value, parse);
    r := Success(Partition(train, test));
  }
}
