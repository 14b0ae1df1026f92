/** Pruning of test-only books: the books that occur in test rows but in no train row
    are collected by a set difference, and every row that references one of them,
    train or test, is deleted. */
module Prune {
  import opened Tables

  function TestBooks(rs: seq<Ranked>): set<int>
  {
    set r | r in rs && r.test :: r.row.book
  }

  function TrainBooks(rs: seq<Ranked>): set<int>
  {
    set r | r in rs && !r.test :: r.row.book
  }

  /** `np.setdiff1d(test books, train books)`. */
  function NewBooks(rs: seq<Ranked>): set<int>
  {
    TestBooks(rs) - TrainBooks(rs)
  }

  /** `df.loc[~df['book_id'].isin(drop)]`: the rows whose book is not dropped, in order. */
  function DropBooks(rs: seq<Ranked>, drop: set<int>): (kept: seq<Ranked>)
    ensures forall r {:trigger r in kept} :: r in kept <==> r in rs && r.row.book !in drop
    ensures |kept| <= |rs|
  {
    if rs == [] then []
    else
      var head := if rs[0].row.book !in drop then [rs[0]] else [];
      head + DropBooks(rs[1..], drop)
  }

  /** The rows whose book is one of `books`, in order. */
  function KeepBooks(rs: seq<Ranked>, books: set<int>): seq<Ranked>
  {
    if rs == [] then []
    else
      var head := if rs[0].row.book in books then [rs[0]] else [];
      head + KeepBooks(rs[1..], books)
  }

  /** `df.loc[df['test'] == False]`. */
  function TrainRows(rs: seq<Ranked>): (train: seq<Ranked>)
    ensures forall r {:trigger r in train} :: r in train <==> r in rs && !r.test
  {
    if rs == [] then []
    else
      var head := if !rs[0].test then [rs[0]] else [];
      head + TrainRows(rs[1..])
  }

  /** `df.loc[df['test']]`. */
  function TestRows(rs: seq<Ranked>): (test: seq<Ranked>)
    ensures forall r {:trigger r in test} :: r in test <==> r in rs && r.test
  {
    if rs == [] then []
    else
      var head := if rs[0].test then [rs[0]] else [];
      head + TestRows(rs[1..])
  }

  /** Lines 62-63 / 80-81. */
  function PruneNewBooks(rs: seq<Ranked>): seq<Ranked>
  {
    DropBooks(rs, NewBooks(rs))
  }

  lemma {:induction false} DropConcat(a: seq<Ranked>, b: seq<Ranked>, drop: set<int>)
    ensures DropBooks(a + b, drop) == DropBooks(a, drop) + DropBooks(b, drop)
  {
    if a != [] {
      var head := if a[0].row.book !in drop then [a[0]] else [];
      assert (a + b)[0] == a[0] && (a + b)[1..] == a[1..] + b;
      calc {
        DropBooks(a + b, drop);
        head + DropBooks(a[1..] + b, drop);
        { DropConcat(a[1..], b, drop); }
        head + (DropBooks(a[1..], drop) + DropBooks(b, drop));
        (head + DropBooks(a[1..], drop)) + DropBooks(b, drop);
        DropBooks(a, drop) + DropBooks(b, drop);
      }
    } else {
      assert a + b == b;
    }
  }

  lemma {:induction false} TrainConcat(a: seq<Ranked>, b: seq<Ranked>)
    ensures TrainRows(a + b) == TrainRows(a) + TrainRows(b)
  {
    if a != [] {
      var head := if !a[0].test then [a[0]] else [];
      assert (a + b)[0] == a[0] && (a + b)[1..] == a[1..] + b;
      calc {
        TrainRows(a + b);
        head + TrainRows(a[1..] + b);
        { TrainConcat(a[1..], b); }
        head + (TrainRows(a[1..]) + TrainRows(b));
        (head + TrainRows(a[1..])) + TrainRows(b);
        TrainRows(a) + TrainRows(b);
      }
    } else {
      assert a + b == b;
    }
  }

  lemma {:induction false} TestConcat(a: seq<Ranked>, b: seq<Ranked>)
    ensures TestRows(a + b) == TestRows(a) + TestRows(b)
  {
    if a != [] {
      var head := if a[0].test then [a[0]] else [];
      assert (a + b)[0] == a[0] && (a + b)[1..] == a[1..] + b;
      calc {
        TestRows(a + b);
        head + TestRows(a[1..] + b);
        { TestConcat(a[1..], b); }
        head + (TestRows(a[1..]) + TestRows(b));
        (head + TestRows(a[1..])) + TestRows(b);
        TestRows(a) + TestRows(b);
      }
    } else {
      assert a + b == b;
    }
  }

  lemma {:induction false} TrainOfDrop(rs: seq<Ranked>, drop: set<int>)
    ensures TrainRows(DropBooks(rs, drop)) == DropBooks(TrainRows(rs), drop)
  {
    if rs != [] {
      TrainOfDrop(rs[1..], drop);
      var x := rs[0];
      var hd := if x.row.book !in drop then [x] else [];
      var ht := if !x.test then [x] else [];
      TrainConcat(hd, DropBooks(rs[1..], drop));
      DropConcat(ht, TrainRows(rs[1..]), drop);
      assert TrainRows(hd) == DropBooks(ht, drop);
    }
  }

  lemma {:induction false} TestOfDrop(rs: seq<Ranked>, drop: set<int>)
    ensures TestRows(DropBooks(rs, drop)) == DropBooks(TestRows(rs), drop)
  {
    if rs != [] {
      TestOfDrop(rs[1..], drop);
      var x := rs[0];
      var hd := if x.row.book !in drop then [x] else [];
      var ht := if x.test then [x] else [];
      TestConcat(hd, DropBooks(rs[1..], drop));
      DropConcat(ht, TestRows(rs[1..]), drop);
      assert TestRows(hd) == DropBooks(ht, drop);
    }
  }

  lemma {:induction false} DropNothing(rs: seq<Ranked>, drop: set<int>)
    requires forall r :: r in rs ==> r.row.book !in drop
    ensures DropBooks(rs, drop) == rs
  {
    if rs != [] {
      assert rs[0] in rs;
      assert forall r :: r in rs[1..] ==> r in rs;
      DropNothing(rs[1..], drop);
    }
  }

  lemma {:induction false} DropIsKeep(rs: seq<Ranked>, drop: set<int>, books: set<int>)
    requires forall r :: r in rs ==> (r.row.book !in drop <==> r.row.book in books)
    ensures DropBooks(rs, drop) == KeepBooks(rs, books)
  {
    if rs != [] {
      assert rs[0] in rs;
      assert forall r :: r in rs[1..] ==> r in rs;
      DropIsKeep(rs[1..], drop, books);
    }
  }

  /** No train row is removed: the train rows after pruning are the train rows before. */
  lemma PruneKeepsTrain(rs: seq<Ranked>)
    ensures TrainRows(PruneNewBooks(rs)) == TrainRows(rs)
  {
    TrainOfDrop(rs, NewBooks(rs));
    forall r | r in TrainRows(rs) ensures r.row.book !in NewBooks(rs) {
      assert r.row.book in TrainBooks(rs);
    }
    DropNothing(TrainRows(rs), NewBooks(rs));
  }

  /** A test row is removed exactly when its book occurs in no train row. */
  lemma PruneTestRows(rs: seq<Ranked>)
    ensures TestRows(PruneNewBooks(rs)) == KeepBooks(TestRows(rs), TrainBooks(rs))
  {
    TestOfDrop(rs, NewBooks(rs));
    forall r | r in TestRows(rs)
      ensures r.row.book !in NewBooks(rs) <==> r.row.book in TrainBooks(rs)
    {
      assert r.row.book in TestBooks(rs);
    }
    DropIsKeep(TestRows(rs), NewBooks(rs), TrainBooks(rs));
  }

  /** After pruning every book of a test row also occurs in some train row. */
  lemma NoTestOnlyBooks(rs: seq<Ranked>)
    ensures TestBooks(PruneNewBooks(rs)) <= TrainBooks(PruneNewBooks(rs))
    ensures TrainBooks(PruneNewBooks(rs)) == TrainBooks(rs)
  {
    var pruned := PruneNewBooks(rs);
    forall b | b in TrainBooks(pruned) ensures b in TrainBooks(rs) {
      var r :| r in pruned && !r.test && r.row.book == b;
    }
    forall b | b in TrainBooks(rs) ensures b in TrainBooks(pruned) {
      var r :| r in rs && !r.test && r.row.book == b;
      assert b !in NewBooks(rs);
      assert r in pruned;
    }
    forall b | b in TestBooks(pruned) ensures b in TrainBooks(rs) {
      var r :| r in pruned && r.test && r.row.book == b;
      assert b !in NewBooks(rs) && b in TestBooks(rs);
    }
  }
}
