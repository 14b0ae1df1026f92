/** The temporal splitter: after the table is sorted by (user_id, datetime_read)
    descending, every row gets its rank in its user's run and the user's row count,
    and is marked as test when rank / count lies under the script's threshold. */
module Split {
  import opened Tables
  import opened Ordering

  /** PolicyA is the rule of helpers/preprocess_goodreads.py,
      PolicyB the rule of helpers/preprocess_goodreads_ratings.py. */
  datatype Policy = PolicyA | PolicyB

  /** The test rule with `perc = rank / count` compared exactly, by cross-multiplying:
      PolicyA: perc < 0.34 or (count > 10 and perc < 0.2);
      PolicyB: (count <= 10 and perc <= 0.4) or (count > 10 and perc <= 0.3). */
  predicate IsTest(p: Policy, rank: nat, count: nat)
  {
    match p
    case PolicyA => 100 * rank < 34 * count || (count > 10 && 10 * rank < 2 * count)
    case PolicyB => (count <= 10 && 10 * rank <= 4 * count) || (count > 10 && 10 * rank <= 3 * count)
  }

  /** The second disjunct of PolicyA implies the first, so PolicyA is perc < 0.34 alone. */
  lemma PolicyAIsOneThreshold(rank: nat, count: nat)
    ensures IsTest(PolicyA, rank, count) <==> 100 * rank < 34 * count
  {
  }

  /** A row ranked more recent than a test row of the same user (same count) is test too. */
  lemma TestIsMonotone(p: Policy, r1: nat, r2: nat, count: nat)
    requires r1 <= r2 && IsTest(p, r2, count)
    ensures IsTest(p, r1, count)
  {
  }

  /** Under both policies a user with fewer than three rows has no test row; the
      oldest row of a user (rank == count) is never test. */
  lemma FewRowsNoTest(p: Policy, rank: nat, count: nat)
    requires 1 <= rank <= count
    ensures count < 3 ==> !IsTest(p, rank, count)
    ensures !IsTest(p, count, count)
  {
  }

  /** The descending order of `sort_values(by=['user_id', 'datetime_read'], ascending=False)`. */
  predicate Before(a: Row, b: Row)
  {
    a.user > b.user || (a.user == b.user && a.time >= b.time)
  }

  predicate SortedDesc(rows: seq<Row>)
  {
    SortedBy(rows, Before)
  }

  lemma BeforeIsTotalPreorder()
    ensures TotalPreorder(Before)
  {
  }

  /** The sort has a result for every table. */
  lemma SortedPermutationExists(rows: seq<Row>)
    ensures exists sorted :: SortedDesc(sorted) && multiset(sorted) == multiset(rows)
  {
    BeforeIsTotalPreorder();
    SortByProperties(rows, Before);
    assert SortedDesc(SortBy(rows, Before));
  }

  function Users(rows: seq<Row>): (us: seq<int>)
    ensures |us| == |rows|
    ensures forall k :: 0 <= k < |rows| ==> us[k] == rows[k].user
  {
    seq(|rows|, k requires 0 <= k < |rows| => rows[k].user)
  }

  /** `groupby((user != user.shift(1)).cumsum()).cumcount() + 1`: the 1-based position
      of row i in the run of consecutive rows of its user. */
  function RunRank(us: seq<int>, i: nat): (rank: nat)
    requires i < |us|
    ensures 1 <= rank <= i + 1
  {
    if i == 0 || us[i - 1] != us[i] then 1 else RunRank(us, i - 1) + 1
  }

  /** `value_counts()` looked up for a user: the number of rows of that user. */
  function CountOf(us: seq<int>, u: int): (count: nat)
    ensures count <= |us|
    ensures count > 0 <==> u in us
  {
    multiset(us)[u]
  }

  /** The `count`, `perc` and `test` columns of lines 48-54 / 67-74. */
  function Annotate(rows: seq<Row>, p: Policy): (ranked: seq<Ranked>)
    ensures |ranked| == |rows|
  {
    var us := Users(rows);
    seq(|rows|, k requires 0 <= k < |rows| =>
      var rank := RunRank(us, k);
      var count := CountOf(us, us[k]);
      Ranked(rows[k], rank, count, IsTest(p, rank, count)))
  }

  lemma AnnotateAt(rows: seq<Row>, p: Policy, k: nat)
    requires k < |rows|
    ensures Annotate(rows, p)[k].row == rows[k]
    ensures Annotate(rows, p)[k].rank == RunRank(Users(rows), k)
    ensures Annotate(rows, p)[k].count == CountOf(Users(rows), rows[k].user)
    ensures Annotate(rows, p)[k].test == IsTest(p, Annotate(rows, p)[k].rank, Annotate(rows, p)[k].count)
  {
  }

  lemma {:induction false} RunRankInPrefix(us: seq<int>, i: nat)
    requires i < |us|
    ensures 1 <= RunRank(us, i) <= multiset(us[..i + 1])[us[i]]
  {
    if i > 0 {
      assert us[..i + 1] == us[..i] + [us[i]];
      if us[i - 1] == us[i] {
        RunRankInPrefix(us, i - 1);
      }
    }
  }

  lemma PrefixCountBound(us: seq<int>, i: nat, u: int)
    requires i <= |us|
    ensures multiset(us[..i])[u] <= multiset(us)[u]
  {
    assert us == us[..i] + us[i..];
  }

  /** The rank and count columns satisfy 1 <= rank <= count for every row, sorted or not. */
  lemma RankWithinCount(rows: seq<Row>, p: Policy, k: nat)
    requires k < |rows|
    ensures 1 <= Annotate(rows, p)[k].rank <= Annotate(rows, p)[k].count
  {
    var us := Users(rows);
    RunRankInPrefix(us, k);
    PrefixCountBound(us, k + 1, us[k]);
  }

  /** On a sorted table the users' rows form contiguous runs in descending user order. */
  lemma SortedUsers(rows: seq<Row>, i: nat, j: nat)
    requires SortedDesc(rows) && i <= j < |rows|
    ensures rows[i].user >= rows[j].user
  {
    if i < j {
      assert Before(rows[i], rows[j]);
    }
  }

  /** On a sorted table the rank of a row is its 1-based position among all the rows of
      its user: the number of rows of that user up to and including it. */
  lemma {:induction false} RankIsPosition(rows: seq<Row>, i: nat)
    requires SortedDesc(rows) && i < |rows|
    ensures RunRank(Users(rows), i) == multiset(Users(rows)[..i + 1])[rows[i].user]
  {
    var us := Users(rows);
    assert us[..i + 1] == us[..i] + [us[i]];
    assert multiset(us[..i + 1]) == multiset(us[..i]) + multiset{us[i]};
    if i > 0 && us[i - 1] == us[i] {
      RankIsPosition(rows, i - 1);
    } else {
      RunStartIsFirst(rows, i);
    }
  }

  /** On a sorted table a row that starts a run is its user's first row. */
  lemma RunStartIsFirst(rows: seq<Row>, i: nat)
    requires SortedDesc(rows) && i < |rows|
    requires i == 0 || rows[i - 1].user != rows[i].user
    ensures rows[i].user !in Users(rows)[..i]
  {
    var us := Users(rows);
    if i > 0 {
      SortedUsers(rows, i - 1, i);
      forall k | 0 <= k < i ensures us[k] != us[i] {
        SortedUsers(rows, k, i - 1);
      }
    }
  }

  lemma PositionsGrow(us: seq<int>, j: nat, i: nat)
    requires j < i < |us| && us[j] == us[i]
    ensures multiset(us[..j + 1])[us[i]] < multiset(us[..i + 1])[us[i]]
  {
    assert us[..i + 1] == us[..j + 1] + us[j + 1..i + 1];
    assert us[i] in us[j + 1..i + 1];
  }

  lemma SortedPair(rows: seq<Row>, i: nat, j: nat)
    requires SortedDesc(rows) && i < |rows| && j < |rows|
    ensures i < j ==> Before(rows[i], rows[j])
  {
  }

  /** On a sorted table a more recent row of a user has a smaller rank. */
  lemma RankOrder(rows: seq<Row>, i: nat, j: nat)
    requires SortedDesc(rows) && i < |rows| && j < |rows|
    requires rows[j].user == rows[i].user && rows[j].time > rows[i].time
    ensures RunRank(Users(rows), j) < RunRank(Users(rows), i)
  {
    SortedPair(rows, i, j);
    RankIsPosition(rows, i);
    RankIsPosition(rows, j);
    PositionsGrow(Users(rows), j, i);
  }

  /** Recency prefix: when a row is test, every strictly more recent row of the same
      user is test as well. */
  lemma RecencyPrefix(rows: seq<Row>, p: Policy, i: nat, j: nat)
    requires SortedDesc(rows) && i < |rows| && j < |rows|
    requires rows[j].user == rows[i].user && rows[j].time > rows[i].time
    requires Annotate(rows, p)[i].test
    ensures Annotate(rows, p)[j].test
  {
    RankOrder(rows, i, j);
    AnnotateAt(rows, p, i);
    AnnotateAt(rows, p, j);
    var us := Users(rows);
    TestIsMonotone(p, RunRank(us, j), RunRank(us, i), CountOf(us, rows[i].user));
  }

  /** No leakage: no train row of a user is more recent than one of its test rows. */
  lemma TestNotOlderThanTrain(rows: seq<Row>, p: Policy, i: nat, j: nat)
    requires SortedDesc(rows) && i < |rows| && j < |rows|
    requires rows[j].user == rows[i].user
    requires Annotate(rows, p)[i].test && !Annotate(rows, p)[j].test
    ensures rows[i].time >= rows[j].time
  {
    if rows[j].time > rows[i].time {
      RecencyPrefix(rows, p, i, j);
    }
  }

  /** The last row of the run that contains row i. */
  function RunEnd(us: seq<int>, i: nat): (e: nat)
    requires i < |us|
    ensures i <= e < |us| && us[e] == us[i]
    ensures forall k :: i <= k <= e ==> us[k] == us[i]
    ensures e + 1 == |us| || us[e + 1] != us[i]
    decreases |us| - i
  {
    if i + 1 < |us| && us[i + 1] == us[i] then RunEnd(us, i + 1) else i
  }

  /** On a sorted table the end of a user's run is the user's last row. */
  lemma RunEndIsLast(rows: seq<Row>, i: nat)
    requires SortedDesc(rows) && i < |rows|
    ensures RunRank(Users(rows), RunEnd(Users(rows), i)) == CountOf(Users(rows), rows[i].user)
  {
    var us := Users(rows);
    var e := RunEnd(us, i);
    RankIsPosition(rows, e);
    assert rows[e].user == us[i] == rows[i].user;
    RunEndEndsUser(rows, i);
    AbsentAfter(us, e + 1, us[i]);
  }

  /** On a sorted table no row after the end of a run belongs to the run's user. */
  lemma RunEndEndsUser(rows: seq<Row>, i: nat)
    requires SortedDesc(rows) && i < |rows|
    ensures forall k :: RunEnd(Users(rows), i) < k < |rows| ==> Users(rows)[k] != Users(rows)[i]
  {
    var us := Users(rows);
    var e := RunEnd(us, i);
    forall k | e < k < |rows| ensures us[k] != us[i] {
      SortedUsers(rows, e + 1, k);
      SortedUsers(rows, e, e + 1);
    }
  }

  /** A value that no longer occurs after position `n` has all its occurrences before it. */
  lemma AbsentAfter(us: seq<int>, n: nat, u: int)
    requires n <= |us|
    requires forall k :: n <= k < |us| ==> us[k] != u
    ensures multiset(us[..n])[u] == multiset(us)[u]
  {
    assert us == us[..n] + us[n..];
    assert u !in us[n..];
  }

  /** A user with a test row also has a train row: its oldest row. */
  lemma TestUserHasTrainRow(rows: seq<Row>, p: Policy, i: nat)
    requires SortedDesc(rows) && i < |rows| && Annotate(rows, p)[i].test
    ensures exists j :: 0 <= j < |rows| && rows[j].user == rows[i].user && !Annotate(rows, p)[j].test
  {
    var us := Users(rows);
    var e := RunEnd(us, i);
    RunEndIsLast(rows, i);
    AnnotateAt(rows, p, e);
    FewRowsNoTest(p, CountOf(us, us[i]), CountOf(us, us[i]));
    assert rows[e].user == rows[i].user && !Annotate(rows, p)[e].test;
  }

  /** A user with exactly one row (or, under either policy, two) has no test row. */
  lemma SmallUserTrainOnly(rows: seq<Row>, p: Policy, k: nat)
    requires k < |rows| && CountOf(Users(rows), rows[k].user) < 3
    ensures !Annotate(rows, p)[k].test
  {
    RankWithinCount(rows, p, k);
    AnnotateAt(rows, p, k);
    FewRowsNoTest(p, Annotate(rows, p)[k].rank, Annotate(rows, p)[k].count);
  }
}
