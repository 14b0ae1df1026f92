/** The cleanup step of both split scripts: keep the read and rated interactions,
    take the read date (falling back to the date the book was added) and drop the
    interactions whose year lies after the current year. */
module Cleanup {
  import opened Tables

  /** `astype(int)` raised: a last-column cell is None, not an integer, or outside int64. */
  datatype CleanupError = YearNotInteger

  /** Python's `s.split(' ')`: every single space ends a token, so two spaces in a
      row give an empty token and the empty string gives one empty token. */
  function SplitSpace(s: string): (tokens: seq<string>)
    ensures |tokens| >= 1
    ensures forall k :: 0 <= k < |tokens| ==> ' ' !in tokens[k]
  {
    if s == [] then [""]
    else if s[0] == ' ' then [""] + SplitSpace(s[1..])
    else
      var rest := SplitSpace(s[1..]);
      [[s[0]] + rest[0]] + rest[1..]
  }

  /** Python's `' '.join(tokens)`, the inverse of SplitSpace. */
  function JoinSpace(tokens: seq<string>): string
    requires |tokens| >= 1
  {
    if |tokens| == 1 then tokens[0] else tokens[0] + " " + JoinSpace(tokens[1..])
  }

  lemma {:induction false} JoinSplit(s: string)
    ensures JoinSpace(SplitSpace(s)) == s
  {
    if s == [] {
    } else if s[0] == ' ' {
      JoinSplit(s[1..]);
      var r := SplitSpace(s[1..]);
      assert ([""] + r)[1..] == r;
    } else {
      JoinSplit(s[1..]);
      var r := SplitSpace(s[1..]);
      var t := [[s[0]] + r[0]] + r[1..];
      assert t[0] == [s[0]] + r[0];
      if |r| > 1 {
        assert t[1..] == r[1..];
      }
    }
  }

  lemma {:induction false} SplitAfterWord(w: string, rest: string)
    requires ' ' !in w
    ensures SplitSpace(w + rest) == [w + SplitSpace(rest)[0]] + SplitSpace(rest)[1..]
  {
    if w != [] {
      assert (w + rest)[0] == w[0];
      assert (w + rest)[1..] == w[1..] + rest;
      SplitAfterWord(w[1..], rest);
      assert [w[0]] + (w[1..] + SplitSpace(rest)[0]) == w + SplitSpace(rest)[0];
    } else {
      var r := SplitSpace(rest);
      assert w + rest == rest;
      assert w + r[0] == r[0];
      assert r == [r[0]] + r[1..];
    }
  }

  lemma {:induction false} SplitJoin(tokens: seq<string>)
    requires |tokens| >= 1
    requires forall k :: 0 <= k < |tokens| ==> ' ' !in tokens[k]
    ensures SplitSpace(JoinSpace(tokens)) == tokens
  {
    if |tokens| == 1 {
      SplitAfterWord(tokens[0], "");
      assert tokens[0] + "" == tokens[0];
    } else {
      var j := JoinSpace(tokens[1..]);
      SplitJoin(tokens[1..]);
      assert (" " + j)[0] == ' ' && (" " + j)[1..] == j;
      assert SplitSpace(" " + j) == [""] + tokens[1..];
      assert tokens[0] + " " + j == tokens[0] + (" " + j);
      SplitAfterWord(tokens[0], " " + j);
      assert tokens[0] + "" == tokens[0];
      assert ([""] + tokens[1..])[1..] == tokens[1..];
    }
  }

  /** The last space-separated token of a date text: the year in the
      "Weekday Mon DD HH:MM:SS +HHMM YYYY" format of the Goodreads dumps. */
  function LastToken(s: string): string
  {
    var ts := SplitSpace(s);
    ts[|ts| - 1]
  }

  lemma LastTokenOfJoin(front: seq<string>, year: string)
    requires |front| >= 1 && ' ' !in year
    requires forall k :: 0 <= k < |front| ==> ' ' !in front[k]
    ensures LastToken(JoinSpace(front + [year])) == year
  {
    SplitJoin(front + [year]);
  }

  predicate IsDigits(t: string)
  {
    |t| > 0 && forall k :: 0 <= k < |t| ==> '0' <= t[k] <= '9'
  }

  function DigitsValue(t: string): nat
    requires forall k :: 0 <= k < |t| ==> '0' <= t[k] <= '9'
  {
    if t == [] then 0 else 10 * DigitsValue(t[..|t| - 1]) + (t[|t| - 1] as int - '0' as int)
  }

  /** Python's `int(token)` for a token without surrounding whitespace: an optional
      sign followed by decimal digits; anything else raises. */
  function PyInt(t: string): Option<int>
  {
    if |t| > 0 && t[0] == '-' && IsDigits(t[1..]) then Some(0 - DigitsValue(t[1..]))
    else if |t| > 0 && t[0] == '+' && IsDigits(t[1..]) then Some(DigitsValue(t[1..]))
    else if IsDigits(t) then Some(DigitsValue(t))
    else None
  }

  /** The range of numpy's int64, the dtype `astype(int)` casts to. */
  predicate InInt64(n: int)
  {
    -0x8000_0000_0000_0000 <= n < 0x8000_0000_0000_0000
  }

  /** One cell of `astype(int)`: the token is read by `int()` and then stored as an
      int64, which raises OverflowError outside that range. */
  function ParseInt(t: string): (v: Option<int>)
    ensures v.Some? <==> PyInt(t).Some? && InInt64(PyInt(t).value)
    ensures v.Some? ==> v == PyInt(t)
  {
    match PyInt(t)
    case Some(n) => if InInt64(n) then Some(n) else None
    case None => None
  }

  /** The decimal text of a natural number, as `str(n)` prints it. */
  function Decimal(n: nat): (t: string)
    ensures IsDigits(t)
  {
    if n < 10 then [('0' as int + n) as char]
    else Decimal(n / 10) + [('0' as int + n % 10) as char]
  }

  lemma {:induction false} DecimalValue(n: nat)
    ensures DigitsValue(Decimal(n)) == n
  {
    if n >= 10 {
      DecimalValue(n / 10);
      var t := Decimal(n);
      assert t[..|t| - 1] == Decimal(n / 10);
    }
  }

  /** The decimal text of an integer, with a leading '-' when it is negative. */
  function SignedDecimal(n: int): string
  {
    if n < 0 then "-" + Decimal(-n) else Decimal(n)
  }

  lemma PyIntOfDecimal(n: int)
    ensures PyInt(SignedDecimal(n)) == Some(n)
  {
    if n < 0 {
      DecimalValue(-n);
      var t := "-" + Decimal(-n);
      assert t[1..] == Decimal(-n);
    } else {
      DecimalValue(n);
      assert Decimal(n)[0] != '-' && Decimal(n)[0] != '+';
    }
  }

  /** The cast reads back what `str` prints inside the int64 range, so a printed year
      parses to itself, and it raises on every printed integer outside that range. */
  lemma ParseIntOfDecimal(n: int)
    ensures InInt64(n) ==> ParseInt(SignedDecimal(n)) == Some(n)
    ensures !InInt64(n) ==> ParseInt(SignedDecimal(n)).None?
  {
    PyIntOfDecimal(n);
  }

  /** The `datetime_read` column: `read_at`, or `date_added` where `read_at` is empty. */
  function DateRead(r: Record): string
  {
    if r.readAt == "" then r.dateAdded else r.readAt
  }

  function ToDated(r: Record): Dated
  {
    Dated(r.user, r.book, r.rating, DateRead(r))
  }

  /** The read interactions with a positive rating, in their order. */
  function ReadAndRated(rs: seq<Record>): (kept: seq<Record>)
    ensures forall r :: r in kept <==> r in rs && r.isRead && r.rating > 0
  {
    if rs == [] then []
    else
      var head := if rs[0].isRead && rs[0].rating > 0 then [rs[0]] else [];
      head + ReadAndRated(rs[1..])
  }

  function Dates(rs: seq<Record>): (dates: seq<string>)
    ensures |dates| == |rs|
  {
    seq(|rs|, k requires 0 <= k < |rs| => DateRead(rs[k]))
  }

  /** The number of columns `str.split(' ', expand=True)` produces: the largest
      number of tokens of any date. */
  function Width(dates: seq<string>): (w: nat)
    ensures forall k :: 0 <= k < |dates| ==> |SplitSpace(dates[k])| <= w
    ensures |dates| > 0 ==> exists k :: 0 <= k < |dates| && |SplitSpace(dates[k])| == w
  {
    if dates == [] then 0
    else
      var front := Width(dates[..|dates| - 1]);
      var last := |SplitSpace(dates[|dates| - 1])|;
      if last >= front then last else front
  }

  /** `.iloc[:, -1]` of the expanded split: a date with fewer tokens than the widest
      one is padded with None in the last column. */
  function LastColumn(dates: seq<string>): (col: seq<Option<string>>)
    ensures |col| == |dates|
  {
    var w := Width(dates);
    seq(|dates|, k requires 0 <= k < |dates| =>
      var ts := SplitSpace(dates[k]);
      if |ts| == w then Some(ts[w - 1]) else None)
  }

  /** `.astype(int)` of that column: it fails as soon as one entry is None, is not an
      integer literal, or lies outside the int64 range. */
  function ParseColumn(col: seq<Option<string>>): (ys: Option<seq<int>>)
    ensures ys.Some? <==> forall k :: 0 <= k < |col| ==> col[k].Some? && ParseInt(col[k].value).Some?
    ensures ys.Some? ==> |ys.value| == |col|
    ensures ys.Some? ==> forall k :: 0 <= k < |col| ==> ys.value[k] == ParseInt(col[k].value).value
  {
    if col == [] then Some([])
    else if col[0].None? || ParseInt(col[0].value).None? then None
    else match ParseColumn(col[1..])
      case None =>
        assert exists k :: 0 <= k < |col[1..]| && !(col[1..][k].Some? && ParseInt(col[1..][k].value).Some?);
        None
      case Some(rest) => Some([ParseInt(col[0].value).value] + rest)
  }

  function KeepUpTo(rs: seq<Record>, years: seq<int>, currentYear: int): seq<Dated>
    requires |rs| == |years|
  {
    if rs == [] then []
    else
      var head := if years[0] <= currentYear then [ToDated(rs[0])] else [];
      head + KeepUpTo(rs[1..], years[1..], currentYear)
  }

  /** Lines 27-35 of helpers/preprocess_goodreads.py and 44-52 of helpers/preprocess_goodreads_ratings.py,
      followed by the column selection (lines 39 / 56). */
  function Cleanup(rs: seq<Record>, currentYear: int): Result<seq<Dated>, CleanupError>
  {
    var kept := ReadAndRated(rs);
    match ParseColumn(LastColumn(Dates(kept)))
    case None => Failure(YearNotInteger)
    case Some(years) => Success(KeepUpTo(kept, years, currentYear))
  }

  // ---------------------------------------------------------------------------
  // What the cleanup keeps, stated one record at a time

  function TokenCount(r: Record): nat
  {
    |SplitSpace(DateRead(r))|
  }

  /** The rule a record passes: read, rated, and its year at most the current year. */
  predicate Retained(r: Record, currentYear: int)
  {
    && r.isRead && r.rating > 0
    && ParseInt(LastToken(DateRead(r))).Some?
    && ParseInt(LastToken(DateRead(r))).value <= currentYear
  }

  function RetainedRows(rs: seq<Record>, currentYear: int): seq<Dated>
  {
    if rs == [] then []
    else
      var head := if Retained(rs[0], currentYear) then [ToDated(rs[0])] else [];
      head + RetainedRows(rs[1..], currentYear)
  }

  /** Every read, rated date has the same number of tokens. */
  predicate UniformDates(rs: seq<Record>)
  {
    var kept := ReadAndRated(rs);
    forall i, j :: 0 <= i < |kept| && 0 <= j < |kept| ==> TokenCount(kept[i]) == TokenCount(kept[j])
  }

  /** The last token of every read, rated date is an integer within the int64 range. */
  predicate YearsParse(rs: seq<Record>)
  {
    var kept := ReadAndRated(rs);
    forall k :: 0 <= k < |kept| ==> ParseInt(LastToken(DateRead(kept[k]))).Some?
  }

  lemma {:induction false} KeepUpToRetained(kept: seq<Record>, years: seq<int>, currentYear: int)
    requires |kept| == |years|
    requires forall k :: 0 <= k < |kept| ==> kept[k].isRead && kept[k].rating > 0
    requires forall k :: 0 <= k < |kept| ==>
      ParseInt(LastToken(DateRead(kept[k]))) == Some(years[k])
    ensures KeepUpTo(kept, years, currentYear) == RetainedRows(kept, currentYear)
  {
    if kept != [] {
      KeepUpToRetained(kept[1..], years[1..], currentYear);
    }
  }

  lemma {:induction false} RetainedAfterFilter(rs: seq<Record>, currentYear: int)
    ensures RetainedRows(ReadAndRated(rs), currentYear) == RetainedRows(rs, currentYear)
  {
    if rs != [] {
      RetainedAfterFilter(rs[1..], currentYear);
      var tail := ReadAndRated(rs[1..]);
      if rs[0].isRead && rs[0].rating > 0 {
        assert ReadAndRated(rs) == [rs[0]] + tail;
        assert ([rs[0]] + tail)[0] == rs[0];
        assert ([rs[0]] + tail)[1..] == tail;
      } else {
        assert ReadAndRated(rs) == tail;
        assert !Retained(rs[0], currentYear);
        assert RetainedRows(rs, currentYear) == RetainedRows(rs[1..], currentYear);
      }
    }
  }

  lemma KeptAreReadAndRated(rs: seq<Record>, k: nat)
    requires k < |ReadAndRated(rs)|
    ensures ReadAndRated(rs)[k] in rs
    ensures ReadAndRated(rs)[k].isRead && ReadAndRated(rs)[k].rating > 0
  {
    assert ReadAndRated(rs)[k] in ReadAndRated(rs);
  }

  lemma LastColumnAt(dates: seq<string>, k: nat)
    requires k < |dates|
    ensures |SplitSpace(dates[k])| == Width(dates) ==> LastColumn(dates)[k] == Some(LastToken(dates[k]))
    ensures |SplitSpace(dates[k])| < Width(dates) ==> LastColumn(dates)[k].None?
  {
  }

  lemma UniformColumn(rs: seq<Record>)
    requires UniformDates(rs)
    ensures forall k :: 0 <= k < |ReadAndRated(rs)| ==>
      LastColumn(Dates(ReadAndRated(rs)))[k] == Some(LastToken(DateRead(ReadAndRated(rs)[k])))
  {
    var kept := ReadAndRated(rs);
    var dates := Dates(kept);
    forall k | 0 <= k < |kept|
      ensures LastColumn(dates)[k] == Some(LastToken(dates[k]))
    {
      var k0 :| 0 <= k0 < |dates| && |SplitSpace(dates[k0])| == Width(dates);
      assert TokenCount(kept[k0]) == TokenCount(kept[k]);
      LastColumnAt(dates, k);
    }
  }

  /** The cleanup succeeds exactly when the read, rated dates all split into the same
      number of tokens and each last token is an integer; it then keeps exactly the
      records that pass Retained, in their order. */
  lemma CleanupCharacterized(rs: seq<Record>, currentYear: int)
    ensures Cleanup(rs, currentYear).Success? <==> UniformDates(rs) && YearsParse(rs)
    ensures Cleanup(rs, currentYear).Success? ==>
      Cleanup(rs, currentYear).value == RetainedRows(rs, currentYear)
  {
    if !UniformDates(rs) {
      RaggedFail(rs, currentYear);
    } else if YearsParse(rs) {
      UniformParsedKeepsRetained(rs, currentYear);
    } else {
      UnparsedYearFails(rs, currentYear);
    }
  }

  lemma RaggedFail(rs: seq<Record>, currentYear: int)
    requires !UniformDates(rs)
    ensures Cleanup(rs, currentYear).Failure?
  {
    var kept := ReadAndRated(rs);
    var i, j :| 0 <= i < |kept| && 0 <= j < |kept| && TokenCount(kept[i]) != TokenCount(kept[j]);
    if TokenCount(kept[i]) < TokenCount(kept[j]) {
      RaggedDatesFail(rs, currentYear, i, j);
    } else {
      RaggedDatesFail(rs, currentYear, j, i);
    }
  }

  lemma UnparsedYearFails(rs: seq<Record>, currentYear: int)
    requires UniformDates(rs) && !YearsParse(rs)
    ensures Cleanup(rs, currentYear).Failure?
  {
    var kept := ReadAndRated(rs);
    var col := LastColumn(Dates(kept));
    var k :| 0 <= k < |kept| && ParseInt(LastToken(DateRead(kept[k]))).None?;
    UniformColumn(rs);
    assert col[k] == Some(LastToken(DateRead(kept[k])));
  }

  lemma UniformParsedKeepsRetained(rs: seq<Record>, currentYear: int)
    requires UniformDates(rs) && YearsParse(rs)
    ensures Cleanup(rs, currentYear) == Success(RetainedRows(rs, currentYear))
  {
    var kept := ReadAndRated(rs);
    var col := LastColumn(Dates(kept));
    UniformColumn(rs);
    forall k | 0 <= k < |kept|
      ensures kept[k].isRead && kept[k].rating > 0
      ensures col[k].Some? && ParseInt(col[k].value).Some?
    {
      KeptAreReadAndRated(rs, k);
    }
    var years := ParseColumn(col).value;
    KeepUpToRetained(kept, years, currentYear);
    RetainedAfterFilter(rs, currentYear);
  }

  lemma {:induction false} RetainedRowsFrom(rs: seq<Record>, currentYear: int, d: Dated)
    requires d in RetainedRows(rs, currentYear)
    ensures exists r :: r in rs && Retained(r, currentYear) && d == ToDated(r)
  {
    if rs != [] {
      if d in RetainedRows(rs[1..], currentYear) {
        RetainedRowsFrom(rs[1..], currentYear, d);
        var r :| r in rs[1..] && Retained(r, currentYear) && d == ToDated(r);
        assert r in rs;
      }
    }
  }

  /** Every row the cleanup keeps is a read record with a positive rating, whose
      `datetime_read` is `read_at`, or `date_added` when `read_at` is empty, and whose
      year is not after the current year. */
  lemma CleanupKeepsOnlyRetained(rs: seq<Record>, currentYear: int, d: Dated)
    requires Cleanup(rs, currentYear).Success? && d in Cleanup(rs, currentYear).value
    ensures d.rating > 0
    ensures exists r :: (r in rs && r.isRead && r.rating > 0 && d.user == r.user && d.book == r.book
      && d.dateRead == (if r.readAt == "" then r.dateAdded else r.readAt)
      && ParseInt(LastToken(d.dateRead)).Some? && ParseInt(LastToken(d.dateRead)).value <= currentYear)
  {
    CleanupCharacterized(rs, currentYear);
    RetainedRowsFrom(rs, currentYear, d);
  }

  /** A read, rated date with fewer tokens than another one makes the cleanup fail. */
  lemma RaggedDatesFail(rs: seq<Record>, currentYear: int, i: nat, j: nat)
    requires i < |ReadAndRated(rs)| && j < |ReadAndRated(rs)|
    requires TokenCount(ReadAndRated(rs)[i]) < TokenCount(ReadAndRated(rs)[j])
    ensures Cleanup(rs, currentYear) == Failure(YearNotInteger)
  {
    var kept := ReadAndRated(rs);
    var dates := Dates(kept);
    var col := LastColumn(dates);
    assert dates[i] == DateRead(kept[i]) && dates[j] == DateRead(kept[j]);
    assert |SplitSpace(dates[j])| <= Width(dates);
    LastColumnAt(dates, i);
    assert col[i].None?;
  }
}
