/** `LabelEncoder.fit_transform`: every id is replaced by its position among the
    distinct ids in ascending order, so the codes of n distinct ids are exactly
    0 .. n-1 and keep the order of the ids. */
module Encoding {

  predicate StrictlyIncreasing(s: seq<int>)
  {
    forall i, j :: 0 <= i < j < |s| ==> s[i] < s[j]
  }

  /** Inserts x into a strictly increasing sequence unless it is already there. */
  function InsertUnique(x: int, s: seq<int>): (r: seq<int>)
    requires StrictlyIncreasing(s)
    ensures StrictlyIncreasing(r)
    ensures forall y :: y in r <==> y == x || y in s
  {
    if s == [] then [x]
    else if x < s[0] then [x] + s
    else if x == s[0] then s
    else
      var rest := InsertUnique(x, s[1..]);
      assert forall k :: 0 <= k < |rest| ==> rest[k] in rest;
      [s[0]] + rest
  }

  /** The classes `LabelEncoder.fit` learns: the distinct ids, ascending. */
  function Classes(ids: seq<int>): (cs: seq<int>)
    ensures StrictlyIncreasing(cs)
    ensures forall y :: y in cs <==> y in ids
  {
    if ids == [] then [] else InsertUnique(ids[0], Classes(ids[1..]))
  }

  function IndexOf(cs: seq<int>, x: int): (k: nat)
    requires x in cs
    ensures k < |cs| && cs[k] == x
  {
    if cs[0] == x then 0 else 1 + IndexOf(cs[1..], x)
  }

  /** `fit_transform(ids)`. */
  function Encode(ids: seq<int>): (codes: seq<nat>)
    ensures |codes| == |ids|
  {
    var cs := Classes(ids);
    seq(|ids|, k requires 0 <= k < |ids| => IndexOf(cs, ids[k]))
  }

  /** `inverse_transform` of one code. */
  function Decode(ids: seq<int>, code: nat): int
    requires code < |Classes(ids)|
  {
    Classes(ids)[code]
  }

  /** The number of distinct ids. */
  function DistinctCount(ids: seq<int>): nat
  {
    |set x | x in ids|
  }

  lemma IndexOfStrict(cs: seq<int>, k: nat)
    requires StrictlyIncreasing(cs) && k < |cs|
    ensures IndexOf(cs, cs[k]) == k
  {
  }

  /** Decoding a code gives back the id it was computed from. */
  lemma DecodeEncode(ids: seq<int>, k: nat)
    requires k < |ids|
    ensures Encode(ids)[k] < |Classes(ids)|
    ensures Decode(ids, Encode(ids)[k]) == ids[k]
  {
    assert ids[k] in ids;
  }

  /** Encoding a class gives back its code. */
  lemma EncodeDecode(ids: seq<int>, code: nat)
    requires code < |Classes(ids)|
    ensures exists k :: 0 <= k < |ids| && ids[k] == Decode(ids, code) && Encode(ids)[k] == code
  {
    var cs := Classes(ids);
    assert cs[code] in cs;
    var k :| 0 <= k < |ids| && ids[k] == cs[code];
    IndexOfStrict(cs, code);
    assert Encode(ids)[k] == code;
  }

  /** Codes preserve equality and order of ids in both directions. */
  lemma EncodeOrder(ids: seq<int>, i: nat, j: nat)
    requires i < |ids| && j < |ids|
    ensures ids[i] == ids[j] <==> Encode(ids)[i] == Encode(ids)[j]
    ensures ids[i] < ids[j] <==> Encode(ids)[i] < Encode(ids)[j]
  {
    var cs := Classes(ids);
    var codes := Encode(ids);
    DecodeEncode(ids, i);
    DecodeEncode(ids, j);
    if codes[i] < codes[j] {
      assert cs[codes[i]] < cs[codes[j]];
    } else if codes[j] < codes[i] {
      assert cs[codes[j]] < cs[codes[i]];
    }
  }

  lemma {:induction false} StrictCard(s: seq<int>)
    requires StrictlyIncreasing(s)
    ensures |set x | x in s| == |s|
  {
    if s != [] {
      StrictCard(s[1..]);
      assert (set x | x in s) == {s[0]} + (set x | x in s[1..]);
      assert s[0] !in s[1..];
    }
  }

  /** The classes are as many as the distinct ids. */
  lemma ClassesCount(ids: seq<int>)
    ensures |Classes(ids)| == DistinctCount(ids)
  {
    var cs := Classes(ids);
    StrictCard(cs);
    assert (set x | x in cs) == (set x | x in ids);
  }

  /** The integers 0 .. n-1. */
  function Below(n: nat): (r: set<nat>)
    ensures forall c: int :: c in r <==> 0 <= c < n
  {
    if n == 0 then {} else Below(n - 1) + {n - 1}
  }

  /** The codes of the ids are exactly 0 .. n-1 where n is the number of distinct ids:
      no gaps and, by EncodeOrder, no two ids share a code. */
  lemma EncodeOnto(ids: seq<int>)
    ensures (set k | 0 <= k < |ids| :: Encode(ids)[k]) == Below(DistinctCount(ids))
  {
    ClassesCount(ids);
    var codes := Encode(ids);
    forall c | c in Below(DistinctCount(ids)) ensures c in (set k | 0 <= k < |ids| :: codes[k]) {
      EncodeDecode(ids, c);
    }
    forall k | 0 <= k < |ids| ensures codes[k] < DistinctCount(ids) {
      DecodeEncode(ids, k);
    }
  }
}
