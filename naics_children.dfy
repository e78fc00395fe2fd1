/**
  Child resolution for the NAICS 2022 hierarchy: the half-open code range of
  a node's direct children, the rows of the table in that range, and their
  codes.
*/
module NaicsChildren {
  import opened Wrappers
  import opened Decimal
  import opened NaicsCleanUp

  /** The half-open interval [lower, upper) of codes. */
  datatype Range = Range(lower: int, upper: int)

  predicate InRange(c: int, r: Range) {
    r.lower <= c < r.upper
  }

  /**
    The codes of the direct children of `key`. The sectors 31, 44 and 48 stand
    for the composite sectors 31-33, 44-45 and 48-49, and 0 is the synthetic
    root above the two-digit sectors; every other code nests one decimal digit
    deeper.
  */
  function ChildRange(key: int): (r: Range)
    ensures r.lower < r.upper
    ensures key >= 1 ==> key < r.lower
  {
    if key == 31 then Range(310, 340)
    else if key == 44 then Range(440, 460)
    else if key == 48 then Range(480, 500)
    else if key == 0 then Range(0, 100)
    else Range(key * 10, (key + 1) * 10)
  }

  /** The decimal notation of c is that of p followed by one more digit. */
  ghost predicate ExtendsByOneDigit(p: int, c: int) {
    p >= 1 && c >= 10 && NatToString(c)[..|NatToString(c)| - 1] == NatToString(p)
  }

  /** The two-digit codes that a sector code stands for. */
  function SectorSpan(key: int): set<int> {
    if key == 31 then {31, 32, 33}
    else if key == 44 then {44, 45}
    else if key == 48 then {48, 49}
    else {}
  }

  lemma {:induction false} ExtendsByOneDigitIsDiv(p: int, c: int)
    ensures ExtendsByOneDigit(p, c) <==> p >= 1 && c >= 10 && c / 10 == p
  {
    if p >= 1 && c >= 10 {
      RenderDropLast(c);
      if NatToString(c / 10) == NatToString(p) {
        RenderInjective(c / 10, p);
      }
    }
  }

  /** A regular code's range holds exactly the codes one decimal digit below it. */
  lemma {:induction false} RegularChildRange(key: int, c: int)
    requires key >= 1 && key != 31 && key != 44 && key != 48
    ensures InRange(c, ChildRange(key)) <==> ExtendsByOneDigit(key, c)
  {
    ExtendsByOneDigitIsDiv(key, c);
  }

  lemma {:induction false} SectorRangeIsDiv(key: int, c: int)
    requires key == 31 || key == 44 || key == 48
    ensures InRange(c, ChildRange(key)) <==> c >= 10 && c / 10 in SectorSpan(key)
  {
    var q := c / 10;
    assert 10 * q <= c < 10 * q + 10;
  }

  /** A sector's range holds exactly the codes one digit below any code of its span. */
  lemma {:induction false} SectorChildRange(key: int, c: int)
    requires key == 31 || key == 44 || key == 48
    ensures InRange(c, ChildRange(key)) <==> exists p :: p in SectorSpan(key) && ExtendsByOneDigit(p, c)
  {
    SectorRangeIsDiv(key, c);
    ExtendsByOneDigitIsDiv(c / 10, c);
    if exists p :: p in SectorSpan(key) && ExtendsByOneDigit(p, c) {
      var p :| p in SectorSpan(key) && ExtendsByOneDigit(p, c);
      ExtendsByOneDigitIsDiv(p, c);
    }
  }

  /** The root's range holds exactly the codes of at most two decimal digits. */
  lemma {:induction false} RootChildRange(c: int)
    ensures InRange(c, ChildRange(0)) <==> c >= 0 && |NatToString(c)| <= 2
  {
    if c >= 0 {
      AtMostTwoDigits(c);
    }
  }

  /** The positions of the rows whose code lies in r, in table order. */
  function MatchIndices(t: seq<Row>, r: Range): (idx: seq<int>)
    ensures forall j :: 0 <= j < |idx| ==> 0 <= idx[j] < |t| && InRange(t[idx[j]].code, r)
    ensures forall j, k :: 0 <= j < k < |idx| ==> idx[j] < idx[k]
    ensures forall i :: 0 <= i < |t| && InRange(t[i].code, r) ==> i in idx
    decreases |t|
  {
    if t == [] then []
    else
      var n := |t| - 1;
      MatchIndices(t[..n], r) + (if InRange(t[n].code, r) then [n] else [])
  }

  /** The row filter `lower <= Code < upper`, keeping table order. */
  function Select(t: seq<Row>, r: Range): (rows: seq<Row>)
    ensures |rows| == |MatchIndices(t, r)|
    ensures forall j :: 0 <= j < |rows| ==> rows[j] == t[MatchIndices(t, r)[j]]
    decreases |t|
  {
    if t == [] then []
    else
      var n := |t| - 1;
      assert forall i :: 0 <= i < n ==> t[..n][i] == t[i];
      Select(t[..n], r) + (if InRange(t[n].code, r) then [t[n]] else [])
  }

  /** A child row once missing values are filled and its title is prefixed. */
  datatype Child = Child(code: int, title: string, description: string)

  /** `fillna('')`. */
  function FillNa(o: Option<string>): string {
    match o
    case None => ""
    case Some(s) => s
  }

  function Relabel(row: Row): Child {
    Child(row.code, IntToString(row.code) + ": " + FillNa(row.title), FillNa(row.description))
  }

  /**
    The children of `key`: exactly the rows in its child range, in table
    order (the subsequence at MatchIndices), each titled "<code>: <title>"
    with missing values filled by "".
  */
  function GetChildren(key: int, t: seq<Row>): (cs: seq<Child>)
    ensures |cs| == |MatchIndices(t, ChildRange(key))|
    ensures forall j :: 0 <= j < |cs| ==>
      var row := t[MatchIndices(t, ChildRange(key))[j]];
      cs[j].code == row.code &&
      cs[j].title == IntToString(row.code) + ": " + FillNa(row.title) &&
      cs[j].description == FillNa(row.description)
  {
    var rows := Select(t, ChildRange(key));
    seq(|rows|, i requires 0 <= i < |rows| => Relabel(rows[i]))
  }

  /**
    The codes of the children of `key`: the codes of the rows the range filter
    keeps, in table order, which are also the children's codes.
  */
  function GetChildrenKeys(key: int, t: seq<Row>): (ks: seq<int>)
    ensures |ks| == |MatchIndices(t, ChildRange(key))|
    ensures forall j :: 0 <= j < |ks| ==> ks[j] == t[MatchIndices(t, ChildRange(key))[j]].code
    ensures |ks| == |GetChildren(key, t)|
    ensures forall j :: 0 <= j < |ks| ==> ks[j] == GetChildren(key, t)[j].code
  {
    var cs := GetChildren(key, t);
    seq(|cs|, i requires 0 <= i < |cs| => cs[i].code)
  }

  /** A code is a child key of `key` exactly when some row carries it and it lies in the range. */
  lemma {:induction false} ChildrenKeysMembership(key: int, t: seq<Row>, c: int)
    ensures c in GetChildrenKeys(key, t) <==>
      InRange(c, ChildRange(key)) && exists i :: 0 <= i < |t| && t[i].code == c
  {
    var ks := GetChildrenKeys(key, t);
    var idx := MatchIndices(t, ChildRange(key));
    if c in ks {
      var j :| 0 <= j < |ks| && ks[j] == c;
      assert t[idx[j]].code == c;
    }
    if InRange(c, ChildRange(key)) && exists i :: 0 <= i < |t| && t[i].code == c {
      var i :| 0 <= i < |t| && t[i].code == c;
      var j :| 0 <= j < |idx| && idx[j] == i;
      assert ks[j] == c;
    }
  }

  /** Every child key is strictly above a positive parent, so descent cannot cycle below the root. */
  lemma {:induction false} ChildKeysIncrease(key: int, t: seq<Row>)
    requires key >= 1
    ensures forall c :: c in GetChildrenKeys(key, t) ==> c > key
  {
    forall c | c in GetChildrenKeys(key, t)
      ensures c > key
    {
      ChildrenKeysMembership(key, t, c);
    }
  }
}
