/**
  Table cleanup of the NAICS 2022 descriptions table: the composite sector
  labels become their first two-digit code, the Code column becomes integers
  and every trailing capital 'T' is cut from each Title.
*/
module NaicsCleanUp {
  import opened Wrappers
  import opened Decimal

  /**
    A cell of the raw Code column, which holds numbers, a few text labels and
    possibly missing values (NaN). An `Int` cell is a value the reader already
    holds as a 64-bit integer.
  */
  datatype Cell = Text(text: string) | Int(number: int) | Missing

  /** A row of the raw table; a missing Title or Description is `None`. */
  datatype RawRow = RawRow(code: Cell, title: Option<string>, description: Option<string>)

  /** A row of the cleaned table. */
  datatype Row = Row(code: int, title: Option<string>, description: Option<string>)

  /** Raised by the integer conversion of the Code column. */
  datatype CleanUpError =
    | MalformedCode(code: string)  // text that is not a decimal number
    | CodeOverflow(code: string)   // a decimal number beyond the 64-bit range
    | MissingCode                  // NaN has no integer value

  /** The largest value of the 64-bit integer column. */
  const MaxInt64: int := 0x7FFF_FFFF_FFFF_FFFF

  /** The three composite sector labels and the code each stands for. */
  function ReplaceComposite(c: Cell): Cell {
    if c == Text("31-33") then Text("31")
    else if c == Text("44-45") then Text("44")
    else if c == Text("48-49") then Text("48")
    else c
  }

  /** Integer conversion of one cell. */
  function AsInt(c: Cell): Result<int, CleanUpError> {
    match c
    case Int(n) => Success(n)
    case Missing => Failure(MissingCode)
    case Text(s) =>
      var parsed := ParseNat(s);
      if parsed.None? then Failure(MalformedCode(s))
      else if parsed.value > MaxInt64 then Failure(CodeOverflow(s))
      else Success(parsed.value)
  }

  /** What cleanup does to one Code cell: replacement, then conversion. */
  function CleanCode(c: Cell): Result<int, CleanUpError> {
    AsInt(ReplaceComposite(c))
  }

  function ReplaceColumn(col: seq<Cell>): seq<Cell> {
    seq(|col|, i requires 0 <= i < |col| => ReplaceComposite(col[i]))
  }

  /** Integer conversion of a whole column; the first cell that does not convert raises. */
  function AsIntColumn(col: seq<Cell>): (r: Result<seq<int>, CleanUpError>)
    ensures r.Success? <==> forall i :: 0 <= i < |col| ==> AsInt(col[i]).Success?
    ensures r.Success? ==> |r.value| == |col|
    ensures r.Success? ==> forall i :: 0 <= i < |col| ==> AsInt(col[i]) == Success(r.value[i])
    ensures r.Failure? ==>
      exists i :: 0 <= i < |col| && AsInt(col[i]) == Failure(r.error) &&
                  forall j :: 0 <= j < i ==> AsInt(col[j]).Success?
    decreases |col|
  {
    if col == [] then Success([])
    else
      match AsInt(col[0])
      case Failure(e) => Failure(e)
      case Success(n) =>
        match AsIntColumn(col[1..])
        case Failure(e) =>
          assert forall i :: 1 <= i < |col| ==> col[1..][i - 1] == col[i];
          Failure(e)
        case Success(ns) =>
          assert forall i :: 1 <= i < |col| ==> col[1..][i - 1] == col[i];
          Success([n] + ns)
  }

  /** `str.rstrip('T')`: removes every trailing capital 'T'. */
  function RStripT(s: string): (r: string)
    ensures r <= s
    ensures r == [] || r[|r| - 1] != 'T'
    ensures forall i :: |r| <= i < |s| ==> s[i] == 'T'
    decreases |s|
  {
    if s != [] && s[|s| - 1] == 'T' then RStripT(s[..|s| - 1]) else s
  }

  /** Title stripping; a missing title stays missing. */
  function StripTitle(title: Option<string>): Option<string> {
    match title
    case None => None
    case Some(s) => Some(RStripT(s))
  }

  function Codes(t: seq<RawRow>): seq<Cell> {
    seq(|t|, i requires 0 <= i < |t| => t[i].code)
  }

  /**
    The cleaned table: same rows in the same order, Code converted, Title
    stripped, Description untouched; or the error of the first bad Code.
  */
  function CleanUpDescriptions(t: seq<RawRow>): (r: Result<seq<Row>, CleanUpError>)
    ensures r.Success? <==> forall i :: 0 <= i < |t| ==> CleanCode(t[i].code).Success?
    ensures r.Success? ==> |r.value| == |t|
    ensures r.Success? ==>
      forall i :: 0 <= i < |t| ==>
        r.value[i] == Row(CleanCode(t[i].code).value, StripTitle(t[i].title), t[i].description)
    ensures r.Failure? ==>
      exists i :: 0 <= i < |t| && CleanCode(t[i].code) == Failure(r.error) &&
                  forall j :: 0 <= j < i ==> CleanCode(t[j].code).Success?
  {
    var codes := ReplaceColumn(Codes(t));
    assert forall i :: 0 <= i < |t| ==> AsInt(codes[i]) == CleanCode(t[i].code);
    match AsIntColumn(codes)
    case Failure(e) => Failure(e)
    case Success(ns) =>
      Success(seq(|t|, i requires 0 <= i < |t| => Row(ns[i], StripTitle(t[i].title), t[i].description)))
  }

  /** A cleaned table as a frame again: the Code column now holds integers. */
  function ToRaw(rows: seq<Row>): (t: seq<RawRow>)
    ensures |t| == |rows|
  {
    seq(|rows|, i requires 0 <= i < |rows| => RawRow(Int(rows[i].code), rows[i].title, rows[i].description))
  }

  /** The code mapping of cleanup, cell by cell. */
  lemma CleanCodeValues(c: Cell)
    ensures c == Text("31-33") ==> CleanCode(c) == Success(31)
    ensures c == Text("44-45") ==> CleanCode(c) == Success(44)
    ensures c == Text("48-49") ==> CleanCode(c) == Success(48)
    ensures c.Int? ==> CleanCode(c) == Success(c.number)
    ensures c.Missing? ==> CleanCode(c) == Failure(MissingCode)
    ensures c.Text? && c.text !in {"31-33", "44-45", "48-49"} ==>
      (CleanCode(c).Success? <==> c.text != [] && AllDigits(c.text) && DigitsValue(c.text) <= MaxInt64) &&
      (CleanCode(c).Success? ==> CleanCode(c).value == DigitsValue(c.text)) &&
      (!(c.text != [] && AllDigits(c.text)) ==> CleanCode(c) == Failure(MalformedCode(c.text))) &&
      (c.text != [] && AllDigits(c.text) && DigitsValue(c.text) > MaxInt64 ==>
         CleanCode(c) == Failure(CodeOverflow(c.text)))
  {
    assert DigitsValue("3") == 3 && DigitsValue("4") == 4;
    assert "31"[..1] == "3" && "44"[..1] == "4" && "48"[..1] == "4";
  }

  /** The stripped title is the one prefix of s without a final 'T' that is followed by 'T's only. */
  lemma {:induction false} RStripTUnique(s: string, p: string)
    requires p <= s
    requires p == [] || p[|p| - 1] != 'T'
    requires forall i :: |p| <= i < |s| ==> s[i] == 'T'
    ensures RStripT(s) == p
  {
    var r := RStripT(s);
    assert |r| == |p|;
    assert r == s[..|r|] && p == s[..|p|];
  }

  /** Stripping twice strips no more than stripping once. */
  lemma {:induction false} RStripTIdempotent(s: string)
    ensures RStripT(RStripT(s)) == RStripT(s)
  {
    var r := RStripT(s);
    RStripTUnique(r, r);
  }

  /** Cleanup is idempotent: cleaning a cleaned table changes nothing. */
  lemma {:induction false} CleanUpIdempotent(t: seq<RawRow>)
    requires CleanUpDescriptions(t).Success?
    ensures CleanUpDescriptions(ToRaw(CleanUpDescriptions(t).value)) == CleanUpDescriptions(t)
  {
    var rows := CleanUpDescriptions(t).value;
    var raw := ToRaw(rows);
    forall i | 0 <= i < |raw|
      ensures CleanCode(raw[i].code) == Success(rows[i].code)
    {
      assert raw[i].code == Int(rows[i].code);
    }
    var again := CleanUpDescriptions(raw);
    assert again.Success?;
    forall i | 0 <= i < |rows|
      ensures again.value[i] == rows[i]
    {
      assert raw[i] == RawRow(Int(rows[i].code), rows[i].title, rows[i].description);
      match t[i].title
      case None =>
      case Some(s) => RStripTIdempotent(s);
    }
    assert again.value == rows;
  }

  /**
    The data frame handed to cleanup, one sequence per column. Cleanup
    assigns the caller's columns in place.
  */
  class Frame {
    var code: seq<Cell>
    var title: seq<Option<string>>
    var description: seq<Option<string>>

    ghost predicate Valid()
      reads this
    {
      |code| == |title| == |description|
    }

    function Rows(): (rows: seq<RawRow>)
      reads this
      requires Valid()
      ensures |rows| == |code|
    {
      var c, ti, d := code, title, description;
      seq(|c|, i requires 0 <= i < |c| => RawRow(c[i], ti[i], d[i]))
    }

    constructor (rows: seq<RawRow>)
      ensures Valid() && Rows() == rows
    {
      code := seq(|rows|, i requires 0 <= i < |rows| => rows[i].code);
      title := seq(|rows|, i requires 0 <= i < |rows| => rows[i].title);
      description := seq(|rows|, i requires 0 <= i < |rows| => rows[i].description);
    }

    /**
      Cleanup of this frame in place. On a malformed code the composite labels
      have already been replaced when the conversion raises; nothing else changed.
    */
    method CleanUp() returns (err: Option<CleanUpError>)
      requires Valid()
      modifies this
      ensures Valid()
      ensures err.None? <==> CleanUpDescriptions(old(Rows())).Success?
      ensures err.None? ==> Rows() == ToRaw(CleanUpDescriptions(old(Rows())).value)
      ensures err.Some? ==> err.value == CleanUpDescriptions(old(Rows())).error
      ensures err.Some? ==>
        code == ReplaceColumn(old(code)) && title == old(title) && description == old(description)
    {
      ghost var before := Rows();
      assert Codes(before) == code;
      code := ReplaceColumn(code);
      var parsed := AsIntColumn(code);
      if parsed.Failure? {
        return Some(parsed.error);
      }
      var ns, ti := parsed.value, title;
      code := seq(|ns|, i requires 0 <= i < |ns| => Int(ns[i]));
      title := seq(|ti|, i requires 0 <= i < |ti| => StripTitle(ti[i]));
      err := None;
      assert Rows() == ToRaw(CleanUpDescriptions(before).value);
    }
  }
}
