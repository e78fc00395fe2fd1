/**
  Worked scenarios for the NAICS 2022 tree builder, and the behaviour of the
  shared default root across calls.
*/
module NaicsExamples {
  import opened Wrappers
  import opened Decimal
  import opened NaicsCleanUp
  import opened NaicsChildren
  import opened NaicsTree

  /** Manufacturing, one of its subsectors with a trailing 'T', and a second subsector. */
  function ManufacturingRaw(): seq<RawRow> {
    [ RawRow(Text("31-33"), Some("Manufacturing"), Some("d1")),
      RawRow(Text("311"), Some("Food MfgT"), Some("d2")),
      RawRow(Text("312"), Some("Beverage Mfg"), Some("d3")) ]
  }

  function ManufacturingRows(): seq<Row> {
    [ Row(31, Some("Manufacturing"), Some("d1")),
      Row(311, Some("Food Mfg"), Some("d2")),
      Row(312, Some("Beverage Mfg"), Some("d3")) ]
  }

  /** Cleanup of a table whose rows clean one by one to the given rows. */
  lemma CleansTo(raw: seq<RawRow>, rows: seq<Row>)
    requires |raw| == |rows|
    requires forall i :: 0 <= i < |raw| ==>
      CleanCode(raw[i].code) == Success(rows[i].code) &&
      StripTitle(raw[i].title) == rows[i].title && raw[i].description == rows[i].description
    ensures CleanUpDescriptions(raw) == Success(rows)
  {
    assert forall i :: 0 <= i < |raw| ==> CleanCode(raw[i].code).Success?;
    var r := CleanUpDescriptions(raw);
    assert r.Success? && |r.value| == |rows|;
    assert forall i :: 0 <= i < |raw| ==> r.value[i] == rows[i];
    assert r.value == rows;
  }

  /** A plain digit string in range cleans to its value. */
  lemma DigitCode(s: string, n: nat)
    requires s !in {"31-33", "44-45", "48-49"}
    requires s != [] && AllDigits(s) && DigitsValue(s) == n && n <= MaxInt64
    ensures CleanCode(Text(s)) == Success(n)
  {
  }

  lemma ManufacturingCodes()
    ensures CleanCode(Text("31-33")) == Success(31)
    ensures CleanCode(Text("311")) == Success(311)
    ensures CleanCode(Text("312")) == Success(312)
  {
    CleanCodeValues(Text("31-33"));
    assert DigitsValue("311") == 311 by {
      assert "311"[..2] == "31" && "31"[..1] == "3";
    }
    DigitCode("311", 311);
    assert DigitsValue("312") == 312 by {
      assert "312"[..2] == "31" && "31"[..1] == "3";
    }
    DigitCode("312", 312);
  }

  lemma ManufacturingTitles()
    ensures StripTitle(Some("Manufacturing")) == Some("Manufacturing")
    ensures StripTitle(Some("Food MfgT")) == Some("Food Mfg")
    ensures StripTitle(Some("Beverage Mfg")) == Some("Beverage Mfg")
  {
    RStripTUnique("Food MfgT", "Food Mfg");
    RStripTUnique("Manufacturing", "Manufacturing");
    RStripTUnique("Beverage Mfg", "Beverage Mfg");
  }

  lemma ManufacturingCleanUp()
    ensures CleanUpDescriptions(ManufacturingRaw()) == Success(ManufacturingRows())
  {
    ManufacturingCodes();
    ManufacturingTitles();
    CleansTo(ManufacturingRaw(), ManufacturingRows());
  }

  lemma SelectSnoc(t: seq<Row>, row: Row, r: Range)
    ensures Select(t + [row], r) == Select(t, r) + (if InRange(row.code, r) then [row] else [])
  {
    assert (t + [row])[..|t|] == t;
  }

  lemma SelectManufacturing(r: Range)
    ensures var t := ManufacturingRows();
      Select(t, r) ==
        (if InRange(31, r) then [t[0]] else []) +
        (if InRange(311, r) then [t[1]] else []) +
        (if InRange(312, r) then [t[2]] else [])
  {
    var t := ManufacturingRows();
    assert t == [] + [t[0]] + [t[1]] + [t[2]];
    SelectSnoc([], t[0], r);
    SelectSnoc([t[0]], t[1], r);
    assert [t[0]] + [t[1]] == [t[0], t[1]];
    SelectSnoc([t[0], t[1]], t[2], r);
    assert [t[0], t[1]] + [t[2]] == t;
  }

  lemma RootChildren()
    ensures GetChildren(0, ManufacturingRows()) == [Child(31, "31: Manufacturing", "d1")]
  {
    var t := ManufacturingRows();
    SelectManufacturing(ChildRange(0));
    assert Select(t, ChildRange(0)) == [t[0]];
    assert Relabel(t[0]) == Child(31, "31: Manufacturing", "d1") by {
      assert IntToString(31) == "31";
    }
  }

  lemma RenderSubsectorCodes()
    ensures IntToString(311) == "311" && IntToString(312) == "312"
  {
    assert NatToString(3) == "3";
    assert NatToString(31) == NatToString(3) + "1";
    assert NatToString(311) == NatToString(31) + "1";
    assert NatToString(312) == NatToString(31) + "2";
  }

  lemma SectorSelect()
    ensures var t := ManufacturingRows(); Select(t, ChildRange(31)) == [t[1], t[2]]
  {
    SelectManufacturing(ChildRange(31));
  }

  lemma RelabelSubsectors()
    ensures Relabel(ManufacturingRows()[1]) == Child(311, "311: Food Mfg", "d2")
    ensures Relabel(ManufacturingRows()[2]) == Child(312, "312: Beverage Mfg", "d3")
  {
    RenderSubsectorCodes();
    assert "311" + ": " + "Food Mfg" == "311: Food Mfg";
    assert "312" + ": " + "Beverage Mfg" == "312: Beverage Mfg";
  }

  lemma SectorChildren()
    ensures GetChildren(31, ManufacturingRows()) ==
      [Child(311, "311: Food Mfg", "d2"), Child(312, "312: Beverage Mfg", "d3")]
  {
    var t := ManufacturingRows();
    SectorSelect();
    RelabelSubsectors();
    var rows := Select(t, ChildRange(31));
    var cs := GetChildren(31, t);
    assert |cs| == 2 && cs[0] == Relabel(rows[0]) && cs[1] == Relabel(rows[1]);
  }

  lemma SubsectorChildren()
    ensures GetChildren(311, ManufacturingRows()) == []
    ensures GetChildren(312, ManufacturingRows()) == []
  {
    SelectManufacturing(ChildRange(311));
    SelectManufacturing(ChildRange(312));
    assert Select(ManufacturingRows(), ChildRange(311)) == [];
    assert Select(ManufacturingRows(), ChildRange(312)) == [];
  }

  function SectorNode(): Node {
    Node(31, "31: Manufacturing", "d1", Present([
      Node(311, "311: Food Mfg", "d2", Absent),
      Node(312, "312: Beverage Mfg", "d3", Absent)]))
  }

  function SectorRoot(): Node {
    ChildNode(Child(31, "31: Manufacturing", "d1"))
  }

  function Subsector(code: int, title: string, description: string): Node {
    Node(code, title, description, Absent)
  }

  /** A node with two child rows that are both leaves gets exactly those two leaf nodes. */
  lemma TwoLeafSubtree(t: seq<Row>, node: Node, a: Child, b: Child, level: int, maxLevel: int)
    requires node.children.Absent? && level + 1 < maxLevel
    requires GetChildren(node.value, t) == [a, b]
    requires GetChildren(a.code, t) == [] && GetChildren(b.code, t) == []
    ensures CreateStreamlitTree(t, node, level, maxLevel) ==
      node.(children := Present([ChildNode(a), ChildNode(b)]))
  {
    var r := CreateStreamlitTree(t, node, level, maxLevel);
    ChildSubtrees(t, node, level, maxLevel);
    var leaves := [ChildNode(a), ChildNode(b)];
    assert |r.children.nodes| == 2;
    assert r.children.nodes[0] == leaves[0];
    assert r.children.nodes[1] == leaves[1];
    assert r.children.nodes == leaves;
  }

  /** The subtree of sector 31 in any table where 31 has the two leaf subsectors. */
  lemma SectorSubtree(t: seq<Row>)
    requires GetChildren(31, t) == [Child(311, "311: Food Mfg", "d2"), Child(312, "312: Beverage Mfg", "d3")]
    requires GetChildren(311, t) == [] && GetChildren(312, t) == []
    ensures CreateStreamlitTree(t, SectorRoot(), 1, 5) == SectorNode()
  {
    TwoLeafSubtree(t, SectorRoot(), Child(311, "311: Food Mfg", "d2"), Child(312, "312: Beverage Mfg", "d3"), 1, 5);
  }

  /** A node with a single child row gets that child's subtree as its only child. */
  lemma OneChildTree(t: seq<Row>, node: Node, a: Child, sub: Node, level: int, maxLevel: int)
    requires node.children.Absent? && level < maxLevel
    requires GetChildren(node.value, t) == [a]
    requires CreateStreamlitTree(t, ChildNode(a), level + 1, maxLevel) == sub
    ensures CreateStreamlitTree(t, node, level, maxLevel) == node.(children := Present([sub]))
  {
    var r := CreateStreamlitTree(t, node, level, maxLevel);
    ChildSubtrees(t, node, level, maxLevel);
    assert |r.children.nodes| == 1 && r.children.nodes[0] == sub;
    assert r.children.nodes == [sub];
  }

  /** The whole tree of any table where 0 has sector 31 only and 31 has the two leaf subsectors. */
  lemma RootTree(t: seq<Row>)
    requires GetChildren(0, t) == [Child(31, "31: Manufacturing", "d1")]
    requires GetChildren(31, t) == [Child(311, "311: Food Mfg", "d2"), Child(312, "312: Beverage Mfg", "d3")]
    requires GetChildren(311, t) == [] && GetChildren(312, t) == []
    ensures CreateStreamlitTree(t, DefaultRoot(), 0, 5) ==
      Node(0, "NAICS 2022", "Categorisation tree for NAICS 2022 industry classifications",
           Present([SectorNode()]))
  {
    SectorSubtree(t);
    OneChildTree(t, DefaultRoot(), Child(31, "31: Manufacturing", "d1"), SectorNode(), 0, 5);
  }

  /** The end-to-end scenario: root 0 with sector 31, which has subsectors 311 and 312. */
  lemma ManufacturingTree()
    ensures GetNaicsTree(ManufacturingRaw(), 0, 5) == Success(
      Node(0, "NAICS 2022", "Categorisation tree for NAICS 2022 industry classifications",
           Present([SectorNode()])))
  {
    ManufacturingCleanUp();
    RootChildren();
    SectorChildren();
    SubsectorChildren();
    RootTree(ManufacturingRows());
  }

  lemma SectorCodes()
    ensures CleanCode(Text("31-33")) == Success(31)
    ensures CleanCode(Text("44-45")) == Success(44)
    ensures CleanCode(Text("48-49")) == Success(48)
    ensures CleanCode(Text("22")) == Success(22)
  {
    CleanCodeValues(Text("31-33"));
    CleanCodeValues(Text("44-45"));
    CleanCodeValues(Text("48-49"));
    assert DigitsValue("22") == 22 by {
      assert "22"[..1] == "2";
    }
    DigitCode("22", 22);
  }

  /** The composite sector labels and a plain code, as cleanup converts them. */
  lemma SectorCodesCleanUp()
    ensures CleanUpDescriptions([
      RawRow(Text("31-33"), None, None), RawRow(Text("44-45"), None, None),
      RawRow(Text("48-49"), None, None), RawRow(Text("22"), None, None)]) == Success([
      Row(31, None, None), Row(44, None, None), Row(48, None, None), Row(22, None, None)])
  {
    SectorCodes();
    CleansTo([RawRow(Text("31-33"), None, None), RawRow(Text("44-45"), None, None),
              RawRow(Text("48-49"), None, None), RawRow(Text("22"), None, None)],
             [Row(31, None, None), Row(44, None, None), Row(48, None, None), Row(22, None, None)]);
  }

  /** A code that is neither a number nor a composite label makes cleanup fail. */
  lemma MalformedCodeCleanUp()
    ensures CleanUpDescriptions([RawRow(Text("22"), None, None), RawRow(Text("31-32"), None, None)])
      == Failure(MalformedCode("31-32"))
  {
    var t := [RawRow(Text("22"), None, None), RawRow(Text("31-32"), None, None)];
    SectorCodes();
    assert CleanCode(t[1].code) == Failure(MalformedCode("31-32")) by {
      CleanCodeValues(Text("31-32"));
      assert !IsDigit("31-32"[2]);
    }
    FirstBadCode(t, 1);
  }

  /** A missing Code cell makes cleanup fail. */
  lemma MissingCodeCleanUp()
    ensures CleanUpDescriptions([RawRow(Text("31-33"), None, None), RawRow(Missing, Some("x"), None)])
      == Failure(MissingCode)
  {
    var t := [RawRow(Text("31-33"), None, None), RawRow(Missing, Some("x"), None)];
    SectorCodes();
    CleanCodeValues(Missing);
    FirstBadCode(t, 1);
  }

  /** Cleanup fails with the error of the first Code cell that does not convert. */
  lemma FirstBadCode(t: seq<RawRow>, k: int)
    requires 0 <= k < |t| && CleanCode(t[k].code).Failure?
    requires forall j :: 0 <= j < k ==> CleanCode(t[j].code).Success?
    ensures CleanUpDescriptions(t) == Failure(CleanCode(t[k].code).error)
  {
    var r := CleanUpDescriptions(t);
    assert r.Failure?;
    var i :| 0 <= i < |t| && CleanCode(t[i].code) == Failure(r.error) &&
             forall j :: 0 <= j < i ==> CleanCode(t[j].code).Success?;
    assert i == k;
  }

  /** The range table: the three sectors, the root, and a regular code. */
  lemma ChildRangeValues()
    ensures ChildRange(31) == Range(310, 340)
    ensures ChildRange(44) == Range(440, 460)
    ensures ChildRange(48) == Range(480, 500)
    ensures ChildRange(0) == Range(0, 100)
    ensures ChildRange(22) == Range(220, 230)
    ensures ChildRange(3111) == Range(31110, 31120)
  {
  }

  /** Every trailing 'T' goes, and nothing before it. */
  lemma TitleStripping()
    ensures RStripT("ManufacturingTT") == "Manufacturing"
    ensures RStripT("Manufacturing T") == "Manufacturing "
  {
    RStripTUnique("ManufacturingTT", "Manufacturing");
    RStripTUnique("Manufacturing T", "Manufacturing ");
  }

  /**
    The default root is shared between calls: after a call that attached the
    sectors, a call with max_level 0 returns those stale children, where a
    fresh root gives a root without children.
  */
  method SharedDefaultKeepsStaleChildren() returns (first: Node, second: Node)
    ensures first.children.Present?
    ensures second == first
    ensures GetNaicsTree(ManufacturingRaw(), 0, 0) == Success(DefaultRoot())
  {
    ManufacturingTree();
    var t := ManufacturingRows();
    var shared := new SharedDefaultRoot();
    first := shared.CreateStreamlitTreeWithDefault(t, 0, 5);
    second := shared.CreateStreamlitTreeWithDefault(t, 0, 0);
  }
}
