/**
 * A worked build: catalog parts P1 and P2; assembly TOP lists P1 and the
 * sub-assembly SUB; SUB lists P2 and P1.  TOP is read first.
 */
module Scenarios {
  import opened Catalog
  import opened Nodes
  import opened Resolve

  const P1: Item := Item("P1", PartKind, map[])
  const P2: Item := Item("P2", PartKind, map[])
  const PartsTable: seq<Row> := [Row("P1", map[]), Row("P2", map[])]
  const Tables: seq<Assembly> := [Assembly("TOP", ["P1", "SUB"]), Assembly("SUB", ["P2", "P1"])]
  const Names: set<string> := {"TOP", "SUB"}
  const Parts12: map<string, Item> := map["P1" := P1, "P2" := P2]

  /** After TOP: SUB is re-parented and tagged, P1 is owned by TOP. */
  const AfterTop: Graph :=
    Graph(map["TOP" := [Part(P1), Sub("SUB")], "SUB" := []], map["SUB" := "TOP"], {"SUB"}, map[P1 := "TOP"])

  /** After SUB: P2 is owned by SUB, and SUB's P1 is an alias. */
  const AfterSub: Graph :=
    Graph(map["TOP" := [Part(P1), Sub("SUB")], "SUB" := [Part(P2), Link(P1, "SUB", 1)]],
          map["SUB" := "TOP"], {"SUB"}, map[P1 := "TOP", P2 := "SUB"])

  lemma ExampleCatalog()
    ensures CatalogOf(PartsTable) == Parts12
    ensures NamesOf(Tables) == Names
  {
    assert PartsTable[..1] == [Row("P1", map[])] && PartsTable[..1][..0] == [];
    assert ItemOf(PartsTable[0]) == P1 && ItemOf(PartsTable[1]) == P2;
    assert CatalogOf(PartsTable[..1]) == map["P1" := P1];
    assert Tables[0].name == "TOP" && Tables[1].name == "SUB";
  }

  /** The freshly loaded assemblies. */
  const Fresh: Graph := Graph(map["TOP" := [], "SUB" := []], map[], {}, map[])

  lemma ExampleInitial()
    ensures Initial(Names).g == Fresh
  {
  }

  lemma ExampleTopRows()
    ensures ResolveRows(Fresh, [], "TOP", ["P1", "SUB"], Names, Parts12) ==
            Pending(Fresh.(parent := map["SUB" := "TOP"], tagged := {"SUB"}), [], [Part(P1), Sub("SUB")])
  {
    var top := ["P1", "SUB"];
    assert top[..1] == ["P1"] && top[..1][..0] == [];
    var e := ResolveRows(Fresh, [], "TOP", [], Names, Parts12);
    assert "P1" !in Names;
    var a := ResolveRows(Fresh, [], "TOP", top[..1], Names, Parts12);
    assert a == ResolveRow(e, "TOP", "P1", Names, Parts12);
    assert a == Pending(Fresh, [], [Part(P1)]);
  }

  lemma ExampleTop()
    ensures var p := ResolveRows(Initial(Names).g, [], "TOP", ["P1", "SUB"], Names, Parts12);
            Commit(p, "TOP") == State(AfterTop, [])
  {
    ExampleInitial();
    ExampleTopRows();
    var list := [Part(P1), Sub("SUB")];
    assert PartItems(list) == {P1};
    assert (map it | it in PartItems(list) :: "TOP") == map[P1 := "TOP"];
    assert Fresh.children["TOP" := list] == AfterTop.children;
  }

  lemma ExampleSubRows()
    ensures ResolveRows(AfterTop, [], "SUB", ["P2", "P1"], Names, Parts12) ==
            Pending(AfterTop, [], [Part(P2), Link(P1, "SUB", 1)])
  {
    var sub := ["P2", "P1"];
    assert sub[..1] == ["P2"] && sub[..1][..0] == [];
    var e := ResolveRows(AfterTop, [], "SUB", [], Names, Parts12);
    assert "P1" !in Names && "P2" !in Names;
    var a := ResolveRows(AfterTop, [], "SUB", sub[..1], Names, Parts12);
    assert a == ResolveRow(e, "SUB", "P2", Names, Parts12);
    assert a == Pending(AfterTop, [], [Part(P2)]);
  }

  lemma ExampleSub()
    ensures var p := ResolveRows(AfterTop, [], "SUB", ["P2", "P1"], Names, Parts12);
            Commit(p, "SUB") == State(AfterSub, [])
  {
    ExampleSubRows();
    var list := [Part(P2), Link(P1, "SUB", 1)];
    assert PartItems(list) == {P2};
    assert (map it | it in PartItems(list) :: "SUB") == map[P2 := "SUB"];
    assert AfterTop.children["SUB" := list] == AfterSub.children;
    assert AfterTop.owner + map[P2 := "SUB"] == AfterSub.owner;
  }

  lemma ExampleResolved()
    ensures Resolved(Tables, PartsTable) == State(AfterSub, [])
  {
    ExampleCatalog();
    ExampleTop();
    ExampleSub();
    var s0 := Initial(Names);
    assert Tables[..1] == [Tables[0]] && Tables[..1][..0] == [];
    assert Process(s0, Tables[..1], Names, Parts12) == State(AfterTop, []);
  }

  /** TOP is the only assembly no row names, so it is the root and the only holder of the parts table. */
  lemma ExampleBuild()
    ensures Build(Tables, PartsTable) == Outcome(Ok(Bom("TOP", AfterSub, map["TOP" := Parts12])), [])
  {
    ExampleCatalog();
    ExampleResolved();
    assert Roots(Tables, AfterSub.parent) == ["TOP"];
  }

  /**
   * The flat list is TOP's part, then SUB's children in row order; since
   * the counter keys on objects, the alias is counted apart from P1 itself.
   */
  lemma ExampleFlat()
    ensures Finite(AfterSub, "TOP", 2)
    ensures Flat(AfterSub, "TOP", 2) == [Part(P1), Part(P2), Link(P1, "SUB", 1)]
    ensures CountOf(Quantities(Flat(AfterSub, "TOP", 2)), Part(P1)) == 1
    ensures CountOf(Quantities(Flat(AfterSub, "TOP", 2)), Link(P1, "SUB", 1)) == 1
  {
    var g := AfterSub;
    var subParts := [Part(P2), Link(P1, "SUB", 1)];
    assert Assemblies(g, "SUB") == [] by {
      OfKindNone(g, subParts, AssemblyKind);
    }
    assert Finite(g, "SUB", 1);
    FlatLeafNode(g, "SUB", 1);
    var alias := [Link(P1, "SUB", 1)];
    assert subParts[1..] == alias && alias[1..] == [];
    assert OfKind(g, alias, PartKind) == alias;
    assert Parts(g, "SUB") == subParts;
    var topKids := [Part(P1), Sub("SUB")];
    assert topKids[1..] == [Sub("SUB")] && [Sub("SUB")][1..] == [];
    assert OfKind(g, [Sub("SUB")], PartKind) == [];
    assert OfKind(g, [Sub("SUB")], AssemblyKind) == [Sub("SUB")];
    assert Parts(g, "TOP") == [Part(P1)];
    assert Assemblies(g, "TOP") == [Sub("SUB")];
    assert Finite(g, "TOP", 2);
    FlatUnfold(g, "TOP", 2);
    assert FlatAll(g, [Sub("SUB")], 1) == Flat(g, "SUB", 1) by {
      FlatAllSnoc(g, [], Sub("SUB"), 1);
      assert [] + [Sub("SUB")] == [Sub("SUB")];
    }
    var flat := Flat(g, "TOP", 2);
    assert flat == [Part(P1), Part(P2), Link(P1, "SUB", 1)];
    assert multiset(flat)[Part(P1)] == 1;
    assert multiset(flat)[Link(P1, "SUB", 1)] == 1;
  }
}
