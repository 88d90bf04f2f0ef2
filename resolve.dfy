/**
 * Tree resolution of `BOM.from_folder` (BOM.py:210-242): every assembly's
 * rows become its children (a sub-assembly, the catalog part itself, or an
 * alias to a part already placed), and the one assembly without a parent is
 * returned as the root.
 *
 * The assemblies arrive as a sequence in the insertion order of the dict
 * they are read into, so their names are distinct; the catalog is the
 * master parts table.  Reading the spreadsheets is not part of the model.
 */
module Resolve {
  import opened Catalog
  import opened Nodes

  /** One assembly table: its name (`fn_base` of its file name) and its PN column, in row order. */
  datatype Assembly = Assembly(name: string, rows: seq<string>)

  datatype Error =
    | MultipleRoots       // 'Singular root BOM not found.'
    | NoRoot              // 'No root BOM found.'
    | KeyError(pn: string) // an uncaught dict lookup failure

  datatype Result<T> = Ok(value: T) | Err(error: Error)

  /**
   * The returned root `BOM`: its name, the state of all assembly objects it
   * reaches through, and the `parts_db` of each assembly that has one.
   */
  datatype Bom = Bom(root: string, g: Graph, partsDb: map<string, map<string, Item>>)

  /** What a build gives: a root or an error, and the warnings printed on the way. */
  datatype Outcome = Outcome(result: Result<Bom>, warnings: seq<string>)

  /** The assemblies are the keys of a dict: no name occurs twice. */
  predicate DistinctNames(asms: seq<Assembly>)
  {
    forall i, j :: 0 <= i < j < |asms| ==> asms[i].name != asms[j].name
  }

  function NamesOf(asms: seq<Assembly>): set<string>
  {
    set i | 0 <= i < |asms| :: asms[i].name
  }

  // ---------------------------------------------------------------------
  // One assembly's rows (BOM.py:214-231)
  // ---------------------------------------------------------------------

  /** The state while an assembly's rows are read: the objects, the warnings, and the local `children` list. */
  datatype Pending = Pending(g: Graph, unresolved: seq<string>, list: seq<Child>)

  /**
   * One row.  A PN naming an assembly re-parents that assembly to this one,
   * tags it 'assembly' and appends it, whatever parent it had.  A PN in
   * neither table is reported and skipped.  A catalog part that already has
   * a parent is appended as a new alias; otherwise the part itself is
   * appended.  The part's parent is only set when the whole list is
   * committed, so an earlier row of the same assembly does not count.
   */
  function ResolveRow(p: Pending, name: string, pn: string, names: set<string>, catalog: map<string, Item>): Pending
  {
    if pn in names then
      Pending(p.g.(parent := p.g.parent[pn := name], tagged := p.g.tagged + {pn}), p.unresolved, p.list + [Sub(pn)])
    else if pn !in catalog then
      Pending(p.g, p.unresolved + [pn], p.list)
    else if catalog[pn] in p.g.owner then
      Pending(p.g, p.unresolved, p.list + [Link(catalog[pn], name, |p.list|)])
    else
      Pending(p.g, p.unresolved, p.list + [Part(catalog[pn])])
  }

  /** All rows of assembly `name` in order, starting from an empty list. */
  function ResolveRows(g: Graph, unresolved: seq<string>, name: string, rows: seq<string>,
                       names: set<string>, catalog: map<string, Item>): Pending
    decreases |rows|
  {
    if rows == [] then Pending(g, unresolved, [])
    else
      var n := |rows| - 1;
      ResolveRow(ResolveRows(g, unresolved, name, rows[..n], names, catalog), name, rows[n], names, catalog)
  }

  /** The catalog items appended as themselves. */
  function PartItems(list: seq<Child>): set<Item>
  {
    set c | c in list && c.Part? :: c.item
  }

  /** The objects and the warnings between two assemblies. */
  datatype State = State(g: Graph, unresolved: seq<string>)

  /**
   * `bom.children = children` (line 232): the list becomes the assembly's
   * children, and every part appended as itself gets this assembly as parent.
   */
  function Commit(p: Pending, name: string): State
  {
    State(p.g.(children := p.g.children[name := p.list],
               owner := p.g.owner + map it | it in PartItems(p.list) :: name),
          p.unresolved)
  }

  function ProcessOne(st: State, a: Assembly, names: set<string>, catalog: map<string, Item>): State
  {
    Commit(ResolveRows(st.g, st.unresolved, a.name, a.rows, names, catalog), a.name)
  }

  /** The assemblies in dict order. */
  function Process(st: State, asms: seq<Assembly>, names: set<string>, catalog: map<string, Item>): State
    decreases |asms|
  {
    if asms == [] then st
    else
      var n := |asms| - 1;
      ProcessOne(Process(st, asms[..n], names, catalog), asms[n], names, catalog)
  }

  /** Freshly loaded assemblies: no children, no parents, no item type; no part placed. */
  function Initial(names: set<string>): State
  {
    State(Graph(map n | n in names :: [], map[], {}, map[]), [])
  }

  /** The state after all assemblies. */
  function Resolved(asms: seq<Assembly>, partRows: seq<Row>): State
  {
    var names := NamesOf(asms);
    Process(Initial(names), asms, names, CatalogOf(partRows))
  }

  /** `[bom for bom in assemblies.values() if bom.is_root]`, by name. */
  function Roots(asms: seq<Assembly>, parent: map<string, string>): seq<string>
  {
    if asms == [] then []
    else (if asms[0].name in parent then [] else [asms[0].name]) + Roots(asms[1..], parent)
  }

  /** The whole of `from_folder` after the tables are loaded. */
  function Build(asms: seq<Assembly>, partRows: seq<Row>): Outcome
  {
    var catalog := CatalogOf(partRows);
    var st := Resolved(asms, partRows);
    var roots := Roots(asms, st.g.parent);
    if |roots| > 1 then Outcome(Err(MultipleRoots), st.unresolved)
    else if |roots| == 0 then Outcome(Err(NoRoot), st.unresolved)
    else Outcome(Ok(Bom(roots[0], st.g, map[roots[0] := catalog])), st.unresolved)
  }

  /**
   * `from_folder` as the source runs it: a loop over the assemblies, an
   * inner loop over each one's rows that updates the objects in place and
   * builds a local `children` list, then the search for the root.
   */
  method FromFolder(asms: seq<Assembly>, partRows: seq<Row>) returns (result: Result<Bom>, warnings: seq<string>)
    ensures Outcome(result, warnings) == Build(asms, partRows)
  {
    var catalog := CatalogOf(partRows);
    var names := NamesOf(asms);
    var children: map<string, seq<Child>> := map n | n in names :: [];
    var parent: map<string, string> := map[];
    var tagged: set<string> := {};
    var owner: map<Item, string> := map[];
    warnings := [];
    for i := 0 to |asms|
      invariant State(Graph(children, parent, tagged, owner), warnings)
             == Process(Initial(names), asms[..i], names, catalog)
    {
      var a := asms[i];
      ghost var before := Graph(children, parent, tagged, owner);
      ghost var warned := warnings;
      var list: seq<Child> := [];
      for j := 0 to |a.rows|
        invariant owner == before.owner && children == before.children
        invariant Pending(Graph(children, parent, tagged, owner), warnings, list)
               == ResolveRows(before, warned, a.name, a.rows[..j], names, catalog)
      {
        var pn := a.rows[j];
        assert a.rows[..j + 1][..j] == a.rows[..j];
        if pn in names {
          parent := parent[pn := a.name];
          tagged := tagged + {pn};
          list := list + [Sub(pn)];
        } else if pn !in catalog {
          warnings := warnings + [pn];
        } else {
          var part := catalog[pn];
          if part in owner {
            list := list + [Link(part, a.name, |list|)];
          } else {
            list := list + [Part(part)];
          }
        }
      }
      assert a.rows[..|a.rows|] == a.rows;
      assert asms[..i + 1][..i] == asms[..i];
      children := children[a.name := list];
      owner := owner + map it | it in PartItems(list) :: a.name;
    }
    assert asms[..|asms|] == asms;
    var roots := Roots(asms, parent);
    if |roots| > 1 {
      result := Err(MultipleRoots);
    } else if |roots| == 0 {
      result := Err(NoRoot);
    } else {
      result := Ok(Bom(roots[0], Graph(children, parent, tagged, owner), map[roots[0] := catalog]));
    }
  }

  // ---------------------------------------------------------------------
  // What one assembly's rows give
  // ---------------------------------------------------------------------

  predicate Resolvable(pn: string, names: set<string>, catalog: map<string, Item>)
  {
    pn in names || pn in catalog
  }

  /** The rows that produce a child, in order. */
  function ResolvableRows(rows: seq<string>, names: set<string>, catalog: map<string, Item>): (rs: seq<string>)
    ensures forall k :: 0 <= k < |rs| ==> Resolvable(rs[k], names, catalog)
    decreases |rows|
  {
    if rows == [] then []
    else
      var n := |rows| - 1;
      ResolvableRows(rows[..n], names, catalog) + (if Resolvable(rows[n], names, catalog) then [rows[n]] else [])
  }

  /** The rows that are reported and skipped, in order. */
  function UnresolvedRows(rows: seq<string>, names: set<string>, catalog: map<string, Item>): seq<string>
    decreases |rows|
  {
    if rows == [] then []
    else
      var n := |rows| - 1;
      UnresolvedRows(rows[..n], names, catalog) + (if Resolvable(rows[n], names, catalog) then [] else [rows[n]])
  }

  lemma {:induction false} ResolvableRowsMembers(rows: seq<string>, names: set<string>, catalog: map<string, Item>)
    ensures forall x :: x in ResolvableRows(rows, names, catalog) <==> x in rows && Resolvable(x, names, catalog)
    decreases |rows|
  {
    if rows != [] {
      var n := |rows| - 1;
      ResolvableRowsMembers(rows[..n], names, catalog);
      assert rows == rows[..n] + [rows[n]];
    }
  }

  /** The child a resolvable row becomes at position `k` of its list, given the parts already placed. */
  function ChildFor(pn: string, name: string, k: nat, names: set<string>, catalog: map<string, Item>,
                    owner: map<Item, string>): Child
    requires Resolvable(pn, names, catalog)
  {
    if pn in names then Sub(pn)
    else if catalog[pn] in owner then Link(catalog[pn], name, k)
    else Part(catalog[pn])
  }

  /** The list holds one child per resolvable row, in row order; children and parents of parts are untouched. */
  lemma {:induction false} RowsChildren(g: Graph, u: seq<string>, name: string, rows: seq<string>,
                                        names: set<string>, catalog: map<string, Item>)
    ensures var p := ResolveRows(g, u, name, rows, names, catalog);
            var rs := ResolvableRows(rows, names, catalog);
            && p.g.children == g.children && p.g.owner == g.owner
            && |p.list| == |rs|
            && forall k :: 0 <= k < |rs| ==> p.list[k] == ChildFor(rs[k], name, k, names, catalog, g.owner)
    decreases |rows|
  {
    if rows != [] {
      RowsChildren(g, u, name, rows[..|rows| - 1], names, catalog);
    }
  }

  /** The warnings gain the unresolvable rows, in order. */
  lemma {:induction false} RowsWarnings(g: Graph, u: seq<string>, name: string, rows: seq<string>,
                                        names: set<string>, catalog: map<string, Item>)
    ensures ResolveRows(g, u, name, rows, names, catalog).unresolved == u + UnresolvedRows(rows, names, catalog)
    decreases |rows|
  {
    if rows != [] {
      RowsWarnings(g, u, name, rows[..|rows| - 1], names, catalog);
    }
  }

  /** One row re-parents and tags the assembly it names, if any, and nothing else. */
  lemma RowParentStep(p: Pending, name: string, pn: string, names: set<string>, catalog: map<string, Item>)
    ensures var q := ResolveRow(p, name, pn, names, catalog);
            && q.g.parent == (if pn in names then p.g.parent[pn := name] else p.g.parent)
            && q.g.tagged == (if pn in names then p.g.tagged + {pn} else p.g.tagged)
  {
  }

  /** Every assembly named in the rows gets this assembly as parent; no other parent changes. */
  lemma {:induction false} RowsParents(g: Graph, u: seq<string>, name: string, rows: seq<string>,
                                       names: set<string>, catalog: map<string, Item>)
    ensures var p := ResolveRows(g, u, name, rows, names, catalog);
            && (forall n :: n in p.g.parent <==> n in g.parent || (n in names && n in rows))
            && (forall n :: n in p.g.parent ==>
                  p.g.parent[n] == if n in names && n in rows then name else g.parent[n])
    decreases |rows|
  {
    if rows != [] {
      var m := |rows| - 1;
      var init := rows[..m];
      RowsParents(g, u, name, init, names, catalog);
      RowParentStep(ResolveRows(g, u, name, init, names, catalog), name, rows[m], names, catalog);
      assert forall n :: n in rows <==> n in init || n == rows[m] by {
        assert rows == init + [rows[m]];
      }
    }
  }

  /** Every assembly named in the rows is tagged 'assembly'; no other assembly is. */
  lemma {:induction false} RowsTagged(g: Graph, u: seq<string>, name: string, rows: seq<string>,
                                      names: set<string>, catalog: map<string, Item>)
    ensures forall n :: n in ResolveRows(g, u, name, rows, names, catalog).g.tagged <==>
                        n in g.tagged || (n in names && n in rows)
    decreases |rows|
  {
    if rows != [] {
      var m := |rows| - 1;
      var init := rows[..m];
      RowsTagged(g, u, name, init, names, catalog);
      RowParentStep(ResolveRows(g, u, name, init, names, catalog), name, rows[m], names, catalog);
      assert forall n :: n in rows <==> n in init || n == rows[m] by {
        assert rows == init + [rows[m]];
      }
    }
  }

  // ---------------------------------------------------------------------
  // Across assemblies
  // ---------------------------------------------------------------------

  /** The state after the first `k` assemblies. */
  function Stage(asms: seq<Assembly>, names: set<string>, catalog: map<string, Item>, k: nat): State
    requires k <= |asms|
  {
    Process(Initial(names), asms[..k], names, catalog)
  }

  /** What the rows of assembly `i` give, read against the state the earlier assemblies left. */
  function RowsOf(asms: seq<Assembly>, names: set<string>, catalog: map<string, Item>, i: nat): Pending
    requires i < |asms|
  {
    var st := Stage(asms, names, catalog, i);
    ResolveRows(st.g, st.unresolved, asms[i].name, asms[i].rows, names, catalog)
  }

  lemma StageStep(asms: seq<Assembly>, names: set<string>, catalog: map<string, Item>, k: nat)
    requires k < |asms|
    ensures Stage(asms, names, catalog, k + 1) == Commit(RowsOf(asms, names, catalog, k), asms[k].name)
    ensures var st := Stage(asms, names, catalog, k + 1);
            var p := RowsOf(asms, names, catalog, k);
            && st.g.parent == p.g.parent && st.g.tagged == p.g.tagged && st.unresolved == p.unresolved
            && st.g.children == p.g.children[asms[k].name := p.list]
  {
    assert asms[..k + 1][..k] == asms[..k];
  }

  /** PN `pn` occurs in a row of one of the first `k` assemblies. */
  predicate UsedBefore(asms: seq<Assembly>, pn: string, k: nat)
  {
    exists i :: 0 <= i < k && i < |asms| && pn in asms[i].rows
  }

  /** Assembly `i` is the first to use `pn`. */
  predicate FirstUse(asms: seq<Assembly>, pn: string, i: int)
  {
    0 <= i < |asms| && pn in asms[i].rows && !UsedBefore(asms, pn, i)
  }

  /** Assembly `i` is the last of the first `k` to use `pn`. */
  predicate LastUse(asms: seq<Assembly>, pn: string, i: int, k: int)
  {
    0 <= i < k <= |asms| && pn in asms[i].rows && forall j :: i < j < k ==> pn !in asms[j].rows
  }

  /** Every assembly has a child list from the start, and the commits add no other key. */
  lemma {:induction false} StageKeys(asms: seq<Assembly>, catalog: map<string, Item>, k: nat)
    requires k <= |asms|
    ensures Stage(asms, NamesOf(asms), catalog, k).g.children.Keys == NamesOf(asms)
  {
    var names := NamesOf(asms);
    if k > 0 {
      var j := k - 1;
      StageKeys(asms, catalog, j);
      StageStep(asms, names, catalog, j);
      var st := Stage(asms, names, catalog, j);
      RowsChildren(st.g, st.unresolved, asms[j].name, asms[j].rows, names, catalog);
      assert asms[j].name in names;
    }
  }

  /** After `k` assemblies, those have their resolved lists as children and the rest still none. */
  lemma {:induction false} StageChildren(asms: seq<Assembly>, catalog: map<string, Item>, k: nat)
    requires DistinctNames(asms) && k <= |asms|
    ensures var children := Stage(asms, NamesOf(asms), catalog, k).g.children;
            && children.Keys == NamesOf(asms)
            && (forall i :: 0 <= i < k ==> children[asms[i].name] == RowsOf(asms, NamesOf(asms), catalog, i).list)
            && (forall i :: k <= i < |asms| ==> children[asms[i].name] == [])
  {
    var names := NamesOf(asms);
    StageKeys(asms, catalog, k);
    if k > 0 {
      var j := k - 1;
      StageChildren(asms, catalog, j);
      StageStep(asms, names, catalog, j);
      var st := Stage(asms, names, catalog, j);
      var p := RowsOf(asms, names, catalog, j);
      RowsChildren(st.g, st.unresolved, asms[j].name, asms[j].rows, names, catalog);
      var children := Stage(asms, names, catalog, k).g.children;
      assert children == st.g.children[asms[j].name := p.list];
      forall i | 0 <= i < |asms| && i != j
        ensures asms[i].name != asms[j].name
      {
      }
    }
  }

  /** The owner set before assembly `k` gains exactly the catalog parts that  `k` appends as themselves. */
  lemma PartItemsOfRows(asms: seq<Assembly>, names: set<string>, catalog: map<string, Item>, k: nat)
    requires Keyed(catalog) && k < |asms|
    ensures var owner := Stage(asms, names, catalog, k).g.owner;
            var list := RowsOf(asms, names, catalog, k).list;
            forall pn :: pn in catalog && pn !in names ==>
              (catalog[pn] in PartItems(list) <==> pn in asms[k].rows && catalog[pn] !in owner)
  {
    var st := Stage(asms, names, catalog, k);
    var rows := asms[k].rows;
    var list := RowsOf(asms, names, catalog, k).list;
    var rs := ResolvableRows(rows, names, catalog);
    RowsChildren(st.g, st.unresolved, asms[k].name, rows, names, catalog);
    ResolvableRowsMembers(rows, names, catalog);
    forall pn | pn in catalog && pn !in names
      ensures catalog[pn] in PartItems(list) <==> pn in rows && catalog[pn] !in st.g.owner
    {
      if catalog[pn] in PartItems(list) {
        var c :| c in list && c.Part? && c.item == catalog[pn];
        var m :| 0 <= m < |list| && list[m] == c;
        assert list[m] == ChildFor(rs[m], asms[k].name, m, names, catalog, st.g.owner);
        assert catalog[rs[m]] == catalog[pn];
        KeyedInjective(catalog, rs[m], pn);
        assert rs[m] in rs;
      }
      if pn in rows && catalog[pn] !in st.g.owner {
        assert pn in rs;
        var m :| 0 <= m < |rs| && rs[m] == pn;
        assert list[m] == Part(catalog[pn]);
      }
    }
  }

  /** A catalog part has a parent exactly when an earlier assembly used it, and that parent is the first user. */
  lemma {:induction false} StageOwner(asms: seq<Assembly>, names: set<string>, catalog: map<string, Item>, k: nat)
    requires Keyed(catalog) && k <= |asms|
    ensures var owner := Stage(asms, names, catalog, k).g.owner;
            && (forall pn :: pn in catalog && pn !in names ==> (catalog[pn] in owner <==> UsedBefore(asms, pn, k)))
            && (forall pn, i :: pn in catalog && pn !in names && i < k && FirstUse(asms, pn, i) ==>
                  catalog[pn] in owner && owner[catalog[pn]] == asms[i].name)
  {
    if k > 0 {
      var j := k - 1;
      StageOwner(asms, names, catalog, j);
      StageStep(asms, names, catalog, j);
      var st := Stage(asms, names, catalog, j);
      RowsChildren(st.g, st.unresolved, asms[j].name, asms[j].rows, names, catalog);
      PartItemsOfRows(asms, names, catalog, j);
      var owner := Stage(asms, names, catalog, k).g.owner;
      forall pn | pn in catalog && pn !in names
        ensures catalog[pn] in owner <==> UsedBefore(asms, pn, k)
      {
        if UsedBefore(asms, pn, k) && !UsedBefore(asms, pn, j) {
          assert pn in asms[j].rows;
        }
      }
      forall pn, i | pn in catalog && pn !in names && i < k && FirstUse(asms, pn, i)
        ensures catalog[pn] in owner && owner[catalog[pn]] == asms[i].name
      {
        if i == j {
          assert !UsedBefore(asms, pn, j);
        } else {
          assert UsedBefore(asms, pn, j);
        }
      }
    }
  }

  /**
   * A catalog PN that also names an assembly is never placed: its rows take
   * the assembly branch (line 216), so its item never gets a parent.
   */
  lemma {:induction false} StageOwnerNoAssembly(asms: seq<Assembly>, names: set<string>, catalog: map<string, Item>, k: nat)
    requires Keyed(catalog) && k <= |asms|
    ensures var owner := Stage(asms, names, catalog, k).g.owner;
            forall pn :: pn in catalog && pn in names ==> catalog[pn] !in owner
  {
    if k > 0 {
      var j := k - 1;
      StageOwnerNoAssembly(asms, names, catalog, j);
      StageStep(asms, names, catalog, j);
      var st := Stage(asms, names, catalog, j);
      var list := RowsOf(asms, names, catalog, j).list;
      var rs := ResolvableRows(asms[j].rows, names, catalog);
      RowsChildren(st.g, st.unresolved, asms[j].name, asms[j].rows, names, catalog);
      forall pn | pn in catalog && pn in names
        ensures catalog[pn] !in PartItems(list)
      {
        forall c | c in list && c.Part? ensures c.item.pn !in names
        {
          var m :| 0 <= m < |list| && list[m] == c;
          assert list[m] == ChildFor(rs[m], asms[j].name, m, names, catalog, st.g.owner);
        }
      }
    }
  }

  /** An assembly has a parent exactly when an earlier row named it, and that parent is the last assembly to name it. */
  lemma {:induction false} StageParents(asms: seq<Assembly>, names: set<string>, catalog: map<string, Item>, k: nat)
    requires k <= |asms|
    ensures var parent := Stage(asms, names, catalog, k).g.parent;
            && (forall n :: n in parent <==> n in names && UsedBefore(asms, n, k))
            && (forall n, i :: n in names && LastUse(asms, n, i, k) ==> n in parent && parent[n] == asms[i].name)
  {
    if k > 0 {
      var j := k - 1;
      StageParents(asms, names, catalog, j);
      StageStep(asms, names, catalog, j);
      var st := Stage(asms, names, catalog, j);
      RowsParents(st.g, st.unresolved, asms[j].name, asms[j].rows, names, catalog);
      var parent := Stage(asms, names, catalog, k).g.parent;
      assert parent == RowsOf(asms, names, catalog, j).g.parent;
      forall n ensures n in parent <==> n in names && UsedBefore(asms, n, k)
      {
        if UsedBefore(asms, n, k) && !UsedBefore(asms, n, j) {
          assert n in asms[j].rows;
        }
      }
      forall n, i | n in names && LastUse(asms, n, i, k)
        ensures n in parent && parent[n] == asms[i].name
      {
        if i < j {
          assert LastUse(asms, n, i, j);
          assert n !in asms[j].rows;
        }
      }
    }
  }

  /** An assembly is tagged 'assembly' exactly when an earlier row named it. */
  lemma {:induction false} StageTagged(asms: seq<Assembly>, names: set<string>, catalog: map<string, Item>, k: nat)
    requires k <= |asms|
    ensures forall n :: n in Stage(asms, names, catalog, k).g.tagged <==> n in names && UsedBefore(asms, n, k)
  {
    if k > 0 {
      var j := k - 1;
      StageTagged(asms, names, catalog, j);
      StageStep(asms, names, catalog, j);
      var st := Stage(asms, names, catalog, j);
      RowsTagged(st.g, st.unresolved, asms[j].name, asms[j].rows, names, catalog);
      var tagged := Stage(asms, names, catalog, k).g.tagged;
      assert tagged == RowsOf(asms, names, catalog, j).g.tagged;
      forall n ensures n in tagged <==> n in names && UsedBefore(asms, n, k)
      {
        if UsedBefore(asms, n, k) && !UsedBefore(asms, n, j) {
          assert n in asms[j].rows;
        }
      }
    }
  }

  /** The unresolvable rows of the first `k` assemblies, in order. */
  function AllUnresolved(asms: seq<Assembly>, names: set<string>, catalog: map<string, Item>): seq<string>
    decreases |asms|
  {
    if asms == [] then []
    else
      var n := |asms| - 1;
      AllUnresolved(asms[..n], names, catalog) + UnresolvedRows(asms[n].rows, names, catalog)
  }

  lemma {:induction false} StageWarnings(asms: seq<Assembly>, names: set<string>, catalog: map<string, Item>, k: nat)
    requires k <= |asms|
    ensures Stage(asms, names, catalog, k).unresolved == AllUnresolved(asms[..k], names, catalog)
  {
    if k > 0 {
      var j := k - 1;
      StageWarnings(asms, names, catalog, j);
      StageStep(asms, names, catalog, j);
      var st := Stage(asms, names, catalog, j);
      RowsWarnings(st.g, st.unresolved, asms[j].name, asms[j].rows, names, catalog);
      assert asms[..k][..j] == asms[..j];
    }
  }

  // ---------------------------------------------------------------------
  // The result of a build
  // ---------------------------------------------------------------------

  lemma WholeStage(asms: seq<Assembly>, partRows: seq<Row>)
    ensures Resolved(asms, partRows) == Stage(asms, NamesOf(asms), CatalogOf(partRows), |asms|)
  {
    assert asms[..|asms|] == asms;
  }

  /**
   * The children of every assembly: one per row naming an assembly or a
   * catalog part, in row order -- the sub-assembly, else an alias when an
   * EARLIER assembly already used that part, else the catalog item itself.
   * A part repeated in the rows of its first user is the item itself each time
   * (the source's child setter rejects such a list; see README "Left out").
   */
  lemma BuildChildren(asms: seq<Assembly>, partRows: seq<Row>, i: int)
    requires DistinctNames(asms) && 0 <= i < |asms|
    ensures var g := Resolved(asms, partRows).g;
            var names := NamesOf(asms);
            var catalog := CatalogOf(partRows);
            var rs := ResolvableRows(asms[i].rows, names, catalog);
            && g.children.Keys == names
            && |g.children[asms[i].name]| == |rs|
            && forall k :: 0 <= k < |rs| ==>
                 g.children[asms[i].name][k] ==
                   if rs[k] in names then Sub(rs[k])
                   else if UsedBefore(asms, rs[k], i) then Link(catalog[rs[k]], asms[i].name, k)
                   else Part(catalog[rs[k]])
  {
    var names := NamesOf(asms);
    var catalog := CatalogOf(partRows);
    WholeStage(asms, partRows);
    StageChildren(asms, catalog, |asms|);
    CatalogEntries(partRows);
    StageOwner(asms, names, catalog, i);
    var st := Stage(asms, names, catalog, i);
    RowsChildren(st.g, st.unresolved, asms[i].name, asms[i].rows, names, catalog);
  }

  /**
   * Each catalog part used anywhere has exactly one parent: the first
   * assembly to use it.  A catalog PN that names an assembly never gets one.
   */
  lemma BuildOwner(asms: seq<Assembly>, partRows: seq<Row>)
    ensures var owner := Resolved(asms, partRows).g.owner;
            var names := NamesOf(asms);
            var catalog := CatalogOf(partRows);
            && (forall pn :: pn in catalog && pn !in names ==>
                  (catalog[pn] in owner <==> UsedBefore(asms, pn, |asms|)))
            && (forall pn, i :: pn in catalog && pn !in names && FirstUse(asms, pn, i) ==>
                  catalog[pn] in owner && owner[catalog[pn]] == asms[i].name)
            && (forall pn :: pn in catalog && pn in names ==> catalog[pn] !in owner)
  {
    WholeStage(asms, partRows);
    CatalogEntries(partRows);
    StageOwner(asms, NamesOf(asms), CatalogOf(partRows), |asms|);
    StageOwnerNoAssembly(asms, NamesOf(asms), CatalogOf(partRows), |asms|);
  }

  /** An assembly has a parent (and item type 'assembly') exactly when some row names it; the last one wins. */
  lemma BuildParents(asms: seq<Assembly>, partRows: seq<Row>)
    ensures var g := Resolved(asms, partRows).g;
            var names := NamesOf(asms);
            && (forall n :: n in g.parent <==> n in names && UsedBefore(asms, n, |asms|))
            && (forall n :: n in g.tagged <==> n in names && UsedBefore(asms, n, |asms|))
            && (forall n, i :: n in names && LastUse(asms, n, i, |asms|) ==> n in g.parent && g.parent[n] == asms[i].name)
  {
    WholeStage(asms, partRows);
    StageParents(asms, NamesOf(asms), CatalogOf(partRows), |asms|);
    StageTagged(asms, NamesOf(asms), CatalogOf(partRows), |asms|);
  }

  /** One warning per row in neither table, in table and row order. */
  lemma BuildWarnings(asms: seq<Assembly>, partRows: seq<Row>)
    ensures Build(asms, partRows).warnings == AllUnresolved(asms, NamesOf(asms), CatalogOf(partRows))
  {
    WholeStage(asms, partRows);
    StageWarnings(asms, NamesOf(asms), CatalogOf(partRows), |asms|);
    assert asms[..|asms|] == asms;
  }

  /** How many assemblies lack a parent decides the outcome of the root search. */
  lemma {:induction false} RootsShape(asms: seq<Assembly>, parent: map<string, string>)
    ensures var roots := Roots(asms, parent);
            && (|roots| == 0 <==> forall i :: 0 <= i < |asms| ==> asms[i].name in parent)
            && (|roots| >= 2 <==> exists i, j :: 0 <= i < j < |asms| && asms[i].name !in parent && asms[j].name !in parent)
            && (|roots| == 1 ==> exists i :: 0 <= i < |asms| && roots[0] == asms[i].name && asms[i].name !in parent &&
                                   forall j :: 0 <= j < |asms| && j != i ==> asms[j].name in parent)
  {
    if asms != [] {
      var rest := asms[1..];
      RootsShape(rest, parent);
      var roots := Roots(asms, parent);
      var tail := Roots(rest, parent);
      assert forall i :: 1 <= i < |asms| ==> asms[i] == rest[i - 1];
      if |roots| == 0 {
        forall i | 0 <= i < |asms| ensures asms[i].name in parent
        {
          if i > 0 { assert rest[i - 1].name in parent; }
        }
      }
      if exists i, j :: 0 <= i < j < |asms| && asms[i].name !in parent && asms[j].name !in parent {
        var i, j :| 0 <= i < j < |asms| && asms[i].name !in parent && asms[j].name !in parent;
        if i == 0 {
          assert rest[j - 1].name !in parent;
        } else {
          assert rest[i - 1].name !in parent && rest[j - 1].name !in parent;
        }
      }
      if |roots| >= 2 {
        if asms[0].name !in parent {
          assert |tail| >= 1;
          var j :| 0 <= j < |rest| && rest[j].name !in parent;
          assert asms[j + 1].name !in parent;
        } else {
          var i, j :| 0 <= i < j < |rest| && rest[i].name !in parent && rest[j].name !in parent;
          assert asms[i + 1].name !in parent && asms[j + 1].name !in parent;
        }
      }
      if |roots| == 1 {
        if asms[0].name !in parent {
          assert |tail| == 0;
          forall j | 0 <= j < |asms| && j != 0 ensures asms[j].name in parent
          {
            assert rest[j - 1].name in parent;
          }
        } else {
          var i :| 0 <= i < |rest| && tail[0] == rest[i].name && rest[i].name !in parent &&
                   forall j :: 0 <= j < |rest| && j != i ==> rest[j].name in parent;
          forall j | 0 <= j < |asms| && j != i + 1 ensures asms[j].name in parent
          {
            if j > 0 { assert rest[j - 1].name in parent; }
          }
          assert roots[0] == asms[i + 1].name;
        }
      }
    }
  }

  /** PN `pn` occurs in some assembly's rows. */
  predicate Referenced(asms: seq<Assembly>, pn: string)
  {
    UsedBefore(asms, pn, |asms|)
  }

  /**
   * The root search: no root when every assembly is named in some row,
   * more than one when two are not, and a successful build exactly when
   * one assembly alone is unnamed; that assembly is the root, and alone
   * gets the parts database.
   */
  lemma BuildRoot(asms: seq<Assembly>, partRows: seq<Row>)
    ensures var out := Build(asms, partRows);
            && (out.result == Err(NoRoot) <==> forall i :: 0 <= i < |asms| ==> Referenced(asms, asms[i].name))
            && (out.result == Err(MultipleRoots) <==>
                  exists i, j :: 0 <= i < j < |asms| && !Referenced(asms, asms[i].name) && !Referenced(asms, asms[j].name))
            && (out.result.Ok? <==>
                  exists i :: 0 <= i < |asms| && !Referenced(asms, asms[i].name) &&
                    forall j :: 0 <= j < |asms| && j != i ==> Referenced(asms, asms[j].name))
            && (out.result.Ok? ==>
                  exists i :: 0 <= i < |asms| && out.result.value.root == asms[i].name && !Referenced(asms, asms[i].name) &&
                    forall j :: 0 <= j < |asms| && j != i ==> Referenced(asms, asms[j].name))
            && (out.result.Ok? ==>
                  out.result.value.root !in out.result.value.g.parent &&
                  out.result.value.partsDb == map[out.result.value.root := CatalogOf(partRows)])
  {
    var names := NamesOf(asms);
    var st := Resolved(asms, partRows);
    var parent := st.g.parent;
    var roots := Roots(asms, parent);
    BuildParents(asms, partRows);
    RootsShape(asms, parent);
    forall i | 0 <= i < |asms| ensures asms[i].name in parent <==> Referenced(asms, asms[i].name)
    {
      assert asms[i].name in names;
    }
    var out := Build(asms, partRows);
    assert out.result == if |roots| > 1 then Err(MultipleRoots)
                         else if |roots| == 0 then Err(NoRoot)
                         else Ok(Bom(roots[0], st.g, map[roots[0] := CatalogOf(partRows)]));
  }

  /**
   * Of the children that stand for one catalog part, only those in the
   * first assembly to use it are the item itself; all later ones are aliases.
   */
  lemma SingleOriginal(asms: seq<Assembly>, partRows: seq<Row>, pn: string, i: int, k: int)
    requires DistinctNames(asms) && 0 <= i < |asms|
    requires pn in CatalogOf(partRows) && pn !in NamesOf(asms)
    requires asms[i].name in Resolved(asms, partRows).g.children
    requires 0 <= k < |Resolved(asms, partRows).g.children[asms[i].name]|
    ensures var c := Resolved(asms, partRows).g.children[asms[i].name][k];
            var item := CatalogOf(partRows)[pn];
            && (c == Part(item) ==> FirstUse(asms, pn, i))
            && (c == Link(item, asms[i].name, k) ==> pn in asms[i].rows && UsedBefore(asms, pn, i))
  {
    var names := NamesOf(asms);
    var catalog := CatalogOf(partRows);
    var rows := asms[i].rows;
    var rs := ResolvableRows(rows, names, catalog);
    BuildChildren(asms, partRows, i);
    CatalogEntries(partRows);
    ResolvableRowsMembers(rows, names, catalog);
    var c := Resolved(asms, partRows).g.children[asms[i].name][k];
    assert rs[k] in rs;
    if rs[k] !in names {
      if (c.Part? && c.item == catalog[pn]) || (c.Link? && c.target == catalog[pn]) {
        KeyedInjective(catalog, rs[k], pn);
      }
    }
  }

  // ---------------------------------------------------------------------
  // What the flattened root holds
  // ---------------------------------------------------------------------

  /**
   * Every row of one assembly with the PN of a catalog part gives one child
   * standing for that part: the item itself unless an earlier assembly
   * placed it, an alias otherwise.
   */
  lemma {:induction false} RowsOccurrences(g: Graph, u: seq<string>, name: string, rows: seq<string>,
                                           names: set<string>, catalog: map<string, Item>, pn: string)
    requires Keyed(catalog) && pn in catalog && pn !in names
    ensures var list := ResolveRows(g, u, name, rows, names, catalog).list;
            && Occurrences(list, catalog[pn], true) == multiset(rows)[pn]
            && Occurrences(list, catalog[pn], false) == if catalog[pn] in g.owner then 0 else multiset(rows)[pn]
    decreases |rows|
  {
    if rows != [] {
      var n := |rows| - 1;
      var init := rows[..n];
      var x := rows[n];
      var it := catalog[pn];
      var p := ResolveRows(g, u, name, init, names, catalog);
      var q := ResolveRow(p, name, x, names, catalog);
      assert ResolveRows(g, u, name, rows, names, catalog) == q;
      RowsOccurrences(g, u, name, init, names, catalog, pn);
      RowsChildren(g, u, name, init, names, catalog);
      assert rows == init + [x];
      assert multiset(rows)[pn] == multiset(init)[pn] + (if x == pn then 1 else 0);
      if x in names {
        OccurrencesSnoc(p.list, Sub(x), it, true);
        OccurrencesSnoc(p.list, Sub(x), it, false);
      } else if x in catalog {
        var c := if catalog[x] in g.owner then Link(catalog[x], name, |p.list|) else Part(catalog[x]);
        assert q.list == p.list + [c];
        OccurrencesSnoc(p.list, c, it, true);
        OccurrencesSnoc(p.list, c, it, false);
        if catalog[x] == it {
          KeyedInjective(catalog, x, pn);
        }
      }
    }
  }

  /**
   * The children of assembly `i` stand for a catalog part once per row
   * naming its PN, and are the item itself only in the first assembly to
   * use it.
   */
  lemma BuildOccurrences(asms: seq<Assembly>, partRows: seq<Row>, pn: string, i: int)
    requires DistinctNames(asms) && 0 <= i < |asms|
    requires pn in CatalogOf(partRows) && pn !in NamesOf(asms)
    ensures var children := Resolved(asms, partRows).g.children;
            var it := CatalogOf(partRows)[pn];
            && asms[i].name in children
            && Occurrences(children[asms[i].name], it, true) == multiset(asms[i].rows)[pn]
            && Occurrences(children[asms[i].name], it, false)
               == if FirstUse(asms, pn, i) then multiset(asms[i].rows)[pn] else 0
  {
    var names := NamesOf(asms);
    var catalog := CatalogOf(partRows);
    WholeStage(asms, partRows);
    StageChildren(asms, catalog, |asms|);
    CatalogEntries(partRows);
    StageOwner(asms, names, catalog, i);
    var st := Stage(asms, names, catalog, i);
    RowsOccurrences(st.g, st.unresolved, asms[i].name, asms[i].rows, names, catalog, pn);
    assert asms[i].name in names;
    if pn !in asms[i].rows {
      assert multiset(asms[i].rows)[pn] == 0;
    }
  }

  /** The rows of the assembly called `n`; none when there is no such assembly. */
  function RowsNamed(asms: seq<Assembly>, n: string): seq<string>
  {
    if asms == [] then [] else if asms[0].name == n then asms[0].rows else RowsNamed(asms[1..], n)
  }

  lemma {:induction false} RowsNamedAt(asms: seq<Assembly>, i: int)
    requires DistinctNames(asms) && 0 <= i < |asms|
    ensures RowsNamed(asms, asms[i].name) == asms[i].rows
  {
    if i > 0 {
      assert asms[0].name != asms[i].name;
      assert DistinctNames(asms[1..]) by {
        forall a, b | 0 <= a < b < |asms| - 1 ensures asms[1..][a].name != asms[1..][b].name {
          assert asms[1..][a] == asms[a + 1] && asms[1..][b] == asms[b + 1];
        }
      }
      assert asms[1..][i - 1] == asms[i];
      RowsNamedAt(asms[1..], i - 1);
    }
  }

  /** The rows naming `pn` in the assemblies `ns`, one term per entry of `ns`. */
  function RowsNaming(asms: seq<Assembly>, ns: seq<string>, pn: string): nat
  {
    if ns == [] then 0 else multiset(RowsNamed(asms, ns[0]))[pn] + RowsNaming(asms, ns[1..], pn)
  }

  /** One assembly at most is the first to use a PN. */
  lemma FirstUseUnique(asms: seq<Assembly>, pn: string, f: int, i: int)
    requires FirstUse(asms, pn, f) && 0 <= i < |asms| && i != f
    ensures !FirstUse(asms, pn, i)
  {
    if f < i {
      assert UsedBefore(asms, pn, i);
    } else {
      assert pn !in asms[i].rows;
    }
  }

  /** The children standing for a part add up to the rows naming it, when they do node by node. */
  lemma {:induction false} SumOverRows(g: Graph, asms: seq<Assembly>, ns: seq<string>, it: Item, pn: string)
    requires forall k :: 0 <= k < |ns| ==>
               ns[k] in g.children && Occurrences(g.children[ns[k]], it, true) == multiset(RowsNamed(asms, ns[k]))[pn]
    ensures SumOver(g, ns, it, true) == RowsNaming(asms, ns, pn)
  {
    if ns != [] {
      var tail := ns[1..];
      assert forall k :: 0 <= k < |tail| ==> tail[k] == ns[k + 1];
      SumOverRows(g, asms, tail, it, pn);
    }
  }

  /**
   * The children of the assembly called `n` in a build, counted against
   * the rows: as many stand for a catalog part as rows of `n` name it, and
   * they are the item itself only when `n` is the first to use it.
   */
  lemma BuildCountsAt(asms: seq<Assembly>, partRows: seq<Row>, pn: string, n: string)
    requires DistinctNames(asms) && n in NamesOf(asms)
    requires pn in CatalogOf(partRows) && pn !in NamesOf(asms)
    ensures var children := Resolved(asms, partRows).g.children;
            var it := CatalogOf(partRows)[pn];
            && n in children
            && Occurrences(children[n], it, true) == multiset(RowsNamed(asms, n))[pn]
            && (forall f :: FirstUse(asms, pn, f) ==>
                  Occurrences(children[n], it, false) == if n == asms[f].name then multiset(asms[f].rows)[pn] else 0)
            && (!Referenced(asms, pn) ==> Occurrences(children[n], it, true) == 0)
  {
    var i :| 0 <= i < |asms| && asms[i].name == n;
    BuildOccurrences(asms, partRows, pn, i);
    RowsNamedAt(asms, i);
    forall f | FirstUse(asms, pn, f)
      ensures i != f ==> !FirstUse(asms, pn, i) && asms[i].name != asms[f].name
    {
      if i != f {
        FirstUseUnique(asms, pn, f, i);
      }
    }
    if !Referenced(asms, pn) {
      assert pn !in asms[i].rows;
    }
  }

  /** A successful build's objects are those the assemblies leave. */
  lemma BuildGraph(asms: seq<Assembly>, partRows: seq<Row>)
    requires Build(asms, partRows).result.Ok?
    ensures Build(asms, partRows).result.value.g == Resolved(asms, partRows).g
  {
  }

  /**
   * What `flat` of the root holds: a catalog part occurs in it, as itself
   * or as an alias, once for every row naming its PN in the assemblies
   * flattened (an assembly counts once per time it is flattened), and a
   * part no assembly names does not occur.
   */
  lemma FlatOfRoot(asms: seq<Assembly>, partRows: seq<Row>, pn: string, h: nat)
    requires DistinctNames(asms) && Build(asms, partRows).result.Ok?
    requires pn in CatalogOf(partRows) && pn !in NamesOf(asms)
    requires Finite(Build(asms, partRows).result.value.g, Build(asms, partRows).result.value.root, h)
    ensures var b := Build(asms, partRows).result.value;
            var it := CatalogOf(partRows)[pn];
            var flat := Flat(b.g, b.root, h);
            var visits := Visits(b.g, b.root, h);
            && Occurrences(flat, it, true) == RowsNaming(asms, visits, pn)
            && (!Referenced(asms, pn) ==> Occurrences(flat, it, true) == 0)
  {
    var b := Build(asms, partRows).result.value;
    var g := b.g;
    var it := CatalogOf(partRows)[pn];
    var visits := Visits(g, b.root, h);
    FlatVisitsBuilt(asms, partRows, h);
    CatalogEntries(partRows);
    FlatOccurrences(g, b.root, h, it, true);
    forall k | 0 <= k < |visits|
      ensures Occurrences(g.children[visits[k]], it, true) == multiset(RowsNamed(asms, visits[k]))[pn]
    {
      BuildCountsAt(asms, partRows, pn, visits[k]);
    }
    SumOverRows(g, asms, visits, it, pn);
    if !Referenced(asms, pn) {
      forall k | 0 <= k < |visits|
        ensures Occurrences(g.children[visits[k]], it, true) == 0
      {
        BuildCountsAt(asms, partRows, pn, visits[k]);
      }
      SumOverSingle(g, visits, it, true, b.root, 0);
    }
  }

  /** The assemblies a successful build flattens are assemblies of the tables. */
  lemma FlatVisitsBuilt(asms: seq<Assembly>, partRows: seq<Row>, h: nat)
    requires Build(asms, partRows).result.Ok?
    requires Finite(Build(asms, partRows).result.value.g, Build(asms, partRows).result.value.root, h)
    ensures Build(asms, partRows).result.value.g == Resolved(asms, partRows).g
    ensures var b := Build(asms, partRows).result.value;
            var visits := Visits(b.g, b.root, h);
            forall k :: 0 <= k < |visits| ==> visits[k] in NamesOf(asms)
  {
    BuildGraph(asms, partRows);
    WholeStage(asms, partRows);
    StageKeys(asms, CatalogOf(partRows), |asms|);
  }

  /**
   * The part itself occurs in `flat` of the root only through the first
   * assembly `f` to use it: once per row of `f` naming it, each time `f`
   * is flattened.
   */
  lemma FlatItselfCount(asms: seq<Assembly>, partRows: seq<Row>, pn: string, h: nat, f: int)
    requires DistinctNames(asms) && Build(asms, partRows).result.Ok?
    requires pn in CatalogOf(partRows) && pn !in NamesOf(asms) && FirstUse(asms, pn, f)
    requires Finite(Build(asms, partRows).result.value.g, Build(asms, partRows).result.value.root, h)
    ensures var b := Build(asms, partRows).result.value;
            Occurrences(Flat(b.g, b.root, h), CatalogOf(partRows)[pn], false)
            == multiset(Visits(b.g, b.root, h))[asms[f].name] * multiset(asms[f].rows)[pn]
  {
    var b := Build(asms, partRows).result.value;
    var g := b.g;
    var it := CatalogOf(partRows)[pn];
    var visits := Visits(g, b.root, h);
    var c := multiset(asms[f].rows)[pn];
    FlatVisitsBuilt(asms, partRows, h);
    CatalogEntries(partRows);
    FlatOccurrences(g, b.root, h, it, false);
    forall k | 0 <= k < |visits|
      ensures Occurrences(g.children[visits[k]], it, false) == if visits[k] == asms[f].name then c else 0
    {
      BuildCountsAt(asms, partRows, pn, visits[k]);
    }
    SumOverSingle(g, visits, it, false, asms[f].name, c);
  }

  /**
   * In the tree the source means to build -- the first assembly to use a
   * part is flattened once and lists the part once -- the flattened root
   * holds the item itself exactly once, and an alias for every other row
   * naming its PN in the assemblies flattened.
   */
  lemma OneItemRestAliases(asms: seq<Assembly>, partRows: seq<Row>, pn: string, h: nat, f: int)
    requires DistinctNames(asms) && Build(asms, partRows).result.Ok?
    requires pn in CatalogOf(partRows) && pn !in NamesOf(asms)
    requires Finite(Build(asms, partRows).result.value.g, Build(asms, partRows).result.value.root, h)
    requires FirstUse(asms, pn, f) && multiset(asms[f].rows)[pn] == 1
    requires multiset(Visits(Build(asms, partRows).result.value.g, Build(asms, partRows).result.value.root, h))[asms[f].name] == 1
    ensures var b := Build(asms, partRows).result.value;
            var it := CatalogOf(partRows)[pn];
            var flat := Flat(b.g, b.root, h);
            var n := RowsNaming(asms, Visits(b.g, b.root, h), pn);
            && n >= 1
            && Occurrences(flat, it, false) == 1
            && AliasesOf(flat, it) == n - 1
  {
    var b := Build(asms, partRows).result.value;
    FlatOfRoot(asms, partRows, pn, h);
    FlatItselfCount(asms, partRows, pn, h, f);
    OccurrencesSplit(Flat(b.g, b.root, h), CatalogOf(partRows)[pn]);
  }

  // ---------------------------------------------------------------------
  // The unresolved-row handler as written (see README, Findings)
  // ---------------------------------------------------------------------

  /**
   * The row loop as the source is written: the part lookup is a dict
   * subscript, whose failure is a `KeyError`, while the handler around it
   * catches only `IndexError`; the first unresolvable row therefore ends
   * the build instead of being reported and skipped.
   */
  function ResolveRowsAsWritten(g: Graph, u: seq<string>, name: string, rows: seq<string>,
                                names: set<string>, catalog: map<string, Item>): Result<Pending>
    decreases |rows|
  {
    if rows == [] then Ok(Pending(g, u, []))
    else
      var n := |rows| - 1;
      match ResolveRowsAsWritten(g, u, name, rows[..n], names, catalog)
      case Err(e) => Err(e)
      case Ok(p) =>
        if Resolvable(rows[n], names, catalog) then Ok(ResolveRow(p, name, rows[n], names, catalog))
        else Err(KeyError(rows[n]))
  }

  /** As written, rows resolve as intended until the first unresolvable one, which raises. */
  lemma {:induction false} AsWrittenRaisesOnFirstUnresolved(g: Graph, u: seq<string>, name: string, rows: seq<string>,
                                                            names: set<string>, catalog: map<string, Item>)
    ensures var un := UnresolvedRows(rows, names, catalog);
            ResolveRowsAsWritten(g, u, name, rows, names, catalog) ==
              if un == [] then Ok(ResolveRows(g, u, name, rows, names, catalog)) else Err(KeyError(un[0]))
    decreases |rows|
  {
    if rows != [] {
      AsWrittenRaisesOnFirstUnresolved(g, u, name, rows[..|rows| - 1], names, catalog);
    }
  }

  /** An assembly `TOP` with one row `P9` that no table knows: intended, a warning and an empty root; as written, a `KeyError`. */
  lemma UnknownPartExample()
    ensures var g := Graph(map["TOP" := []], map[], {}, map[]);
            ResolveRowsAsWritten(g, [], "TOP", ["P9"], {"TOP"}, map[]) == Err(KeyError("P9"))
    ensures Build([Assembly("TOP", ["P9"])], []) ==
            Outcome(Ok(Bom("TOP", Graph(map["TOP" := []], map[], {}, map[]), map["TOP" := map[]])), ["P9"])
  {
    var asms := [Assembly("TOP", ["P9"])];
    var names := NamesOf(asms);
    var catalog: map<string, Item> := map[];
    assert names == {"TOP"} by {
      assert asms[0].name == "TOP";
    }
    assert CatalogOf([]) == catalog;
    var g0 := Initial(names).g;
    assert g0 == Graph(map["TOP" := []], map[], {}, map[]);
    assert ["P9"][..0] == [];
    var p := ResolveRows(g0, [], "TOP", ["P9"], names, catalog);
    assert p == Pending(g0, ["P9"], []);
    assert PartItems([]) == {};
    assert asms[..0] == [];
    var st := Resolved(asms, []);
    assert st == Commit(p, "TOP");
    assert (map it | it in PartItems([]) :: "TOP") == map[];
    assert st == State(Graph(map["TOP" := []], map[], {}, map[]), ["P9"]);
    assert Roots(asms, map[]) == ["TOP"];
  }
}
