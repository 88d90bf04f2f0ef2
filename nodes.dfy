/**
 * The nodes of a resolved bill of materials and the read-only queries of
 * the `BOM` class in BOM.py: the `Set` protocol over a node's children,
 * `parts`, `assemblies`, `flat` and `quantities`.
 *
 * The Python objects are linked by references; here they are values.  An
 * assembly (`BOM` object) is identified by its name, which is unique
 * because assemblies are the keys of a dict.  A `Child` is one entry of a
 * `children` list: the catalog `Item` itself, an `ItemLink` alias, or a
 * sub-assembly.  Every `ItemLink` is a distinct object; the model names it
 * by the assembly that holds it and its position in that assembly's list.
 */
module Nodes {
  import opened Catalog

  datatype Child =
    | Part(item: Item)
    | Link(target: Item, asm: string, pos: nat)
    | Sub(name: string)

  /**
   * The state of all assembly objects:
   * `children` — each assembly's `children` list;
   * `parent`   — each assembly's `parent`, where it has one;
   * `tagged`   — the assemblies whose `item_type` was set to 'assembly';
   * `owner`    — the `parent` of each catalog `Item` that has been placed.
   */
  datatype Graph = Graph(
    children: map<string, seq<Child>>,
    parent: map<string, string>,
    tagged: set<string>,
    owner: map<Item, string>)

  /** The `item_type` a child reports; an alias forwards to its target. */
  function TypeOf(g: Graph, c: Child): Kind
  {
    match c
    case Part(it) => it.kind
    case Link(t, _, _) => t.kind
    case Sub(n) => if n in g.tagged then AssemblyKind else NoKind
  }

  // ---------------------------------------------------------------------
  // The Set protocol: __iter__, __len__ and __contains__ (BOM.py:139-147)
  // ---------------------------------------------------------------------

  /** `__iter__`: the children, in list order. */
  function Iter(g: Graph, name: string): seq<Child>
    requires name in g.children
  {
    g.children[name]
  }

  /** `__len__`: the number of children the iteration yields. */
  function Len(g: Graph, name: string): (n: nat)
    requires name in g.children
    ensures n == |Iter(g, name)|
  {
    |g.children[name]|
  }

  /** `__contains__`: whether the iteration yields `c` at some position. */
  function Contains(g: Graph, name: string, c: Child): (b: bool)
    requires name in g.children
    ensures b <==> exists i :: 0 <= i < Len(g, name) && Iter(g, name)[i] == c
  {
    var cs := Iter(g, name);
    c in cs
  }

  // ---------------------------------------------------------------------
  // parts and assemblies (BOM.py:158-164)
  // ---------------------------------------------------------------------

  /** The children of type `k`, in their order: `[c for c in cs if c.item_type == k]`. */
  function OfKind(g: Graph, cs: seq<Child>, k: Kind): (r: seq<Child>)
    ensures |r| <= |cs|
    ensures forall i :: 0 <= i < |r| ==> TypeOf(g, r[i]) == k
  {
    if cs == [] then []
    else
      (if TypeOf(g, cs[0]) == k then [cs[0]] else []) + OfKind(g, cs[1..], k)
  }

  /** `parts`: the children whose item type is 'part'. */
  function Parts(g: Graph, name: string): seq<Child>
    requires name in g.children
  {
    OfKind(g, g.children[name], PartKind)
  }

  /** `assemblies`: the children whose item type is 'assembly'. */
  function Assemblies(g: Graph, name: string): seq<Child>
    requires name in g.children
  {
    OfKind(g, g.children[name], AssemblyKind)
  }

  /** A child is kept by the filter exactly when it is a child of type `k`. */
  lemma {:induction false} OfKindMembers(g: Graph, cs: seq<Child>, k: Kind)
    ensures forall c :: c in OfKind(g, cs, k) <==> c in cs && TypeOf(g, c) == k
  {
    if cs != [] {
      OfKindMembers(g, cs[1..], k);
      assert forall c :: c in cs <==> c == cs[0] || c in cs[1..];
    }
  }

  /** The filter keeps nothing when no child has type `k`. */
  lemma {:induction false} OfKindNone(g: Graph, cs: seq<Child>, k: Kind)
    requires forall c :: c in cs ==> TypeOf(g, c) != k
    ensures OfKind(g, cs, k) == []
  {
    if cs != [] {
      assert cs[0] in cs;
      OfKindNone(g, cs[1..], k);
    }
  }

  /** One filter step on a child in front. */
  lemma OfKindCons(g: Graph, x: Child, t: seq<Child>, k: Kind)
    ensures OfKind(g, [x] + t, k) == (if TypeOf(g, x) == k then [x] else []) + OfKind(g, t, k)
  {
    assert ([x] + t)[1..] == t;
  }

  /** Filtering keeps the order: the filter of a concatenation is the concatenation of the filters. */
  lemma {:induction false} OfKindAppend(g: Graph, a: seq<Child>, b: seq<Child>, k: Kind)
    ensures OfKind(g, a + b, k) == OfKind(g, a, k) + OfKind(g, b, k)
  {
    if a == [] {
      assert a + b == b;
    } else {
      var x, t := a[0], a[1..];
      assert a + b == [x] + (t + b);
      assert a == [x] + t;
      OfKindCons(g, x, t + b, k);
      OfKindCons(g, x, t, k);
      OfKindAppend(g, t, b, k);
      if TypeOf(g, x) == k {
        assert [x] + (OfKind(g, t, k) + OfKind(g, b, k)) == ([x] + OfKind(g, t, k)) + OfKind(g, b, k);
      } else {
        assert [] + OfKind(g, t + b, k) == OfKind(g, t + b, k);
        assert [] + OfKind(g, t, k) == OfKind(g, t, k);
      }
    }
  }

  /** Every child has one of the three item types, so the three filters share the children out. */
  lemma {:induction false} OfKindPartition(g: Graph, cs: seq<Child>)
    ensures |OfKind(g, cs, PartKind)| + |OfKind(g, cs, AssemblyKind)| + |OfKind(g, cs, NoKind)| == |cs|
  {
    if cs != [] {
      OfKindPartition(g, cs[1..]);
    }
  }

  /**
   * When no child is left untyped, the Set protocol sees exactly the parts
   * and the assemblies: `len` is their total and `in` one or the other.
   */
  lemma SetProtocolSplits(g: Graph, name: string)
    requires name in g.children
    requires forall c :: c in g.children[name] ==> TypeOf(g, c) != NoKind
    ensures Len(g, name) == |Parts(g, name)| + |Assemblies(g, name)|
    ensures forall c :: Contains(g, name, c) <==> c in Parts(g, name) || c in Assemblies(g, name)
  {
    var cs := g.children[name];
    OfKindPartition(g, cs);
    OfKindMembers(g, cs, PartKind);
    OfKindMembers(g, cs, AssemblyKind);
    OfKindNone(g, cs, NoKind);
  }

  // ---------------------------------------------------------------------
  // flat (BOM.py:166-175)
  // ---------------------------------------------------------------------

  /**
   * The sub-assemblies below `name` form chains of fewer than `h` nodes,
   * and every child of type 'assembly' is an assembly node.  The graph of
   * a build can have cycles that the source's tree cannot: anytree detaches
   * a node from its earlier parent when it is given a new one, and refuses
   * a parent that would close a loop, while the graph keeps every `Sub`
   * child.  `flat` is defined only below nodes where the graph is finite.
   */
  ghost predicate Finite(g: Graph, name: string, h: nat)
    decreases h
  {
    name in g.children && h > 0 &&
    forall c :: c in g.children[name] && TypeOf(g, c) == AssemblyKind ==>
      c.Sub? && Finite(g, c.name, h - 1)
  }

  /** Every one of `subs` is an assembly node below which chains are shorter than `h`. */
  ghost predicate AllFinite(g: Graph, subs: seq<Child>, h: nat)
  {
    forall i :: 0 <= i < |subs| ==> subs[i].Sub? && Finite(g, subs[i].name, h)
  }

  /** The sub-assemblies of a node below which chains are shorter than `h` are shorter than `h - 1`. */
  lemma FiniteAssemblies(g: Graph, name: string, h: nat)
    requires Finite(g, name, h)
    ensures AllFinite(g, Assemblies(g, name), h - 1)
  {
    var subs := Assemblies(g, name);
    OfKindMembers(g, g.children[name], AssemblyKind);
    assert forall i :: 0 <= i < |subs| ==> subs[i] in subs;
  }

  /**
   * `flat`: this node's parts in child order, then each sub-assembly's own
   * flat list in child order.  Its result holds only 'part' items, never an
   * assembly node, and starts with the node's own parts.
   */
  function Flat(g: Graph, name: string, ghost h: nat): (r: seq<Child>)
    requires Finite(g, name, h)
    ensures forall i :: 0 <= i < |r| ==> !r[i].Sub? && TypeOf(g, r[i]) == PartKind
    ensures |Parts(g, name)| <= |r| && r[..|Parts(g, name)|] == Parts(g, name)
    decreases h, 0
  {
    FiniteAssemblies(g, name, h);
    Parts(g, name) + FlatAll(g, Assemblies(g, name), h - 1)
  }

  /** The flat lists of the given sub-assemblies, concatenated in order. */
  function FlatAll(g: Graph, subs: seq<Child>, ghost h: nat): (r: seq<Child>)
    requires AllFinite(g, subs, h)
    ensures forall i :: 0 <= i < |r| ==> !r[i].Sub? && TypeOf(g, r[i]) == PartKind
    decreases h, 1, |subs|
  {
    if subs == [] then [] else Flat(g, subs[0].name, h) + FlatAll(g, subs[1..], h)
  }

  /** The flat lists of the first `i + 1` of `subs` extend those of the first `i` by one more. */
  lemma FlatAllPrefixStep(g: Graph, subs: seq<Child>, i: nat, h: nat)
    requires AllFinite(g, subs, h) && i < |subs|
    ensures AllFinite(g, subs[..i], h) && AllFinite(g, subs[..i + 1], h) && Finite(g, subs[i].name, h)
    ensures FlatAll(g, subs[..i + 1], h) == FlatAll(g, subs[..i], h) + Flat(g, subs[i].name, h)
  {
    AllFinitePrefix(g, subs, i + 1, h);
    assert subs[..i + 1] == subs[..i] + [subs[i]];
    FlatAllSnoc(g, subs[..i], subs[i], h);
  }

  lemma AllFinitePrefix(g: Graph, subs: seq<Child>, n: nat, h: nat)
    requires AllFinite(g, subs, h) && n <= |subs|
    ensures AllFinite(g, subs[..n], h)
  {
    assert forall j :: 0 <= j < n ==> subs[..n][j] == subs[j];
  }

  lemma AllFiniteTail(g: Graph, subs: seq<Child>, h: nat)
    requires AllFinite(g, subs, h) && |subs| > 0
    ensures AllFinite(g, subs[1..], h)
  {
    assert forall i :: 0 <= i < |subs| - 1 ==> subs[1..][i] == subs[i + 1];
  }

  /** Expanding one more sub-assembly appends its flat list. */
  lemma {:induction false} FlatAllSnoc(g: Graph, subs: seq<Child>, c: Child, h: nat)
    requires AllFinite(g, subs + [c], h)
    ensures AllFinite(g, subs, h) && c.Sub? && Finite(g, c.name, h)
    ensures FlatAll(g, subs + [c], h) == FlatAll(g, subs, h) + Flat(g, c.name, h)
  {
    var s := subs + [c];
    AllFinitePrefix(g, s, |subs|, h);
    assert s[..|subs|] == subs;
    assert s[|subs|] == c;
    if subs != [] {
      assert s[1..] == subs[1..] + [c];
      AllFiniteTail(g, s, h);
      FlatAllSnoc(g, subs[1..], c, h);
      assert FlatAll(g, s, h) == Flat(g, subs[0].name, h) + FlatAll(g, s[1..], h);
    } else {
      assert s[1..] == [];
    }
  }

  /** The height is only a termination measure: any height that suffices gives the same list. */
  lemma {:induction false} FlatHeightIrrelevant(g: Graph, name: string, h1: nat, h2: nat)
    requires Finite(g, name, h1) && Finite(g, name, h2)
    ensures Flat(g, name, h1) == Flat(g, name, h2)
    decreases h1, 0
  {
    FiniteAssemblies(g, name, h1);
    FiniteAssemblies(g, name, h2);
    FlatAllHeightIrrelevant(g, Assemblies(g, name), h1 - 1, h2 - 1);
  }

  lemma {:induction false} FlatAllHeightIrrelevant(g: Graph, subs: seq<Child>, h1: nat, h2: nat)
    requires AllFinite(g, subs, h1) && AllFinite(g, subs, h2)
    ensures FlatAll(g, subs, h1) == FlatAll(g, subs, h2)
    decreases h1, 1, |subs|
  {
    if subs != [] {
      FlatHeightIrrelevant(g, subs[0].name, h1, h2);
      FlatAllHeightIrrelevant(g, subs[1..], h1, h2);
    }
  }

  /** A node without children flattens to the empty list; one without sub-assemblies to its parts. */
  lemma FlatLeafNode(g: Graph, name: string, h: nat)
    requires Finite(g, name, h) && Assemblies(g, name) == []
    ensures Flat(g, name, h) == Parts(g, name)
    ensures g.children[name] == [] ==> Flat(g, name, h) == []
  {
  }

  /**
   * The `flat` property as the source computes it: start from a fresh copy
   * of `parts` and extend it with each sub-assembly's `flat`.  The children
   * are never changed, so calling it again gives the same list.
   */
  method FlatItems(g: Graph, name: string, ghost h: nat) returns (items: seq<Child>)
    requires Finite(g, name, h)
    ensures items == Flat(g, name, h)
    decreases h
  {
    FlatUnfold(g, name, h);
    ghost var k: nat := h - 1;
    var parts := Parts(g, name);
    var subs := Assemblies(g, name);
    items := parts;
    for i := 0 to |subs|
      invariant AllFinite(g, subs[..i], k)
      invariant items == parts + FlatAll(g, subs[..i], k)
    {
      FlatAllPrefixStep(g, subs, i, k);
      var more := FlatItems(g, subs[i].name, k);
      items := items + more;
    }
    assert subs[..|subs|] == subs;
  }

  /** One step of `flat`: the parts, then the sub-assemblies' lists. */
  lemma FlatUnfold(g: Graph, name: string, h: nat)
    requires Finite(g, name, h)
    ensures AllFinite(g, Assemblies(g, name), h - 1)
    ensures Flat(g, name, h) == Parts(g, name) + FlatAll(g, Assemblies(g, name), h - 1)
  {
    FiniteAssemblies(g, name, h);
  }

  // ---------------------------------------------------------------------
  // What `flat` collects, counted per assembly it expands
  // ---------------------------------------------------------------------

  /** Whether child `c` is the catalog item `it` itself or, when `aliases` holds, one of its aliases. */
  predicate StandsFor(c: Child, it: Item, aliases: bool)
  {
    c == Part(it) || (aliases && c.Link? && c.target == it)
  }

  /** How many of `cs` stand for `it`. */
  function Occurrences(cs: seq<Child>, it: Item, aliases: bool): nat
  {
    if cs == [] then 0
    else (if StandsFor(cs[0], it, aliases) then 1 else 0) + Occurrences(cs[1..], it, aliases)
  }

  lemma {:induction false} OccurrencesAppend(a: seq<Child>, b: seq<Child>, it: Item, aliases: bool)
    ensures Occurrences(a + b, it, aliases) == Occurrences(a, it, aliases) + Occurrences(b, it, aliases)
  {
    if a != [] {
      assert (a + b)[0] == a[0] && (a + b)[1..] == a[1..] + b;
      OccurrencesAppend(a[1..], b, it, aliases);
    } else {
      assert a + b == b;
    }
  }

  /** Only the item itself or an alias of it stands for a catalog item. */
  lemma OccurrencesSnoc(cs: seq<Child>, c: Child, it: Item, aliases: bool)
    ensures Occurrences(cs + [c], it, aliases)
         == Occurrences(cs, it, aliases) + (if StandsFor(c, it, aliases) then 1 else 0)
  {
    OccurrencesAppend(cs, [c], it, aliases);
    assert [c][1..] == [];
  }

  /** How many of `cs` are aliases of `it`. */
  function AliasesOf(cs: seq<Child>, it: Item): nat
  {
    if cs == [] then 0
    else (if cs[0].Link? && cs[0].target == it then 1 else 0) + AliasesOf(cs[1..], it)
  }

  /** What stands for an item is the item itself or an alias of it, never both. */
  lemma {:induction false} OccurrencesSplit(cs: seq<Child>, it: Item)
    ensures Occurrences(cs, it, true) == Occurrences(cs, it, false) + AliasesOf(cs, it)
  {
    if cs != [] {
      OccurrencesSplit(cs[1..], it);
    }
  }

  /** Keeping only the children of type 'part' keeps every child that stands for a part item. */
  lemma {:induction false} OccurrencesOfParts(g: Graph, cs: seq<Child>, it: Item, aliases: bool)
    requires it.kind == PartKind
    ensures Occurrences(OfKind(g, cs, PartKind), it, aliases) == Occurrences(cs, it, aliases)
  {
    if cs != [] {
      var head := if TypeOf(g, cs[0]) == PartKind then [cs[0]] else [];
      OfKindCons(g, cs[0], cs[1..], PartKind);
      assert cs == [cs[0]] + cs[1..];
      OccurrencesOfParts(g, cs[1..], it, aliases);
      OccurrencesAppend(head, OfKind(g, cs[1..], PartKind), it, aliases);
      assert Occurrences(head, it, aliases) == if StandsFor(cs[0], it, aliases) then 1 else 0 by {
        if head != [] { assert head[1..] == []; }
      }
    }
  }

  /**
   * The assembly nodes whose `flat` is evaluated when `name` is
   * flattened, in call order: `name` itself, then those below each of its
   * sub-assemblies.  A node reached along two paths appears twice.
   */
  function Visits(g: Graph, name: string, ghost h: nat): (ns: seq<string>)
    requires Finite(g, name, h)
    ensures |ns| >= 1 && ns[0] == name
    ensures forall i :: 0 <= i < |ns| ==> ns[i] in g.children
    decreases h, 0
  {
    FiniteAssemblies(g, name, h);
    [name] + VisitsAll(g, Assemblies(g, name), h - 1)
  }

  function VisitsAll(g: Graph, subs: seq<Child>, ghost h: nat): (ns: seq<string>)
    requires AllFinite(g, subs, h)
    ensures forall i :: 0 <= i < |ns| ==> ns[i] in g.children
    decreases h, 1, |subs|
  {
    if subs == [] then [] else Visits(g, subs[0].name, h) + VisitsAll(g, subs[1..], h)
  }

  /** How many children of the nodes `ns` stand for `it`, one term per node. */
  function SumOver(g: Graph, ns: seq<string>, it: Item, aliases: bool): nat
  {
    if ns == [] then 0
    else (if ns[0] in g.children then Occurrences(g.children[ns[0]], it, aliases) else 0)
         + SumOver(g, ns[1..], it, aliases)
  }

  lemma {:induction false} SumOverAppend(g: Graph, a: seq<string>, b: seq<string>, it: Item, aliases: bool)
    ensures SumOver(g, a + b, it, aliases) == SumOver(g, a, it, aliases) + SumOver(g, b, it, aliases)
  {
    if a != [] {
      assert (a + b)[0] == a[0] && (a + b)[1..] == a[1..] + b;
      SumOverAppend(g, a[1..], b, it, aliases);
    } else {
      assert a + b == b;
    }
  }

  /** When only the node `n` has children standing for `it`, `c` of them, the sum counts `n`'s entries. */
  lemma {:induction false} SumOverSingle(g: Graph, ns: seq<string>, it: Item, aliases: bool, n: string, c: nat)
    requires forall k :: 0 <= k < |ns| ==>
               ns[k] in g.children && Occurrences(g.children[ns[k]], it, aliases) == if ns[k] == n then c else 0
    ensures SumOver(g, ns, it, aliases) == multiset(ns)[n] * c
  {
    if ns == [] {
      assert multiset(ns)[n] == 0;
    } else {
      var tail := ns[1..];
      assert forall k :: 0 <= k < |tail| ==> tail[k] == ns[k + 1];
      SumOverSingle(g, tail, it, aliases, n, c);
      var m := multiset(tail)[n];
      var here := if ns[0] == n then 1 else 0;
      assert multiset(ns)[n] == here + m by {
        assert ns == [ns[0]] + tail;
        assert multiset(ns) == multiset([ns[0]]) + multiset(tail);
      }
      assert SumOver(g, ns, it, aliases) == here * c + m * c;
      Distribute(here, m, c);
    }
  }

  lemma Distribute(a: nat, b: nat, c: nat)
    ensures (a + b) * c == a * c + b * c
  {
  }

  /**
   * Every part item or alias in a node's `flat` list is a child of one of
   * the nodes it expands: the count in the list is the sum of the counts
   * among those nodes' children, once per visit.
   */
  lemma {:induction false} FlatOccurrences(g: Graph, name: string, h: nat, it: Item, aliases: bool)
    requires Finite(g, name, h) && it.kind == PartKind
    ensures Occurrences(Flat(g, name, h), it, aliases) == SumOver(g, Visits(g, name, h), it, aliases)
    decreases h, 0
  {
    FlatUnfold(g, name, h);
    var subs := Assemblies(g, name);
    var rest := VisitsAll(g, subs, h - 1);
    OccurrencesAppend(Parts(g, name), FlatAll(g, subs, h - 1), it, aliases);
    OccurrencesOfParts(g, g.children[name], it, aliases);
    FlatAllOccurrences(g, subs, h - 1, it, aliases);
    assert Visits(g, name, h) == [name] + rest;
    assert ([name] + rest)[1..] == rest;
  }

  lemma {:induction false} FlatAllOccurrences(g: Graph, subs: seq<Child>, h: nat, it: Item, aliases: bool)
    requires AllFinite(g, subs, h) && it.kind == PartKind
    ensures Occurrences(FlatAll(g, subs, h), it, aliases) == SumOver(g, VisitsAll(g, subs, h), it, aliases)
    decreases h, 1, |subs|
  {
    if subs != [] {
      AllFiniteTail(g, subs, h);
      FlatOccurrences(g, subs[0].name, h, it, aliases);
      FlatAllOccurrences(g, subs[1..], h, it, aliases);
      OccurrencesAppend(Flat(g, subs[0].name, h), FlatAll(g, subs[1..], h), it, aliases);
      SumOverAppend(g, Visits(g, subs[0].name, h), VisitsAll(g, subs[1..], h), it, aliases);
    }
  }

  // ---------------------------------------------------------------------
  // quantities (BOM.py:177-179)
  // ---------------------------------------------------------------------

  /** A `dict(Counter(...))`: (key, count) pairs in insertion order. */
  type Tally = seq<(Child, nat)>

  predicate DistinctKeys(q: Tally)
  {
    forall i, j :: 0 <= i < j < |q| ==> q[i].0 != q[j].0
  }

  /** The count stored for `c`, or 0 when `c` is not a key. */
  function CountOf(q: Tally, c: Child): nat
  {
    if q == [] then 0 else if q[0].0 == c then q[0].1 else CountOf(q[1..], c)
  }

  /** The sum of all counts. */
  function Total(q: Tally): nat
  {
    if q == [] then 0 else q[0].1 + Total(q[1..])
  }

  /** Whether `c` is a key. */
  function HasKey(q: Tally, c: Child): bool
  {
    exists i :: 0 <= i < |q| && q[i].0 == c
  }

  /** The keys of a tally with one more pair in front. */
  lemma HasKeyCons(e: (Child, nat), t: Tally)
    ensures forall x :: HasKey([e] + t, x) <==> x == e.0 || HasKey(t, x)
  {
    var r := [e] + t;
    assert r[0].0 == e.0;
    forall x ensures HasKey(r, x) <==> x == e.0 || HasKey(t, x) {
      if HasKey(r, x) && x != e.0 {
        var i :| 0 <= i < |r| && r[i].0 == x;
        assert t[i - 1].0 == x;
      }
      if HasKey(t, x) {
        var i :| 0 <= i < |t| && t[i].0 == x;
        assert r[i + 1].0 == x;
      }
    }
  }

  /** A pair in front keeps the keys distinct when its key is new. */
  lemma DistinctCons(e: (Child, nat), t: Tally)
    requires DistinctKeys(t) && !HasKey(t, e.0)
    ensures DistinctKeys([e] + t)
  {
    var r := [e] + t;
    forall i, j | 0 <= i < j < |r| ensures r[i].0 != r[j].0 {
      if i == 0 {
        assert r[j].0 == t[j - 1].0;
      } else {
        assert r[i].0 == t[i - 1].0 && r[j].0 == t[j - 1].0;
      }
    }
  }

  /** Counting one more occurrence of `c`: its count goes up by one, a new key goes last. */
  function Bump(q: Tally, c: Child): (r: Tally)
    requires DistinctKeys(q)
    ensures DistinctKeys(r)
    ensures Total(r) == Total(q) + 1
    ensures forall x :: CountOf(r, x) == CountOf(q, x) + (if x == c then 1 else 0)
    ensures forall x :: HasKey(r, x) <==> HasKey(q, x) || x == c
  {
    if q == [] then
      HasKeyCons((c, 1), []);
      [(c, 1)]
    else
      assert q == [q[0]] + q[1..];
      HasKeyCons(q[0], q[1..]);
      if q[0].0 == c then
        assert CountOf(q[1..], c) == 0 by { NotKeyCountsZero(q[1..], c); }
        var r := [(c, q[0].1 + 1)] + q[1..];
        HasKeyCons((c, q[0].1 + 1), q[1..]);
        DistinctCons((c, q[0].1 + 1), q[1..]);
        r
      else
        var rest := Bump(q[1..], c);
        HasKeyCons(q[0], rest);
        DistinctCons(q[0], rest);
        [q[0]] + rest
  }

  /** A key that is absent has count 0. */
  lemma {:induction false} NotKeyCountsZero(q: Tally, c: Child)
    requires !HasKey(q, c)
    ensures CountOf(q, c) == 0
  {
    if q != [] {
      assert q[0].0 != c;
      NotKeyCountsZero(q[1..], c);
    }
  }

  /**
   * `quantities`: `dict(Counter(flat))`.  Its keys are exactly the elements
   * of the list, each once, and each count is that element's number of
   * occurrences, so the counts add up to the length of the list.  Keys are
   * the elements themselves: an alias is a key of its own, not its target's.
   */
  function Quantities(flat: seq<Child>): (q: Tally)
    ensures DistinctKeys(q)
    ensures forall c :: CountOf(q, c) == multiset(flat)[c]
    ensures forall c :: HasKey(q, c) <==> c in flat
    ensures Total(q) == |flat|
  {
    if flat == [] then []
    else
      var n := |flat| - 1;
      assert flat == flat[..n] + [flat[n]];
      Bump(Quantities(flat[..n]), flat[n])
  }
}
