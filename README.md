# python-BOM: the BOM graph builder and flattener, in Dafny

This project models the in-memory core of `BOM.py`:

- **`fn_base`** derives an assembly's name from its spreadsheet's file name.
- **`BOM.from_folder`** works on already loaded tables:
  - It builds the master parts catalog keyed by part number (PN).
  - It walks every assembly's rows, in dict order and row order. Each row becomes one of:
    - a sub-assembly child;
    - the catalog `Item` itself;
    - an `ItemLink` alias, when an earlier assembly already owns the part.
  - It returns the single assembly that has no parent.
- **Child queries**: the `Set` protocol (`__iter__`, `__len__`, `__contains__`), plus `parts` and `assemblies`.
- **Flattening and counting**: the recursive `flat` and `quantities`.

Modules, one per concern:

- `FileNames` (`filenames.dfy`): `str.split`, `str.join` and `fn_base`.
- `Catalog` (`catalog.dfy`): parts-table rows and the catalog dict comprehension.
- `Nodes` (`nodes.dfy`): the child variant `Part | Link | Sub`, and the state of all BOM objects as one `Graph` value. The `Graph` holds:
  - each assembly's children;
  - each assembly's parent;
  - the assemblies tagged `item_type == 'assembly'`;
  - each catalog item's parent (its owner).

  It also holds the child queries, `flat` (a function, plus the loop `FlatItems` proved equal to it) and `quantities`.
- `Resolve` (`resolve.dfy`): the resolution loop. The specification functions (`ResolveRow`, `ResolveRows`, `Commit`, `Process`, `Build`) are left folds. The method `FromFolder` runs the two nested loops and is proved equal to `Build`. The lemmas say what the result holds.
- `Scenarios` (`scenarios.dfy`): one two-level build worked out in full.

Identity of objects:

- An assembly is identified by its name, which is its dict key.
- A catalog item is identified by its value. The catalog is keyed by PN, so two items never coincide (`Catalog.KeyedInjective`).
- Each `ItemLink` alias is a fresh object. It is identified by its target, the assembly holding it and its position there.

`flat` recurses without a cycle check. The model does not detach a re-parented sub-assembly or raise `LoopError` (see "Left out"). A sub-assembly named by several assemblies therefore stays a child of each of them, and the model's `Graph` can hold cycles that anytree's tree cannot. So `Flat` takes a depth bound `h` and requires `Finite(g, name, h)`: every sub-assembly chain below `name` ends within `h` levels. The result does not depend on `h` (`FlatHeightIrrelevant`).

Three behaviours of the code that are easy to get wrong:

- The code raises no error when two assemblies name the same sub-assembly: the later one becomes its parent.
- `quantities` counts objects. Each alias is a separate key, and is not merged into its target's count (`Scenarios.ExampleFlat`).
- A PN repeated in the parts table keeps its last row (`Catalog.CatalogLastWins`).

## Model

| member | source | states |
|---|---|---|
| FileNames.Split | BOM.py:62 | `str.split` on `.` gives at least one piece. No piece contains the separator. There is exactly one piece iff the string has no separator. |
| FileNames.JoinSplit | BOM.py:62 | Joining the pieces of a split with the same separator gives back the original string. |
| FileNames.SplitOfJoin | BOM.py:62 | Splitting a join of separator-free pieces (at least one) gives back exactly those pieces. |
| FileNames.FnBase | BOM.py:51-62 | A name without a dot gives `""`. A name with a dot gives a strictly shorter base such that the name is base + `.` + a dot-free last segment. In other words, exactly the last dotted segment is removed. |
| FileNames.FnBaseUnique | BOM.py:51-62 | For every base and every dot-free extension, `fn_base(base + "." + ext) == base`. This is the converse of the `FnBase` contract, so the two together characterise the function. |
| FileNames.FnBaseExample | BOM.py:55 | `Foo_12.34.xlsx` gives `Foo_12.34`. |
| FileNames.FnBaseList | BOM.py:60-61 | The list form returns one base per input, position by position. |
| Catalog.CatalogKeys | BOM.py:210 | The catalog's keys are exactly the PNs of the parts-table rows. |
| Catalog.CatalogEntries | BOM.py:210 | Every entry is keyed by its own PN and has item type `'part'`. |
| Catalog.CatalogLastWins | BOM.py:210 | For a PN that occurs several times, the entry is the item built from its last row. |
| Nodes.OfKind | BOM.py:158-164 | The filter behind `parts` and `assemblies` is no longer than the children, and every kept child has the requested item type. |
| Nodes.OfKindMembers | BOM.py:158-164 | A child is kept iff it is among the children and has the requested item type. |
| Nodes.OfKindAppend | BOM.py:158-164 | Filtering a concatenation is the concatenation of the filtered halves, so child order is kept. |
| Nodes.OfKindPartition | BOM.py:158-164 | Children of type part, assembly and untyped add up to all children. |
| Nodes.SetProtocolSplits | BOM.py:139-164 | When no child is untyped, `len == len(parts) + len(assemblies)`, and `in` holds iff the child is in `parts` or in `assemblies`. |
| Nodes.Flat | BOM.py:166-175 | `flat` never contains an assembly node. Every element has type `'part'`. The result starts with this node's own `parts`, in order. |
| Nodes.FlatLeafNode | BOM.py:166-175 | A node without assembly children flattens to its `parts`. A node without children flattens to `[]`. |
| Nodes.FlatHeightIrrelevant | BOM.py:166-175 | Any two depth bounds under which the tree is finite give the same flat list. |
| Nodes.FlatItems | BOM.py:166-175 | The loop (`items = parts`, then `items += assem.flat` for each assembly) returns exactly `Flat`. It changes no child list. |
| Nodes.FlatOccurrences | BOM.py:166-175 | A catalog item occurs in a node's `flat` (as itself, or counting aliases too) exactly as often as among the children of the nodes `flat` expands, summed once per expansion. |
| Nodes.Bump | BOM.py:179 | One `Counter` update keeps keys distinct and adds 1 to the total. It raises the count of that element alone by one, and adds the element as a key if it was new. |
| Nodes.Quantities | BOM.py:177-179 | `dict(Counter(flat))` has distinct keys, exactly the elements of `flat`. Each count is that element's number of occurrences, and the counts sum to `len(flat)`. |
| Resolve.FromFolder | BOM.py:210-242 | The nested loops, which update parents, item types, children and part owners in place, produce exactly `Build`'s result and warnings. |
| Resolve.ResolvableRowsMembers | BOM.py:215-231 | A PN is among the rows that produce a child iff it is a row naming an assembly or a catalog part. |
| Resolve.RowsChildren | BOM.py:214-231 | One assembly's list holds one child per resolvable row, in row order. The child is the sub-assembly, else an alias when the part already had an owner, else the item. Committed children and owners are untouched while the rows are read. |
| Resolve.RowsParents | BOM.py:216-218 | Each assembly named in the rows gets this assembly as its parent, with no check of an earlier parent. Parents of other assemblies are unchanged. |
| Resolve.RowsTagged | BOM.py:216-219 | The assemblies tagged `'assembly'` gain exactly those named in the rows. |
| Resolve.RowsWarnings | BOM.py:222-226 | The warnings gain exactly the rows in neither table, in row order. |
| Resolve.StageChildren | BOM.py:213-232 | After the first k assemblies, each of them has its resolved list as its children, and every later assembly still has none. |
| Resolve.StageOwner | BOM.py:227-232 | After k assemblies, a catalog part has an owner iff one of them used it. That owner is the first of them to use it. Ownership is committed per assembly, not per row. |
| Resolve.StageKeys | BOM.py:208-232 | After any number of assemblies, the assemblies with a child list are exactly all the assemblies. |
| Resolve.StageParents | BOM.py:216-218 | After k assemblies, an assembly has a parent iff one of them named it. The parent is the last of them to name it. |
| Resolve.StageTagged | BOM.py:216-219 | After k assemblies, an assembly is tagged `'assembly'` iff one of them named it. |
| Resolve.StageWarnings | BOM.py:222-226 | After k assemblies, the warnings are their unresolvable rows, in order. |
| Resolve.BuildChildren | BOM.py:213-232 | In the result, each assembly's children are its resolvable rows in order. A row is the sub-assembly, or else an alias of the catalog item iff an EARLIER assembly used that PN, or else the item itself. Earlier rows of the same assembly do not count. |
| Resolve.SingleOriginal | BOM.py:227-231 | A child that is a catalog item itself sits in the first assembly to use that PN. A child that aliases it sits in an assembly with an earlier user. |
| Resolve.BuildOwner | BOM.py:216-232 | A catalog part whose PN names no assembly has a parent iff some assembly uses it. That parent is the first assembly to use it, and later aliases do not change it. A catalog part whose PN also names an assembly never gets a parent, because its rows take the assembly branch. |
| Resolve.BuildParents | BOM.py:216-220 | An assembly has a parent and item type `'assembly'` iff some row names it. The last assembly to name it wins. |
| Resolve.BuildWarnings | BOM.py:222-226 | The warnings are every unresolvable row of every assembly, in dict order and row order. |
| Resolve.RootsShape | BOM.py:235 | The list of parentless assemblies is empty iff every assembly has a parent. Its length is at least 2 iff two assemblies lack one. A single entry is the only assembly without a parent. |
| Resolve.BuildRoot | BOM.py:235-242 | `NoRoot` is raised iff every assembly is named in some row. `MultipleRoots` is raised iff two are not (checked first). The build succeeds iff exactly one assembly is unnamed. The root is then that assembly, has no parent, and alone carries the parts catalog. |
| Resolve.RowsOccurrences | BOM.py:215-231 | In one assembly's list, the children standing for a catalog part number as many as the rows naming its PN. They are the item itself when no earlier assembly placed it, and otherwise aliases. |
| Resolve.BuildCountsAt | BOM.py:213-232 | In the result, an assembly has as many children standing for a catalog part as it has rows naming its PN. Those children are the item itself only in the first assembly to use the PN. |
| Resolve.FlatOfRoot | BOM.py:166-175 | For a successful build, a catalog part occurs in `flat` of the root, as itself or as an alias, once for every row naming its PN in the assemblies flattened. A part named by no assembly does not occur. |
| Resolve.FlatItselfCount | BOM.py:227-231 | The item itself occurs in `flat` of the root as many times as its first user's rows name it, times the number of times that assembly is flattened. |
| Resolve.OneItemRestAliases | BOM.py:227-231 | If the first user of a part is flattened once and lists it once, `flat` of the root holds the item itself exactly once. Every other row naming it gives an alias. |
| Resolve.AsWrittenRaisesOnFirstUnresolved | BOM.py:222-226 | As written, the rows resolve as intended until the first row in neither table, which ends the build with a `KeyError` naming it. |
| Resolve.UnknownPartExample | BOM.py:222-226 | Assembly TOP with the single row P9 and an empty catalog. As written this gives `KeyError('P9')`. As intended it gives root TOP with no children and the warning `P9`. |
| Scenarios.ExampleBuild | BOM.py:210-242 | TOP = [P1, SUB] and SUB = [P2, P1] give root TOP and exact children. SUB's P1 is an alias. P1 is owned by TOP and P2 by SUB. |
| Scenarios.ExampleFlat | BOM.py:166-179 | There, `flat` of TOP is [P1, P2, alias of P1]. P1 and its alias are counted separately, once each. |

## Left out

- Reading the spreadsheets (`pd.read_excel`, `from_filename`), the directory scan and the choice of the master file are not modelled. The model takes as given each assembly's name and PN column, in dict order, and the parts table's rows.
- The warning `print` becomes the returned list of unresolved PNs.
- The `QTY` column is never read by the code, so it is not modelled. Counts come only from occurrences in `flat`.
- anytree internals are not visible and are not modelled:
  - the parent and children setters, and `is_root` (modelled as "has no parent");
  - detaching a re-parented sub-assembly from its previous parent's child list (line 218). In the model, a sub-assembly named by several assemblies stays a child of each of them. So `Resolve.BuildChildren` lists it under every assembly that names it, and `Nodes.Flat` and `Resolve.FlatOfRoot` expand it once per namer. The source keeps it only under its last namer. For example, take R = [X, Y], X = [S], Y = [S], S = [P] with catalog {P}. The source raises no error, and `flat` of R is `[P]`, so `quantities` is `{P: 1}`. The model keeps S under both X and Y, so `Flat` of R is `[Part(P), Part(P)]`: P is named in one row but occurs twice;
  - the `LoopError` for an assembly that names itself or closes a cycle;
  - the `TreeError` at line 232 when one assembly's list holds the same object twice, that is, a sub-assembly it names twice, or a part it names twice while being that part's first user (the model keeps both children). A part named twice by a later user gives two distinct `ItemLink` objects (line 228), which the source accepts as the model does. The hypothesis `multiset(asms[f].rows)[pn] == 1` of `Resolve.OneItemRestAliases` is the source's condition for not raising here;
  - link attribute forwarding, beyond `item_type`.
- `tree`, `__repr__`, `__str__`, `series`, `fields` and tabulation are presentation, and are left out.
- The `setattr` of each extra column is kept only as the `fields` map of an `Item`. A `parent` column in the parts table is dropped. In the source, line 80 passes its value to anytree's parent setter, which accepts only `None` or a node, so such a column holding anything else aborts the catalog build at line 210; the model does not capture that error and tracks ownership in `owner` instead.
- Equality between `BOM` objects inherited from `Set` is left out. Assemblies are compared by name.
- A PN that pandas reads as a number is left out. PNs are strings.
- Nodes.Flat: requires a depth bound within which the tree is finite, and is undefined on a build whose graph is cyclic below the root. Such builds exist only because the model keeps the earlier parent's `Sub` child where anytree's parent setter (line 218) detaches it, and has no `LoopError`. An example is X = [S], Y = [S], S = [X] with an empty catalog. The model builds root Y with the cycle S, X, S. The source detaches S from X and builds Y, S, X, and `flat` of Y is `[]`.
- Resolve.OneItemRestAliases: assumes that the first user of the part is flattened once. In the model this does not follow from "every assembly is named by at most one row", because the model has no `LoopError`: R = [], A = [B, P], B = [A] with catalog {P} builds root R, and A, the first user of P, is never flattened. In the source, B making A its child at line 218 raises `LoopError`; a build that succeeds is a tree, and every assembly in it is flattened exactly once. Without the hypothesis, the count is the one `Resolve.FlatItselfCount` gives.
- Resolve.BuildChildren: the `DistinctNames` precondition only restates that the assemblies are the keys of a dict. Where several assemblies name one sub-assembly, it lists that sub-assembly under each of them, while the source keeps it only under the last one (see the detachment bullet above).
- Resolve.FlatOfRoot: a sub-assembly named by several assemblies is flattened once per namer, so its rows are counted once per namer, while the source counts them once (see the detachment bullet above).

## Findings

| source | as written | input that shows it | evidently intended | confidence | as-written member | corrected member |
|---|---|---|---|---|---|---|
| BOM.py:222-226 | The part lookup `parts[row.PN]` is a dict subscript, and its failure raises `KeyError`. The handler only catches `IndexError`, so the first row in neither table aborts `from_folder`. | Assembly `TOP` with one row `P9`, and no part `P9` in the parts table (`Resolve.UnknownPartExample`) | Print the warning and skip the row (`continue`). The build goes on and the row adds no child. | high; not executed | Resolve.ResolveRowsAsWritten (Resolve.AsWrittenRaisesOnFirstUnresolved) | Resolve.ResolveRow (Resolve.RowsChildren, Resolve.RowsWarnings, Resolve.BuildWarnings) |
