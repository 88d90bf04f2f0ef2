/**
 * Catalog items of BOM.py: the master parts table becomes one `Item` per
 * part number (the dict comprehension of `BOM.from_folder`), every one of
 * them created with item type 'part'.
 */
module Catalog {

  /** The `item_type` values the model distinguishes: 'part', 'assembly' and unset (`None`). */
  datatype Kind = PartKind | AssemblyKind | NoKind

  /** One row of the master parts table: its PN and its other columns. */
  datatype Row = Row(pn: string, fields: map<string, string>)

  /**
   * A catalog `Item`.  `fields` are the row's other columns; the columns
   * `item_type` and `parent` are constructor parameters of `BaseItem`, not
   * extra attributes, so they are not among them.
   */
  datatype Item = Item(pn: string, kind: Kind, fields: map<string, string>)

  /** The part made from one row: `Item(**{**row.to_dict(), 'item_type': 'part'})`. */
  function ItemOf(row: Row): Item
  {
    Item(row.pn, PartKind, row.fields - {"item_type", "parent"})
  }

  /** No later row of the table has the PN of row `i`. */
  predicate LastWithPn(rows: seq<Row>, i: nat)
    requires i < |rows|
  {
    forall j :: i < j < |rows| ==> rows[j].pn != rows[i].pn
  }

  /**
   * The parts catalog: keyed by exactly the PNs of the rows, each entry a
   * 'part' carrying its own key, and for a duplicated PN the last row wins.
   */
  function CatalogOf(rows: seq<Row>): (db: map<string, Item>)
  {
    if rows == [] then map[]
    else
      var n := |rows| - 1;
      CatalogOf(rows[..n])[rows[n].pn := ItemOf(rows[n])]
  }

  /** The catalog is keyed by exactly the PNs of the rows. */
  lemma {:induction false} CatalogKeys(rows: seq<Row>)
    ensures forall i :: 0 <= i < |rows| ==> rows[i].pn in CatalogOf(rows)
    ensures forall pn :: pn in CatalogOf(rows) ==> exists i :: 0 <= i < |rows| && rows[i].pn == pn
  {
    if rows != [] {
      var n := |rows| - 1;
      var front := rows[..n];
      CatalogKeys(front);
      assert forall i :: 0 <= i < n ==> front[i] == rows[i];
    }
  }

  /** Every catalog entry is a 'part' carrying its own key. */
  lemma {:induction false} CatalogEntries(rows: seq<Row>)
    ensures Keyed(CatalogOf(rows))
    ensures forall pn :: pn in CatalogOf(rows) ==> CatalogOf(rows)[pn].kind == PartKind
  {
    if rows != [] {
      CatalogEntries(rows[..|rows| - 1]);
    }
  }

  /** For a PN that appears more than once, the entry is made from its last row. */
  lemma {:induction false} CatalogLastWins(rows: seq<Row>, i: nat)
    requires i < |rows| && LastWithPn(rows, i)
    ensures rows[i].pn in CatalogOf(rows) && CatalogOf(rows)[rows[i].pn] == ItemOf(rows[i])
  {
    var n := |rows| - 1;
    if i < n {
      var front := rows[..n];
      assert front[i] == rows[i];
      assert LastWithPn(front, i) by {
        assert forall j :: i < j < n ==> front[j] == rows[j];
      }
      CatalogLastWins(front, i);
      assert rows[n].pn != rows[i].pn;
    }
  }

  /** Every catalog item is keyed by its own PN. */
  predicate Keyed(db: map<string, Item>)
  {
    forall pn :: pn in db ==> db[pn].pn == pn
  }

  /** Two keys of a keyed catalog never share an item. */
  lemma KeyedInjective(db: map<string, Item>, a: string, b: string)
    requires Keyed(db) && a in db && b in db && db[a] == db[b]
    ensures a == b
  {
    assert db[a].pn == a && db[b].pn == b;
  }
}
