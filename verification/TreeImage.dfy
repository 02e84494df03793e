/** The pages of a sound tree can be written: byte for byte they fit the layout of PageImage. */
module TreeImage {
  import opened Tuples
  import opened Encoding
  import opened Pages
  import opened TreeInvariant
  import opened TreeFacts
  import opened Options
  import P = PageImage

  /** What a leaf holds for a row, and an internal page for an entry. */
  function CellOfRow(r: Row): P.Cell {
    P.Cell(r.tuple, Some([IntElement(r.key)]), None)
  }

  function CellOfEntry(e: Entry): P.Cell {
    P.Cell([], Some(match e.key case NoKey => [] case IntKey(k) => [IntElement(k)]), Some(e.child))
  }

  function CellsOfRows(rows: seq<Row>): (r: seq<P.Cell>)
    ensures |r| == |rows| && forall i | 0 <= i < |rows| :: r[i] == CellOfRow(rows[i])
  {
    seq(|rows|, i requires 0 <= i < |rows| => CellOfRow(rows[i]))
  }

  function CellsOfEntries(es: seq<Entry>): (r: seq<P.Cell>)
    ensures |r| == |es| && forall i | 0 <= i < |es| :: r[i] == CellOfEntry(es[i])
  {
    seq(|es|, i requires 0 <= i < |es| => CellOfEntry(es[i]))
  }

  /** The sizes with which the tree counts are the sizes that are written. */
  lemma SizesAgree(r: Row, e: Entry)
    ensures P.CellSize(CellOfRow(r)) == RowSize(r)
    ensures 4 + P.CellSize(CellOfEntry(e)) == EntrySize(e)
  {
    assert KeySize([]) == 8;
    assert forall k :: KeySize([IntElement(k)]) == 20 by {
      forall k ensures KeySize([IntElement(k)]) == 20 {
        assert [IntElement(k)][..0] == [];
      }
    }
  }

  lemma {:induction false} RowsSize(rows: seq<Row>)
    ensures P.CellsSize(CellsOfRows(rows)) == TupleBytes(rows)
    decreases |rows|
  {
    if rows != [] {
      RowsSize(rows[..|rows|-1]);
      assert CellsOfRows(rows)[..|rows|-1] == CellsOfRows(rows[..|rows|-1]);
      SizesAgree(rows[|rows|-1], Entry(NoKey, 0));
    }
  }

  lemma {:induction false} EntriesSize(es: seq<Entry>)
    ensures P.CellsSize(CellsOfEntries(es)) + 4 * |es| == EntriesBytes(es)
    decreases |es|
  {
    if es != [] {
      EntriesSize(es[..|es|-1]);
      assert CellsOfEntries(es)[..|es|-1] == CellsOfEntries(es[..|es|-1]);
      SizesAgree(Row(0, []), es[|es|-1]);
    }
  }

  /** The slots that reassignData computes. */
  function SlotsOf(cells: seq<P.Cell>): seq<nat>
    requires P.CellsSize(cells) <= P.PAGE_BYTES
  {
    if cells == [] then [] else SlotsOf(cells[..|cells|-1]) + [P.PAGE_BYTES - P.CellsSize(cells)]
  }

  lemma {:induction false} SlotsOfMatch(cells: seq<P.Cell>)
    requires P.CellsSize(cells) <= P.PAGE_BYTES
    ensures P.SlotsMatch(SlotsOf(cells), cells)
    ensures P.LastSlot(SlotsOf(cells)) == P.PAGE_BYTES - P.CellsSize(cells)
    ensures forall i | 0 <= i < |SlotsOf(cells)| :: SlotsOf(cells)[i] <= P.PAGE_BYTES
    decreases |cells|
  {
    hide P.CellSize;
    if cells != [] {
      var init := cells[..|cells|-1];
      SlotsOfMatch(init);
      var before, slots := SlotsOf(init), SlotsOf(cells);
      forall i {:trigger cells[i]} | 0 <= i < |cells|
        ensures slots[i] + P.CellSize(cells[i]) == P.SlotBefore(slots, i)
      {
        assert P.SlotBefore(slots, i) == P.SlotBefore(before, i);
        assert i < |init| ==> init[i] == cells[i] && slots[i] == before[i];
      }
    }
  }

  /** Any leaf of a sound tree fits its image: with rows of the table's columns, its directory stays clear of its tuples. */
  lemma LeafHasImage(pages: map<nat, Page>, root: nat, nPage: nat, firstFree: nat,
      sh: Shape, chain: seq<nat>, free: seq<nat>, contents: map<Key, Row>, l: nat, columns: seq<Column>)
    requires Sound(pages, root, nPage, firstFree, sh, chain, free, contents) && IsLeaf(pages, l)
    requires ColumnsFit(columns) && forall i | 0 <= i < |pages[l].rows| :: P.Conforms(CellOfRow(pages[l].rows[i]), columns)
    requires pages[l].prev < TWO_32 && pages[l].next < TWO_32 && pages[l].parent < TWO_32
    ensures var cells := CellsOfRows(pages[l].rows);
      && P.CellsSize(cells) <= P.PAGE_BYTES
      && P.Fits(P.PageData(P.LEAF, pages[l].prev, pages[l].next, pages[l].parent, COUNTED_LEAF_HEADER + 4 * |cells|,
           P.LastSlot(SlotsOf(cells)), SlotsOf(cells), cells), true, columns)
  {
    hide Sound, P.Conforms, P.CellSize, P.CellsSize, ColumnsFit, P.Fits, TupleBytes, SlotsOf;
    LeafFitsPage(pages, root, nPage, firstFree, sh, chain, free, contents, l);
    RowsSize(pages[l].rows);
    CellsFit(CellsOfRows(pages[l].rows), true, P.LEAF, pages[l].prev, pages[l].next, pages[l].parent, COUNTED_LEAF_HEADER, columns);
  }

  /** And any internal page. */
  lemma InternalHasImage(pages: map<nat, Page>, root: nat, nPage: nat, firstFree: nat,
      sh: Shape, chain: seq<nat>, free: seq<nat>, contents: map<Key, Row>, p: nat, columns: seq<Column>)
    requires Sound(pages, root, nPage, firstFree, sh, chain, free, contents) && IsInternal(pages, p)
    requires ColumnsFit(columns) && forall i | 0 <= i < |pages[p].entries| :: P.Conforms(CellOfEntry(pages[p].entries[i]), columns)
    requires pages[p].parent < TWO_32
    ensures var cells := CellsOfEntries(pages[p].entries);
      && P.CellsSize(cells) <= P.PAGE_BYTES
      && P.Fits(P.PageData(P.INTERNAL, 0, 0, pages[p].parent, INTERNAL_HEADER + 4 * |cells|,
           P.LastSlot(SlotsOf(cells)), SlotsOf(cells), cells), false, columns)
  {
    hide Sound, P.Conforms, P.CellSize, P.CellsSize, ColumnsFit, P.Fits, EntriesBytes, SlotsOf;
    InternalFitsPage(pages, root, nPage, firstFree, sh, chain, free, contents, p);
    EntriesSize(pages[p].entries);
    CellsFit(CellsOfEntries(pages[p].entries), false, P.INTERNAL, 0, 0, pages[p].parent, INTERNAL_HEADER, columns);
  }

  /** Cells whose bytes leave room for header and directory make a page that can be written. */
  lemma CellsFit(cells: seq<P.Cell>, leaf: bool, type_: byte, prev: nat, next: nat, parent: nat, header: nat, columns: seq<Column>)
    requires P.CellsSize(cells) + (if leaf then REAL_LEAF_HEADER else INTERNAL_HEADER) + 4 * |cells| <= P.PAGE_BYTES
    requires header <= REAL_LEAF_HEADER && prev < TWO_32 && next < TWO_32 && parent < TWO_32
    requires ColumnsFit(columns) && forall i | 0 <= i < |cells| :: P.Conforms(cells[i], columns)
    ensures P.Fits(P.PageData(type_, prev, next, parent, header + 4 * |cells|, P.LastSlot(SlotsOf(cells)), SlotsOf(cells), cells), leaf, columns)
  {
    hide P.Conforms, P.CellSize, SlotsOf, P.CellsSize, ColumnsFit, P.HeaderNumbers;
    SlotsOfMatch(cells);
    NumbersFit(P.PageData(type_, prev, next, parent, header + 4 * |cells|, P.LastSlot(SlotsOf(cells)), SlotsOf(cells), cells), leaf);
  }

  lemma NumbersFit(d: P.PageData, leaf: bool)
    requires d.prevLeaf < TWO_32 && d.nextLeaf < TWO_32 && d.parentIndex < TWO_32
    requires d.beginFreeSpace < TWO_32 && d.endFreeSpace < TWO_32 && |d.slots| < TWO_32
    requires forall i | 0 <= i < |d.slots| :: d.slots[i] < TWO_32
    ensures forall i | 0 <= i < |P.HeaderNumbers(d, leaf)| :: P.HeaderNumbers(d, leaf)[i] < TWO_32
    ensures |P.HeaderNumbers(d, leaf)| == (if leaf then 6 else 4) + |d.slots|
  {
  }
}
