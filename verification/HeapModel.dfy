/** The meaning of a chain of slotted pages: one map from record ids to bytes. */
module HeapModel {
  import opened Bytes

  datatype RID = RID(page: nat, slot: nat)

  /** What a heap needs to know of one slotted page. */
  datatype Page = Page(rows: map<nat, seq<byte>>, slots: nat, next: nat)

  type Pages = map<nat, Page>

  type HeapMap = imap<RID, seq<byte>>

  function Successor(chain: seq<nat>, i: nat): nat
    requires i < |chain|
  {
    if i + 1 < |chain| then chain[i + 1] else INVALID_PAGE_ID
  }

  /** The pages are exactly those of the chain; each links to the one after it and the last to none. */
  ghost predicate IsChain(h: Pages, chain: seq<nat>) {
    && chain != [] && Distinct(chain) && INVALID_PAGE_ID !in chain
    && (forall id :: id in h <==> id in chain)
    && (forall i {:trigger h[chain[i]]} :: 0 <= i < |chain| ==> h[chain[i]].next == Successor(chain, i))
  }

  /** Every live record of the heap with its bytes. */
  ghost function Rows(h: Pages): HeapMap {
    imap r: RID | r.page in h && r.slot in h[r.page].rows :: h[r.page].rows[r.slot]
  }

  lemma RowsHome(h: Pages, r: RID)
    ensures r in Rows(h) <==> r.page in h && r.slot in h[r.page].rows
    ensures r in Rows(h) ==> Rows(h)[r] == h[r.page].rows[r.slot]
  {
  }

  lemma ChainStep(h: Pages, chain: seq<nat>, i: nat)
    requires IsChain(h, chain) && i < |chain|
    ensures chain[i] in h && h[chain[i]].next == Successor(chain, i)
    ensures Successor(chain, i) == INVALID_PAGE_ID <==> i == |chain| - 1
  {
  }

  lemma ReplacePage(h: Pages, chain: seq<nat>, id: nat, p: Page)
    requires IsChain(h, chain) && id in h && p.next == h[id].next
    ensures IsChain(h[id := p], chain)
  {
  }

  lemma RowsPut(h: Pages, id: nat, p: Page, s: nat, t: seq<byte>)
    requires id in h && p.rows == h[id].rows[s := t]
    ensures Rows(h[id := p]) == Rows(h)[RID(id, s) := t]
    ensures RID(id, s) in Rows(h) <==> s in h[id].rows
  {
    var h' := h[id := p];
    assert forall r: RID :: r in Rows(h') <==> r in Rows(h) || r == RID(id, s);
  }

  lemma RowsDrop(h: Pages, id: nat, p: Page, s: nat)
    requires id in h && p.rows == h[id].rows - {s}
    ensures Rows(h[id := p]) == Rows(h) - {RID(id, s)}
    ensures RID(id, s) in Rows(h) <==> s in h[id].rows
  {
    var h' := h[id := p];
    assert forall r: RID :: r in Rows(h') <==> r in Rows(h) && r != RID(id, s);
  }

  lemma AppendKeepsRows(h: Pages, last: nat, id: nat, e: Page)
    requires last in h && id !in h && e.rows == map[]
    ensures Rows(h[last := h[last].(next := id)][id := e]) == Rows(h)
  {
    var h' := h[last := h[last].(next := id)][id := e];
    assert forall r: RID :: r in Rows(h') <==> r in Rows(h);
  }

  lemma AppendLinks(h: Pages, chain: seq<nat>, last: nat, id: nat, e: Page, i: nat)
    requires IsChain(h, chain) && id !in chain && last == chain[|chain| - 1] && i <= |chain|
    requires e.next == INVALID_PAGE_ID
    ensures var h' := h[last := h[last].(next := id)][id := e];
            (chain + [id])[i] in h' && h'[(chain + [id])[i]].next == Successor(chain + [id], i)
  {
    if i < |chain| - 1 {
      assert chain[i] != last && h[chain[i]].next == Successor(chain, i);
    }
  }

  /** Linking an empty page behind the last one extends the chain and adds no row. */
  lemma AppendPage(h: Pages, chain: seq<nat>, last: nat, id: nat, e: Page)
    requires IsChain(h, chain) && id !in chain && id != INVALID_PAGE_ID
    requires last == chain[|chain| - 1] && e.rows == map[] && e.next == INVALID_PAGE_ID
    ensures var h' := h[last := h[last].(next := id)][id := e];
            IsChain(h', chain + [id]) && Rows(h') == Rows(h)
  {
    var h' := h[last := h[last].(next := id)][id := e];
    AppendKeepsRows(h, last, id, e);
    forall i | 0 <= i < |chain + [id]|
      ensures h'[(chain + [id])[i]].next == Successor(chain + [id], i)
    {
      AppendLinks(h, chain, last, id, e, i);
    }
    assert forall x :: x in chain + [id] <==> x in chain || x == id;
  }

  /** Slots are only ever added, and pages only appended. */
  ghost predicate OnlyGrows(h: Pages, h': Pages) {
    forall id :: id in h ==> id in h' && h[id].slots <= h'[id].slots
  }

  ghost predicate SameSlots(h: Pages, h': Pages) {
    h.Keys == h'.Keys && forall id :: id in h ==> h[id].slots == h'[id].slots
  }
}
