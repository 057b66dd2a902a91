/**
 Arena memory: a sequence of 16-byte cells that hold both the block headers and
 the payloads, and what it means for such memory to represent a heap value.
 */
module ArenaCells {
  import opened MemBudget
  import opened ArenaSpec

  const NONE: u32 := 0xffff_ffff
  const NOACCT: u32 := 1

  /** Sixteen bytes.  As a header the four words are size, free flag, free-list link
      and the no-account marker; as payload they are the user's own words. */
  datatype Cell = Cell(size: u32, free: u32, next: u32, pad: u32)

  ghost predicate Header(c: Cell, b: Blk) {
    c.size == 16 * b.cells && (c.free != 0 <==> b.free) && (c.pad == NOACCT <==> b.noacct)
  }

  /** The link word that leads to free-list entry `k`. */
  ghost function Link(fl: seq<nat>, k: nat): int { if k < |fl| then 16 * fl[k] else NONE }

  ghost predicate HeaderAt(m: seq<Cell>, h: Heap, o: nat) {
    o in h.blocks && o < |m| && Header(m[o], h.blocks[o])
  }

  ghost predicate LinkAt(m: seq<Cell>, h: Heap, k: nat) {
    k < |h.fl| && h.fl[k] < |m| && m[h.fl[k]].next == Link(h.fl, k + 1)
  }

  /** Memory `m` with free-list head `head` represents `h`.  Nothing is said about
      payload cells: they may hold anything, stale headers included. */
  ghost predicate Rep(m: seq<Cell>, h: Heap, head: int) {
    && h.bump <= |m|
    && 16 * |m| < WORD
    && (forall o {:trigger HeaderAt(m, h, o)} :: o in h.blocks ==> HeaderAt(m, h, o))
    && head == Link(h.fl, 0)
    && (forall k {:trigger LinkAt(m, h, k)} :: 0 <= k < |h.fl| ==> LinkAt(m, h, k))
  }

  /** Write a free-list link: the head word when `k` is 0, else the link of entry `k - 1`. */
  function SetLink(m: seq<Cell>, fl: seq<nat>, k: nat, v: u32): seq<Cell>
    requires k <= |fl| && (k > 0 ==> fl[k - 1] < |m|)
  { if k == 0 then m else m[fl[k - 1] := m[fl[k - 1]].(next := v)] }

  function TakeCells(m: seq<Cell>, h: Heap, k: nat, need: nat, noacct: bool): seq<Cell>
    requires k < |h.fl| && h.fl[k] < |m| && (k > 0 ==> h.fl[k - 1] < |m|)
    requires h.fl[k] in h.blocks && need <= h.blocks[h.fl[k]].cells && h.fl[k] + h.blocks[h.fl[k]].cells <= |m|
    requires 16 * |m| < WORD
  {
    var o, c := h.fl[k], h.blocks[h.fl[k]].cells;
    var mark := if noacct then NOACCT else 0;
    if c - need >= 2 then
      var m1 := m[o + need := Cell(16 * (c - need), 1, m[o].next, 0)];
      SetLink(m1, h.fl, k, 16 * (o + need))[o := Cell(16 * need, 0, NONE, mark)]
    else
      SetLink(m, h.fl, k, m[o].next)[o := Cell(m[o].size, 0, NONE, mark)]
  }

  lemma RepTake(m: seq<Cell>, h: Heap, head: int, k: nat, need: nat, noacct: bool)
    requires Wf(h) && Rep(m, h, head) && k < |h.fl| && 2 <= need <= h.blocks[h.fl[k]].cells
    ensures EndsWell(h, h.fl[k]) && (k > 0 ==> EndsWell(h, h.fl[k - 1]))
    ensures var r := Take(h, k, need, noacct);
      Rep(TakeCells(m, h, k, need, noacct), r, if k == 0 then Link(r.fl, 0) else head)
  {
    var o, c, r := h.fl[k], h.blocks[h.fl[k]].cells, Take(h, k, need, noacct);
    assert EndsWell(h, o) && Apart(h, o, o + need) && Listed(h, o + need) && HeaderAt(m, h, o) && LinkAt(m, h, k);
    if k > 0 { assert EndsWell(h, h.fl[k - 1]) && LinkAt(m, h, k - 1); }
    var m' := TakeCells(m, h, k, need, noacct);
    forall p | p in r.blocks ensures HeaderAt(m', r, p) { assert p in h.blocks ==> HeaderAt(m, h, p); }
    forall j | 0 <= j < |r.fl| ensures LinkAt(m', r, j) {
      assert LinkAt(m, h, j);
      if c - need < 2 && j >= k { assert LinkAt(m, h, j + 1); }
    }
  }

  /** Which cells a list operation may write: headers of blocks that are free, and the inside of `o`. */
  lemma TakeKeepsPayloads(m: seq<Cell>, h: Heap, head: int, k: nat, need: nat, noacct: bool)
    requires Wf(h) && Rep(m, h, head) && k < |h.fl| && 2 <= need <= h.blocks[h.fl[k]].cells
    ensures EndsWell(h, h.fl[k]) && (k > 0 ==> EndsWell(h, h.fl[k - 1]))
    ensures Untouched(m, TakeCells(m, h, k, need, noacct), h, h.fl[k])
  {
    var o := h.fl[k];
    assert EndsWell(h, o);
    if k > 0 { assert EndsWell(h, h.fl[k - 1]); }
    var m' := TakeCells(m, h, k, need, noacct);
    forall p | p in h.blocks && p != o ensures SamePayload(m, m', h, p) {
      assert EndsWell(h, p); assert Apart(h, p, o); assert Apart(h, o, p);
      if k > 0 { assert Apart(h, p, h.fl[k - 1]); assert Apart(h, h.fl[k - 1], p); }
    }
  }

  ghost predicate SamePayload(m: seq<Cell>, m': seq<Cell>, h: Heap, p: nat)
    requires p in h.blocks
  {
    && |m'| == |m|
    && p + h.blocks[p].cells <= |m|
    && forall c :: p < c < p + h.blocks[p].cells ==> m'[c] == m[c]
  }

  ghost predicate Untouched(m: seq<Cell>, m': seq<Cell>, h: Heap, o: nat) {
    forall p {:trigger SamePayload(m, m', h, p)} :: p in h.blocks && p != o ==> SamePayload(m, m', h, p)
  }

  // ---------------------------------------------------------------- bump, release, unlist, merge

  lemma RepBump(m: seq<Cell>, h: Heap, head: int, need: nat, noacct: bool)
    requires Wf(h) && Rep(m, h, head) && 2 <= need && h.bump + need <= |m|
    ensures var m' := m[h.bump := Cell(16 * need, 0, NONE, if noacct then NOACCT else 0)];
      && Rep(m', Heap(h.blocks[h.bump := Blk(need, false, noacct)], h.bump + need, h.fl), head)
      && Untouched(m, m', h, h.bump)
  {
    var m' := m[h.bump := Cell(16 * need, 0, NONE, if noacct then NOACCT else 0)];
    var r := Heap(h.blocks[h.bump := Blk(need, false, noacct)], h.bump + need, h.fl);
    assert h.bump in h.blocks ==> EndsWell(h, h.bump);
    forall p | p in r.blocks ensures HeaderAt(m', r, p) { assert p in h.blocks ==> HeaderAt(m, h, p); }
    forall j | 0 <= j < |r.fl| ensures LinkAt(m', r, j) { assert LinkAt(m, h, j); }
    forall p | p in h.blocks ensures SamePayload(m, m', h, p) { assert EndsWell(h, p); }
  }

  lemma RepRelease(m: seq<Cell>, h: Heap, head: u32, o: nat)
    requires Wf(h) && Rep(m, h, head) && Live(h, o)
    ensures o < |m|
    ensures var m' := m[o := m[o].(free := 1, next := head)];
      Rep(m', Release(h, o), 16 * o) && Untouched(m, m', h, o)
  {
    assert HeaderAt(m, h, o);
    var m', r := m[o := m[o].(free := 1, next := head)], Release(h, o);
    assert Listed(h, o);
    forall p | p in r.blocks ensures HeaderAt(m', r, p) { assert HeaderAt(m, h, p); }
    forall j | 0 <= j < |r.fl| ensures LinkAt(m', r, j) { assert j > 0 ==> LinkAt(m, h, j - 1); }
    forall p | p in h.blocks && p != o ensures SamePayload(m, m', h, p) {
      assert EndsWell(h, p); assert Apart(h, p, o); assert Apart(h, o, p);
    }
  }

  /** Entry `k` leaves the free list and its header stops saying so. */
  function Unlist(h: Heap, k: nat): Heap
    requires k < |h.fl| && h.fl[k] in h.blocks
  { Heap(h.blocks[h.fl[k] := h.blocks[h.fl[k]].(free := false)], h.bump, Remove(h.fl, k)) }

  function UnlistCells(m: seq<Cell>, fl: seq<nat>, k: nat): seq<Cell>
    requires k < |fl| && fl[k] < |m| && (k > 0 ==> fl[k - 1] < |m|)
  {
    var s := SetLink(m, fl, k, m[fl[k]].next);
    s[fl[k] := s[fl[k]].(free := 0, next := NONE)]
  }

  lemma RepUnlist(m: seq<Cell>, h: Heap, head: int, k: nat)
    requires Wf(h) && Rep(m, h, head) && k < |h.fl|
    ensures h.fl[k] < |m| && (k > 0 ==> h.fl[k - 1] < |m|)
    ensures Rep(UnlistCells(m, h.fl, k), Unlist(h, k), if k == 0 then m[h.fl[0]].next else head)
  {
    assert LinkAt(m, h, k) && (k > 0 ==> LinkAt(m, h, k - 1));
    var m', r := UnlistCells(m, h.fl, k), Unlist(h, k);
    forall p | p in r.blocks ensures HeaderAt(m', r, p) { assert HeaderAt(m, h, p); }
    forall j | 0 <= j < |r.fl| ensures LinkAt(m', r, j) {
      assert LinkAt(m, h, j);
      if j >= k { assert LinkAt(m, h, j + 1); }
    }
  }

  /** Dropping block `n` from the heap and growing its predecessor `o` over it. */
  lemma RepMerge(m: seq<Cell>, h: Heap, head: int, o: nat, n: nat)
    requires Rep(m, h, head) && o in h.blocks && n in h.blocks && n == o + h.blocks[o].cells && o != n
    requires n !in h.fl && h.blocks[o].cells + h.blocks[n].cells <= |m|
    ensures o < |m| && n < |m| && m[o].size + m[n].size < WORD
    ensures Rep(m[o := m[o].(size := m[o].size + m[n].size)], Merge(h, o, n, h.fl), head)
  {
    assert HeaderAt(m, h, o) && HeaderAt(m, h, n);
    var m' := m[o := m[o].(size := m[o].size + m[n].size)];
    var r := Merge(h, o, n, h.fl);
    forall p | p in r.blocks ensures HeaderAt(m', r, p) { assert HeaderAt(m, h, p); }
    forall j | 0 <= j < |r.fl| ensures LinkAt(m', r, j) { assert LinkAt(m, h, j); }
  }

  /** Merging writes no payload of any other block. */
  lemma CoalesceKeepsPayloads(m: seq<Cell>, h: Heap, head: int, o: nat, k: nat, v: Cell)
    requires Wf(h) && Rep(m, h, head) && o in h.blocks && k < |h.fl| && h.fl[k] == o + h.blocks[o].cells
    ensures o < |m| && h.fl[k] < |m| && (k > 0 ==> h.fl[k - 1] < |m|)
    ensures forall p | p in h.blocks && p != o && p != h.fl[k] :: SamePayload(m, UnlistCells(m, h.fl, k)[o := v], h, p)
  {
    assert HeaderAt(m, h, o) && LinkAt(m, h, k) && (k > 0 ==> LinkAt(m, h, k - 1));
    forall p | p in h.blocks && p != o && p != h.fl[k] ensures SamePayload(m, UnlistCells(m, h.fl, k)[o := v], h, p) {
      assert EndsWell(h, p); assert Apart(h, p, o); assert Apart(h, o, p);
      assert Apart(h, p, h.fl[k]); assert Apart(h, h.fl[k], p);
      if k > 0 { assert Apart(h, p, h.fl[k - 1]); assert Apart(h, h.fl[k - 1], p); }
    }
  }

  lemma NothingMoved(m: seq<Cell>, h: Heap)
    requires Wf(h) && h.bump <= |m|
    ensures forall p | Live(h, p) :: SamePayload(m, m, h, p)
  {
    forall p | Live(h, p) ensures SamePayload(m, m, h, p) { assert EndsWell(h, p); }
  }

  // ---------------------------------------------------------------- freeing, on the words alone

  ghost predicate ChainAt(m: seq<Cell>, fl: seq<nat>, k: nat) {
    k < |fl| && fl[k] < |m| && m[fl[k]].next == Link(fl, k + 1)
  }

  /** The link words, followed from `head`, visit exactly `fl`. */
  ghost predicate Chain(m: seq<Cell>, fl: seq<nat>, head: int) {
    && 16 * |m| < WORD && head == Link(fl, 0)
    && forall k {:trigger ChainAt(m, fl, k)} :: 0 <= k < |fl| ==> ChainAt(m, fl, k)
  }

  lemma RepChain(m: seq<Cell>, h: Heap, head: int)
    requires Rep(m, h, head)
    ensures Chain(m, h.fl, head)
  {
    forall k | 0 <= k < |h.fl| ensures ChainAt(m, h.fl, k) { assert LinkAt(m, h, k); }
  }

  /** The end marker stands at the end of the list and nowhere else. */
  lemma NoneEnds(m: seq<Cell>, fl: seq<nat>, head: int, k: nat)
    requires Chain(m, fl, head) && k <= |fl|
    ensures Link(fl, k) == NONE <==> k == |fl|
  {
    if k < |fl| { assert ChainAt(m, fl, k); }
  }

  /** The block at `o` goes to the head of the list. */
  function Pushed(m: seq<Cell>, head: u32, o: nat): seq<Cell>
    requires o < |m|
  { m[o := m[o].(free := 1, next := head)] }

  lemma PushChain(m: seq<Cell>, fl: seq<nat>, head: u32, o: nat)
    requires Chain(m, fl, head) && o < |m| && o !in fl
    ensures Chain(Pushed(m, head, o), [o] + fl, 16 * o)
  {
    forall k | 0 <= k < |fl| + 1 ensures ChainAt(Pushed(m, head, o), [o] + fl, k) {
      if k > 0 { assert ChainAt(m, fl, k - 1); }
    }
  }

  /** What follows the block at `o` is the end of the used prefix or a header, and a header
      that says free is on the list. */
  ghost predicate CanMerge(m: seq<Cell>, fl: seq<nat>, bump: u32, o: nat) {
    && o < |m|
    && (16 * o + m[o].size < bump ==>
          var n := (16 * o + m[o].size) / 16;
          n < |m| && n != o && (m[n].free != 0 ==> n in fl && m[o].size + m[n].size < WORD))
  }

  /** Memory, head word and list after the forward merge at `o`. */
  ghost function Merged(m: seq<Cell>, fl: seq<nat>, head: int, bump: u32, o: nat): (seq<Cell>, int, seq<nat>)
    requires Chain(m, fl, head) && CanMerge(m, fl, bump, o)
  {
    var n := (16 * o + m[o].size) / 16;
    if 16 * o + m[o].size >= bump || m[n].free == 0 then (m, head, fl)
    else
      var k := IndexOf(fl, n);
      assert ChainAt(m, fl, k) && (k > 0 ==> ChainAt(m, fl, k - 1));
      var u := UnlistCells(m, fl, k);
      (u[o := u[o].(size := u[o].size + u[n].size)], Link(Remove(fl, k), 0), Remove(fl, k))
  }

  /** When free can run at `o`: the header says free, or the merge after pushing it can run. */
  ghost predicate CanFree(m: seq<Cell>, fl: seq<nat>, head: u32, bump: u32, o: nat) {
    && Chain(m, fl, head) && Distinct(fl) && o < |m|
    && (m[o].free == 0 ==> o !in fl && CanMerge(Pushed(m, head, o), [o] + fl, bump, o))
  }

  /** Memory, head word and list after free at `o`, whatever `o` is. */
  ghost function Freed(m: seq<Cell>, fl: seq<nat>, head: u32, bump: u32, o: nat): (seq<Cell>, int, seq<nat>)
    requires CanFree(m, fl, head, bump, o)
  {
    if m[o].free != 0 then (m, head, fl)
    else PushChain(m, fl, head, o); Merged(Pushed(m, head, o), [o] + fl, 16 * o, bump, o)
  }

  /** On memory that represents a heap the forward merge is `Coalesce`. */
  lemma MergedRep(m: seq<Cell>, h: Heap, head: int, o: nat)
    requires Wf(h) && Rep(m, h, head) && o in h.blocks && h.blocks[o].free
    ensures Chain(m, h.fl, head) && 16 * h.bump < WORD && CanMerge(m, h.fl, 16 * h.bump, o)
    ensures var (m', head', fl') := Merged(m, h.fl, head, 16 * h.bump, o);
      && Coalesce(h, o).fl == fl' && Rep(m', Coalesce(h, o), head')
      && (forall p | Live(h, p) :: SamePayload(m, m', h, p))
  {
    RepChain(m, h, head);
    assert HeaderAt(m, h, o) && EndsWell(h, o);
    var n := o + h.blocks[o].cells;
    assert 16 * o + m[o].size == 16 * n;
    if n < h.bump {
      assert HeaderAt(m, h, n) && EndsWell(h, n) && Listed(h, n);
      if h.blocks[n].free {
        MergedListed(m, h, head, o, n, IndexOf(h.fl, n));
      } else {
        NothingMoved(m, h);
      }
    } else {
      NothingMoved(m, h);
    }
  }

  lemma MergedListed(m: seq<Cell>, h: Heap, head: int, o: nat, n: nat, k: nat)
    requires Wf(h) && Rep(m, h, head) && h.blocks.Keys >= {o, n} && n == o + h.blocks[o].cells && h.blocks[o].free
    requires k < |h.fl| && h.fl[k] == n && EndsWell(h, o) && EndsWell(h, n)
    ensures n < |m| && o < |m| && (k > 0 ==> h.fl[k - 1] < |m|)
    ensures var u := UnlistCells(m, h.fl, k);
      && u[o].size + u[n].size < WORD && u[o].size == m[o].size && u[n].size == m[n].size
      && var m' := u[o := u[o].(size := u[o].size + u[n].size)];
      && Rep(m', Merge(h, o, n, Remove(h.fl, k)), Link(Remove(h.fl, k), 0))
      && (forall p | Live(h, p) :: SamePayload(m, m', h, p))
  {
    assert HeaderAt(m, h, o) && HeaderAt(m, h, n) && LinkAt(m, h, k) && (k > 0 ==> LinkAt(m, h, k - 1));
    RepUnlist(m, h, head, k);
    RemoveKeeps(h.fl, k);
    var u, v := UnlistCells(m, h.fl, k), Unlist(h, k);
    RepMerge(u, v, Link(Remove(h.fl, k), 0), o, n);
    CoalesceKeepsPayloads(m, h, head, o, k, u[o].(size := u[o].size + u[n].size));
    assert Merge(v, o, n, v.fl).blocks == Merge(h, o, n, Remove(h.fl, k)).blocks;
  }
}
