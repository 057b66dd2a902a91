/** Pointers that have been freed already, and what a second free of one does. */
module ArenaStale {
  import opened MemBudget
  import opened ArenaSpec
  import opened ArenaCells

  /** The free block `x` has swallowed a block that started at `p`; the header left behind
      says used, and its size still reaches to the end of `x`. */
  ghost predicate SwallowedBy(m: seq<Cell>, h: Heap, x: nat, p: nat) {
    && x in h.blocks && h.blocks[x].free && x < p < x + h.blocks[x].cells
    && p < |m| && m[p].free == 0 && 16 * p + m[p].size == 16 * (x + h.blocks[x].cells)
  }

  ghost predicate Swallowed(m: seq<Cell>, h: Heap, p: nat) {
    exists x {:trigger SwallowedBy(m, h, x, p)} :: SwallowedBy(m, h, x, p)
  }

  /** A freed pointer: it heads a free block, or that block was swallowed by a merge. */
  ghost predicate WasFreed(m: seq<Cell>, h: Heap, p: nat) {
    (p in h.blocks && h.blocks[p].free) || Swallowed(m, h, p)
  }

  ghost predicate Holds(h: Heap, x: nat, p: nat) { Live(h, x) && x <= p < x + h.blocks[x].cells }

  /** `p` lies in memory that is handed out. */
  ghost predicate HandedOut(h: Heap, p: nat) { exists x {:trigger Holds(h, x, p)} :: Holds(h, x, p) }

  /** Every freed pointer whose memory was not handed out again is still a freed pointer. */
  ghost predicate StillFreed(m: seq<Cell>, h: Heap, m': seq<Cell>, h': Heap) {
    forall p: nat {:trigger WasFreed(m', h', p)} {:trigger WasFreed(m, h, p)} ::
      WasFreed(m, h, p) && !HandedOut(h', p) ==> WasFreed(m', h', p)
  }

  lemma FreedNotHandedOut(m: seq<Cell>, h: Heap, p: nat)
    requires Wf(h) && WasFreed(m, h, p)
    ensures !HandedOut(h, p) && p < h.bump
  {
    var o := p;
    if Swallowed(m, h, p) {
      var x: nat :| SwallowedBy(m, h, x, p);
      o := x;
    }
    assert EndsWell(h, o);
    forall x: nat ensures !Holds(h, x, p) { assert Apart(h, x, o) && Apart(h, o, x); }
  }

  // ---------------------------------------------------------------- what keeps a freed pointer freed

  lemma TakeStillFreed(m: seq<Cell>, h: Heap, head: int, k: nat, need: nat, noacct: bool)
    requires Wf(h) && Rep(m, h, head) && k < |h.fl| && 2 <= need <= h.blocks[h.fl[k]].cells
    ensures EndsWell(h, h.fl[k]) && (k > 0 ==> EndsWell(h, h.fl[k - 1]))
    ensures StillFreed(m, h, TakeCells(m, h, k, need, noacct), Take(h, k, need, noacct))
  {
    RepTake(m, h, head, k, need, noacct);
    var m', h' := TakeCells(m, h, k, need, noacct), Take(h, k, need, noacct);
    forall p: nat | WasFreed(m, h, p) && !HandedOut(h', p) ensures WasFreed(m', h', p) {
      var o := h.fl[k];
      assert !Holds(h', o, p);
      if Swallowed(m, h, p) {
        var x: nat :| SwallowedBy(m, h, x, p);
        TakeSwallowed(m, h, k, need, noacct, x, p);
      }
    }
  }

  lemma TakeSwallowed(m: seq<Cell>, h: Heap, k: nat, need: nat, noacct: bool, x: nat, p: nat)
    requires Wf(h) && k < |h.fl| && 2 <= need <= h.blocks[h.fl[k]].cells && h.bump <= |m| && 16 * |m| < WORD
    requires EndsWell(h, h.fl[k]) && (k > 0 ==> EndsWell(h, h.fl[k - 1]))
    requires SwallowedBy(m, h, x, p) && !Holds(Take(h, k, need, noacct), h.fl[k], p)
    ensures WasFreed(TakeCells(m, h, k, need, noacct), Take(h, k, need, noacct), p)
  {
    var o, m', h' := h.fl[k], TakeCells(m, h, k, need, noacct), Take(h, k, need, noacct);
    assert Apart(h, x, o) && Apart(h, o, x) && EndsWell(h, x);
    if k > 0 { assert Apart(h, x, h.fl[k - 1]) && Apart(h, h.fl[k - 1], x); }
    if x != o {
      assert SwallowedBy(m', h', x, p);
    } else if p != o + need {
      assert SwallowedBy(m', h', o + need, p);
    }
  }

  lemma BumpStillFreed(m: seq<Cell>, h: Heap, need: nat, noacct: bool, c: Cell)
    requires Wf(h) && need >= 2 && h.bump < |m|
    ensures StillFreed(m, h, m[h.bump := c], Heap(h.blocks[h.bump := Blk(need, false, noacct)], h.bump + need, h.fl))
  {
    var m', h' := m[h.bump := c], Heap(h.blocks[h.bump := Blk(need, false, noacct)], h.bump + need, h.fl);
    forall p: nat | WasFreed(m, h, p) ensures WasFreed(m', h', p) {
      FreedNotHandedOut(m, h, p);
      if Swallowed(m, h, p) {
        var x: nat :| SwallowedBy(m, h, x, p);
        assert EndsWell(h, x) && SwallowedBy(m', h', x, p);
      }
    }
  }

  /** Writes inside a live payload reach no freed pointer. */
  lemma PayloadStillFreed(m: seq<Cell>, m': seq<Cell>, h: Heap, o: nat)
    requires Wf(h) && Live(h, o) && |m'| == |m|
    requires forall c :: 0 <= c < |m| && !(o < c < o + h.blocks[o].cells) ==> m'[c] == m[c]
    ensures StillFreed(m, h, m', h)
  {
    forall p: nat | Swallowed(m, h, p) ensures Swallowed(m', h, p) {
      var x: nat :| SwallowedBy(m, h, x, p);
      assert Apart(h, x, o) && Apart(h, o, x);
      assert SwallowedBy(m', h, x, p);
    }
  }

  /** Free keeps every other freed pointer freed, the one it swallows included, and makes
      its own a freed one. */
  lemma FreeStillFreed(m: seq<Cell>, h: Heap, head: u32, o: nat)
    requires Wf(h) && Rep(m, h, head) && Live(h, o) && Wf(Release(h, o)) && 16 * h.bump < WORD
    requires CanFree(m, h.fl, head, 16 * h.bump, o) && m[o].free == 0
    ensures var m' := Freed(m, h.fl, head, 16 * h.bump, o).0;
      StillFreed(m, h, m', Coalesce(Release(h, o), o)) && WasFreed(m', Coalesce(Release(h, o), o), o)
  {
    var m', h' := Freed(m, h.fl, head, 16 * h.bump, o).0, Coalesce(Release(h, o), o);
    forall p: nat | WasFreed(m, h, p) ensures WasFreed(m', h', p) {
      FreeOneStill(m, h, head, o, p);
    }
  }

  /** The blocks after a free of `o`. */
  ghost function ReleasedBlocks(h: Heap, o: nat): map<nat, Blk>
    requires Live(h, o) && EndsWell(h, o)
  {
    var n, b := o + h.blocks[o].cells, h.blocks[o].(free := true);
    if n < h.bump && h.blocks[n].free then (h.blocks - {n})[o := b.(cells := b.cells + h.blocks[n].cells)]
    else h.blocks[o := b]
  }

  lemma Released(h: Heap, o: nat)
    requires Wf(h) && Live(h, o) && Wf(Release(h, o))
    ensures EndsWell(h, o) && Coalesce(Release(h, o), o).blocks == ReleasedBlocks(h, o)
  {
    assert EndsWell(h, o);
    var n, b := o + h.blocks[o].cells, h.blocks[o].(free := true);
    if n < h.bump && h.blocks[n].free {
      var c := b.(cells := b.cells + h.blocks[n].cells);
      assert (h.blocks[o := b] - {n})[o := c] == (h.blocks - {n})[o := c];
    }
  }

  lemma SwallowedStays(m: seq<Cell>, h: Heap, m': seq<Cell>, h': Heap, o: nat, x: nat, p: nat)
    requires Wf(h) && Live(h, o) && EndsWell(h, o) && SwallowedBy(m, h, x, p) && |m'| == |m| && m'[p] == m[p]
    requires h'.blocks == ReleasedBlocks(h, o)
    ensures Swallowed(m', h', p)
  {
    var n := o + h.blocks[o].cells;
    assert EndsWell(h, x);
    if x == n { assert SwallowedBy(m', h', o, p); } else { assert SwallowedBy(m', h', x, p); }
  }

  lemma NextSwallowed(h: Heap, m': seq<Cell>, h': Heap, o: nat)
    requires Wf(h) && Live(h, o) && EndsWell(h, o) && h'.blocks == ReleasedBlocks(h, o)
    requires var n := o + h.blocks[o].cells;
      n in h.blocks && h.blocks[n].free && n < |m'| && m'[n].free == 0 && m'[n].size == 16 * h.blocks[n].cells
    ensures Swallowed(m', h', o + h.blocks[o].cells)
  {
    var n := o + h.blocks[o].cells;
    assert EndsWell(h, n);
    assert SwallowedBy(m', h', o, n);
  }

  lemma FreeOneStill(m: seq<Cell>, h: Heap, head: u32, o: nat, p: nat)
    requires Wf(h) && Rep(m, h, head) && Live(h, o) && Wf(Release(h, o)) && 16 * h.bump < WORD
    requires CanFree(m, h.fl, head, 16 * h.bump, o) && m[o].free == 0 && WasFreed(m, h, p)
    ensures WasFreed(Freed(m, h.fl, head, 16 * h.bump, o).0, Coalesce(Release(h, o), o), p)
  {
    var m', h' := Freed(m, h.fl, head, 16 * h.bump, o).0, Coalesce(Release(h, o), o);
    Released(h, o);
    if Swallowed(m, h, p) {
      var x: nat :| SwallowedBy(m, h, x, p);
      FreeCellKept(m, h, head, o, x, p);
      SwallowedStays(m, h, m', h', o, x, p);
    } else if p == o + h.blocks[o].cells {
      FreeSwallowsNext(m, h, head, o);
      NextSwallowed(h, m', h', o);
    }
  }

  /** What free writes besides the header it is called on: flags and links of list entries. */
  lemma FreedFrame(m: seq<Cell>, fl: seq<nat>, head: u32, bump: u32, o: nat, c: nat)
    requires CanFree(m, fl, head, bump, o) && c < |m| && c != o
    ensures var m' := Freed(m, fl, head, bump, o).0;
      |m'| == |m| && m'[c].size == m[c].size && (c !in fl ==> m'[c] == m[c])
  {
    if m[o].free == 0 {
      var m1, fl1 := Pushed(m, head, o), [o] + fl;
      PushChain(m, fl, head, o);
      var n := (16 * o + m1[o].size) / 16;
      if 16 * o + m1[o].size < bump && m1[n].free != 0 {
        var k := IndexOf(fl1, n);
        assert ChainAt(m1, fl1, k) && (k > 0 ==> ChainAt(m1, fl1, k - 1));
        assert fl1[k] in fl1 && (k > 0 ==> fl1[k - 1] in fl1);
      }
    }
  }

  /** Free writes no block's marker. */
  lemma FreedMarks(m: seq<Cell>, fl: seq<nat>, head: u32, bump: u32, o: nat)
    requires CanFree(m, fl, head, bump, o)
    ensures var m' := Freed(m, fl, head, bump, o).0; |m'| == |m| && forall c | 0 <= c < |m| :: m'[c].pad == m[c].pad
  {
    if m[o].free == 0 {
      var m1, fl1 := Pushed(m, head, o), [o] + fl;
      PushChain(m, fl, head, o);
      var n := (16 * o + m1[o].size) / 16;
      if 16 * o + m1[o].size < bump && m1[n].free != 0 {
        var k := IndexOf(fl1, n);
        assert ChainAt(m1, fl1, k) && (k > 0 ==> ChainAt(m1, fl1, k - 1));
      }
    }
  }

  /** A cell strictly inside a free block is not written by free. */
  lemma FreeCellKept(m: seq<Cell>, h: Heap, head: u32, o: nat, x: nat, p: nat)
    requires Wf(h) && Rep(m, h, head) && Live(h, o) && 16 * h.bump < WORD
    requires CanFree(m, h.fl, head, 16 * h.bump, o)
    requires x in h.blocks && h.blocks[x].free && x < p < x + h.blocks[x].cells
    ensures p < |m| == |Freed(m, h.fl, head, 16 * h.bump, o).0| && Freed(m, h.fl, head, 16 * h.bump, o).0[p] == m[p]
  {
    assert EndsWell(h, x) && Apart(h, x, o) && Apart(h, o, x) && Apart(h, x, p) && Listed(h, p);
    FreedFrame(m, h.fl, head, 16 * h.bump, o, p);
  }

  /** A free block right behind the freed one is swallowed, and its header then says used. */
  lemma FreeSwallowsNext(m: seq<Cell>, h: Heap, head: u32, o: nat)
    requires Wf(h) && Rep(m, h, head) && Live(h, o) && 16 * h.bump < WORD
    requires CanFree(m, h.fl, head, 16 * h.bump, o) && m[o].free == 0
    requires var n := o + h.blocks[o].cells; n in h.blocks && h.blocks[n].free
    ensures var n, m' := o + h.blocks[o].cells, Freed(m, h.fl, head, 16 * h.bump, o).0;
      n < |m| == |m'| && m'[n].free == 0 && m'[n].size == 16 * h.blocks[n].cells
  {
    var n := o + h.blocks[o].cells;
    assert EndsWell(h, o) && EndsWell(h, n) && HeaderAt(m, h, o) && HeaderAt(m, h, n);
    PushChain(m, h.fl, head, o);
    var m1, fl1 := Pushed(m, head, o), [o] + h.fl;
    assert (16 * o + m1[o].size) / 16 == n && m1[n].free != 0;
    MergedAway(m1, fl1, 16 * o, 16 * h.bump, o, n);
  }

  lemma MergedAway(m: seq<Cell>, fl: seq<nat>, head: u32, bump: u32, o: nat, n: nat)
    requires Chain(m, fl, head) && Distinct(fl) && CanMerge(m, fl, bump, o)
    requires 16 * n == 16 * o + m[o].size < bump && n != o && n < |m| && m[n].free != 0
    ensures var m' := Merged(m, fl, head, bump, o).0; |m'| == |m| && m'[n].free == 0 && m'[n].size == m[n].size
  {
    var k := IndexOf(fl, n);
    assert ChainAt(m, fl, k) && (k > 0 ==> ChainAt(m, fl, k - 1));
    assert UnlistCells(m, fl, k)[n].free == 0;
  }

  // ---------------------------------------------------------------- the second free

  /** At a swallowed pointer free runs: its header says used, and what follows it is a
      block boundary. */
  lemma SwallowedCanFree(m: seq<Cell>, h: Heap, head: u32, x: nat, p: nat)
    requires Wf(h) && Rep(m, h, head) && SwallowedBy(m, h, x, p) && 16 * h.bump < WORD
    ensures p !in h.blocks && CanFree(m, h.fl, head, 16 * h.bump, p)
  {
    RepChain(m, h, head);
    assert EndsWell(h, x) && Apart(h, x, p);
    assert Listed(h, p);
    var e := x + h.blocks[x].cells;
    if e < h.bump { assert HeaderAt(m, h, e) && EndsWell(h, e) && Listed(h, e); }
  }

  /** Two list entries whose blocks overlap. */
  ghost predicate Overlap(m: seq<Cell>, fl: seq<nat>, x: nat, p: nat) {
    x in fl && p in fl && x < |m| && x < p && 16 * p < 16 * x + m[x].size
  }

  /** The second free of a swallowed pointer puts it on the list beside the block that
      swallowed it: the list now hands out the same memory twice. */
  lemma SecondFreeOverlaps(m: seq<Cell>, h: Heap, head: u32, x: nat, p: nat)
    requires Wf(h) && Rep(m, h, head) && SwallowedBy(m, h, x, p) && 16 * h.bump < WORD
    requires CanFree(m, h.fl, head, 16 * h.bump, p)
    ensures var (m', head', fl') := Freed(m, h.fl, head, 16 * h.bump, p);
      && Chain(m', fl', head') && Overlap(m', fl', x, p) && |m'| == |m| && m'[p].free != 0
  {
    assert EndsWell(h, x) && Listed(h, x) && HeaderAt(m, h, x);
    FreedFrame(m, h.fl, head, 16 * h.bump, p, x);
    PushChain(m, h.fl, head, p);
    PushDistinct(h.fl, p);
    var e := x + h.blocks[x].cells;
    MergedChain(Pushed(m, head, p), [p] + h.fl, 16 * p, 16 * h.bump, p, x);
  }

  /** The forward merge takes one entry off the list and leaves the others chained. */
  lemma MergedChain(m: seq<Cell>, fl: seq<nat>, head: int, bump: u32, o: nat, x: nat)
    requires Chain(m, fl, head) && Distinct(fl) && CanMerge(m, fl, bump, o) && o in fl && x in fl
    requires 16 * x != 16 * o + m[o].size
    requires (16 * o + m[o].size) % 16 == 0
    ensures var (m', head', fl') := Merged(m, fl, head, bump, o);
      Chain(m', fl', head') && o in fl' && x in fl' && |m'| == |m| && m'[o].free == m[o].free
  {
    var n := (16 * o + m[o].size) / 16;
    if 16 * o + m[o].size < bump && m[n].free != 0 {
      var k := IndexOf(fl, n);
      RemoveKeeps(fl, k);
      UnlistChain(m, fl, head, k);
      var u := UnlistCells(m, fl, k);
      ResizeChain(u, Remove(fl, k), Link(Remove(fl, k), 0), o, u[o].size + u[n].size);
    }
  }

  lemma PushDistinct(fl: seq<nat>, p: nat)
    requires Distinct(fl) && p !in fl
    ensures Distinct([p] + fl)
  {}

  lemma UnlistChain(m: seq<Cell>, fl: seq<nat>, head: int, k: nat)
    requires Chain(m, fl, head) && Distinct(fl) && k < |fl|
    ensures fl[k] < |m| && (k > 0 ==> fl[k - 1] < |m|)
    ensures Chain(UnlistCells(m, fl, k), Remove(fl, k), Link(Remove(fl, k), 0))
  {
    assert ChainAt(m, fl, k) && (k > 0 ==> ChainAt(m, fl, k - 1));
    var m', r := UnlistCells(m, fl, k), Remove(fl, k);
    forall j | 0 <= j < |r| ensures ChainAt(m', r, j) {
      assert ChainAt(m, fl, j);
      if j >= k { assert ChainAt(m, fl, j + 1); }
    }
  }

  lemma ResizeChain(m: seq<Cell>, fl: seq<nat>, head: int, o: nat, size: u32)
    requires Chain(m, fl, head) && o < |m|
    ensures Chain(m[o := m[o].(size := size)], fl, head)
  {
    var m' := m[o := m[o].(size := size)];
    forall k | 0 <= k < |fl| ensures ChainAt(m', fl, k) { assert ChainAt(m, fl, k); }
  }

  /** The guard against double frees works exactly while the pointer still heads a block. */
  lemma SecondFreeIgnoredIff(m: seq<Cell>, h: Heap, head: u32, p: nat)
    requires Wf(h) && Rep(m, h, head) && WasFreed(m, h, p) && 16 * h.bump < WORD
    ensures CanFree(m, h.fl, head, 16 * h.bump, p)
    ensures Freed(m, h.fl, head, 16 * h.bump, p).0 == m <==> p in h.blocks
    ensures m[p].free != 0 <==> p in h.blocks
  {
    RepChain(m, h, head);
    if Swallowed(m, h, p) {
      var x: nat :| SwallowedBy(m, h, x, p);
      SwallowedCanFree(m, h, head, x, p);
      SecondFreeOverlaps(m, h, head, x, p);
    } else {
      assert HeaderAt(m, h, p);
    }
  }

  /** The list that starts at `head` holds `p` and a block that `p` lies in. */
  ghost predicate Doubled(m: seq<Cell>, head: int, p: nat) {
    exists fl: seq<nat>, x: nat {:trigger Overlap(m, fl, x, p)} :: Chain(m, fl, head) && Overlap(m, fl, x, p)
  }

  lemma StillFreedSame(m0: seq<Cell>, h0: Heap, m1: seq<Cell>, m2: seq<Cell>, h1: Heap)
    requires StillFreed(m0, h0, m1, h1) && StillFreed(m1, h1, m2, h1)
    ensures StillFreed(m0, h0, m2, h1)
  {
    forall p: nat | WasFreed(m0, h0, p) && !HandedOut(h1, p) ensures WasFreed(m2, h1, p) {
      assert WasFreed(m1, h1, p);
    }
  }

  /** Allocate, copy, free: nothing else is handed out in between. */
  lemma GrowStillFreed(m0: seq<Cell>, h0: Heap, m1: seq<Cell>, h1: Heap, m2: seq<Cell>, m3: seq<Cell>, h3: Heap, o: nat, q: nat)
    requires StillFreed(m0, h0, m1, h1) && StillFreed(m1, h1, m2, h1) && StillFreed(m2, h1, m3, h3)
    requires Wf(h0) && SameLiveExcept(h0, h1, q) && SameLiveExcept(h1, h3, o) && o != q && Live(h1, q)
    ensures StillFreed(m0, h0, m3, h3)
  {
    forall p: nat | WasFreed(m0, h0, p) && !HandedOut(h3, p) ensures WasFreed(m3, h3, p) {
      FreedNotHandedOut(m0, h0, p);
      assert !HandedOut(h1, p) by {
        forall x: nat ensures !Holds(h1, x, p) {
          if x == q {
            assert Live(h1, q) == Live(h3, q) && !Holds(h3, q, p);
          } else {
            assert Live(h0, x) == Live(h1, x) && !Holds(h0, x, p);
          }
        }
      }
      assert WasFreed(m1, h1, p) && WasFreed(m2, h1, p);
    }
  }
}
