/** The memory budget predicate: pure functions of counter values. */
module MemBudget {
  const WORD := 0x1_0000_0000
  const BUDGET := 16 * 1024 * 1024

  type u32 = x: int | 0 <= x < 0x1_0000_0000

  datatype Acct = Acct(used: u32, footprint: u32, baseline: u32)

  /** Live bytes minus the runtime's own baseline, clamped at zero. */
  function CartHeap(a: Acct): (r: u32)
    ensures a.used <= a.baseline + r
    ensures r > 0 ==> a.used == a.baseline + r
  {
    if a.used > a.baseline then a.used - a.baseline else 0
  }

  /** The one success/failure decision of every allocation site. */
  predicate AllocFits(heap: u32, footprint: u32, incoming: u32) {
    heap + footprint + incoming <= BUDGET
  }

  /** Room left for the evictable cache. */
  function CacheRoom(heap: u32, footprint: u32): (r: u32)
    ensures forall x: u32 :: x > 0 ==> (x <= r <==> AllocFits(heap, footprint, x))
  {
    if heap + footprint >= BUDGET then 0 else BUDGET - (heap + footprint)
  }
}

/**
 The arena as a value: which blocks tile the used prefix, which of them are
 free, and in which order the free list visits them.  Everything is counted in
 16-byte cells; a block's first cell is its header.
 */
module ArenaSpec {
  import opened MemBudget

  datatype Option<+T> = None | Some(value: T)

  datatype Blk = Blk(cells: nat, free: bool, noacct: bool)

  datatype Heap = Heap(blocks: map<nat, Blk>, bump: nat, fl: seq<nat>)

  /** `cap` is the arena's capacity in cells; `acct` is absent for an uncapped arena. */
  datatype State = State(cap: nat, heap: Heap, acct: Option<Acct>)

  const EMPTY := Heap(map[], 0, [])

  // ---------------------------------------------------------------- sizes

  /** The block size, in bytes, the 32-bit computation arrives at. */
  function Need32(n: nat): (r: u32)
    ensures r % 16 == 0
  {
    var t := ((n % WORD + 16) % WORD + 15) % WORD;
    t - t % 16
  }

  function NeedCells(n: nat): nat { Need32(if n == 0 then 1 else n) / 16 }

  /** The size computation leaves room for the header and the payload exactly
      when the request is at most 2^32 - 32; every larger request gets a block
      that is too small. */
  lemma NeedCoversIffInRange(n: nat)
    ensures 16 * NeedCells(n) >= n + 16 <==> n <= WORD - 32
    ensures n <= WORD - 32 ==> 2 <= NeedCells(n) && 16 * NeedCells(n) < n + 32 + (if n == 0 then 1 else 0)
    ensures WORD - 32 < n < WORD ==> NeedCells(n) <= 1
  {
    if n <= WORD - 32 {
      var m := if n == 0 then 1 else n;
      assert m % WORD == m && (m + 16) % WORD == m + 16 && (m + 31) % WORD == m + 31;
    } else if n < WORD {
      assert n % WORD == n;
      assert n + 16 < WORD ==> (n + 16) % WORD == n + 16 && (n + 31) % WORD == n + 31 - WORD;
      assert n + 16 >= WORD ==> (n + 16) % WORD == n + 16 - WORD && (n + 31 - WORD) % WORD == n + 31 - WORD;
    } else {
      assert Need32(n) < WORD;
    }
  }

  // ---------------------------------------------------------------- shape

  /** The block at `o` ends inside the used prefix, at its end or at another block. */
  ghost predicate EndsWell(h: Heap, o: nat) {
    && o in h.blocks
    && h.blocks[o].cells >= 2
    && o + h.blocks[o].cells <= h.bump
    && (o + h.blocks[o].cells == h.bump || o + h.blocks[o].cells in h.blocks)
  }

  ghost predicate Apart(h: Heap, o: nat, p: nat) {
    o in h.blocks && p in h.blocks && o < p ==> o + h.blocks[o].cells <= p
  }

  ghost predicate Tiled(h: Heap) {
    && (forall o {:trigger EndsWell(h, o)} :: o in h.blocks ==> EndsWell(h, o))
    && (forall o, p {:trigger Apart(h, o, p)} :: Apart(h, o, p))
    && (h.bump > 0 ==> 0 in h.blocks)
  }

  ghost predicate Distinct(s: seq<nat>) {
    forall i, j :: 0 <= i < j < |s| ==> s[i] != s[j]
  }

  /** The free list holds exactly the offsets of the blocks flagged free. */
  ghost predicate Listed(h: Heap, o: nat) { o in h.blocks && h.blocks[o].free <==> o in h.fl }

  ghost predicate ListsFree(h: Heap) {
    && Distinct(h.fl)
    && (forall o {:trigger Listed(h, o)} :: Listed(h, o))
    && (forall i {:trigger h.fl[i]} :: 0 <= i < |h.fl| ==> h.fl[i] in h.blocks && h.blocks[h.fl[i]].free)
  }

  ghost predicate Wf(h: Heap) { Tiled(h) && ListsFree(h) }

  /** Bytes charged to the cart by one block. */
  function Charge(b: Blk): nat { if b.free || b.noacct then 0 else 16 * b.cells }

  ghost function Charged(m: map<nat, Blk>): nat {
    if m == map[] then 0 else
      var k :| k in m;
      Charge(m[k]) + Charged(m - {k})
  }

  ghost predicate Live(h: Heap, o: nat) { o in h.blocks && !h.blocks[o].free }

  /** The blocks and the list are in order, whatever the counters say. */
  ghost predicate Shaped(s: State) { Wf(s.heap) && s.heap.bump <= s.cap && 16 * s.cap < WORD }

  /** What holds of every state an arena reaches. */
  ghost predicate Good(s: State) {
    Shaped(s) && (s.acct.Some? ==> s.acct.value.used == Charged(s.heap.blocks))
  }

  // ---------------------------------------------------------------- operations

  function FirstFit(h: Heap, need: nat, k: nat): (r: nat)
    requires k <= |h.fl|
    requires forall i :: 0 <= i < |h.fl| ==> h.fl[i] in h.blocks
    ensures k <= r <= |h.fl|
    ensures r < |h.fl| ==> h.blocks[h.fl[r]].cells >= need
    ensures forall i :: k <= i < r ==> h.blocks[h.fl[i]].cells < need
    decreases |h.fl| - k
  {
    if k == |h.fl| || h.blocks[h.fl[k]].cells >= need then k else FirstFit(h, need, k + 1)
  }

  predicate CapAllows(a: Option<Acct>, bytes: nat) {
    a.None? || (bytes < WORD && AllocFits(CartHeap(a.value), a.value.footprint, bytes))
  }

  function Add(a: Option<Acct>, noacct: bool, bytes: nat): Option<Acct> {
    if a.None? || noacct then a else Some(a.value.(used := (a.value.used + bytes) % WORD))
  }

  function Sub(a: Option<Acct>, noacct: bool, bytes: nat): Option<Acct> {
    if a.None? || noacct then a else Some(a.value.(used := (a.value.used - bytes) % WORD))
  }

  function Remove(s: seq<nat>, k: nat): seq<nat> requires k < |s| { s[..k] + s[k + 1..] }

  /** Take free-list entry `k`, splitting off the remainder when it can hold a block. */
  function Take(h: Heap, k: nat, need: nat, noacct: bool): Heap
    requires k < |h.fl| && h.fl[k] in h.blocks && h.blocks[h.fl[k]].cells >= need
  {
    var o := h.fl[k];
    var c := h.blocks[o].cells;
    if c - need >= 2 then
      Heap(h.blocks[o := Blk(need, false, noacct)][o + need := Blk(c - need, true, false)],
           h.bump, h.fl[k := o + need])
    else
      Heap(h.blocks[o := Blk(c, false, noacct)], h.bump, Remove(h.fl, k))
  }

  function Consumed(c: nat, need: nat): nat
    requires c >= need
  { if c - need >= 2 then need else c }

  /** Returns the new state and the offset of the new block, if any. */
  function MallocSpec(s: State, n: nat, noacct: bool): (State, Option<nat>)
    requires Wf(s.heap)
  {
    var h, need := s.heap, NeedCells(n);
    var k := FirstFit(h, need, 0);
    if s.cap == 0 then (s, None)
    else if k < |h.fl| then
      var o := h.fl[k];
      var bytes := 16 * Consumed(h.blocks[o].cells, need);
      if !noacct && !CapAllows(s.acct, bytes) then (s, None)
      else (State(s.cap, Take(h, k, need, noacct), Add(s.acct, noacct, bytes)), Some(o))
    else if h.bump + need > s.cap then (s, None)
    else if !noacct && !CapAllows(s.acct, 16 * need) then (s, None)
    else
      (State(s.cap, Heap(h.blocks[h.bump := Blk(need, false, noacct)], h.bump + need, h.fl),
             Add(s.acct, noacct, 16 * need)),
       Some(h.bump))
  }

  function IndexOf(s: seq<nat>, x: nat): (k: nat)
    requires x in s
    ensures k < |s| && s[k] == x
  { if s[0] == x then 0 else 1 + IndexOf(s[1..], x) }

  /** Put a block on the free list. */
  function Release(h: Heap, o: nat): Heap
    requires o in h.blocks
  { Heap(h.blocks[o := h.blocks[o].(free := true)], h.bump, [o] + h.fl) }

  /** Merge the block after `o` into it when that block is free: one step, forward only. */
  function Coalesce(h: Heap, o: nat): Heap
    requires Wf(h) && o in h.blocks
  {
    var n := o + h.blocks[o].cells;
    assert EndsWell(h, o) && Listed(h, n);
    if n < h.bump && h.blocks[n].free then
      Merge(h, o, n, Remove(h.fl, IndexOf(h.fl, n)))
    else h
  }

  lemma ReleaseWf(h: Heap, o: nat)
    requires Wf(h) && Live(h, o)
    ensures Wf(Release(h, o))
  {
    var r := Release(h, o);
    forall p | p in r.blocks ensures EndsWell(r, p) { assert EndsWell(h, p); }
    forall p, q ensures Apart(r, p, q) { assert Apart(h, p, q); }
    forall p ensures Listed(r, p) { assert Listed(h, p); }
    assert Listed(h, o);
  }

  function FreeSpec(s: State, p: Option<nat>): State
    requires Wf(s.heap) && (p.Some? ==> p.value in s.heap.blocks)
  {
    if p.None? || s.heap.blocks[p.value].free then s
    else
      var o := p.value;
      var b := s.heap.blocks[o];
      ReleaseWf(s.heap, o);
      State(s.cap, Coalesce(Release(s.heap, o), o), Sub(s.acct, b.noacct, 16 * b.cells))
  }

  // ---------------------------------------------------------------- sums

  lemma {:induction false} ChargedRemove(m: map<nat, Blk>, k: nat)
    requires k in m
    ensures Charged(m) == Charge(m[k]) + Charged(m - {k})
    decreases |m|
  {
    var j :| j in m && Charged(m) == Charge(m[j]) + Charged(m - {j});
    if j != k {
      ChargedRemove(m - {j}, k);
      ChargedRemove(m - {k}, j);
      assert m - {j} - {k} == m - {k} - {j};
    }
  }

  lemma ChargedUpdate(m: map<nat, Blk>, k: nat, b: Blk)
    ensures Charged(m[k := b]) == Charged(m) + Charge(b) - (if k in m then Charge(m[k]) else 0)
  {
    ChargedRemove(m[k := b], k);
    assert m[k := b] - {k} == m - {k};
    if k in m { ChargedRemove(m, k); } else { assert m - {k} == m; }
  }

  /** The charge of a tiled heap is bounded by its used prefix. */
  lemma {:induction false} ChargedBounded(m: map<nat, Blk>, bump: nat)
    requires forall o :: o in m ==> o + m[o].cells <= bump
    requires forall o, p :: o in m && p in m && o < p ==> o + m[o].cells <= p
    ensures Charged(m) <= 16 * bump
    decreases |m|
  {
    if m != map[] {
      var top := Topmost(m.Keys);
      ChargedRemove(m, top);
      ChargedBounded(m - {top}, top);
    }
  }

  ghost function Topmost(s: set<nat>): (t: nat)
    requires s != {}
    ensures t in s && forall x :: x in s ==> x <= t
  {
    var x :| x in s;
    if s == {x} then x else
      assert s == s - {x} + {x};
      var y := Topmost(s - {x});
      if x > y then x else y
  }

  // ---------------------------------------------------------------- each step keeps the shape

  lemma TakeTiled(h: Heap, k: nat, need: nat, noacct: bool)
    requires Tiled(h) && k < |h.fl| && h.fl[k] in h.blocks && 2 <= need <= h.blocks[h.fl[k]].cells
    ensures Tiled(Take(h, k, need, noacct))
  {
    var o, r := h.fl[k], Take(h, k, need, noacct);
    assert EndsWell(h, o);
    forall p | p in r.blocks ensures EndsWell(r, p) { assert p in h.blocks ==> EndsWell(h, p); }
    forall p, q ensures Apart(r, p, q) {
      assert Apart(h, p, q); assert Apart(h, o, q); assert Apart(h, p, o); assert Apart(h, o, p);
    }
  }

  lemma TakeCharged(h: Heap, k: nat, need: nat, noacct: bool)
    requires Wf(h) && k < |h.fl| && 2 <= need <= h.blocks[h.fl[k]].cells
    ensures Charged(Take(h, k, need, noacct).blocks)
         == Charged(h.blocks) + (if noacct then 0 else 16 * Consumed(h.blocks[h.fl[k]].cells, need))
  {
    var o, c := h.fl[k], h.blocks[h.fl[k]].cells;
    var b := Blk(if c - need >= 2 then need else c, false, noacct);
    ChargedUpdate(h.blocks, o, b);
    if c - need >= 2 {
      assert Apart(h, o, o + need);
      ChargedUpdate(h.blocks[o := b], o + need, Blk(c - need, true, false));
    }
  }

  lemma TakeLists(h: Heap, k: nat, need: nat, noacct: bool)
    requires Wf(h) && k < |h.fl| && 2 <= need <= h.blocks[h.fl[k]].cells
    ensures ListsFree(Take(h, k, need, noacct))
  {
    var o, r := h.fl[k], Take(h, k, need, noacct);
    assert Listed(h, o + need) && Apart(h, o, o + need);
    if h.blocks[o].cells - need >= 2 { ReplaceKeeps(h.fl, k, o + need); } else { RemoveKeeps(h.fl, k); }
    forall p ensures Listed(r, p) { assert Listed(h, p); }
    ListedElements(r);
  }

  lemma ListedElements(h: Heap)
    requires forall o {:trigger Listed(h, o)} :: Listed(h, o)
    ensures forall i {:trigger h.fl[i]} :: 0 <= i < |h.fl| ==> h.fl[i] in h.blocks && h.blocks[h.fl[i]].free
  {
    forall i | 0 <= i < |h.fl| ensures h.fl[i] in h.blocks && h.blocks[h.fl[i]].free { assert Listed(h, h.fl[i]); }
  }

  lemma ReplaceKeeps(s: seq<nat>, k: nat, y: nat)
    requires Distinct(s) && k < |s| && y !in s
    ensures Distinct(s[k := y])
    ensures forall x :: x in s[k := y] <==> x == y || (x in s && x != s[k])
  {
    var r := s[k := y];
    assert r[k] == y;
    forall x | x in s && x != s[k] ensures x in r {
      var i :| 0 <= i < |s| && s[i] == x;
      assert r[i] == x;
    }
  }

  lemma RemoveKeeps(s: seq<nat>, k: nat)
    requires Distinct(s) && k < |s|
    ensures Distinct(Remove(s, k))
    ensures forall x :: x in Remove(s, k) <==> x in s && x != s[k]
  {
    var r := Remove(s, k);
    forall x | x in s && x != s[k] ensures x in r {
      var i :| 0 <= i < |s| && s[i] == x;
      assert r[if i < k then i else i - 1] == x;
    }
  }

  lemma BumpWf(h: Heap, need: nat, noacct: bool)
    requires Wf(h) && need >= 2
    ensures var r := Heap(h.blocks[h.bump := Blk(need, false, noacct)], h.bump + need, h.fl);
      h.bump !in h.blocks && Wf(r)
      && Charged(r.blocks) == Charged(h.blocks) + (if noacct then 0 else 16 * need)
  {
    var r := Heap(h.blocks[h.bump := Blk(need, false, noacct)], h.bump + need, h.fl);
    assert h.bump in h.blocks ==> EndsWell(h, h.bump);
    ChargedUpdate(h.blocks, h.bump, Blk(need, false, noacct));
    forall p | p in r.blocks ensures EndsWell(r, p) { assert p in h.blocks ==> EndsWell(h, p); }
    forall p, q ensures Apart(r, p, q) {
      assert Apart(h, p, q); assert p in h.blocks ==> EndsWell(h, p); assert q in h.blocks ==> EndsWell(h, q);
    }
    forall p ensures Listed(r, p) { assert Listed(h, p); }
  }

  /** Block `o` swallows its neighbour `n`. */
  function Merge(h: Heap, o: nat, n: nat, fl: seq<nat>): Heap
    requires o in h.blocks && n in h.blocks
  { Heap((h.blocks - {n})[o := h.blocks[o].(cells := h.blocks[o].cells + h.blocks[n].cells)], h.bump, fl) }

  lemma MergeEnds(h: Heap, o: nat, n: nat, fl: seq<nat>, p: nat)
    requires Tiled(h) && EndsWell(h, o) && EndsWell(h, n) && n == o + h.blocks[o].cells
    requires p in h.blocks && p != n
    ensures EndsWell(Merge(h, o, n, fl), p)
  {
    assert EndsWell(h, p) && Apart(h, p, o) && Apart(h, o, p);
  }

  lemma MergeApart(h: Heap, o: nat, n: nat, fl: seq<nat>, p: nat, q: nat)
    requires Tiled(h) && EndsWell(h, o) && EndsWell(h, n) && n == o + h.blocks[o].cells
    ensures Apart(Merge(h, o, n, fl), p, q)
  {
    assert Apart(h, p, q) && Apart(h, n, q) && Apart(h, o, q);
  }

  lemma CoalesceTiled(h: Heap, o: nat)
    requires Wf(h) && o in h.blocks
    ensures Tiled(Coalesce(h, o))
  {
    var r := Coalesce(h, o);
    var n := o + h.blocks[o].cells;
    assert EndsWell(h, o);
    if n < h.bump && h.blocks[n].free {
      assert EndsWell(h, n) && r == Merge(h, o, n, r.fl);
      forall p | p in r.blocks ensures EndsWell(r, p) { MergeEnds(h, o, n, r.fl, p); }
      forall p, q ensures Apart(r, p, q) { MergeApart(h, o, n, r.fl, p, q); }
    }
  }

  lemma CoalesceLists(h: Heap, o: nat)
    requires Wf(h) && o in h.blocks && h.blocks[o].free
    ensures ListsFree(Coalesce(h, o)) && Charged(Coalesce(h, o).blocks) == Charged(h.blocks)
  {
    var r := Coalesce(h, o);
    var n := o + h.blocks[o].cells;
    assert EndsWell(h, o);
    if n < h.bump && h.blocks[n].free {
      ChargedRemove(h.blocks, n);
      ChargedUpdate(h.blocks - {n}, o, r.blocks[o]);
      assert Listed(h, n);
      RemoveKeeps(h.fl, IndexOf(h.fl, n));
      forall p ensures Listed(r, p) { assert Listed(h, p); }
      ListedElements(r);
    }
  }

  lemma ChargeFits(s: State)
    requires Wf(s.heap) && s.heap.bump <= s.cap
    ensures Charged(s.heap.blocks) <= 16 * s.cap
  {
    var h := s.heap;
    forall o | o in h.blocks ensures o + h.blocks[o].cells <= h.bump { assert EndsWell(h, o); }
    forall o, p | o in h.blocks && p in h.blocks && o < p ensures o + h.blocks[o].cells <= p {
      assert Apart(h, o, p);
    }
    ChargedBounded(h.blocks, h.bump);
  }

  // ---------------------------------------------------------------- whole operations

  /** `t` has exactly the live blocks of `s`, except that `o` may differ. */
  ghost predicate SameLiveExcept(s: Heap, t: Heap, o: nat) {
    forall p {:trigger Live(s, p)} {:trigger Live(t, p)} ::
      p != o ==> Live(s, p) == Live(t, p) && (Live(s, p) ==> s.blocks[p] == t.blocks[p])
  }

  /** The counter moved by `delta` and nothing else in the accounting block did. */
  ghost predicate Recharged(a: Option<Acct>, b: Option<Acct>, delta: int) {
    && a.Some? == b.Some?
    && (a.Some? ==> b.value.used == a.value.used + delta
                    && b.value.footprint == a.value.footprint && b.value.baseline == a.value.baseline)
  }

  /** A malloc that changed the state handed out block `o`: it was not live, is
      charged for exactly its own size, and every other live block is as it was. */
  ghost predicate Allocated(s: State, t: State, o: nat, need: nat, noacct: bool) {
    && t.cap == s.cap
    && !Live(s.heap, o) && Live(t.heap, o)
    && need <= t.heap.blocks[o].cells <= need + 1
    && t.heap.blocks[o].noacct == noacct
    && SameLiveExcept(s.heap, t.heap, o)
    && Recharged(s.acct, t.acct, Charge(t.heap.blocks[o]))
  }

  lemma TakeGood(s: State, k: nat, need: nat, noacct: bool)
    requires Good(s) && k < |s.heap.fl| && 2 <= need <= s.heap.blocks[s.heap.fl[k]].cells
    ensures var t := State(s.cap, Take(s.heap, k, need, noacct),
              Add(s.acct, noacct, 16 * Consumed(s.heap.blocks[s.heap.fl[k]].cells, need)));
      Good(t) && Allocated(s, t, s.heap.fl[k], need, noacct)
  {
    var t := State(s.cap, Take(s.heap, k, need, noacct),
              Add(s.acct, noacct, 16 * Consumed(s.heap.blocks[s.heap.fl[k]].cells, need)));
    TakeCharged(s.heap, k, need, noacct);
    TakeFits(s, k, need, noacct);
    TakeLive(s.heap, k, need, noacct);
  }

  lemma TakeFits(s: State, k: nat, need: nat, noacct: bool)
    requires Good(s) && k < |s.heap.fl| && 2 <= need <= s.heap.blocks[s.heap.fl[k]].cells
    ensures Wf(Take(s.heap, k, need, noacct))
    ensures Charged(Take(s.heap, k, need, noacct).blocks) <= 16 * s.cap
  {
    TakeTiled(s.heap, k, need, noacct);
    TakeLists(s.heap, k, need, noacct);
    ChargeFits(State(s.cap, Take(s.heap, k, need, noacct), None));
  }

  lemma TakeLive(h: Heap, k: nat, need: nat, noacct: bool)
    requires Tiled(h) && k < |h.fl| && h.fl[k] in h.blocks && h.blocks[h.fl[k]].free
    requires 2 <= need <= h.blocks[h.fl[k]].cells
    ensures SameLiveExcept(h, Take(h, k, need, noacct), h.fl[k])
  {
    assert Apart(h, h.fl[k], h.fl[k] + need);
  }

  /** The state after carving `need` cells off at the bump pointer. */
  function Bumped(s: State, need: nat, noacct: bool): State {
    State(s.cap, Heap(s.heap.blocks[s.heap.bump := Blk(need, false, noacct)], s.heap.bump + need, s.heap.fl),
          Add(s.acct, noacct, 16 * need))
  }

  lemma BumpGood(s: State, need: nat, noacct: bool)
    requires Good(s) && need >= 2 && s.heap.bump + need <= s.cap
    ensures var t := Bumped(s, need, noacct); Good(t) && Allocated(s, t, s.heap.bump, need, noacct)
  {
    BumpWf(s.heap, need, noacct);
    ChargeFits(State(s.cap, Heap(s.heap.blocks[s.heap.bump := Blk(need, false, noacct)],
                                 s.heap.bump + need, s.heap.fl), s.acct));
  }

  /** A successful malloc hands out a block that was not live, is large enough,
      is charged either the rounded request or one cell more, and leaves every
      other live block exactly as it was; a failing one changes nothing. */
  lemma MallocEffect(s: State, n: nat, noacct: bool)
    requires Good(s) && n <= WORD - 32
    ensures var (t, r) := MallocSpec(s, n, noacct);
      && Good(t)
      && (r.None? ==> t == s)
      && (r.Some? ==> Allocated(s, t, r.value, NeedCells(n), noacct)
                      && 16 * t.heap.blocks[r.value].cells - 16 >= n)
  {
    NeedCoversIffInRange(n);
    var need, k := NeedCells(n), FirstFit(s.heap, NeedCells(n), 0);
    if k < |s.heap.fl| {
      TakeGood(s, k, need, noacct);
    } else if s.heap.bump + need <= s.cap {
      BumpGood(s, need, noacct);
    }
  }

  /** What malloc does once the first fitting free-list entry is known. */
  lemma MallocFromList(s: State, n: nat, noacct: bool, k: nat)
    requires Good(s) && n <= WORD - 32 && k < |s.heap.fl|
    requires s.heap.blocks[s.heap.fl[k]].cells >= NeedCells(n)
    requires forall i :: 0 <= i < k ==> s.heap.blocks[s.heap.fl[i]].cells < NeedCells(n)
    ensures var bytes := 16 * Consumed(s.heap.blocks[s.heap.fl[k]].cells, NeedCells(n));
      && (!noacct && !CapAllows(s.acct, bytes) ==> MallocSpec(s, n, noacct) == (s, None))
      && (noacct || CapAllows(s.acct, bytes) ==>
            var t := State(s.cap, Take(s.heap, k, NeedCells(n), noacct), Add(s.acct, noacct, bytes));
            MallocSpec(s, n, noacct) == (t, Some(s.heap.fl[k])) && Good(t))
  {
    MallocEffect(s, n, noacct);
    assert EndsWell(s.heap, s.heap.fl[k]);
    assert k == FirstFit(s.heap, NeedCells(n), 0);
  }

  /** What malloc does when no free-list entry fits. */
  lemma MallocFromBump(s: State, n: nat, noacct: bool)
    requires Good(s) && n <= WORD - 32
    requires forall i :: 0 <= i < |s.heap.fl| ==> s.heap.blocks[s.heap.fl[i]].cells < NeedCells(n)
    ensures var h, need := s.heap, NeedCells(n);
      && (h.bump + need > s.cap || (!noacct && !CapAllows(s.acct, 16 * need)) ==>
            MallocSpec(s, n, noacct) == (s, None))
      && (h.bump + need <= s.cap && (noacct || CapAllows(s.acct, 16 * need)) ==>
            var t := Bumped(s, need, noacct);
            MallocSpec(s, n, noacct) == (t, Some(h.bump)) && Good(t))
  {
    MallocEffect(s, n, noacct);
    NeedCoversIffInRange(n);
    assert |s.heap.fl| == FirstFit(s.heap, NeedCells(n), 0);
  }

  /** Freeing a live block removes it from the live blocks, returns exactly its
      charge, and leaves every other live block as it was; freeing the head of a
      block that is already free changes nothing. */
  lemma FreeEffect(s: State, o: nat)
    requires Good(s) && o in s.heap.blocks
    ensures var t := FreeSpec(s, Some(o));
      && Good(t) && t.cap == s.cap
      && !Live(t.heap, o) && SameLiveExcept(s.heap, t.heap, o)
      && (s.heap.blocks[o].free ==> t == s)
      && Recharged(s.acct, t.acct, 0 - Charge(s.heap.blocks[o]))
  {
    if !s.heap.blocks[o].free {
      ReleaseCoalesce(s.heap, o);
      if s.acct.Some? { GivenBack(s, o); }
    }
  }

  lemma GivenBack(s: State, o: nat)
    requires Good(s) && Live(s.heap, o) && s.acct.Some?
    ensures var b := s.heap.blocks[o];
      Sub(s.acct, b.noacct, 16 * b.cells).value.used
        == s.acct.value.used - Charge(b) == Charged(s.heap.blocks[o := b.(free := true)])
  {
    ChargedUpdate(s.heap.blocks, o, s.heap.blocks[o].(free := true));
    ChargeFits(s);
  }

  lemma ReleaseCoalesce(h: Heap, o: nat)
    requires Wf(h) && Live(h, o)
    ensures Wf(Release(h, o))
    ensures var r := Coalesce(Release(h, o), o);
      && Wf(r) && r.bump == h.bump && !Live(r, o) && SameLiveExcept(h, r, o)
      && Charged(r.blocks) == Charged(h.blocks[o := h.blocks[o].(free := true)])
  {
    ReleaseWf(h, o);
    CoalesceTiled(Release(h, o), o);
    CoalesceLists(Release(h, o), o);
    CoalesceLive(Release(h, o), o);
  }

  lemma CoalesceLive(h: Heap, o: nat)
    requires Wf(h) && o in h.blocks && h.blocks[o].free
    ensures var r := Coalesce(h, o);
      !Live(r, o) && r.bump == h.bump && SameLiveExcept(h, r, o)
  {
    assert EndsWell(h, o);
  }

  /** The shape does not depend on the counters. */
  lemma MallocShape(s: State, n: nat, noacct: bool)
    requires Shaped(s) && n <= WORD - 32
    ensures var (t, r) := MallocSpec(s, n, noacct);
      Shaped(t) && t.cap == s.cap && (forall p: nat {:trigger Live(t.heap, p)} :: Live(s.heap, p) ==> Live(t.heap, p) && r != Some(p))
  {
    var u := s.(acct := None);
    MallocEffect(u, n, noacct);
    var (t, r) := MallocSpec(u, n, noacct);
    forall p | Live(s.heap, p) ensures r.Some? ==> Live(t.heap, p) && p != r.value { assert Live(u.heap, p); }
  }

  lemma FreeShape(s: State, o: nat)
    requires Shaped(s) && o in s.heap.blocks
    ensures Shaped(FreeSpec(s, Some(o))) && FreeSpec(s, Some(o)).cap == s.cap
  {
    FreeEffect(s.(acct := None), o);
  }

  function ReallocSpec(s: State, p: Option<nat>, n: nat, noacct: bool): (State, Option<nat>)
    requires Shaped(s) && n <= WORD - 32 && (p.Some? ==> Live(s.heap, p.value))
  {
    if p.None? then MallocSpec(s, n, noacct)
    else if n == 0 then (FreeSpec(s, p), None)
    else if n <= 16 * s.heap.blocks[p.value].cells - 16 then (s, p)
    else
      MallocShape(s, n, noacct);
      var (t, q) := MallocSpec(s, n, noacct);
      if q.None? then (s, None) else
        assert Live(t.heap, p.value);
        (FreeSpec(t, p), q)
  }

  /** A grown block is a new live block that replaces the old one; a refused
      growth changes nothing; a request that fits keeps pointer and charge. */
  lemma ReallocEffect(s: State, o: nat, n: nat, noacct: bool)
    requires Good(s) && 0 < n <= WORD - 32 && Live(s.heap, o)
    ensures var (t, q) := ReallocSpec(s, Some(o), n, noacct);
      && Good(t) && t.cap == s.cap
      && (q.None? || q == Some(o) ==> t == s)
      && (q == Some(o) <==> n <= 16 * s.heap.blocks[o].cells - 16)
      && (q.Some? && q.value != o ==>
            && !Live(s.heap, q.value) && Live(t.heap, q.value) && !Live(t.heap, o)
            && t.heap.blocks[q.value].noacct == noacct
            && (forall p {:trigger Live(t.heap, p)} :: p != o && p != q.value ==>
                  Live(t.heap, p) == Live(s.heap, p) && (Live(s.heap, p) ==> s.heap.blocks[p] == t.heap.blocks[p])))
      && (q.Some? ==> Live(t.heap, q.value) && 16 * t.heap.blocks[q.value].cells - 16 >= n)
  {
    if n > 16 * s.heap.blocks[o].cells - 16 {
      MallocEffect(s, n, noacct);
      var (t, q) := MallocSpec(s, n, noacct);
      if q.Some? {
        assert Live(s.heap, o);
        FreeEffect(t, o);
        assert Live(t.heap, q.value);
      }
    }
  }

  function ResetSpec(s: State): State {
    State(s.cap, EMPTY, if s.acct.None? then None else Some(s.acct.value.(used := 0)))
  }

  // ---------------------------------------------------------------- runs

  datatype Op =
    | OpMalloc(n: nat, noacct: bool)
    | OpFree(p: Option<nat>)
    | OpRealloc(p: Option<nat>, n: nat, noacct: bool)
    | OpCalloc(nmemb: u32, sz: u32)
    | OpStore(o: nat, i: nat)
    | OpReset

  /** `calloc` refuses a product that overflows a 32-bit size. */
  predicate CallocOverflows(nmemb: nat, sz: nat) { sz != 0 && nmemb > (WORD - 1) / sz }

  /** What the allocator asks of its callers: requests in range, pointers that
      head a block (free may see one twice), live pointers for realloc, and stores
      that stay inside a live block's payload. */
  ghost predicate Legal(s: State, op: Op) {
    match op
    case OpMalloc(n, _) => n <= WORD - 32
    case OpFree(p) => p.Some? ==> p.value in s.heap.blocks
    case OpRealloc(p, n, _) => n <= WORD - 32 && (p.Some? ==> Live(s.heap, p.value))
    case OpCalloc(m, z) => CallocOverflows(m, z) || m * z <= WORD - 32
    case OpStore(o, i) => Live(s.heap, o) && i + 1 < s.heap.blocks[o].cells
    case OpReset => true
  }

  function Step(s: State, op: Op): (State, Option<nat>)
    requires Shaped(s) && Legal(s, op)
  {
    match op
    case OpMalloc(n, noacct) => MallocSpec(s, n, noacct)
    case OpFree(p) => (FreeSpec(s, p), None)
    case OpRealloc(p, n, noacct) => ReallocSpec(s, p, n, noacct)
    case OpCalloc(m, z) => if CallocOverflows(m, z) then (s, None) else MallocSpec(s, m * z, false)
    case OpStore(_, _) => (s, None)
    case OpReset => (ResetSpec(s), None)
  }

  lemma StepGood(s: State, op: Op)
    requires Good(s) && Legal(s, op)
    ensures Good(Step(s, op).0) && Step(s, op).0.cap == s.cap
  {
    match op
    case OpMalloc(n, noacct) => MallocEffect(s, n, noacct);
    case OpFree(p) => if p.Some? { FreeEffect(s, p.value); }
    case OpRealloc(p, n, noacct) =>
      if p.None? { MallocEffect(s, n, noacct); }
      else if n == 0 { FreeEffect(s, p.value); }
      else { ReallocEffect(s, p.value, n, noacct); }
    case OpCalloc(m, z) => if !CallocOverflows(m, z) { MallocEffect(s, m * z, false); }
    case OpStore(_, _) =>
    case OpReset =>
  }

  lemma StepShaped(s: State, op: Op)
    requires Shaped(s) && Legal(s, op)
    ensures Shaped(Step(s, op).0) && Step(s, op).0.cap == s.cap
  {
    match op
    case OpMalloc(n, noacct) => MallocShape(s, n, noacct);
    case OpFree(p) => if p.Some? { FreeShape(s, p.value); }
    case OpRealloc(p, n, noacct) =>
      MallocShape(s, n, noacct);
      if p.Some? {
        FreeShape(s, p.value);
        assert Live(MallocSpec(s, n, noacct).0.heap, p.value);
        FreeShape(MallocSpec(s, n, noacct).0, p.value);
      }
    case OpCalloc(m, z) => if !CallocOverflows(m, z) { MallocShape(s, m * z, false); }
    case OpStore(_, _) =>
    case OpReset =>
  }

  ghost predicate LegalRun(s: State, ops: seq<Op>)
    requires Shaped(s)
    decreases |ops|
  {
    ops == [] || (Legal(s, ops[0]) && (StepShaped(s, ops[0]); LegalRun(Step(s, ops[0]).0, ops[1..])))
  }

  ghost function Run(s: State, ops: seq<Op>): State
    requires Shaped(s) && LegalRun(s, ops)
    decreases |ops|
  {
    if ops == [] then s else StepShaped(s, ops[0]); Run(Step(s, ops[0]).0, ops[1..])
  }

  /** Every run of legal operations keeps the heap's shape: blocks tile the used
      prefix, the free list is duplicate-free and holds exactly the free blocks,
      and the counter is the sum of the live accounted blocks. */
  lemma {:induction false} RunGood(s: State, ops: seq<Op>)
    requires Good(s) && LegalRun(s, ops)
    ensures Good(Run(s, ops))
    decreases |ops|
  {
    if ops != [] {
      StepGood(s, ops[0]);
      RunGood(Step(s, ops[0]).0, ops[1..]);
    }
  }

  ghost predicate NothingCharged(m: map<nat, Blk>) {
    forall o :: o in m ==> m[o].free || m[o].noacct
  }

  lemma {:induction false} NothingLiveNothingCharged(m: map<nat, Blk>)
    requires NothingCharged(m)
    ensures Charged(m) == 0
    decreases |m|
  {
    if m != map[] {
      var k :| k in m;
      ChargedRemove(m, k);
      NothingLiveNothingCharged(m - {k});
    }
  }

  /** Once everything accounted has been freed the counter is back at zero, however
      accounted and unaccounted blocks were mixed on the way. */
  lemma DrainedRunIsZero(s: State, ops: seq<Op>)
    requires Good(s) && LegalRun(s, ops)
    requires NothingCharged(Run(s, ops).heap.blocks) && Run(s, ops).acct.Some?
    ensures Run(s, ops).acct.value.used == 0
  {
    RunGood(s, ops);
    NothingLiveNothingCharged(Run(s, ops).heap.blocks);
  }

  // ---------------------------------------------------------------- what the shape means

  /** Every cell below the bump pointer lies in exactly one block. */
  lemma TilesExactly(h: Heap, c: nat)
    requires Tiled(h) && c < h.bump
    ensures exists o :: o in h.blocks && o <= c < o + h.blocks[o].cells
    ensures forall o, p | o in h.blocks && p in h.blocks
              && o <= c < o + h.blocks[o].cells && p <= c < p + h.blocks[p].cells :: o == p
  {
    var below := set o | o in h.blocks.Keys && o <= c;
    assert 0 in below;
    var o := Topmost(below);
    assert EndsWell(h, o);
    assert o + h.blocks[o].cells > c by { assert o + h.blocks[o].cells !in below; }
    forall o, p | o in h.blocks && p in h.blocks
              && o <= c < o + h.blocks[o].cells && p <= c < p + h.blocks[p].cells ensures o == p {
      assert Apart(h, o, p); assert Apart(h, p, o);
    }
  }

  /** The payloads of two different blocks are in bounds and share no byte. */
  lemma PayloadsDisjoint(s: State, o: nat, p: nat)
    requires Good(s) && o in s.heap.blocks && p in s.heap.blocks && o != p
    ensures 16 * (o + s.heap.blocks[o].cells) <= 16 * s.cap
    ensures o + s.heap.blocks[o].cells <= p || p + s.heap.blocks[p].cells <= o
  {
    assert EndsWell(s.heap, o);
    assert Apart(s.heap, o, p);
    assert Apart(s.heap, p, o);
  }
}
