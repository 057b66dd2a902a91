/** What every request to the arena gets, in plain numbers, and what it does not depend on. */
module ArenaLaws {
  import opened MemBudget
  import opened ArenaSpec

  // ---------------------------------------------------------------- who is refused

  /** Cells for the header and `n` bytes; an empty request counts as one byte. */
  function Cells(n: nat): (r: nat)
    ensures r >= 2
  { if n == 0 then 2 else (n + 31) / 16 }

  lemma CellsNeeded(n: nat)
    requires n <= WORD - 32
    ensures NeedCells(n) == Cells(n)
  {
    NeedCoversIffInRange(n);
    assert 16 * NeedCells(n) >= n + 16;
  }

  /** Entry `k` is the first of the free list with `need` cells; `k` is the list's length when
      no entry has them. */
  ghost predicate First(h: Heap, need: nat, k: nat) {
    && k <= |h.fl|
    && (forall i | 0 <= i < k :: h.fl[i] in h.blocks && h.blocks[h.fl[i]].cells < need)
    && (k < |h.fl| ==> h.fl[k] in h.blocks && h.blocks[h.fl[k]].cells >= need)
  }

  lemma FirstExists(s: State, need: nat) returns (k: nat)
    requires Shaped(s)
    ensures First(s.heap, need, k)
  {
    k := FirstFit(s.heap, need, 0);
  }

  /** The cells handed out: all of the entry when the rest could not be a block. */
  ghost function Given(h: Heap, need: nat, k: nat): nat
    requires First(h, need, k)
  { if k < |h.fl| && h.blocks[h.fl[k]].cells < need + 2 then h.blocks[h.fl[k]].cells else need }

  /** The first fitting entry, or else the old bump pointer. */
  function Place(h: Heap, k: nat): nat { if k < |h.fl| then h.fl[k] else h.bump }

  /** The cart's own live bytes, the published footprint and `bytes` more exceed 16 MB. */
  predicate OverBudget(a: Option<Acct>, bytes: nat) {
    a.Some? && (if a.value.used > a.value.baseline then a.value.used - a.value.baseline else 0)
               + a.value.footprint + bytes > 16777216
  }

  /** The gate of every allocation: without counters it is open; with them what counts are the
      bytes above the baseline, the footprint and the request. */
  lemma GateExact(a: Option<Acct>, bytes: u32)
    ensures CapAllows(a, bytes) <==> a.None? || bytes + a.value.footprint
                                                + (if a.value.used >= a.value.baseline then a.value.used - a.value.baseline else 0) <= 16777216
    ensures CapAllows(a, bytes) <==> !OverBudget(a, bytes)
  {}

  /** No room in the list nor behind the bump pointer, or not within the budget. */
  ghost predicate Refused(s: State, need: nat, k: nat, noacct: bool)
    requires First(s.heap, need, k)
  {
    || (k == |s.heap.fl| && s.heap.bump + need > s.cap)
    || (!noacct && OverBudget(s.acct, 16 * Given(s.heap, need, k)))
  }

  /** The blocks after `given` cells of the block or tail at `o` were handed out. */
  function WithBlock(h: Heap, o: nat, given: nat, noacct: bool): map<nat, Blk> {
    if o in h.blocks && given < h.blocks[o].cells then
      h.blocks[o := Blk(given, false, noacct)][o + given := Blk(h.blocks[o].cells - given, true, false)]
    else h.blocks[o := Blk(given, false, noacct)]
  }

  function Charging(a: Option<Acct>, bytes: int): Option<Acct> {
    if a.None? then None else Some(a.value.(used := (a.value.used + bytes) % 0x1_0000_0000))
  }

  /** Malloc served the request: it took the first fit, or else the tail; a rest that can be a
      block takes the entry's place in the list; the cart is charged the cells it got. */
  ghost predicate Served(s: State, t: State, need: nat, k: nat, noacct: bool)
    requires First(s.heap, need, k)
  {
    var (h, given, o) := (s.heap, Given(s.heap, need, k), Place(s.heap, k));
    && t.cap == s.cap
    && t.acct == Charging(s.acct, if noacct then 0 else 16 * given)
    && t.heap.blocks == WithBlock(h, o, given, noacct)
    && t.heap.bump == (if k < |h.fl| then h.bump else h.bump + need)
    && t.heap.fl == (if k == |h.fl| then h.fl
                     else h.fl[..k] + (if h.blocks[o].cells > given then [o + given] else []) + h.fl[k + 1..])
  }

  /** Malloc refuses exactly for want of room or budget and then changes nothing; otherwise it
      answers with the place it took. */
  lemma MallocExact(s: State, n: nat, noacct: bool, k: nat)
    requires Shaped(s) && n <= WORD - 32 && First(s.heap, Cells(n), k)
    ensures var (t, r) := MallocSpec(s, n, noacct);
      if Refused(s, Cells(n), k, noacct) then t == s && r == None
      else r == Some(Place(s.heap, k)) && Served(s, t, Cells(n), k, noacct)
  {
    CellsNeeded(n);
    NothingFits(s.heap, Cells(n), k);
    if k < |s.heap.fl| { FromList(s, Cells(n), noacct, k); } else { FromTail(s, Cells(n), noacct, k); }
  }

  lemma FromList(s: State, need: nat, noacct: bool, k: nat)
    requires Shaped(s) && First(s.heap, need, k) && k < |s.heap.fl| && need >= 2
    ensures var (h, bytes) := (s.heap, 16 * Consumed(s.heap.blocks[s.heap.fl[k]].cells, need));
      && Refused(s, need, k, noacct) == (!noacct && !CapAllows(s.acct, bytes))
      && Served(s, State(s.cap, Take(h, k, need, noacct), Add(s.acct, noacct, bytes)), need, k, noacct)
  {
    assert EndsWell(s.heap, s.heap.fl[k]);
    ListAfter(s.heap.fl, k);
    ChargeNothing(s.acct);
  }

  lemma FromTail(s: State, need: nat, noacct: bool, k: nat)
    requires Shaped(s) && First(s.heap, need, k) && k == |s.heap.fl| && need >= 2
    ensures Refused(s, need, k, noacct) == (s.heap.bump + need > s.cap || (!noacct && !CapAllows(s.acct, 16 * need)))
    ensures Served(s, Bumped(s, need, noacct), need, k, noacct)
  {
    TailIsFree(s.heap);
    ChargeNothing(s.acct);
  }

  lemma ChargeNothing(a: Option<Acct>)
    ensures Charging(a, 0) == a
  {}

  lemma NothingFits(h: Heap, need: nat, k: nat)
    requires Wf(h) && First(h, need, k)
    ensures FirstFit(h, need, 0) == k && (h.bump == 0 ==> h.fl == [])
  {
    assert h.fl != [] ==> EndsWell(h, h.fl[0]);
  }

  lemma TailIsFree(h: Heap)
    requires Tiled(h)
    ensures h.bump !in h.blocks
  {
    assert h.bump in h.blocks ==> EndsWell(h, h.bump);
  }

  lemma ListAfter(fl: seq<nat>, k: nat)
    requires k < |fl|
    ensures Remove(fl, k) == fl[..k] + [] + fl[k + 1..] && forall x :: fl[k := x] == fl[..k] + [x] + fl[k + 1..]
  {
    assert fl[..k] + [] == fl[..k];
  }

  /** Free of a live block puts it first on the list; if the block behind it is free the two
      become one and that block, at place `j`, leaves the list; the charge goes back. */
  lemma FreeExact(s: State, o: nat) returns (j: nat)
    requires Shaped(s) && Live(s.heap, o)
    ensures var (h, b, n) := (s.heap, s.heap.blocks[o], o + s.heap.blocks[o].cells);
      var merges := n in h.blocks && h.blocks[n].free;
      var t := FreeSpec(s, Some(o));
      && t.cap == s.cap && t.acct == Charging(s.acct, if b.noacct then 0 else 0 - 16 * b.cells)
      && t.heap.bump == h.bump
      && t.heap.blocks == (if merges
           then (h.blocks - {n})[o := Blk(b.cells + h.blocks[n].cells, true, b.noacct)]
           else h.blocks[o := Blk(b.cells, true, b.noacct)])
      && (merges ==> j < |h.fl| && h.fl[j] == n)
      && t.heap.fl == [o] + if merges then h.fl[..j] + h.fl[j + 1..] else h.fl
  {
    ReleaseWf(s.heap, o);
    ChargeNothing(s.acct);
    j := FreedHeap(s.heap, o);
  }

  lemma FreedHeap(h: Heap, o: nat) returns (j: nat)
    requires Wf(h) && Live(h, o) && Wf(Release(h, o))
    ensures var (b, n, t) := (h.blocks[o], o + h.blocks[o].cells, Coalesce(Release(h, o), o));
      var merges := n in h.blocks && h.blocks[n].free;
      && t.bump == h.bump
      && t.blocks == (if merges
           then (h.blocks - {n})[o := Blk(b.cells + h.blocks[n].cells, true, b.noacct)]
           else h.blocks[o := Blk(b.cells, true, b.noacct)])
      && (merges ==> j < |h.fl| && h.fl[j] == n)
      && t.fl == [o] + if merges then h.fl[..j] + h.fl[j + 1..] else h.fl
  {
    var n := o + h.blocks[o].cells;
    assert EndsWell(h, o) && Listed(h, n);
    TailIsFree(h);
    j := 0;
    if n in h.blocks && h.blocks[n].free {
      j := IndexOf(h.fl, n);
      PushedRemove(h.fl, o, n);
      MergedBlocks(h, o, n, [o] + (h.fl[..j] + h.fl[j + 1..]));
    }
  }

  lemma MergedBlocks(h: Heap, o: nat, n: nat, fl: seq<nat>)
    requires o in h.blocks && n in h.blocks && n != o
    ensures Merge(Release(h, o), o, n, fl).blocks
      == (h.blocks - {n})[o := Blk(h.blocks[o].cells + h.blocks[n].cells, true, h.blocks[o].noacct)]
  {}

  lemma PushedRemove(fl: seq<nat>, o: nat, n: nat)
    requires n in fl && n != o
    ensures Remove([o] + fl, IndexOf([o] + fl, n)) == [o] + (fl[..IndexOf(fl, n)] + fl[IndexOf(fl, n) + 1..])
  {
    assert ([o] + fl)[1..] == fl;
    RemovePushed(fl, o, IndexOf(fl, n));
  }

  lemma RemovePushed(fl: seq<nat>, o: nat, i: nat)
    requires i < |fl|
    ensures Remove([o] + fl, 1 + i) == [o] + (fl[..i] + fl[i + 1..])
  {
    assert ([o] + fl)[..1 + i] == [o] + fl[..i] && ([o] + fl)[2 + i..] == fl[i + 1..];
  }

  /** Realloc of a live block keeps it when the request fits its payload.  A larger request is
      refused exactly when malloc refuses it, and then changes nothing; otherwise the answer
      is malloc's, the first fit or the old bump, and the old block is free afterwards. */
  lemma ReallocExact(s: State, o: nat, n: nat, noacct: bool, k: nat)
    requires Shaped(s) && Live(s.heap, o) && 0 < n <= WORD - 32 && First(s.heap, Cells(n), k)
    ensures var (t, q) := ReallocSpec(s, Some(o), n, noacct);
      if n <= 16 * s.heap.blocks[o].cells - 16 then t == s && q == Some(o)
      else if Refused(s, Cells(n), k, noacct) then t == s && q == None
      else
        && q == Some(Place(s.heap, k)) && Live(t.heap, q.value)
        && t.heap.blocks[q.value] == Blk(Given(s.heap, Cells(n), k), false, noacct)
        && o in t.heap.blocks && t.heap.blocks[o].free && !Live(t.heap, o)
        && t.acct == Charging(Charging(s.acct, if noacct then 0 else 16 * Given(s.heap, Cells(n), k)),
                              if s.heap.blocks[o].noacct then 0 else 0 - 16 * s.heap.blocks[o].cells)
        && Shaped(MallocSpec(s, n, noacct).0) && Live(MallocSpec(s, n, noacct).0.heap, o)
        && t == FreeSpec(MallocSpec(s, n, noacct).0, Some(o))
  {
    MallocExact(s, n, noacct, k);
    MallocShape(s, n, noacct);
    if !Refused(s, Cells(n), k, noacct) {
      var t := MallocSpec(s, n, noacct).0;
      NewAndOld(s, t, Cells(n), k, noacct, o);
      OldFreed(t, o, Place(s.heap, k));
    }
  }

  /** Next to the new block the old one is as it was. */
  lemma NewAndOld(s: State, t: State, need: nat, k: nat, noacct: bool, o: nat)
    requires Shaped(s) && Live(s.heap, o) && First(s.heap, need, k) && Served(s, t, need, k, noacct) && need >= 2
    ensures var q := Place(s.heap, k);
      && q != o && o in t.heap.blocks && t.heap.blocks[o] == s.heap.blocks[o] && Live(t.heap, o)
      && q in t.heap.blocks && t.heap.blocks[q] == Blk(Given(s.heap, need, k), false, noacct)
  {
    TailIsFree(s.heap);
    if k < |s.heap.fl| {
      assert Apart(s.heap, s.heap.fl[k], o) && EndsWell(s.heap, s.heap.fl[k]);
    }
  }

  lemma OldFreed(t: State, o: nat, q: nat)
    requires Shaped(t) && Live(t.heap, o) && Live(t.heap, q) && o != q
    ensures var u := FreeSpec(t, Some(o));
      && o in u.heap.blocks && u.heap.blocks[o].free && q in u.heap.blocks && u.heap.blocks[q] == t.heap.blocks[q]
      && u.acct == Charging(t.acct, if t.heap.blocks[o].noacct then 0 else 0 - 16 * t.heap.blocks[o].cells)
  {
    var j := FreeExact(t, o);
  }

  /** Without a pointer realloc is malloc, and with size zero it is free. */
  lemma ReallocEnds(s: State, o: nat, n: nat, noacct: bool)
    requires Shaped(s) && Live(s.heap, o) && n <= WORD - 32
    ensures ReallocSpec(s, None, n, noacct) == MallocSpec(s, n, noacct)
    ensures ReallocSpec(s, Some(o), 0, noacct) == (FreeSpec(s, Some(o)), None)
  {}

  /** Calloc refuses exactly the products of 2^32 or more, and is otherwise malloc of the
      product. */
  lemma CallocExact(s: State, m: u32, z: u32)
    requires Shaped(s) && Legal(s, OpCalloc(m, z))
    ensures Step(s, OpCalloc(m, z)) == if m * z >= 0x1_0000_0000 then (s, None) else MallocSpec(s, m * z, false)
  {
    ProductFits(m, z);
  }

  lemma ProductFits(m: nat, z: nat)
    ensures CallocOverflows(m, z) <==> m * z >= 0x1_0000_0000
  {
    if z > 0 {
      var q := (WORD - 1) / z;
      assert q * z <= WORD - 1 < (q + 1) * z;
      if m > q { Times(q + 1, m, z); } else { Times(m, q, z); }
    }
  }

  lemma {:induction false} Times(a: nat, b: nat, z: nat)
    requires a <= b
    ensures a * z <= b * z
  {
    assert (b - a) * z >= 0 && b * z == a * z + (b - a) * z;
  }

  // ---------------------------------------------------------------- the baseline drops out

  ghost predicate CanRaise(s: State, d: nat) {
    s.acct.Some? && s.acct.value.used + d < WORD && s.acct.value.baseline + d < WORD
  }

  /** The same arena where the runtime itself took `d` bytes more. */
  ghost function Raised(s: State, d: nat): State
    requires CanRaise(s, d)
  { s.(acct := Some(s.acct.value.(used := s.acct.value.used + d, baseline := s.acct.value.baseline + d))) }

  ghost predicate AtBaseline(s: State) { s.acct.Some? && s.acct.value.used >= s.acct.value.baseline }

  ghost predicate StaysAtBaseline(s: State, ops: seq<Op>)
    requires Shaped(s) && LegalRun(s, ops)
    decreases |ops|
  { AtBaseline(s) && (ops == [] || (StepShaped(s, ops[0]); StaysAtBaseline(Step(s, ops[0]).0, ops[1..]))) }

  /** The answers of a run, one by one. */
  ghost function Answers(s: State, ops: seq<Op>): seq<Option<nat>>
    requires Shaped(s) && LegalRun(s, ops)
    decreases |ops|
  {
    if ops == [] then [] else
      StepShaped(s, ops[0]);
      [Step(s, ops[0]).1] + Answers(Step(s, ops[0]).0, ops[1..])
  }

  /** The same request in both: same answer, same blocks, same charge, which passed the gate. */
  lemma MallocRaised(s: State, d: nat, n: nat, noacct: bool) returns (bytes: nat)
    requires Shaped(s) && AtBaseline(s) && CanRaise(s, d) && n <= WORD - 32
    ensures var (t, r) := MallocSpec(s, n, noacct);
      && MallocSpec(Raised(s, d), n, noacct) == (State(t.cap, t.heap, Charging(Raised(s, d).acct, bytes)), r)
      && t.acct == Charging(s.acct, bytes) && bytes < WORD
      && (bytes > 0 ==> s.acct.value.used + bytes <= s.acct.value.baseline + 16777216)
  {
    var k := FirstExists(s, Cells(n));
    MallocExact(s, n, noacct, k);
    MallocExact(Raised(s, d), n, noacct, k);
    SameRefusal(s, d, Cells(n), k, noacct);
    if Refused(s, Cells(n), k, noacct) {
      ChargeNothing(s.acct);
      ChargeNothing(Raised(s, d).acct);
      bytes := 0;
    } else {
      bytes := if noacct then 0 else 16 * Given(s.heap, Cells(n), k);
    }
  }

  lemma SameRefusal(s: State, d: nat, need: nat, k: nat, noacct: bool)
    requires Shaped(s) && AtBaseline(s) && CanRaise(s, d) && First(s.heap, need, k)
    ensures Refused(Raised(s, d), need, k, noacct) == Refused(s, need, k, noacct)
    ensures !noacct && !Refused(s, need, k, noacct) ==>
      s.acct.value.used + 16 * Given(s.heap, need, k) <= s.acct.value.baseline + 16777216
  {}

  lemma FreeRaised(s: State, o: nat, a: Acct) returns (bytes: int)
    requires Shaped(s) && s.acct.Some? && o in s.heap.blocks
    ensures 0 <= bytes < WORD
    ensures FreeSpec(s, Some(o)).acct == Charging(s.acct, 0 - bytes)
    ensures FreeSpec(s.(acct := Some(a)), Some(o)) == FreeSpec(s, Some(o)).(acct := Charging(Some(a), 0 - bytes))
  {
    bytes := 0;
    assert EndsWell(s.heap, o);
    if Live(s.heap, o) {
      var i := FreeExact(s, o);
      var j := FreeExact(s.(acct := Some(a)), o);
      bytes := if s.heap.blocks[o].noacct then 0 else 16 * s.heap.blocks[o].cells;
    }
  }

  /** A 32-bit sum and difference, taken in two steps or in one. */
  lemma ChargeTwice(a: Option<Acct>, up: nat, down: nat)
    requires up < WORD && down < WORD
    ensures Charging(Charging(a, up), 0 - down) == Charging(a, up - down)
  {
    if a.Some? {
      var x := a.value.used + up;
      assert x % WORD == if x < WORD then x else x - WORD;
      assert (x - WORD - down) % WORD == (x - down) % WORD;
    }
  }

  /** Two 32-bit counters that differ by `d` still do after the same change, if the larger one
      is then not below its baseline. */
  lemma StillApart(used: u32, base: u32, d: nat, delta: int)
    requires used + d < WORD && base + d < WORD && -WORD < delta < WORD
    requires delta > 0 ==> used + delta <= base + 16777216
    requires (used + d + delta) % WORD >= base + d
    ensures (used + d + delta) % WORD == (used + delta) % WORD + d
  {
    OneTurn(used + d + delta);
    OneTurn(used + delta);
  }

  lemma OneTurn(x: int)
    requires -WORD < x < 2 * WORD
    ensures x % WORD == if x < 0 then x + WORD else if x < WORD then x else x - WORD
  {}

  /** The same charge to an arena and to the raised one. */
  lemma ChargedApart(s: State, d: nat, delta: int)
    requires CanRaise(s, d) && -WORD < delta < WORD
    requires delta > 0 ==> s.acct.value.used + delta <= s.acct.value.baseline + 16777216
    requires AtBaseline(s.(acct := Charging(Raised(s, d).acct, delta)))
    ensures CanRaise(s.(acct := Charging(s.acct, delta)), d)
    ensures Charging(Raised(s, d).acct, delta) == Raised(s.(acct := Charging(s.acct, delta)), d).acct
  {
    StillApart(s.acct.value.used, s.acct.value.baseline, d, delta);
  }

  /** One operation on both. */
  lemma StepRaised(s: State, d: nat, op: Op)
    requires Shaped(s) && Legal(s, op) && AtBaseline(s) && CanRaise(s, d) && Legal(Raised(s, d), op)
    requires AtBaseline(Step(Raised(s, d), op).0)
    ensures var (t, r) := Step(s, op); CanRaise(t, d) && Step(Raised(s, d), op) == (Raised(t, d), r)
  {
    var u := Raised(s, d);
    match op
    case OpMalloc(n, noacct) => MallocApart(s, d, n, noacct);
    case OpFree(p) => if p.Some? { FreeApart(s, d, p.value); }
    case OpRealloc(p, n, noacct) =>
      if p.None? { MallocApart(s, d, n, noacct); }
      else if n == 0 { FreeApart(s, d, p.value); }
      else if n > 16 * s.heap.blocks[p.value].cells - 16 { GrowApart(s, d, p.value, n, noacct); }
    case OpCalloc(m, z) => if !CallocOverflows(m, z) { MallocApart(s, d, m * z, false); }
    case OpStore(_, _) =>
    case OpReset =>
  }

  lemma MallocApart(s: State, d: nat, n: nat, noacct: bool)
    requires Shaped(s) && AtBaseline(s) && CanRaise(s, d) && n <= WORD - 32
    requires AtBaseline(MallocSpec(Raised(s, d), n, noacct).0)
    ensures var (t, r) := MallocSpec(s, n, noacct); CanRaise(t, d) && MallocSpec(Raised(s, d), n, noacct) == (Raised(t, d), r)
  {
    var up := MallocRaised(s, d, n, noacct);
    ChargedApart(s, d, up);
  }

  lemma FreeApart(s: State, d: nat, o: nat)
    requires Shaped(s) && AtBaseline(s) && CanRaise(s, d) && o in s.heap.blocks
    requires AtBaseline(FreeSpec(Raised(s, d), Some(o)))
    ensures var t := FreeSpec(s, Some(o)); CanRaise(t, d) && FreeSpec(Raised(s, d), Some(o)) == Raised(t, d)
  {
    var down := FreeRaised(s, o, Raised(s, d).acct.value);
    ChargedApart(s, d, 0 - down);
  }

  /** The same growth in both, in terms of malloc and free. */
  lemma GrowBoth(s: State, a: Option<Acct>, o: nat, n: nat, noacct: bool, t: State, r: Option<nat>, up: nat) returns (delta: int)
    requires Shaped(s) && s.acct.Some? && a.Some? && Live(s.heap, o) && 0 < n <= WORD - 32 && up < WORD
    requires n > 16 * s.heap.blocks[o].cells - 16 && r.Some?
    requires MallocSpec(s, n, noacct) == (t, r) && t.acct == Charging(s.acct, up)
    requires MallocSpec(s.(acct := a), n, noacct) == (t.(acct := Charging(a, up)), r)
    ensures -WORD < delta <= up
    ensures var (x, y) := (ReallocSpec(s, Some(o), n, noacct), ReallocSpec(s.(acct := a), Some(o), n, noacct));
      && x.0.acct == Charging(s.acct, delta) && y == (x.0.(acct := Charging(a, delta)), x.1)
  {
    MallocShape(s, n, noacct);
    assert Live(t.heap, o);
    var down := FreeRaised(t, o, Charging(a, up).value);
    ChargeTwice(s.acct, up, down);
    ChargeTwice(a, up, down);
    delta := up - down;
  }

  lemma GrowApart(s: State, d: nat, o: nat, n: nat, noacct: bool)
    requires Shaped(s) && AtBaseline(s) && CanRaise(s, d) && Live(s.heap, o) && 0 < n <= WORD - 32
    requires n > 16 * s.heap.blocks[o].cells - 16
    requires AtBaseline(ReallocSpec(Raised(s, d), Some(o), n, noacct).0)
    ensures var (t, q) := ReallocSpec(s, Some(o), n, noacct);
      CanRaise(t, d) && ReallocSpec(Raised(s, d), Some(o), n, noacct) == (Raised(t, d), q)
  {
    var up := MallocRaised(s, d, n, noacct);
    var (t, r) := MallocSpec(s, n, noacct);
    if r.Some? {
      var delta := GrowBoth(s, Raised(s, d).acct, o, n, noacct, t, r, up);
      ChargedApart(s, d, delta);
    }
  }

  /** The fail point does not depend on how much the runtime itself has allocated: raise the
      counter and the baseline by the same amount, and every run that stays at or above its
      baseline gets the same answers and leaves the same blocks. */
  lemma {:induction false} SameAnswers(s: State, d: nat, ops: seq<Op>)
    requires Shaped(s) && CanRaise(s, d) && LegalRun(Raised(s, d), ops) && StaysAtBaseline(Raised(s, d), ops)
    ensures LegalRun(s, ops) && Answers(s, ops) == Answers(Raised(s, d), ops)
    ensures CanRaise(Run(s, ops), d) && Run(Raised(s, d), ops) == Raised(Run(s, ops), d)
    decreases |ops|
  {
    if ops != [] {
      var t := Step(s, ops[0]).0;
      StepShaped(s, ops[0]);
      StepShaped(Raised(s, d), ops[0]);
      assert AtBaseline(Step(Raised(s, d), ops[0]).0);
      StepRaised(s, d, ops[0]);
      SameAnswers(t, d, ops[1..]);
    }
  }
}
