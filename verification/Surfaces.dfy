/** Tagged 32-bit handles: kind in the top 3 bits, 17 bits of generation, 12 bits of slot. */
module Handles {
  type u32 = x: int | 0 <= x < 0x1_0000_0000
  type u16 = x: int | 0 <= x < 0x1_0000

  const SURFACE := 2
  const NO_HANDLE: u32 := 0

  function Kind(h: u32): nat { h / 0x2000_0000 }
  function Index(h: u32): nat { h % 0x1000 }
  function Gen(h: u32): nat { h / 0x1000 % 0x2_0000 }

  function SurfaceHandle(gen: u16, index: nat): (h: u32)
    requires index < 0x1000
    ensures Kind(h) == SURFACE && Index(h) == index && Gen(h) == gen
  {
    SURFACE * 0x2000_0000 + gen * 0x1000 + index
  }

  /** A handle is the sum of its three fields. */
  lemma HandleParts(h: u32)
    ensures h == Kind(h) * 0x2000_0000 + Gen(h) * 0x1000 + Index(h) && Gen(h) < 0x2_0000
  {
    assert h / 0x2000_0000 == h / 0x1000 / 0x2_0000;
  }

  lemma HandleSum(gen: u16, index: nat)
    requires index < 0x1000
    ensures SurfaceHandle(gen, index) == SURFACE * 0x2000_0000 + gen * 0x1000 + index
    ensures Kind(SurfaceHandle(gen, index) + 0x1000_0000) == SURFACE
    ensures Gen(SurfaceHandle(gen, index) + 0x1000_0000) == gen + 0x1_0000
    ensures Index(SurfaceHandle(gen, index) + 0x1000_0000) == index
  {
    HandleParts(SurfaceHandle(gen, index));
  }
}

/** The off-screen surface pool of a pure-Lua cart and its exclusive per-frame locks. */
module Surfaces {
  import opened Handles

  type byte = x: int | 0 <= x < 256

  datatype Option<+T> = None | Some(value: T)

  const SLOTS := 64
  const MAX_DIM := 8192
  const SCREEN := 0
  const SCREEN_W := 320
  const SCREEN_H := 240

  /** `retired` counts how often the slot was given back; only its low 16 bits, the
      generation, exist at run time. */
  datatype Slot = Slot(pixels: nat, w: nat, h: nat, retired: nat, inUse: bool, locked: bool)

  datatype Lock = Lock(pixels: nat, w: nat, h: nat, handle: u32, epoch: u32, released: bool)

  /** `buffers` holds the pixel buffers that are allocated right now, by address. */
  datatype Pool = Pool(slots: seq<Slot>, buffers: map<nat, seq<byte>>, next: nat, locks: seq<Lock>, epoch: u32)

  function Generation(s: Slot): u16 { s.retired % 0x1_0000 }

  /** The slot a handle names, if its kind, index and generation all still match. */
  function Resolve(p: Pool, h: u32): (r: Option<nat>)
    requires |p.slots| == SLOTS
    ensures r.Some? ==> r.value < SLOTS && p.slots[r.value].inUse && r.value == Index(h)
  {
    var i := Index(h);
    if Kind(h) == SURFACE && i < SLOTS && p.slots[i].inUse && Gen(h) % 0x1_0000 == Generation(p.slots[i])
    then Some(i) else None
  }

  /** A handle is resolved if and only if it is the one its slot's surface was created with,
      or differs from it in the one generation bit the slots do not keep. */
  lemma ResolvesIff(p: Pool, h: u32, i: nat)
    requires |p.slots| == SLOTS
    ensures Resolve(p, h) == Some(i) <==>
      && i < SLOTS && p.slots[i].inUse
      && (h == SurfaceHandle(Generation(p.slots[i]), i) || h == SurfaceHandle(Generation(p.slots[i]), i) + 0x1000_0000)
  {
    HandleParts(h);
    if i < SLOTS { HandleSum(Generation(p.slots[i]), i); }
  }

  /** As `Resolve`, but a locked surface does not answer to its handle. */
  function ResolveDrawable(p: Pool, h: u32): Option<nat>
    requires |p.slots| == SLOTS
  {
    var r := Resolve(p, h);
    if r.Some? && p.slots[r.value].locked then None else r
  }

  predicate Live(p: Pool, l: nat) { l < |p.locks| && !p.locks[l].released && p.locks[l].epoch == p.epoch }

  // ---------------------------------------------------------------- the invariant

  ghost predicate SlotOk(p: Pool, i: nat) {
    && i < |p.slots|
    && (p.slots[i].inUse ==>
          p.slots[i].pixels in p.buffers && |p.buffers[p.slots[i].pixels]| == p.slots[i].w * p.slots[i].h)
    && (p.slots[i].inUse ==> (p.slots[i].pixels == SCREEN <==> i == 0))
    && (!p.slots[i].inUse ==> !p.slots[i].locked)
    && p.slots[i].pixels < p.next
  }

  ghost predicate OwnBuffers(p: Pool, i: nat, j: nat) {
    i < |p.slots| && j < |p.slots| && i != j && p.slots[i].inUse && p.slots[j].inUse ==>
      p.slots[i].pixels != p.slots[j].pixels
  }

  /** No allocated buffer is forgotten. */
  ghost predicate Owned(p: Pool, b: nat) {
    b in p.buffers ==> exists i: nat :: i < |p.slots| && p.slots[i].inUse && p.slots[i].pixels == b
  }

  /** A live lock's slot is in use, marked locked, and has the lock's own buffer and size. */
  ghost predicate LockOk(p: Pool, l: nat)
    requires |p.slots| == SLOTS
  {
    Live(p, l) ==>
      var k := p.locks[l];
      Resolve(p, k.handle) == Some(Index(k.handle))
      && var s := p.slots[Index(k.handle)]; s.locked && s.pixels == k.pixels && s.w == k.w && s.h == k.h
  }

  ghost predicate Exclusive(p: Pool, l: nat, m: nat) {
    Live(p, l) && Live(p, m) && l != m ==> Index(p.locks[l].handle) != Index(p.locks[m].handle)
  }

  ghost predicate Inv(p: Pool) {
    && |p.slots| == SLOTS
    && p.slots[0].inUse && p.slots[0].w == SCREEN_W && p.slots[0].h == SCREEN_H
    && (forall i {:trigger SlotOk(p, i)} :: 0 <= i < SLOTS ==> SlotOk(p, i))
    && (forall i: nat, j: nat {:trigger OwnBuffers(p, i, j)} :: OwnBuffers(p, i, j))
    && (forall b: nat {:trigger Owned(p, b)} :: Owned(p, b))
    && (forall l: nat {:trigger LockOk(p, l)} :: LockOk(p, l))
    && (forall l: nat, m: nat {:trigger Exclusive(p, l, m)} :: Exclusive(p, l, m))
    && (forall l {:trigger p.locks[l]} :: 0 <= l < |p.locks| ==> p.locks[l].epoch <= p.epoch)
  }

  // ---------------------------------------------------------------- operations

  function FirstFree(slots: seq<Slot>, i: nat): (k: nat)
    requires i <= |slots|
    ensures i <= k <= |slots|
    ensures k < |slots| ==> !slots[k].inUse
    ensures forall j :: i <= j < k ==> slots[j].inUse
    decreases |slots| - i
  { if i == |slots| || !slots[i].inUse then i else FirstFree(slots, i + 1) }

  function Blank(n: nat): seq<byte> { seq(n, _ => 0) }

  function CreateSpec(p: Pool, w: int, h: int, allocates: bool): (Pool, u32)
    requires |p.slots| == SLOTS
  {
    if w <= 0 || h <= 0 || w > MAX_DIM || h > MAX_DIM then (p, NO_HANDLE) else
      var i := FirstFree(p.slots, 1);
      if i == SLOTS || !allocates then (p, NO_HANDLE)
      else
        (p.(slots := p.slots[i := p.slots[i].(pixels := p.next, w := w, h := h, inUse := true)],
            buffers := p.buffers[p.next := Blank(w * h)], next := p.next + 1),
         SurfaceHandle(Generation(p.slots[i]), i))
  }

  function Retire(s: Slot): Slot { s.(inUse := false, locked := false, retired := s.retired + 1) }

  function DestroySpec(p: Pool, h: u32): Pool
    requires |p.slots| == SLOTS
  {
    var r := ResolveDrawable(p, h);
    if r.None? || r.value == 0 then p else
      p.(slots := p.slots[r.value := Retire(p.slots[r.value])], buffers := p.buffers - {p.slots[r.value].pixels})
  }

  function AcquireSpec(p: Pool, h: u32): (Pool, Option<nat>)
    requires |p.slots| == SLOTS
  {
    var r := ResolveDrawable(p, h);
    if r.None? then (p, None) else
      var s := p.slots[r.value];
      (p.(slots := p.slots[r.value := s.(locked := true)],
          locks := p.locks + [Lock(s.pixels, s.w, s.h, h, p.epoch, false)]),
       Some(|p.locks|))
  }

  function ReleaseSpec(p: Pool, l: nat): Pool
    requires |p.slots| == SLOTS && l < |p.locks|
  {
    var r := Resolve(p, p.locks[l].handle);
    p.(slots := if Live(p, l) && r.Some? then p.slots[r.value := p.slots[r.value].(locked := false)] else p.slots,
       locks := p.locks[l := p.locks[l].(released := true)])
  }

  /** The frame boundary: every off-screen surface is freed, every lock forced open, and the
      epoch moves on. */
  function ReapSlot(s: Slot, i: nat): Slot {
    if i == 0 then s.(locked := false) else if s.inUse then Retire(s) else s
  }

  function NextFrameSpec(p: Pool): Pool
    requires |p.slots| == SLOTS && p.epoch < 0xffff_ffff
  {
    p.(slots := seq(SLOTS, i requires 0 <= i < SLOTS => ReapSlot(p.slots[i], i)),
       buffers := map b | b in p.buffers && b == SCREEN :: p.buffers[b],
       epoch := p.epoch + 1)
  }

  /** The byte a lock-view access goes to, when the lock is live and (x, y) in bounds. */
  function Target(p: Pool, l: nat, x: int, y: int): Option<(nat, nat)> {
    if Live(p, l) && 0 <= x < p.locks[l].w && 0 <= y < p.locks[l].h
    then Some((p.locks[l].pixels, y * p.locks[l].w + x)) else None
  }

  /** The same through a handle, which a locked surface refuses. */
  function DrawTarget(p: Pool, h: u32, x: int, y: int): Option<(nat, nat)>
    requires |p.slots| == SLOTS
  {
    var r := ResolveDrawable(p, h);
    if r.Some? && 0 <= x < p.slots[r.value].w && 0 <= y < p.slots[r.value].h
    then Some((p.slots[r.value].pixels, y * p.slots[r.value].w + x)) else None
  }

  ghost predicate InBuffer(p: Pool, t: Option<(nat, nat)>) {
    t.Some? ==> t.value.0 in p.buffers && t.value.1 < |p.buffers[t.value.0]|
  }

  lemma CellInRange(x: nat, y: nat, w: nat, h: nat)
    requires x < w && y < h
    ensures y * w + x < w * h
  {
    assert (y + 1) * w <= h * w;
  }

  /** No access through a live lock or a drawable handle touches a freed buffer or a byte
      outside one. */
  lemma AccessesAreSafe(p: Pool, l: nat, h: u32, x: int, y: int)
    requires Inv(p)
    ensures InBuffer(p, Target(p, l, x, y)) && InBuffer(p, DrawTarget(p, h, x, y))
  {
    if Target(p, l, x, y).Some? {
      assert LockOk(p, l) && SlotOk(p, Index(p.locks[l].handle));
      CellInRange(x, y, p.locks[l].w, p.locks[l].h);
    }
    if DrawTarget(p, h, x, y).Some? {
      var i := ResolveDrawable(p, h).value;
      assert SlotOk(p, i);
      CellInRange(x, y, p.slots[i].w, p.slots[i].h);
    }
  }

  function Write(p: Pool, t: Option<(nat, nat)>, c: byte): Pool {
    if t.Some? && t.value.0 in p.buffers && t.value.1 < |p.buffers[t.value.0]| then
      var painted: seq<byte> := p.buffers[t.value.0][t.value.1 := c];
      p.(buffers := p.buffers[t.value.0 := painted])
    else p
  }

  // ---------------------------------------------------------------- each operation keeps it

  lemma CreateKeeps(p: Pool, w: int, h: int, allocates: bool)
    requires Inv(p)
    ensures Inv(CreateSpec(p, w, h, allocates).0)
  {
    var q := CreateSpec(p, w, h, allocates).0;
    if q != p {
      var k := FirstFree(p.slots, 1);
      forall i | 0 <= i < SLOTS ensures SlotOk(q, i) { assert SlotOk(p, i); }
      forall i: nat, j: nat ensures OwnBuffers(q, i, j) {
        assert OwnBuffers(p, i, j); assert i < SLOTS ==> SlotOk(p, i); assert j < SLOTS ==> SlotOk(p, j);
      }
      forall b: nat ensures Owned(q, b) {
        assert Owned(p, b);
        if b in p.buffers {
          var i: nat :| i < |p.slots| && p.slots[i].inUse && p.slots[i].pixels == b;
          assert q.slots[i].inUse && q.slots[i].pixels == b;
        } else if b == p.next { assert q.slots[k].inUse && q.slots[k].pixels == b; }
      }
      forall l: nat ensures LockOk(q, l) { assert LockOk(p, l); }
      forall l: nat, m: nat ensures Exclusive(q, l, m) { assert Exclusive(p, l, m); }
    }
  }

  lemma DestroyKeeps(p: Pool, h: u32)
    requires Inv(p)
    ensures Inv(DestroySpec(p, h))
  {
    var q := DestroySpec(p, h);
    var r := ResolveDrawable(p, h);
    if r.Some? && r.value != 0 {
      var k := r.value;
      forall i | 0 <= i < SLOTS ensures SlotOk(q, i) { assert SlotOk(p, i); assert OwnBuffers(p, i, k); }
      forall i: nat, j: nat ensures OwnBuffers(q, i, j) { assert OwnBuffers(p, i, j); }
      forall b: nat ensures Owned(q, b) {
        assert Owned(p, b);
        if b in q.buffers {
          var i: nat :| i < |p.slots| && p.slots[i].inUse && p.slots[i].pixels == b;
          assert q.slots[i].inUse && q.slots[i].pixels == b;
        }
      }
      forall l: nat ensures LockOk(q, l) { assert LockOk(p, l); }
      forall l: nat, m: nat ensures Exclusive(q, l, m) { assert Exclusive(p, l, m); }
    }
  }

  lemma AcquireKeeps(p: Pool, h: u32)
    requires Inv(p)
    ensures Inv(AcquireSpec(p, h).0)
  {
    var q := AcquireSpec(p, h).0;
    var r := ResolveDrawable(p, h);
    if r.Some? {
      var k := r.value;
      forall i | 0 <= i < SLOTS ensures SlotOk(q, i) { assert SlotOk(p, i); }
      forall i: nat, j: nat ensures OwnBuffers(q, i, j) { assert OwnBuffers(p, i, j); }
      forall b: nat ensures Owned(q, b) {
        assert Owned(p, b);
        if b in q.buffers {
          var i: nat :| i < |p.slots| && p.slots[i].inUse && p.slots[i].pixels == b;
          assert q.slots[i].inUse && q.slots[i].pixels == b;
        }
      }
      forall l: nat ensures LockOk(q, l) { assert LockOk(p, l); }
      forall l: nat, m: nat ensures Exclusive(q, l, m) {
        assert Exclusive(p, l, m); assert LockOk(p, l); assert LockOk(p, m);
      }
    }
  }

  lemma ReleaseKeeps(p: Pool, l: nat)
    requires Inv(p) && l < |p.locks|
    ensures Inv(ReleaseSpec(p, l))
  {
    var q := ReleaseSpec(p, l);
    forall i | 0 <= i < SLOTS ensures SlotOk(q, i) { assert SlotOk(p, i); }
    forall i: nat, j: nat ensures OwnBuffers(q, i, j) { assert OwnBuffers(p, i, j); }
    forall b: nat ensures Owned(q, b) {
      assert Owned(p, b);
      if b in q.buffers {
        var i: nat :| i < |p.slots| && p.slots[i].inUse && p.slots[i].pixels == b;
        assert q.slots[i].inUse && q.slots[i].pixels == b;
      }
    }
    forall m: nat ensures LockOk(q, m) { assert LockOk(p, m); assert Exclusive(p, l, m); }
    forall m: nat, n: nat ensures Exclusive(q, m, n) { assert Exclusive(p, m, n); }
  }

  lemma NextFrameKeeps(p: Pool)
    requires Inv(p) && p.epoch < 0xffff_ffff
    ensures Inv(NextFrameSpec(p)) && forall l: nat :: !Live(NextFrameSpec(p), l)
  {
    var q := NextFrameSpec(p);
    assert SlotOk(p, 0);
    forall i | 0 <= i < SLOTS ensures SlotOk(q, i) { assert SlotOk(p, i); }
    forall i: nat, j: nat ensures OwnBuffers(q, i, j) {}
    forall b: nat ensures Owned(q, b) { if b in q.buffers { assert q.slots[0].inUse && q.slots[0].pixels == b; } }
    forall l: nat ensures LockOk(q, l) {}
    forall l: nat, m: nat ensures Exclusive(q, l, m) {}
  }

  lemma WriteKeeps(p: Pool, t: Option<(nat, nat)>, c: byte)
    requires Inv(p)
    ensures Inv(Write(p, t, c))
  {
    var q := Write(p, t, c);
    forall i | 0 <= i < SLOTS ensures SlotOk(q, i) { assert SlotOk(p, i); }
    forall i: nat, j: nat ensures OwnBuffers(q, i, j) { assert OwnBuffers(p, i, j); }
    forall b: nat ensures Owned(q, b) { assert Owned(p, b); }
    forall l: nat ensures LockOk(q, l) { assert LockOk(p, l); }
    forall l: nat, m: nat ensures Exclusive(q, l, m) { assert Exclusive(p, l, m); }
  }

  /** While a lock is live nothing else reaches its buffer: handles of the surface do not
      answer, and no other live lock has it. */
  lemma LockIsExclusive(p: Pool, l: nat, m: nat, h: u32, x: int, y: int)
    requires Inv(p) && Live(p, l) && l != m
    ensures var mine := p.locks[l].pixels;
      && (DrawTarget(p, h, x, y).Some? ==> DrawTarget(p, h, x, y).value.0 != mine)
      && (Target(p, m, x, y).Some? ==> Target(p, m, x, y).value.0 != mine)
      && ResolveDrawable(p, p.locks[l].handle).None?
  {
    assert LockOk(p, l);
    var i := Index(p.locks[l].handle);
    if DrawTarget(p, h, x, y).Some? { assert OwnBuffers(p, i, ResolveDrawable(p, h).value); }
    if Target(p, m, x, y).Some? {
      assert LockOk(p, m) && Exclusive(p, l, m);
      assert OwnBuffers(p, i, Index(p.locks[m].handle));
    }
  }

  // ---------------------------------------------------------------- runs

  datatype Op =
    | Create(w: int, h: int, allocates: bool)
    | Destroy(handle: u32)
    | Acquire(handle: u32)
    | Release(lock: nat)
    | SetPixel(lock: nat, x: int, y: int, c: byte)
    | DrawPixel(handle: u32, x: int, y: int, c: byte)
    | NextFrame

  predicate Legal(p: Pool, op: Op) {
    match op
    case Release(l) => l < |p.locks|
    case NextFrame => p.epoch < 0xffff_ffff
    case _ => true
  }

  function Step(p: Pool, op: Op): Pool
    requires |p.slots| == SLOTS && Legal(p, op)
  {
    match op
    case Create(w, h, allocates) => CreateSpec(p, w, h, allocates).0
    case Destroy(h) => DestroySpec(p, h)
    case Acquire(h) => AcquireSpec(p, h).0
    case Release(l) => ReleaseSpec(p, l)
    case SetPixel(l, x, y, c) => Write(p, Target(p, l, x, y), c)
    case DrawPixel(h, x, y, c) => Write(p, DrawTarget(p, h, x, y), c)
    case NextFrame => NextFrameSpec(p)
  }

  lemma StepKeeps(p: Pool, op: Op)
    requires Inv(p) && Legal(p, op)
    ensures Inv(Step(p, op))
  {
    match op
    case Create(w, h, allocates) => CreateKeeps(p, w, h, allocates);
    case Destroy(h) => DestroyKeeps(p, h);
    case Acquire(h) => AcquireKeeps(p, h);
    case Release(l) => ReleaseKeeps(p, l);
    case SetPixel(l, x, y, c) => WriteKeeps(p, Target(p, l, x, y), c);
    case DrawPixel(h, x, y, c) => WriteKeeps(p, DrawTarget(p, h, x, y), c);
    case NextFrame => NextFrameKeeps(p);
  }

  ghost predicate LegalRun(p: Pool, ops: seq<Op>)
    requires Inv(p)
    decreases |ops|
  { ops == [] || (Legal(p, ops[0]) && (StepKeeps(p, ops[0]); LegalRun(Step(p, ops[0]), ops[1..]))) }

  ghost function Run(p: Pool, ops: seq<Op>): Pool
    requires Inv(p) && LegalRun(p, ops)
    decreases |ops|
  { if ops == [] then p else StepKeeps(p, ops[0]); Run(Step(p, ops[0]), ops[1..]) }

  function Fresh(): Pool {
    Pool([Slot(SCREEN, SCREEN_W, SCREEN_H, 0, true, false)] + seq(SLOTS - 1, _ => Slot(0, 0, 0, 0, false, false)),
         map[SCREEN := Blank(SCREEN_W * SCREEN_H)], 1, [], 0)
  }

  lemma FreshInv()
    ensures Inv(Fresh())
  {
    var p := Fresh();
    forall i | 0 <= i < SLOTS ensures SlotOk(p, i) {}
    forall i: nat, j: nat ensures OwnBuffers(p, i, j) {}
    forall b: nat ensures Owned(p, b) { if b in p.buffers { assert p.slots[0].inUse && p.slots[0].pixels == b; } }
    forall l: nat ensures LockOk(p, l) {}
    forall l: nat, m: nat ensures Exclusive(p, l, m) {}
  }

  /** In every state any run of up to 2^32 frames reaches, each live lock's slot is in use,
      marked locked, has the lock's buffer and no second live lock. */
  lemma {:induction false} RunKeeps(p: Pool, ops: seq<Op>)
    requires Inv(p) && LegalRun(p, ops)
    ensures Inv(Run(p, ops))
    decreases |ops|
  {
    if ops != [] {
      StepKeeps(p, ops[0]);
      RunKeeps(Step(p, ops[0]), ops[1..]);
    }
  }

  // ---------------------------------------------------------------- handles over time

  /** In particular from the state the pool starts in: every state a cart can reach has the
      invariant, so no access in it leaves an allocated buffer. */
  lemma ReachableIsSafe(ops: seq<Op>, l: nat, h: u32, x: int, y: int)
    requires (FreshInv(); LegalRun(Fresh(), ops))
    ensures (FreshInv();
      var p := Run(Fresh(), ops);
      Inv(p) && InBuffer(p, Target(p, l, x, y)) && InBuffer(p, DrawTarget(p, h, x, y)))
  {
    FreshInv();
    RunKeeps(Fresh(), ops);
    AccessesAreSafe(Run(Fresh(), ops), l, h, x, y);
  }

  /** Slot `i` was given back at most more often, and if not once, it is still the same surface. */
  ghost predicate Ages(s: Slot, t: Slot) {
    s.retired <= t.retired
    && (s.retired == t.retired && s.inUse ==> t.inUse && t.pixels == s.pixels && t.w == s.w && t.h == s.h)
  }

  lemma StepAges(p: Pool, op: Op, i: nat)
    requires Inv(p) && Legal(p, op) && i < SLOTS
    ensures |Step(p, op).slots| == SLOTS && Ages(p.slots[i], Step(p, op).slots[i])
  {
  }

  lemma {:induction false} RunAges(p: Pool, ops: seq<Op>, i: nat)
    requires Inv(p) && LegalRun(p, ops) && i < SLOTS
    ensures |Run(p, ops).slots| == SLOTS && Ages(p.slots[i], Run(p, ops).slots[i])
    decreases |ops|
  {
    if ops != [] {
      StepKeeps(p, ops[0]);
      StepAges(p, ops[0], i);
      RunAges(Step(p, ops[0]), ops[1..], i);
    }
  }

  lemma GenerationGap(a: nat, b: nat)
    requires a <= b < a + 0x1_0000
    ensures a % 0x1_0000 == b % 0x1_0000 <==> a == b
  {
  }

  /** A handle that resolves now resolves, after any run, exactly as long as its surface has
      not been given back, until the slot's 16-bit generation has gone all the way round. */
  lemma HandleLifetime(p: Pool, ops: seq<Op>, h: u32)
    requires Inv(p) && LegalRun(p, ops) && Resolve(p, h).Some?
    ensures var q, i := Run(p, ops), Index(h);
      && i < SLOTS && |q.slots| == SLOTS
      && (q.slots[i].retired < p.slots[i].retired + 0x1_0000 ==>
            (Resolve(q, h).Some? <==> q.slots[i].retired == p.slots[i].retired))
  {
    var i := Index(h);
    RunAges(p, ops, i);
    var q := Run(p, ops);
    if q.slots[i].retired < p.slots[i].retired + 0x1_0000 {
      GenerationGap(p.slots[i].retired, q.slots[i].retired);
    }
  }

  /** A newly created surface's handle resolves to its slot, which has the width and height
      asked for and a blank buffer. */
  lemma CreatedResolves(p: Pool, w: int, h: int, allocates: bool)
    requires Inv(p)
    ensures var (q, handle) := CreateSpec(p, w, h, allocates);
      handle != NO_HANDLE ==>
        && |q.slots| == SLOTS && ResolveDrawable(q, handle).Some?
        && var s := q.slots[ResolveDrawable(q, handle).value];
        && s.w == w && s.h == h
        && s.pixels in q.buffers && s.pixels !in p.buffers && q.buffers[s.pixels] == Blank(w * h)
  {
    var i := FirstFree(p.slots, 1);
    if i < SLOTS { assert SlotOk(p, i); }
    if p.next in p.buffers {
      assert Owned(p, p.next);
      var j: nat :| j < |p.slots| && p.slots[j].inUse && p.slots[j].pixels == p.next;
      assert SlotOk(p, j);
    }
  }

  /** A lock kept from an earlier frame never comes back to life. */
  lemma {:induction false} StaleStaysStale(p: Pool, ops: seq<Op>, l: nat)
    requires Inv(p) && LegalRun(p, ops) && l < |p.locks| && (p.locks[l].released || p.locks[l].epoch < p.epoch)
    ensures !Live(Run(p, ops), l)
    decreases |ops|
  {
    if ops != [] {
      StepKeeps(p, ops[0]);
      StaleStaysStale(Step(p, ops[0]), ops[1..], l);
    }
  }

  // ---------------------------------------------------------------- the pool in place

  class SurfacePool {
    var slots: seq<Slot>
    var buffers: map<nat, seq<byte>>
    var next: nat
    var locks: seq<Lock>
    var epoch: u32

    constructor ()
      ensures View() == Fresh()
    {
      var f := Fresh();
      slots, buffers, next, locks, epoch := f.slots, f.buffers, f.next, f.locks, f.epoch;
    }

    function View(): Pool
      reads this
    { Pool(slots, buffers, next, locks, epoch) }

    method FindFree() returns (idx: nat)
      requires |slots| == SLOTS
      ensures idx == FirstFree(slots, 1)
    {
      idx := 1;
      while idx < SLOTS && slots[idx].inUse
        invariant 1 <= idx <= SLOTS && FirstFree(slots, 1) == FirstFree(slots, idx)
      {
        idx := idx + 1;
      }
    }

    method CreateSurface(w: int, h: int, allocates: bool) returns (handle: u32)
      requires Inv(View())
      modifies this
      ensures Inv(View()) && (View(), handle) == CreateSpec(old(View()), w, h, allocates)
      ensures handle != NO_HANDLE ==> Index(handle) < |slots| && slots[Index(handle)].w == w && slots[Index(handle)].h == h
    {
      CreateKeeps(View(), w, h, allocates);
      if w <= 0 || h <= 0 || w > MAX_DIM || h > MAX_DIM { return NO_HANDLE; }
      var idx := FindFree();
      if idx == SLOTS || !allocates { return NO_HANDLE; }
      handle := SurfaceHandle(Generation(slots[idx]), idx);
      buffers := buffers[next := Blank(w * h)];
      slots := slots[idx := slots[idx].(pixels := next, w := w, h := h, inUse := true)];
      next := next + 1;
    }

    method DestroySurface(handle: u32)
      requires Inv(View())
      modifies this
      ensures Inv(View()) && View() == DestroySpec(old(View()), handle)
    {
      DestroyKeeps(View(), handle);
      var r := ResolveDrawable(View(), handle);
      if r.Some? && r.value != 0 {
        buffers := buffers - {slots[r.value].pixels};
        slots := slots[r.value := Retire(slots[r.value])];
      }
    }

    method AcquireLock(handle: u32) returns (lock: Option<nat>)
      requires Inv(View())
      modifies this
      ensures Inv(View()) && (View(), lock) == AcquireSpec(old(View()), handle)
    {
      AcquireKeeps(View(), handle);
      var r := ResolveDrawable(View(), handle);
      if r.None? { return None; }
      var s := slots[r.value];
      slots := slots[r.value := s.(locked := true)];
      lock := Some(|locks|);
      locks := locks + [Lock(s.pixels, s.w, s.h, handle, epoch, false)];
    }

    method ReleaseLock(l: nat)
      requires Inv(View()) && l < |locks|
      modifies this
      ensures Inv(View()) && View() == ReleaseSpec(old(View()), l)
    {
      ReleaseKeeps(View(), l);
      if !locks[l].released && locks[l].epoch == epoch {
        var r := Resolve(View(), locks[l].handle);
        if r.Some? { slots := slots[r.value := slots[r.value].(locked := false)]; }
      }
      locks := locks[l := locks[l].(released := true)];
    }

    method LockGet(l: nat, x: int, y: int) returns (c: byte)
      requires Inv(View()) && l < |locks|
      ensures InBuffer(View(), Target(View(), l, x, y))
      ensures c == var t := Target(View(), l, x, y); if t.None? then 0 else buffers[t.value.0][t.value.1]
    {
      AccessesAreSafe(View(), l, 0, x, y);
      var u := locks[l];
      if u.released || u.epoch != epoch || x < 0 || x >= u.w || y < 0 || y >= u.h { return 0; }
      c := buffers[u.pixels][y * u.w + x];
    }

    method LockSet(l: nat, x: int, y: int, c: byte)
      requires Inv(View()) && l < |locks|
      modifies this
      ensures Inv(View()) && View() == Write(old(View()), Target(old(View()), l, x, y), c)
    {
      AccessesAreSafe(View(), l, 0, x, y);
      WriteKeeps(View(), Target(View(), l, x, y), c);
      var u := locks[l];
      if u.released || u.epoch != epoch || x < 0 || x >= u.w || y < 0 || y >= u.h { return; }
      var painted: seq<byte> := buffers[u.pixels][y * u.w + x := c];
      buffers := buffers[u.pixels := painted];
    }

    /** The once-per-frame reap followed by the epoch bump. */
    method FrameBoundary()
      requires Inv(View()) && epoch < 0xffff_ffff
      modifies this
      ensures Inv(View()) && View() == NextFrameSpec(old(View()))
      ensures forall l: nat :: !Live(View(), l)
    {
      ghost var p := View();
      NextFrameKeeps(p);
      assert SlotOk(p, 0);
      slots := slots[0 := slots[0].(locked := false)];
      for i := 1 to SLOTS
        invariant |slots| == SLOTS && next == p.next && locks == p.locks && epoch == p.epoch
        invariant forall j :: 0 <= j < SLOTS ==> slots[j] == if j < i then ReapSlot(p.slots[j], j) else p.slots[j]
        invariant buffers.Keys <= p.buffers.Keys && SCREEN in buffers
        invariant forall b | b in p.buffers :: b in buffers <==> !Reaped(p, i, b)
        invariant forall b | b in buffers :: buffers[b] == p.buffers[b]
      {
        assert SlotOk(p, i);
        if slots[i].inUse {
          buffers := buffers - {slots[i].pixels};
          slots := slots[i := Retire(slots[i])];
        }
      }
      forall b | b in p.buffers ensures b in buffers <==> b == SCREEN {
        assert Owned(p, b);
        var i: nat :| i < |p.slots| && p.slots[i].inUse && p.slots[i].pixels == b;
        assert SlotOk(p, i);
      }
      assert slots == NextFrameSpec(p).slots;
      assert buffers == NextFrameSpec(p).buffers;
      epoch := epoch + 1;
    }
  }

  /** Buffer `b` belongs to an off-screen slot below `i`. */
  ghost predicate Reaped(p: Pool, i: nat, b: nat) {
    exists j: nat :: 1 <= j < i && j < |p.slots| && p.slots[j].inUse && p.slots[j].pixels == b
  }
}
