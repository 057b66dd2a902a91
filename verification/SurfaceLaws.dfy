/** What each surface operation does to every pixel access, in plain numbers. */
module SurfaceLaws {
  import opened Handles
  import opened Surfaces

  /** The surface accessed through a handle is `w` by `h` pixels, row by row in buffer `b`. */
  ghost predicate Shows(p: Pool, handle: u32, b: nat, w: int, h: int)
    requires |p.slots| == SLOTS
  {
    forall x, y :: DrawTarget(p, handle, x, y) == if 0 <= x < w && 0 <= y < h then Some((b, y * w + x)) else None
  }

  /** Every access through another slot's handles, and every access through a lock, goes where
      it went. */
  ghost predicate OthersSame(p: Pool, q: Pool, i: nat)
    requires |p.slots| == SLOTS && |q.slots| == SLOTS
  {
    forall g: u32, x, y {:trigger DrawTarget(q, g, x, y)} :: Index(g) != i ==> DrawTarget(q, g, x, y) == DrawTarget(p, g, x, y)
  }

  ghost predicate LocksSame(p: Pool, q: Pool) {
    forall l: nat, x, y {:trigger Target(q, l, x, y)} :: l < |p.locks| ==> Target(q, l, x, y) == Target(p, l, x, y)
  }

  // ---------------------------------------------------------------- create and destroy

  /** Creation is refused exactly for a side outside 1 to 8192, a full pool or a failed
      allocation.  Otherwise it takes the lowest free slot, and the handle shows a blank
      surface of just that width and height in a buffer of its own. */
  lemma CreateExact(p: Pool, w: int, h: int, allocates: bool)
    requires Inv(p)
    ensures var (q, handle) := CreateSpec(p, w, h, allocates);
      && |q.slots| == SLOTS
      && (handle == 0 <==>
            || !(1 <= w <= 8192) || !(1 <= h <= 8192) || !allocates
            || (forall i | 1 <= i < 64 :: p.slots[i].inUse))
      && (handle == 0 ==> q == p)
      && (handle != 0 ==>
            var i := Index(handle);
            && 1 <= i < 64 && !p.slots[i].inUse && (forall j | 1 <= j < i :: p.slots[j].inUse)
            && handle == 0x4000_0000 + p.slots[i].retired % 65536 * 4096 + i
            && Shows(q, handle, p.next, w, h) && OthersSame(p, q, i) && LocksSame(p, q)
            && p.next !in p.buffers && p.next in q.buffers && q.buffers - {p.next} == p.buffers
            && |q.buffers[p.next]| == w * h && forall k | 0 <= k < w * h :: q.buffers[p.next][k] == 0)
  {
    var (q, handle) := CreateSpec(p, w, h, allocates);
    var i := FirstFree(p.slots, 1);
    NextIsNew(p);
    if handle != 0 { assert SlotOk(p, i); Created(p, q, i); }
  }

  lemma NextIsNew(p: Pool)
    requires Inv(p)
    ensures p.next !in p.buffers
  {
    assert Owned(p, p.next);
    forall j: nat | j < |p.slots| ensures p.slots[j].pixels != p.next { assert SlotOk(p, j); }
  }

  lemma Created(p: Pool, q: Pool, i: nat)
    requires |p.slots| == |q.slots| == SLOTS && i < SLOTS && q.locks == p.locks && q.epoch == p.epoch
    requires forall j | 0 <= j < SLOTS && j != i :: q.slots[j] == p.slots[j]
    ensures OthersSame(p, q, i) && LocksSame(p, q)
  {}

  /** Two pixels of a surface are two bytes. */
  lemma PixelsApart(w: nat, h: nat, x: nat, y: nat, x': nat, y': nat)
    requires x < w && x' < w && y < h && y' < h && (x, y) != (x', y')
    ensures y * w + x != y' * w + x'
  {
    if y < y' { assert (y + 1) * w <= y' * w; }
    if y' < y { assert (y' + 1) * w <= y * w; }
  }

  /** Destruction is ignored exactly for a handle that does not resolve, is locked, or is the
      screen's.  Otherwise the handle is dead, its buffer gone, and all else as it was. */
  lemma DestroyExact(p: Pool, handle: u32)
    requires Inv(p)
    ensures var q := DestroySpec(p, handle);
      && |q.slots| == SLOTS
      && (Resolve(p, handle).None? || Index(handle) == 0 || p.slots[Index(handle)].locked ==> q == p)
      && (Resolve(p, handle).Some? && Index(handle) != 0 && !p.slots[Index(handle)].locked ==>
            var i := Index(handle);
            && !q.slots[i].inUse && q.slots[i].retired == p.slots[i].retired + 1
            && Resolve(q, handle).None? && OthersSame(p, q, i) && LocksSame(p, q)
            && q.buffers == p.buffers - {p.slots[i].pixels} && p.slots[i].pixels in p.buffers)
  {
    var q := DestroySpec(p, handle);
    if q != p { assert SlotOk(p, Index(handle)); Created(p, q, Index(handle)); }
  }

  // ---------------------------------------------------------------- locks

  /** Locking succeeds exactly for a handle that resolves and is not locked.  The lock then
      sees just the bytes the handle showed, and the handle shows none. */
  lemma AcquireExact(p: Pool, handle: u32)
    requires Inv(p)
    ensures var (q, l) := AcquireSpec(p, handle);
      && |q.slots| == SLOTS && q.buffers == p.buffers
      && (l.Some? <==> Resolve(p, handle).Some? && !p.slots[Index(handle)].locked)
      && (l.None? ==> q == p)
      && (l.Some? ==>
            && l.value == |p.locks| < |q.locks|
            && (forall x, y {:trigger Target(q, l.value, x, y)} :: Target(q, l.value, x, y) == DrawTarget(p, handle, x, y))
            && (forall x, y {:trigger DrawTarget(q, handle, x, y)} :: DrawTarget(q, handle, x, y) == None)
            && OthersSame(p, q, Index(handle)) && LocksSame(p, q))
  {}

  /** Releasing a live lock ends it and gives the handle back the bytes the lock saw; releasing
      any other changes no access at all. */
  lemma ReleaseExact(p: Pool, l: nat)
    requires Inv(p) && l < |p.locks|
    ensures var (q, handle) := (ReleaseSpec(p, l), p.locks[l].handle);
      && |q.slots| == SLOTS && q.buffers == p.buffers && !Live(q, l)
      && (forall m: nat, x, y {:trigger Target(q, m, x, y)} :: m != l ==> Target(q, m, x, y) == Target(p, m, x, y))
      && (Live(p, l) ==>
            && OthersSame(p, q, Index(handle))
            && (forall x, y {:trigger DrawTarget(q, handle, x, y)} :: DrawTarget(q, handle, x, y) == Target(p, l, x, y)))
      && (!Live(p, l) ==> q.slots == p.slots)
  {
    assert LockOk(p, l);
  }

  // ---------------------------------------------------------------- pixels and frames

  /** A write through an access changes that byte and no other. */
  lemma WriteExact(p: Pool, b: nat, k: nat, c: byte)
    requires b in p.buffers && k < |p.buffers[b]|
    ensures var q := Write(p, Some((b, k)), c);
      && q.(buffers := p.buffers) == p && q.buffers.Keys == p.buffers.Keys
      && (forall a | a in p.buffers :: |q.buffers[a]| == |p.buffers[a]|)
      && (forall a, j | a in p.buffers && 0 <= j < |p.buffers[a]| ::
            q.buffers[a][j] == if a == b && j == k then c else p.buffers[a][j])
    ensures Write(p, None, c) == p
  {}

  /** At the frame boundary every off-screen handle and every lock is dead, and the screen is
      unlocked with its pixels as they were. */
  lemma FrameExact(p: Pool, handle: u32, l: nat, x: int, y: int)
    requires Inv(p) && p.epoch < 0xffff_ffff
    ensures var q := NextFrameSpec(p);
      && |q.slots| == SLOTS && Target(q, l, x, y) == None
      && (Index(handle) != 0 ==> DrawTarget(q, handle, x, y) == None)
      && (Index(handle) == 0 ==>
            && Resolve(q, handle) == Resolve(p, handle)
            && DrawTarget(q, handle, x, y) ==
               if Resolve(p, handle).Some? && 0 <= x < 320 && 0 <= y < 240 then Some((0, y * 320 + x)) else None)
      && 0 in p.buffers && q.buffers == map[0 := p.buffers[0]]
  {
    NextFrameKeeps(p);
    assert SlotOk(p, 0);
    assert !Live(NextFrameSpec(p), l);
  }
}
