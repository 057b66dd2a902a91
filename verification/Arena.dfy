/** The arena allocator itself: headers and free list live in the memory it hands out. */
module Arena {
  import opened MemBudget
  import opened ArenaSpec
  import opened ArenaCells
  import opened ArenaStale

  /** The counter block shared with the resource subsystem. */
  class Accounting {
    var guestHeapUsed: u32
    var nonEvictableFootprint: u32
    var guestHeapBaseline: u32

    constructor (footprint: u32, baseline: u32)
      ensures Value() == Acct(0, footprint, baseline)
    {
      guestHeapUsed, nonEvictableFootprint, guestHeapBaseline := 0, footprint, baseline;
    }

    function Value(): Acct
      reads this
    { Acct(guestHeapUsed, nonEvictableFootprint, guestHeapBaseline) }
  }

  /** The bytes every live block holds, by block offset. */
  ghost function Contents(m: seq<Cell>, h: Heap): map<nat, seq<Cell>> {
    map o | o in h.blocks && !h.blocks[o].free :: Payload(m, h.blocks[o].cells, o)
  }

  function Payload(m: seq<Cell>, cells: nat, o: nat): seq<Cell> {
    if 1 <= cells && o + cells <= |m| then m[o + 1..o + cells] else []
  }

  lemma ContentsExcept(m: seq<Cell>, m': seq<Cell>, h: Heap, h': Heap, o: nat)
    requires Wf(h) && h.bump <= |m| && Untouched(m, m', h, o) && SameLiveExcept(h, h', o)
    ensures Contents(m', h') - {o} == Contents(m, h) - {o}
  {
    forall p | p != o ensures p in Contents(m', h') <==> p in Contents(m, h)
    {
      assert Live(h, p) == Live(h', p);
    }
    forall p | p != o && p in Contents(m, h) ensures p in Contents(m', h') && Contents(m', h')[p] == Contents(m, h)[p]
    {
      assert Live(h, p) && Live(h', p) && SamePayload(m, m', h, p);
      assert Payload(m, h.blocks[p].cells, p) == Payload(m', h.blocks[p].cells, p);
    }
  }

  lemma BumpContents(m: seq<Cell>, m': seq<Cell>, h: Heap, need: nat, noacct: bool)
    requires Wf(h) && h.bump <= |m| && Untouched(m, m', h, h.bump)
    ensures Contents(m', Heap(h.blocks[h.bump := Blk(need, false, noacct)], h.bump + need, h.fl)) - {h.bump}
         == Contents(m, h)
  {
    var r := Heap(h.blocks[h.bump := Blk(need, false, noacct)], h.bump + need, h.fl);
    assert h.bump in h.blocks ==> EndsWell(h, h.bump);
    ContentsExcept(m, m', h, r, h.bump);
    assert Contents(m, h) - {h.bump} == Contents(m, h);
  }

  lemma TakeContents(m: seq<Cell>, m': seq<Cell>, h: Heap, k: nat, need: nat, noacct: bool)
    requires Wf(h) && h.bump <= |m| && k < |h.fl| && 2 <= need <= h.blocks[h.fl[k]].cells
    requires Untouched(m, m', h, h.fl[k])
    ensures Contents(m', Take(h, k, need, noacct)) - {h.fl[k]} == Contents(m, h)
  {
    TakeLive(h, k, need, noacct);
    ContentsExcept(m, m', h, Take(h, k, need, noacct), h.fl[k]);
    assert Contents(m, h) - {h.fl[k]} == Contents(m, h);
  }

  lemma FreeContents(m: seq<Cell>, m1: seq<Cell>, m2: seq<Cell>, h: Heap, o: nat)
    requires Wf(h) && Live(h, o) && h.bump <= |m| && Untouched(m, m1, h, o) && Wf(Release(h, o))
    requires forall p | Live(Release(h, o), p) :: SamePayload(m1, m2, Release(h, o), p)
    ensures Contents(m2, Coalesce(Release(h, o), o)) == Contents(m, h) - {o}
  {
    var r := Release(h, o);
    var t := Coalesce(r, o);
    CoalesceLive(r, o);
    forall p | p in h.blocks && p != o && !h.blocks[p].free
      ensures Live(t, p) && t.blocks[p] == h.blocks[p]
      ensures Payload(m2, h.blocks[p].cells, p) == Payload(m, h.blocks[p].cells, p)
    {
      assert Live(r, p) && SamePayload(m, m1, h, p) && SamePayload(m1, m2, r, p);
    }
    forall p | Live(t, p) ensures Live(h, p) && p != o { assert Live(r, p); }
  }

  /** Writes inside the payload of live block `o` disturb neither headers nor other payloads. */
  lemma RepPayload(m: seq<Cell>, m': seq<Cell>, h: Heap, head: int, o: nat)
    requires Wf(h) && Rep(m, h, head) && Live(h, o) && |m'| == |m|
    requires forall c :: 0 <= c < |m| && !(o < c < o + h.blocks[o].cells) ==> m'[c] == m[c]
    ensures Rep(m', h, head)
    ensures Contents(m', h) - {o} == Contents(m, h) - {o}
    ensures 1 <= h.blocks[o].cells && o + h.blocks[o].cells <= |m| && o in Contents(m', h)
    ensures Contents(m', h)[o] == m'[o + 1..o + h.blocks[o].cells]
  {
    assert EndsWell(h, o);
    forall p | p in h.blocks ensures HeaderAt(m', h, p) { assert HeaderAt(m, h, p); assert Apart(h, o, p); }
    forall j | 0 <= j < |h.fl| ensures LinkAt(m', h, j) { assert LinkAt(m, h, j); assert Apart(h, o, h.fl[j]); }
    forall p | p in h.blocks && p != o ensures Payload(m, h.blocks[p].cells, p) == Payload(m', h.blocks[p].cells, p) {
      assert EndsWell(h, p); assert Apart(h, o, p); assert Apart(h, p, o);
    }
  }

  lemma CopiedPayload(m: seq<Cell>, m': seq<Cell>, h: Heap, head: int, src: nat, dst: nat, cells: nat)
    requires Wf(h) && Rep(m, h, head) && Live(h, src) && Live(h, dst) && src != dst && |m'| == |m|
    requires cells == h.blocks[src].cells - 1 && cells < h.blocks[dst].cells
    requires src + 1 + cells <= |m| && dst + 1 + cells <= |m|
    requires m'[dst + 1..dst + 1 + cells] == m[src + 1..src + 1 + cells]
    requires forall c :: 0 <= c < |m| && !(dst + 1 <= c < dst + 1 + cells) ==> m'[c] == m[c]
    ensures Rep(m', h, head) && Contents(m', h) - {dst} == Contents(m, h) - {dst}
    ensures src in Contents(m, h) && dst in Contents(m', h) && Contents(m, h)[src] <= Contents(m', h)[dst]
  {
    ContentsAt(m, h, src);
    RepPayload(m, m', h, head, dst);
    PayloadPrefix(m', dst + 1, cells, h.blocks[dst].cells - 1);
  }

  /** Byte `j` of a little-endian word. */
  function WordByte(w: u32, j: nat): (b: int)
    requires j < 4
    ensures 0 <= b < 0x100
  {
    if j == 0 then w % 0x100 else if j == 1 then w / 0x100 % 0x100
    else if j == 2 then w / 0x100 / 0x100 % 0x100 else w / 0x100 / 0x100 / 0x100
  }

  function CellByte(c: Cell, j: nat): int
    requires j < 16
  {
    if j < 4 then WordByte(c.size, j) else if j < 8 then WordByte(c.free, j - 4)
    else if j < 12 then WordByte(c.next, j - 8) else WordByte(c.pad, j - 12)
  }

  function FromBytes(b0: int, b1: int, b2: int, b3: int): (w: u32)
    requires 0 <= b0 < 0x100 && 0 <= b1 < 0x100 && 0 <= b2 < 0x100 && 0 <= b3 < 0x100
    ensures WordByte(w, 0) == b0 && WordByte(w, 1) == b1 && WordByte(w, 2) == b2 && WordByte(w, 3) == b3
  {
    var w3 := b3;
    var w2 := b2 + 0x100 * w3;
    var w1 := b1 + 0x100 * w2;
    var w := b0 + 0x100 * w1;
    assert w / 0x100 == w1 && w1 / 0x100 == w2 && w2 / 0x100 == w3;
    w
  }

  /** `w` with its low `k` bytes cleared. */
  function ClearLow(w: u32, k: int): (r: u32)
    ensures forall j: nat | j < 4 :: WordByte(r, j) == (if j < k then 0 else WordByte(w, j))
  {
    FromBytes(if 0 < k then 0 else WordByte(w, 0), if 1 < k then 0 else WordByte(w, 1),
              if 2 < k then 0 else WordByte(w, 2), if 3 < k then 0 else WordByte(w, 3))
  }

  /** A cell with its first `k` bytes cleared and the others kept. */
  function ClearPrefix(c: Cell, k: int): (r: Cell)
    ensures forall j: nat | j < 16 :: CellByte(r, j) == (if j < k then 0 else CellByte(c, j))
  {
    Cell(ClearLow(c.size, k), ClearLow(c.free, k - 4), ClearLow(c.next, k - 8), ClearLow(c.pad, k - 12))
  }

  /** `memcpy` of whole cells between two ranges that do not overlap. */
  method CopyCells(mem: array<Cell>, src: nat, dst: nat, n: nat)
    requires src + n <= mem.Length && dst + n <= mem.Length && (src + n <= dst || dst + n <= src)
    modifies mem
    ensures mem[dst..dst + n] == old(mem[src..src + n])
    ensures forall c :: 0 <= c < mem.Length && !(dst <= c < dst + n) ==> mem[c] == old(mem[c])
  {
    for i := 0 to n
      invariant forall c :: 0 <= c < mem.Length && !(dst <= c < dst + i) ==> mem[c] == old(mem[c])
      invariant mem[dst..dst + i] == old(mem[src..src + i])
    {
      assert mem[src + i] == old(mem[src + i]);
      mem[dst + i] := mem[src + i];
      assert mem[dst..dst + i + 1] == mem[dst..dst + i] + [mem[dst + i]];
    }
  }

  /** Clear the first `total` bytes after cell `o`. */
  method ClearCells(mem: array<Cell>, o: nat, total: nat)
    requires o + 1 + (total + 15) / 16 <= mem.Length
    modifies mem
    ensures forall c :: 0 <= c < mem.Length ==>
      mem[c] == if o < c <= o + (total + 15) / 16 then ClearPrefix(old(mem[c]), total - 16 * (c - o - 1)) else old(mem[c])
  {
    for i := 0 to (total + 15) / 16
      invariant forall c :: 0 <= c < mem.Length && !(o < c <= o + i) ==> mem[c] == old(mem[c])
      invariant forall c :: o < c <= o + i ==> mem[c] == ClearPrefix(old(mem[c]), total - 16 * (c - o - 1))
    {
      mem[o + 1 + i] := ClearPrefix(mem[o + 1 + i], total - 16 * i);
    }
  }

  lemma PayloadsApart(h: Heap, o: nat, p: nat)
    requires Wf(h) && o in h.blocks && p in h.blocks && o != p
    ensures o + h.blocks[o].cells <= h.bump && p + h.blocks[p].cells <= h.bump
    ensures o + h.blocks[o].cells <= p || p + h.blocks[p].cells <= o
  {
    assert EndsWell(h, o) && EndsWell(h, p) && Apart(h, o, p) && Apart(h, p, o);
  }

  lemma ContentsAt(m: seq<Cell>, h: Heap, o: nat)
    requires Wf(h) && h.bump <= |m| && Live(h, o)
    ensures 2 <= h.blocks[o].cells && o + h.blocks[o].cells <= |m| && o in Contents(m, h)
    ensures Contents(m, h)[o] == m[o + 1..o + h.blocks[o].cells]
  {
    assert EndsWell(h, o);
  }

  /** Allocate, copy and free, seen as changes to what the live blocks hold. */
  lemma GrownContents(b0: map<nat, seq<Cell>>, b1: map<nat, seq<Cell>>, b2: map<nat, seq<Cell>>, o: nat, q: nat)
    requires o in b0 && o != q && b1 - {q} == b0 && b2 - {q} == b1 - {q} && q in b2
    requires o in b1 && b1[o] <= b2[q]
    ensures (b2 - {o}) - {q} == b0 - {o}
    ensures q in b2 - {o} && b0[o] <= (b2 - {o})[q]
  {
    assert b1[o] == (b1 - {q})[o];
    assert (b2 - {o}) - {q} == (b2 - {q}) - {o};
  }

  lemma BytesToCells(b: nat, size: u32)
    ensures 16 * b <= size <==> b <= size / 16
  {
  }

  lemma PayloadPrefix(m: seq<Cell>, at: nat, k: nat, n: nat)
    requires k <= n && at + n <= |m|
    ensures m[at..at + k] <= m[at..at + n]
  {
  }

  /** What a malloc that answered `r` does to the bytes of the live blocks. */
  ghost predicate MallocBytes(r: Option<nat>, b: map<nat, seq<Cell>>, b': map<nat, seq<Cell>>) {
    if r.None? then b' == b else r.value in b' && b' - {r.value} == b
  }

  /** And a realloc of `p` to `n` bytes that answered `q`. */
  ghost predicate ReallocBytes(p: Option<nat>, n: nat, q: Option<nat>, b: map<nat, seq<Cell>>, b': map<nat, seq<Cell>>) {
    if p.None? then MallocBytes(q, b, b')
    else if n == 0 then b' == b - {p.value}
    else if q.None? || q == p then b' == b
    else
      && p.value in b && q.value in b'
      && b' - {q.value} == b - {p.value} && b[p.value] <= b'[q.value]
  }

  ghost predicate ZeroBytes(s: seq<Cell>, n: nat) {
    n <= 16 * |s| && forall i: nat | i < n :: CellByte(s[i / 16], i % 16) == 0
  }

  lemma WordOfBytes(w: u32)
    ensures w == WordByte(w, 0) + 0x100 * WordByte(w, 1) + 0x1_0000 * WordByte(w, 2) + 0x100_0000 * WordByte(w, 3)
  {
    var (a, b) := (w / 0x100, w / 0x100 / 0x100);
    assert w == 0x100 * a + w % 0x100 && a == 0x100 * b + a % 0x100 && b == 0x100 * (b / 0x100) + b % 0x100;
  }

  /** A cell all of whose bytes are cleared is zero in all its words. */
  lemma ZeroCells(s: seq<Cell>, n: nat, c: nat)
    requires ZeroBytes(s, n) && 16 * c + 16 <= n
    ensures c < |s| && s[c] == Cell(0, 0, 0, 0)
  {
    forall j: nat | j < 16 ensures CellByte(s[c], j) == 0 { assert (16 * c + j) / 16 == c && (16 * c + j) % 16 == j; }
    assert forall j: nat | j < 4 :: WordByte(s[c].size, j) == CellByte(s[c], j);
    assert forall j: nat | j < 4 :: WordByte(s[c].free, j) == CellByte(s[c], j + 4);
    assert forall j: nat | j < 4 :: WordByte(s[c].next, j) == CellByte(s[c], j + 8);
    assert forall j: nat | j < 4 :: WordByte(s[c].pad, j) == CellByte(s[c], j + 12);
    WordOfBytes(s[c].size); WordOfBytes(s[c].free); WordOfBytes(s[c].next); WordOfBytes(s[c].pad);
  }

  /** Past the first `n` bytes the two agree. */
  ghost predicate SameTail(s: seq<Cell>, t: seq<Cell>, n: nat) {
    |s| == |t| && forall i: nat | n <= i < 16 * |s| :: CellByte(s[i / 16], i % 16) == CellByte(t[i / 16], i % 16)
  }

  lemma ClearedBytes(m: seq<Cell>, m': seq<Cell>, o: nat, cells: nat, total: nat)
    requires |m'| == |m| && o + 1 + cells <= |m| && total <= 16 * cells
    requires forall c | o < c <= o + cells ::
      m'[c] == if c <= o + (total + 15) / 16 then ClearPrefix(m[c], total - 16 * (c - o - 1)) else m[c]
    ensures ZeroBytes(m'[o + 1..o + 1 + cells], total)
    ensures SameTail(m[o + 1..o + 1 + cells], m'[o + 1..o + 1 + cells], total)
  {
    var s, t := m[o + 1..o + 1 + cells], m'[o + 1..o + 1 + cells];
    forall i: nat | i < 16 * cells
      ensures CellByte(t[i / 16], i % 16) == if i < total then 0 else CellByte(s[i / 16], i % 16)
    {
      assert s[i / 16] == m[o + 1 + i / 16] && t[i / 16] == m'[o + 1 + i / 16];
    }
  }

  lemma PayloadCleared(m: seq<Cell>, m': seq<Cell>, h: Heap, head: int, o: nat, total: nat)
    requires Wf(h) && Rep(m, h, head) && Live(h, o) && |m'| == |m| && total <= 16 * (h.blocks[o].cells - 1)
    requires forall c :: 0 <= c < |m| ==>
      m'[c] == if o < c <= o + (total + 15) / 16 then ClearPrefix(m[c], total - 16 * (c - o - 1)) else m[c]
    ensures Rep(m', h, head) && StillFreed(m, h, m', h)
    ensures Contents(m', h) - {o} == Contents(m, h) - {o} && o in Contents(m', h) && o in Contents(m, h)
    ensures ZeroBytes(Contents(m', h)[o], total) && SameTail(Contents(m, h)[o], Contents(m', h)[o], total)
  {
    ContentsAt(m, h, o);
    RepPayload(m, m', h, head, o);
    PayloadStillFreed(m, m', h, o);
    ClearedBytes(m, m', o, h.blocks[o].cells - 1, total);
  }

  /** What each operation does to the bytes of the live blocks. */
  ghost predicate BytesStep(op: Op, v: Cell, r: Option<nat>, b: map<nat, seq<Cell>>, b': map<nat, seq<Cell>>) {
    match op
    case OpMalloc(_, _) => MallocBytes(r, b, b')
    case OpFree(p) => b' == (if p.None? then b else b - {p.value})
    case OpRealloc(p, n, _) => ReallocBytes(p, n, r, b, b')
    case OpCalloc(m, z) => MallocBytes(r, b, b') && (r.Some? ==> ZeroBytes(b'[r.value], m * z))
    case OpStore(o, i) => o in b && o in b' && b' - {o} == b - {o} && i < |b[o]| && b'[o] == b[o][i := v]
    case OpReset => b' == map[]
  }

  /** On memory that represents a heap, free of a live block is its release and merge. */
  lemma FreedRep(m: seq<Cell>, h: Heap, head: u32, o: nat)
    requires Wf(h) && Rep(m, h, head) && Live(h, o) && 16 * h.bump < WORD
    ensures o < |m| && m[o].free == 0 && CanFree(m, h.fl, head, 16 * h.bump, o) && Wf(Release(h, o))
    ensures var (m', head', _) := Freed(m, h.fl, head, 16 * h.bump, o);
      && Rep(m', Coalesce(Release(h, o), o), head')
      && Contents(m', Coalesce(Release(h, o), o)) == Contents(m, h) - {o}
  {
    assert HeaderAt(m, h, o) && Listed(h, o);
    RepChain(m, h, head);
    RepRelease(m, h, head, o);
    ReleaseWf(h, o);
    var m1 := Pushed(m, head, o);
    MergedRep(m1, Release(h, o), 16 * o, o);
    FreeContents(m, m1, Freed(m, h.fl, head, 16 * h.bump, o).0, h, o);
  }

  /** Free can run at every pointer the arena returned. */
  lemma FreePossible(m: seq<Cell>, h: Heap, head: u32, o: nat)
    requires Wf(h) && Rep(m, h, head) && 16 * h.bump < WORD && (o in h.blocks || Swallowed(m, h, o))
    ensures CanFree(m, h.fl, head, 16 * h.bump, o)
    ensures o in h.blocks ==> (m[o].free != 0 <==> h.blocks[o].free) && m[o].size == 16 * h.blocks[o].cells
    ensures o in h.blocks ==> (m[o].pad == NOACCT <==> h.blocks[o].noacct)
    ensures Swallowed(m, h, o) ==> o !in h.blocks && m[o].free == 0
  {
    RepChain(m, h, head);
    if Swallowed(m, h, o) {
      var x: nat :| SwallowedBy(m, h, x, o);
      SwallowedCanFree(m, h, head, x, o);
    } else {
      assert HeaderAt(m, h, o);
      if !h.blocks[o].free { FreedRep(m, h, head, o); }
    }
  }

  class Arena {
    const mapped: bool // whether the base address is non-NULL
    const size: u32
    const mem: array<Cell>
    const acct: Accounting?
    var bump: u32
    var freeHead: u32
    var ready: bool
    ghost var heap: Heap

    ghost function Cap(): nat { if mapped then size / 16 else 0 }

    ghost function View(): State
      reads this, acct
    { State(Cap(), heap, if acct == null then None else Some(acct.Value())) }

    ghost predicate Valid()
      reads this, mem, acct
    {
      && mem.Length == Cap()
      && Good(View())
      && (if ready then bump == 16 * heap.bump && Rep(mem[..], heap, freeHead) else heap == EMPTY)
    }

    ghost function Repr(): set<object> { {this, mem} + (if acct == null then {} else {acct}) }

    ghost function Bytes(): map<nat, seq<Cell>>
      reads this, mem
    { Contents(mem[..], heap) }

    constructor (mapped: bool, size: u32, mem: array<Cell>, acct: Accounting?)
      requires mem.Length == (if mapped then size / 16 else 0)
      requires acct != null ==> acct.guestHeapUsed == 0
      ensures Valid() && View().heap == EMPTY
      ensures this.mapped == mapped && this.size == size && this.mem == mem && this.acct == acct
    {
      this.mapped, this.size, this.mem, this.acct := mapped, size, mem, acct;
      bump, freeHead, ready, heap := 0, 0, false, EMPTY;
    }

    method EnsureReady()
      requires Valid() && mapped
      modifies this
      ensures Valid() && ready && View() == old(View())
    {
      if ready { return; }
      bump, freeHead, ready := 0, NONE, true;
    }

    method CapAllows(consumed: u32) returns (ok: bool)
      ensures ok == ArenaSpec.CapAllows(View().acct, consumed)
    {
      if acct == null { return true; }
      ok := AllocFits(CartHeap(acct.Value()), acct.nonEvictableFootprint, consumed);
    }

    method AcctAdd(noacct: bool, bytes: u32)
      modifies acct
      ensures View() == old(View()).(acct := Add(old(View()).acct, noacct, bytes))
    {
      if acct != null && !noacct { acct.guestHeapUsed := (acct.guestHeapUsed + bytes) % WORD; }
    }

    /** Take the free-list entry whose cell is `c`; `prev` is the cell holding the link
        to it, or -1 for the head word. */
    method TakeBlock(prev: int, c: nat, need: u32, noacct: bool, ghost k: nat, ghost cells: nat)
      requires Wf(heap) && Rep(mem[..], heap, freeHead) && k < |heap.fl| && heap.fl[k] == c
      requires prev == (if k == 0 then -1 else heap.fl[k - 1])
      requires need == 16 * cells && 2 <= cells <= heap.blocks[c].cells
      modifies this`freeHead, this`heap, mem
      ensures heap == Take(old(heap), k, cells, noacct)
      ensures Rep(mem[..], heap, freeHead)
      ensures Bytes() - {c} == old(Bytes())
      ensures StillFreed(old(mem[..]), old(heap), mem[..], heap)
    {
      ghost var m, h := mem[..], heap;
      assert EndsWell(h, c) && HeaderAt(m, h, c) && LinkAt(m, h, k);
      RepTake(m, h, freeHead, k, cells, noacct);
      var size, mark := mem[c].size, if noacct then NOACCT else 0;
      if size - need >= 32 {
        mem[c + need / 16] := Cell(size - need, 1, mem[c].next, 0);
        if prev < 0 { freeHead := 16 * c + need; } else { mem[prev] := mem[prev].(next := 16 * c + need); }
        mem[c] := Cell(need, 0, NONE, mark);
      } else {
        if prev < 0 { freeHead := mem[c].next; } else { mem[prev] := mem[prev].(next := mem[c].next); }
        mem[c] := Cell(size, 0, NONE, mark);
      }
      heap := Take(h, k, cells, noacct);
      assert mem[..] == TakeCells(m, h, k, cells, noacct);
      TakeKeepsPayloads(m, h, old(freeHead), k, cells, noacct);
      TakeContents(m, mem[..], h, k, cells, noacct);
      TakeStillFreed(m, h, old(freeHead), k, cells, noacct);
    }

    method Malloc(n: nat, noacct: bool) returns (r: Option<nat>)
      requires Valid() && n <= WORD - 32
      modifies Repr()
      ensures Valid() && (View(), r) == MallocSpec(old(View()), n, noacct)
      ensures MallocBytes(r, old(Bytes()), Bytes())
      ensures StillFreed(old(mem[..]), old(heap), mem[..], heap)
    {
      ghost var s := View();
      MallocEffect(s, n, noacct);
      if !mapped || size == 0 { return None; }
      EnsureReady();
      NeedCoversIffInRange(n);
      var need := Need32(if n == 0 then 1 else n);
      var fit, prev, k := FindFit(need, NeedCells(n));
      if fit != NONE {
        r := Claim(prev, fit / 16, need, noacct, k, n);
      } else {
        r := BumpAllocate(need, noacct, n);
      }
    }

    /** First fit: the earliest free-list entry that is large enough, and the cell holding
        the link to it (-1 for the head word); NONE if every entry is too small. */
    method FindFit(need: u32, ghost cells: nat) returns (fit: u32, prev: int, ghost k: nat)
      requires Wf(heap) && Rep(mem[..], heap, freeHead) && need == 16 * cells
      ensures k <= |heap.fl| && fit == Link(heap.fl, k) && prev == (if k == 0 then -1 else heap.fl[k - 1])
      ensures forall i :: 0 <= i < k ==> heap.blocks[heap.fl[i]].cells < cells
      ensures k < |heap.fl| ==> fit != NONE && heap.fl[k] == fit / 16 && cells <= heap.blocks[heap.fl[k]].cells
    {
      fit, prev, k := freeHead, -1, 0;
      while fit != NONE
        invariant 0 <= k <= |heap.fl| && fit == Link(heap.fl, k)
        invariant prev == if k == 0 then -1 else heap.fl[k - 1]
        invariant forall i :: 0 <= i < k ==> heap.blocks[heap.fl[i]].cells < cells
        decreases |heap.fl| - k
      {
        var c := fit / 16;
        assert LinkAt(mem[..], heap, k) && HeaderAt(mem[..], heap, c);
        if mem[c].size >= need { return; }
        fit, prev, k := mem[c].next, c, k + 1;
      }
      RepChain(mem[..], heap, freeHead);
      NoneEnds(mem[..], heap.fl, freeHead, k);
    }

    /** The budget gate and the commit for a fitting free-list entry. */
    method Claim(prev: int, c: nat, need: u32, noacct: bool, ghost k: nat, ghost n: nat) returns (r: Option<nat>)
      requires Valid() && ready && mapped && n <= WORD - 32 && need == 16 * NeedCells(n)
      requires k < |heap.fl| && heap.fl[k] == c && prev == (if k == 0 then -1 else heap.fl[k - 1])
      requires NeedCells(n) <= heap.blocks[c].cells
      requires forall i :: 0 <= i < k ==> heap.blocks[heap.fl[i]].cells < NeedCells(n)
      modifies Repr()
      ensures Valid() && (View(), r) == MallocSpec(old(View()), n, noacct)
      ensures MallocBytes(r, old(Bytes()), Bytes())
      ensures StillFreed(old(mem[..]), old(heap), mem[..], heap)
    {
      MallocFromList(View(), n, noacct, k);
      NeedCoversIffInRange(n);
      assert EndsWell(heap, c) && HeaderAt(mem[..], heap, c);
      var consumed := if mem[c].size - need >= 32 then need else mem[c].size;
      var ok := CapAllows(consumed);
      if !noacct && !ok { return None; }
      TakeGood(View(), k, NeedCells(n), noacct);
      ChargeTaken(prev, c, need, consumed, noacct, k, NeedCells(n));
      r := Some(c);
    }

    method ChargeTaken(prev: int, c: nat, need: u32, consumed: u32, noacct: bool, ghost k: nat, ghost cells: nat)
      requires Valid() && ready && k < |heap.fl| && heap.fl[k] == c
      requires prev == (if k == 0 then -1 else heap.fl[k - 1])
      requires need == 16 * cells && 2 <= cells <= heap.blocks[c].cells
      requires Good(State(View().cap, Take(heap, k, cells, noacct), Add(View().acct, noacct, consumed)))
      modifies Repr()
      ensures Valid()
      ensures View() == old(State(View().cap, Take(heap, k, cells, noacct), Add(View().acct, noacct, consumed)))
      ensures Bytes() - {c} == old(Bytes()) && c in Bytes()
      ensures StillFreed(old(mem[..]), old(heap), mem[..], heap)
    {
      TakeBlock(prev, c, need, noacct, k, cells);
      AcctAdd(noacct, consumed);
    }

    method BumpAllocate(need: u32, noacct: bool, ghost n: nat) returns (r: Option<nat>)
      requires Valid() && ready && mapped && n <= WORD - 32 && need == 16 * NeedCells(n)
      requires forall i :: 0 <= i < |heap.fl| ==> heap.blocks[heap.fl[i]].cells < NeedCells(n)
      modifies Repr()
      ensures Valid() && (View(), r) == MallocSpec(old(View()), n, noacct)
      ensures MallocBytes(r, old(Bytes()), Bytes())
      ensures StillFreed(old(mem[..]), old(heap), mem[..], heap)
    {
      MallocFromBump(View(), n, noacct);
      BytesToCells(heap.bump + NeedCells(n), size);
      NeedCoversIffInRange(n);
      if bump + need > size { return None; }
      var ok := CapAllows(need);
      if !noacct && !ok { return None; }
      r := Some(bump / 16);
      BumpGood(View(), NeedCells(n), noacct);
      ChargeAtBump(need, noacct, NeedCells(n));
    }

    method ChargeAtBump(need: u32, noacct: bool, ghost cells: nat)
      requires Valid() && ready && need == 16 * cells && 2 <= cells && heap.bump + cells <= mem.Length
      requires Good(Bumped(View(), cells, noacct))
      modifies Repr()
      ensures Valid() && View() == Bumped(old(View()), cells, noacct)
      ensures Bytes() - {old(heap).bump} == old(Bytes())
      ensures StillFreed(old(mem[..]), old(heap), mem[..], heap)
    {
      PlaceAtBump(need, noacct, cells);
      AcctAdd(noacct, need);
    }

    /** Write the header of a fresh block at the bump pointer and move past it. */
    method PlaceAtBump(need: u32, noacct: bool, ghost cells: nat)
      requires ready && Wf(heap) && Rep(mem[..], heap, freeHead) && bump == 16 * heap.bump
      requires need == 16 * cells && 2 <= cells && heap.bump + cells <= mem.Length
      modifies this, mem
      ensures ready && bump == old(bump) + need && Rep(mem[..], heap, freeHead)
      ensures heap == Heap(old(heap).blocks[old(heap).bump := Blk(cells, false, noacct)],
                           old(heap).bump + cells, old(heap).fl)
      ensures Bytes() - {old(heap).bump} == old(Bytes())
      ensures StillFreed(old(mem[..]), old(heap), mem[..], heap)
    {
      ghost var m, h := mem[..], heap;
      RepBump(m, h, freeHead, cells, noacct);
      var c := bump / 16;
      mem[c] := Cell(need, 0, NONE, if noacct then NOACCT else 0);
      ghost var m' := mem[..];
      assert m' == m[h.bump := Cell(16 * cells, 0, NONE, if noacct then NOACCT else 0)];
      BumpContents(m, m', h, cells, noacct);
      BumpStillFreed(m, h, cells, noacct, m'[c]);
      bump := bump + need;
      heap := Heap(h.blocks[h.bump := Blk(cells, false, noacct)], h.bump + cells, h.fl);
    }

    /** Unlink `target` by walking the list from its head. */
    method FlRemove(target: nat, ghost fl: seq<nat>, ghost k: nat)
      requires Chain(mem[..], fl, freeHead) && k < |fl| && fl[k] == target && Distinct(fl)
      modifies this`freeHead, mem
      ensures old(ChainAt(mem[..], fl, k)) && (k > 0 ==> old(ChainAt(mem[..], fl, k - 1)))
      ensures mem[..] == UnlistCells(old(mem[..]), fl, k) && freeHead == Link(Remove(fl, k), 0)
    {
      ghost var m := mem[..];
      assert ChainAt(m, fl, k) && (k > 0 ==> ChainAt(m, fl, k - 1));
      var prev, cur := -1, freeHead;
      ghost var j := 0;
      while cur != NONE
        invariant 0 <= j <= k && cur == Link(fl, j) && prev == if j == 0 then -1 else fl[j - 1]
        invariant mem[..] == m && freeHead == old(freeHead)
        decreases k - j
      {
        assert ChainAt(m, fl, j);
        if cur == 16 * target {
          assert j == k;
          var t := mem[target];
          if prev < 0 { freeHead := t.next; } else { mem[prev] := mem[prev].(next := t.next); }
          mem[target] := mem[target].(free := 0, next := NONE);
          assert mem[..] == UnlistCells(m, fl, k);
          return;
        }
        prev, cur, j := cur / 16, mem[cur / 16].next, j + 1;
      }
      NoneEnds(m, fl, freeHead, j);
      assert false;
    }

    /** Merge the block after `o` into it when that one is free. */
    method CoalesceForward(o: nat, ghost fl: seq<nat>)
      requires Chain(mem[..], fl, freeHead) && Distinct(fl) && CanMerge(mem[..], fl, bump, o)
      modifies this`freeHead, mem
      ensures var r := Merged(old(mem[..]), fl, old(freeHead), bump, o); mem[..] == r.0 && freeHead == r.1
    {
      ghost var m := mem[..];
      var next := 16 * o + mem[o].size;
      if next >= bump { return; }
      var n := next / 16;
      assert m[n] == mem[n] && m[o] == mem[o];
      if mem[n].free == 0 { return; }
      ghost var k := IndexOf(fl, n);
      FlRemove(n, fl, k);
      ghost var u := mem[..];
      assert u[o].size == m[o].size && u[n].size == m[n].size;
      mem[o] := mem[o].(size := mem[o].size + mem[n].size);
      assert mem[..] == u[o := u[o].(size := u[o].size + u[n].size)];
    }

    /** Put the block at `o` at the head of the free list and merge forward. */
    method ReleaseCells(o: nat, ghost fl: seq<nat>)
      requires CanFree(mem[..], fl, freeHead, bump, o) && mem[o].free == 0
      modifies this`freeHead, mem
      ensures var r := Freed(old(mem[..]), fl, old(freeHead), bump, o); mem[..] == r.0 && freeHead == r.1
    {
      ghost var m, head := mem[..], freeHead;
      PushChain(m, fl, head, o);
      PushDistinct(fl, o);
      mem[o] := mem[o].(free := 1, next := freeHead);
      freeHead := 16 * o;
      assert mem[..] == Pushed(m, head, o);
      CoalesceForward(o, [o] + fl);
    }

    /** Free of a pointer the arena returned: one that heads a block, live or free, or one
        freed before whose block a merge has swallowed.  In the first case the heap changes
        as specified.  A second free is ignored exactly while the pointer heads a block; of
        a swallowed one the counter is charged again and the memory is listed twice. */
    method Free(p: Option<nat>)
      requires Valid() && (p.Some? ==> p.value in heap.blocks || Swallowed(mem[..], heap, p.value))
      modifies Repr()
      ensures p.None? || p.value in old(heap).blocks ==>
        && Valid() && View() == FreeSpec(old(View()), p)
        && Bytes() == (if p.None? then old(Bytes()) else old(Bytes()) - {p.value})
        && StillFreed(old(mem[..]), old(heap), mem[..], heap)
        && (p.Some? ==> WasFreed(mem[..], heap, p.value))
      ensures p.Some? && old(WasFreed(mem[..], heap, p.value)) ==>
        (mem[..] == old(mem[..]) && freeHead == old(freeHead) && View() == old(View()) <==> p.value in old(heap).blocks)
      ensures p.Some? && p.value !in old(heap).blocks ==>
        && p.value < mem.Length && Doubled(mem[..], freeHead, p.value)
        && View() == old(View()).(acct := Sub(old(View()).acct, old(mem[p.value].pad) == NOACCT, old(mem[p.value].size)))
      ensures forall c | 0 <= c < mem.Length :: mem[c].pad == old(mem[c].pad)
    {
      if p.None? { return; }
      var o := p.value;
      ghost var m, h, s, head := mem[..], heap, View(), freeHead;
      FreePossible(m, h, head, o);
      if mem[o].free != 0 { return; }
      AcctSub(mem[o].pad == NOACCT, mem[o].size);
      ReleaseCells(o, h.fl);
      FreedMarks(m, h.fl, head, bump, o);
      if o in h.blocks {
        FreeEffect(s, o);
        FreedRep(m, h, head, o);
        FreeStillFreed(m, h, head, o);
        heap := Coalesce(Release(h, o), o);
      } else {
        ghost var x: nat :| SwallowedBy(m, h, x, o);
        SecondFreeOverlaps(m, h, head, x, o);
        assert m[o].free != mem[o].free;
      }
    }

    method AcctSub(noacct: bool, bytes: u32)
      modifies acct
      ensures View() == old(View()).(acct := Sub(old(View()).acct, noacct, bytes))
    {
      if acct != null && !noacct { acct.guestHeapUsed := (acct.guestHeapUsed - bytes) % WORD; }
    }

    /** The user writes cell `i` of live block `o`. */
    method Store(o: nat, i: nat, v: Cell)
      requires Valid() && ready && Live(heap, o) && i + 1 < heap.blocks[o].cells
      modifies mem
      ensures Valid() && View() == old(View())
      ensures Bytes() - {o} == old(Bytes()) - {o}
      ensures o in Bytes() && o in old(Bytes()) && i < |old(Bytes())[o]|
      ensures Bytes()[o] == old(Bytes())[o][i := v]
      ensures StillFreed(old(mem[..]), heap, mem[..], heap)
    {
      ghost var m := mem[..];
      assert EndsWell(heap, o);
      mem[o + 1 + i] := v;
      RepPayload(m, mem[..], heap, freeHead, o);
      PayloadStillFreed(m, mem[..], heap, o);
    }

    /** The whole payload of `src` is copied to the start of the payload of `dst`. */
    method CopyPayload(src: nat, dst: nat, cells: nat)
      requires Wf(heap) && Rep(mem[..], heap, freeHead) && Live(heap, src) && Live(heap, dst) && src != dst
      requires cells == heap.blocks[src].cells - 1 && cells < heap.blocks[dst].cells
      modifies mem
      ensures Rep(mem[..], heap, freeHead)
      ensures Bytes() - {dst} == old(Bytes()) - {dst}
      ensures src in old(Bytes()) && dst in Bytes() && old(Bytes())[src] <= Bytes()[dst]
      ensures StillFreed(old(mem[..]), heap, mem[..], heap)
    {
      ghost var m := mem[..];
      PayloadsApart(heap, src, dst);
      CopyCells(mem, src + 1, dst + 1, cells);
      CopiedPayload(m, mem[..], heap, freeHead, src, dst, cells);
      PayloadStillFreed(m, mem[..], heap, dst);
    }

    method Realloc(p: Option<nat>, n: nat, noacct: bool) returns (q: Option<nat>)
      requires Valid() && n <= WORD - 32 && (p.Some? ==> Live(heap, p.value))
      modifies Repr()
      ensures Valid() && (View(), q) == ReallocSpec(old(View()), p, n, noacct)
      ensures ReallocBytes(p, n, q, old(Bytes()), Bytes())
      ensures StillFreed(old(mem[..]), old(heap), mem[..], heap)
    {
      if p.None? { q := Malloc(n, noacct); return; }
      if n == 0 { Free(p); return None; }
      var o := p.value;
      assert HeaderAt(mem[..], heap, o) && EndsWell(heap, o);
      var cap := mem[o].size - 16;
      if n <= cap { return p; }
      q := Grow(o, cap, n, noacct);
    }

    /** Allocate, copy, free. */
    method Grow(o: nat, cap: nat, n: nat, noacct: bool) returns (q: Option<nat>)
      requires Valid() && ready && Live(heap, o)
      requires cap == 16 * heap.blocks[o].cells - 16 && cap < n <= WORD - 32
      modifies Repr()
      ensures Valid() && (View(), q) == ReallocSpec(old(View()), Some(o), n, noacct)
      ensures q != Some(o) && ReallocBytes(Some(o), n, q, old(Bytes()), Bytes())
      ensures StillFreed(old(mem[..]), old(heap), mem[..], heap)
    {
      ghost var s, m0 := View(), mem[..];
      MallocEffect(s, n, noacct);
      ghost var b0 := Bytes();
      ContentsAt(mem[..], heap, o);
      q := Malloc(n, noacct);
      if q.None? { return; }
      ghost var b1, m1, h1 := Bytes(), mem[..], heap;
      assert Live(s.heap, o) && Live(heap, q.value) && Live(heap, o);
      CopyPayload(o, q.value, cap / 16);
      GrownContents(b0, b1, Bytes(), o, q.value);
      ghost var m2 := mem[..];
      FreeEffect(View(), o);
      Free(Some(o));
      GrowStillFreed(m0, s.heap, m1, h1, m2, mem[..], heap, o, q.value);
    }

    method Calloc(nmemb: u32, sz: u32) returns (r: Option<nat>)
      requires Valid() && Legal(View(), OpCalloc(nmemb, sz))
      modifies Repr()
      ensures Valid() && (View(), r) == Step(old(View()), OpCalloc(nmemb, sz))
      ensures MallocBytes(r, old(Bytes()), Bytes()) && (r.Some? ==> ZeroBytes(Bytes()[r.value], nmemb * sz))
      ensures StillFreed(old(mem[..]), old(heap), mem[..], heap)
    {
      if sz != 0 && nmemb > (WORD - 1) / sz { return None; }
      var total := nmemb * sz;
      ghost var m0, h0 := mem[..], heap;
      MallocEffect(View(), total, false);
      r := Malloc(total, false);
      if r.None? { return; }
      assert Live(heap, r.value);
      ghost var m1 := mem[..];
      ClearPayload(r.value, total);
      StillFreedSame(m0, h0, m1, mem[..], heap);
    }

    /** `memset` of the first `total` bytes of a payload. */
    method ClearPayload(o: nat, total: nat)
      requires Wf(heap) && Rep(mem[..], heap, freeHead) && Live(heap, o) && total <= 16 * (heap.blocks[o].cells - 1)
      modifies mem
      ensures Rep(mem[..], heap, freeHead)
      ensures Bytes() - {o} == old(Bytes()) - {o} && o in Bytes() && o in old(Bytes())
      ensures ZeroBytes(Bytes()[o], total) && SameTail(old(Bytes())[o], Bytes()[o], total)
      ensures StillFreed(old(mem[..]), heap, mem[..], heap)
    {
      ghost var m := mem[..];
      ContentsAt(m, heap, o);
      ClearCells(mem, o, total);
      PayloadCleared(m, mem[..], heap, freeHead, o, total);
    }

    method Reset()
      requires Valid()
      modifies Repr()
      ensures Valid() && View() == ResetSpec(old(View())) && Bytes() == map[] && heap == EMPTY
      ensures acct != null ==> acct.Value() == Acct(0, old(acct.nonEvictableFootprint), old(acct.guestHeapBaseline))
    {
      bump, freeHead, ready, heap := 0, NONE, false, EMPTY;
      if acct != null { acct.guestHeapUsed := 0; }
    }

    /** One operation of a run; `v` is what a store writes. */
    method Perform(op: Op, v: Cell) returns (r: Option<nat>)
      requires Valid() && Legal(View(), op)
      modifies Repr()
      ensures Valid() && (View(), r) == Step(old(View()), op)
      ensures BytesStep(op, v, r, old(Bytes()), Bytes())
      ensures !op.OpReset? ==> StillFreed(old(mem[..]), old(heap), mem[..], heap)
    {
      match op {
        case OpMalloc(n, noacct) => r := Malloc(n, noacct);
        case OpFree(x) => Free(x); r := None;
        case OpRealloc(x, n, noacct) => r := Realloc(x, n, noacct);
        case OpCalloc(m, z) => r := Calloc(m, z);
        case OpStore(o, i) => Store(o, i, v); r := None;
        case OpReset => Reset(); r := None;
      }
    }
  }

  // ---------------------------------------------------------------- contents over runs

  /** The block that holds cell `i` of block `o` after an operation that answered `r`; none
      when the operation frees or overwrites the cell. */
  function Moves(op: Op, r: Option<nat>, o: nat, i: nat): Option<nat> {
    match op
    case OpFree(p) => if p == Some(o) then None else Some(o)
    case OpRealloc(p, n, _) => if p != Some(o) then Some(o) else if n == 0 then None else if r.None? then Some(o) else r
    case OpStore(q, j) => if q == o && j == i then None else Some(o)
    case OpReset => None
    case _ => Some(o)
  }

  /** And after a whole run. */
  ghost function Track(s: State, ops: seq<Op>, o: nat, i: nat): Option<nat>
    requires Good(s) && LegalRun(s, ops)
    decreases |ops|
  {
    if ops == [] then Some(o) else
      StepGood(s, ops[0]);
      var (t, r) := Step(s, ops[0]);
      var q := Moves(ops[0], r, o, i);
      if q.None? then None else Track(t, ops[1..], q.value, i)
  }

  /** Cell `i` of block `o` holds `v`. */
  ghost predicate HoldsCell(b: map<nat, seq<Cell>>, o: nat, i: nat, v: Cell) { o in b && i < |b[o]| && b[o][i] == v }

  lemma CellFollows(op: Op, w: Cell, r: Option<nat>, b: map<nat, seq<Cell>>, b': map<nat, seq<Cell>>, o: nat, i: nat, v: Cell)
    requires BytesStep(op, w, r, b, b') && HoldsCell(b, o, i, v) && Moves(op, r, o, i).Some?
    ensures HoldsCell(b', Moves(op, r, o, i).value, i, v)
  {
    match op
    case OpMalloc(_, _) => if r.Some? { assert o in b' - {r.value} && b[o] == (b' - {r.value})[o]; }
    case OpCalloc(_, _) => if r.Some? { assert o in b' - {r.value} && b[o] == (b' - {r.value})[o]; }
    case OpFree(p) => if p.Some? { assert o in b - {p.value} && b[o] == (b - {p.value})[o]; }
    case OpStore(q, _) => if q != o { assert o in b - {q} && b[o] == (b - {q})[o]; }
    case OpRealloc(p, n, _) =>
      if p.None? {
        if r.Some? { assert o in b' - {r.value} && b[o] == (b' - {r.value})[o]; }
      } else if p.value != o && (n == 0 || (r.Some? && r != p)) {
        assert o in b - {p.value} && b[o] == (b - {p.value})[o];
      }
    case OpReset =>
  }

  /** A run executed in memory: it ends in the specified state, and what cell `i` of block `o`
      held at the start is, unless that very cell is freed, overwritten or reset, where the
      run's reallocs took it. */
  method RunOps(a: Arena, ops: seq<Op>, vs: seq<Cell>, ghost o: nat, ghost i: nat) returns (rs: seq<Option<nat>>)
    requires a.Valid() && LegalRun(a.View(), ops) && |vs| == |ops| && o in a.Bytes() && i < |a.Bytes()[o]|
    modifies a.Repr()
    ensures a.Valid() && a.View() == old(Run(a.View(), ops)) && |rs| == |ops|
    ensures var q := old(Track(a.View(), ops, o, i)); q.Some? ==> HoldsCell(a.Bytes(), q.value, i, old(a.Bytes()[o][i]))
  {
    rs := [];
    ghost var at, v: Cell := Some(o), a.Bytes()[o][i];
    for k := 0 to |ops|
      invariant a.Valid() && LegalRun(a.View(), ops[k..]) && Run(a.View(), ops[k..]) == old(Run(a.View(), ops)) && |rs| == k
      invariant old(Track(a.View(), ops, o, i)) == if at.None? then None else Track(a.View(), ops[k..], at.value, i)
      invariant at.Some? ==> HoldsCell(a.Bytes(), at.value, i, v)
    {
      StepGood(a.View(), ops[k]);
      assert ops[k..][0] == ops[k] && ops[k..][1..] == ops[k + 1..];
      ghost var b := a.Bytes();
      var r := a.Perform(ops[k], vs[k]);
      rs := rs + [r];
      if at.Some? {
        ghost var next := Moves(ops[k], r, at.value, i);
        if next.Some? { CellFollows(ops[k], vs[k], r, b, a.Bytes(), at.value, i, v); }
        at := next;
      }
    }
  }

  /** Reset equals fresh load: an arena with any history, full of stale bytes, is reset
      and then given the same operations as a fresh one, with whatever each user stores;
      every answer and every value of the live counter is the same. */
  method TwoRuns(a: Arena, b: Arena, ops: seq<Op>, va: seq<Cell>, vb: seq<Cell>)
    returns (ra: seq<(Option<nat>, Option<Acct>)>, rb: seq<(Option<nat>, Option<Acct>)>)
    requires a.Valid() && b.Valid() && a.Repr() !! b.Repr()
    requires b.View() == ResetSpec(a.View())
    requires LegalRun(b.View(), ops) && |va| == |vb| == |ops|
    modifies a.Repr(), b.Repr()
    ensures ra == rb && |ra| == |ops|
  {
    a.Reset();
    ra, rb := [], [];
    for i := 0 to |ops|
      invariant a.Valid() && b.Valid() && a.View() == b.View() && LegalRun(b.View(), ops[i..])
      invariant ra == rb && |ra| == i
    {
      StepGood(b.View(), ops[i]);
      assert ops[i..][0] == ops[i] && ops[i..][1..] == ops[i + 1..];
      var x := a.Perform(ops[i], va[i]);
      var y := b.Perform(ops[i], vb[i]);
      var ux := if a.acct == null then None else Some(a.acct.Value());
      var uy := if b.acct == null then None else Some(b.acct.Value());
      ra, rb := ra + [(x, ux)], rb + [(y, uy)];
    }
  }

  // ---------------------------------------------------------------- double frees

  /** No operation of the run resets the arena or hands out the memory at `p`. */
  ghost predicate LeavesAlone(s: State, ops: seq<Op>, p: nat)
    requires Good(s) && LegalRun(s, ops)
    decreases |ops|
  {
    ops == [] || (
      StepGood(s, ops[0]);
      var t := Step(s, ops[0]).0;
      !ops[0].OpReset? && !HandedOut(t.heap, p) && LeavesAlone(t, ops[1..], p))
  }

  /** A pointer is freed, the program goes on without getting its memory back, and frees it
      again: that is ignored if and only if the pointer still heads a block. */
  method FreeTwice(a: Arena, p: nat, ops: seq<Op>, vs: seq<Cell>) returns (ignored: bool)
    requires a.Valid() && Live(a.heap, p) && |vs| == |ops|
    requires var s := FreeSpec(a.View(), Some(p)); Good(s) && LegalRun(s, ops) && LeavesAlone(s, ops, p)
    modifies a.Repr()
    ensures ignored <==> p in old(Run(FreeSpec(a.View(), Some(p)), ops)).heap.blocks
    ensures !ignored ==> Doubled(a.mem[..], a.freeHead, p)
  {
    ghost var s := FreeSpec(a.View(), Some(p));
    a.Free(Some(p));
    for i := 0 to |ops|
      invariant a.Valid() && WasFreed(a.mem[..], a.heap, p)
      invariant LegalRun(a.View(), ops[i..]) && LeavesAlone(a.View(), ops[i..], p)
      invariant Run(a.View(), ops[i..]) == Run(s, ops)
    {
      StepGood(a.View(), ops[i]);
      assert ops[i..][0] == ops[i] && ops[i..][1..] == ops[i + 1..];
      var _ := a.Perform(ops[i], vs[i]);
    }
    var m, head, used := a.mem[..], a.freeHead, if a.acct == null then None else Some(a.acct.Value());
    a.Free(Some(p));
    ignored := a.mem[..] == m && a.freeHead == head && used == if a.acct == null then None else Some(a.acct.Value());
  }

  const TWO := map[0 := Blk(2, false, false), 2 := Blk(2, false, false)]

  lemma TwoBlocks(s: State)
    requires s == State(8, EMPTY, Some(Acct(0, 0, 0)))
    ensures Good(s) && MallocSpec(s, 16, false) == (Bumped(s, 2, false), Some(0)) && Good(Bumped(s, 2, false))
    ensures MallocSpec(Bumped(s, 2, false), 16, false)
         == (State(8, Heap(TWO, 4, []), Some(Acct(64, 0, 0))), Some(2))
  {
    assert Need32(16) == 32;
    MallocFromBump(s, 16, false);
    MallocFromBump(Bumped(s, 2, false), 16, false);
    assert Bumped(Bumped(s, 2, false), 2, false).heap.blocks == TWO;
  }

  lemma BothFreed(s: State)
    requires Good(s) && s == State(8, Heap(TWO, 4, []), Some(Acct(64, 0, 0)))
    ensures var t := FreeSpec(s, Some(2));
      && Good(t) && 0 in t.heap.blocks && Live(t.heap, 0)
      && FreeSpec(t, Some(0)) == State(8, Heap(map[0 := Blk(4, true, false)], 4, [0]), Some(Acct(0, 0, 0)))
  {
    FreeEffect(s, 2);
    var t := FreeSpec(s, Some(2));
    assert t.heap == Heap(TWO[2 := Blk(2, true, false)], 4, [2]);
    FreeEffect(t, 0);
    ReleaseWf(t.heap, 0);
    var r := Release(t.heap, 0);
    assert r.fl == [0, 2] && IndexOf(r.fl, 2) == 1 && Remove(r.fl, 1) == [0];
    assert Merge(r, 0, 2, [0]).blocks == map[0 := Blk(4, true, false)];
  }

  /** Two blocks of 32 bytes, header included, in a fresh arena. */
  method TwoSmall() returns (a: Arena, acct: Accounting)
    ensures fresh(a) && fresh(acct) && fresh(a.mem) && a.acct == acct && a.Valid()
    ensures a.View() == State(8, Heap(TWO, 4, []), Some(Acct(64, 0, 0))) && a.ready
  {
    var mem := new Cell[8](_ => Cell(0, 0, 0, 0));
    acct := new Accounting(0, 0);
    a := new Arena(true, 128, mem, acct);
    TwoBlocks(a.View());
    var _ := a.Malloc(16, false);
    var _ := a.Malloc(16, false);
  }

  /** They are freed, the second first, and then the second once more: the guard does not
      see it, the counter falls below zero, and the free list holds bytes 32 to 64 both on
      their own and as part of the merged block. */
  method MergedDoubleFree() returns (a: Arena, used: u32)
    ensures fresh(a) && used == WORD - 32 && Doubled(a.mem[..], a.freeHead, 2)
  {
    var acct;
    a, acct := TwoSmall();
    BothFreed(a.View());
    assert HeaderAt(a.mem[..], a.heap, 2);
    a.Free(Some(2));
    a.Free(Some(0));
    assert !HandedOut(a.heap, 2) by { forall x: nat ensures !Holds(a.heap, x, 2) {} }
    assert WasFreed(a.mem[..], a.heap, 2) && Swallowed(a.mem[..], a.heap, 2);
    ghost var x: nat :| SwallowedBy(a.mem[..], a.heap, x, 2);
    assert x == 0 && a.mem[2].size == 32;
    a.Free(Some(2));
    used := acct.guestHeapUsed;
  }
}
