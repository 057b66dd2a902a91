/** Resource entries, their pin counts, and the footprint they reserve. */
module Resources {
  import opened MemBudget

  datatype Entry = Entry(len: u32, persistent: bool, pins: u32)

  predicate Evictable(e: Entry) { e.pins == 0 }

  /** Bytes an entry reserves: all of it while pinned or persistent. */
  function Reserved(e: Entry): nat { if e.persistent || !Evictable(e) then e.len else 0 }

  function Footprint(t: seq<Entry>): nat { if t == [] then 0 else Reserved(t[0]) + Footprint(t[1..]) }

  /** The table walk sums in 32 bits. */
  function Footprint32(t: seq<Entry>): u32 { Footprint(t) % WORD }

  function Pinned(e: Entry): Entry { e.(pins := (e.pins + 1) % WORD) }

  function Unpinned(e: Entry): Entry { if e.pins == 0 then e else e.(pins := e.pins - 1) }

  function ReleaseAll(t: seq<Entry>): (r: seq<Entry>)
    ensures |r| == |t|
  { seq(|t|, i requires 0 <= i < |t| => t[i].(pins := 0)) }

  lemma {:induction false} FootprintUpdate(t: seq<Entry>, i: nat, e: Entry)
    requires i < |t|
    ensures Footprint(t[i := e]) == Footprint(t) - Reserved(t[i]) + Reserved(e)
  {
    if i > 0 {
      FootprintUpdate(t[1..], i - 1, e);
      assert t[i := e][1..] == t[1..][i - 1 := e];
    } else {
      assert t[0 := e][1..] == t[1..];
    }
  }

  lemma {:induction false} ReleaseShrinks(t: seq<Entry>)
    ensures Footprint(ReleaseAll(t)) <= Footprint(t)
  {
    if t != [] {
      ReleaseShrinks(t[1..]);
      assert ReleaseAll(t)[1..] == ReleaseAll(t[1..]);
    }
  }
}

/**
 A pure-Lua cart: one arena, one resource table, one shared counter block.  The
 budget is stated about what is really reserved, not about what was published.
 */
module LuaBudget {
  import opened MemBudget
  import opened ArenaSpec
  import opened Resources

  datatype Lua = Lua(arena: State, table: seq<Entry>)

  datatype Event =
    | HeapOp(op: Op)
    | Pin(i: nat, decodes: bool)
    | Unpin(i: nat)
    | FrameRelease
    | Publish
    | Rebaseline
    | ArenaReset

  ghost predicate Sound(s: Lua) { Good(s.arena) && s.arena.acct.Some? }

  function A(s: Lua): Acct requires s.arena.acct.Some? { s.arena.acct.value }

  function WithAcct(s: Lua, a: Acct): Lua { s.(arena := s.arena.(acct := Some(a))) }

  /** Cart heap plus pinned and persistent resources fit in 16 MB. */
  ghost predicate WithinBudget(s: Lua)
    requires s.arena.acct.Some?
  { CartHeap(A(s)) + Footprint(s.table) <= BUDGET }

  /** The published footprint covers what is really reserved. */
  ghost predicate Covered(s: Lua)
    requires s.arena.acct.Some?
  { Footprint(s.table) <= A(s).footprint }

  function Published(s: Lua): Lua
    requires s.arena.acct.Some?
  { WithAcct(s, A(s).(footprint := Footprint32(s.table))) }

  predicate ReferenceFits(s: Lua, i: nat)
    requires s.arena.acct.Some? && i < |s.table|
  { AllocFits(CartHeap(A(s)), Footprint32(s.table), if Evictable(s.table[i]) then s.table[i].len else 0) }

  ghost predicate Allowed(s: Lua, e: Event)
    requires Sound(s)
  {
    match e
    case HeapOp(op) => !op.OpReset? && Legal(s.arena, op)
    case Pin(i, _) => i < |s.table|
    case Unpin(i) => i < |s.table|
    case _ => true
  }

  function Next(s: Lua, e: Event): Lua
    requires Sound(s) && Allowed(s, e)
  {
    match e
    case HeapOp(op) => s.(arena := Step(s.arena, op).0)
    case Pin(i, decodes) =>
      if !ReferenceFits(s, i) || !decodes then s
      else Published(s.(table := s.table[i := Pinned(s.table[i])]))
    case Unpin(i) => Published(s.(table := s.table[i := Unpinned(s.table[i])]))
    case FrameRelease => s.(table := ReleaseAll(s.table))
    case Publish => Published(s)
    case Rebaseline => WithAcct(s, A(s).(baseline := A(s).used))
    case ArenaReset => WithAcct(s.(arena := ResetSpec(s.arena)), Acct(0, 0, 0))
  }

  /** What a heap operation may do to the counters: nothing but the counter moves, and
      it only grows when the budget predicate held for the growth. */
  lemma HeapOpCounters(s: State, op: Op)
    requires Good(s) && s.acct.Some? && Legal(s, op) && !op.OpReset?
    ensures var t := Step(s, op).0;
      && Good(t) && t.acct.Some?
      && t.acct.value.footprint == s.acct.value.footprint && t.acct.value.baseline == s.acct.value.baseline
      && (CartHeap(t.acct.value) <= CartHeap(s.acct.value)
          || CartHeap(t.acct.value) + s.acct.value.footprint <= BUDGET)
  {
    StepGood(s, op);
    match op
    case OpMalloc(n, noacct) => MallocCounters(s, n, noacct);
    case OpFree(p) => if p.Some? { FreeEffect(s, p.value); }
    case OpRealloc(p, n, noacct) => if p.None? { MallocCounters(s, n, noacct); } else { ReallocCounters(s, p.value, n, noacct); }
    case OpCalloc(m, z) => if !CallocOverflows(m, z) { MallocCounters(s, m * z, false); }
    case OpStore(_, _) =>
  }

  lemma ReallocCounters(s: State, o: nat, n: nat, noacct: bool)
    requires Good(s) && s.acct.Some? && n <= WORD - 32 && Live(s.heap, o)
    ensures var t := ReallocSpec(s, Some(o), n, noacct).0;
      && t.acct.Some?
      && t.acct.value.footprint == s.acct.value.footprint && t.acct.value.baseline == s.acct.value.baseline
      && (CartHeap(t.acct.value) <= CartHeap(s.acct.value)
          || CartHeap(t.acct.value) + s.acct.value.footprint <= BUDGET)
  {
    MallocCounters(s, n, noacct);
    MallocEffect(s, n, noacct);
    if n == 0 { FreeEffect(s, o); }
    var (t, q) := MallocSpec(s, n, noacct);
    if q.Some? { assert Live(s.heap, o); assert Live(t.heap, o); FreeEffect(t, o); }
  }

  lemma MallocCounters(s: State, n: nat, noacct: bool)
    requires Good(s) && s.acct.Some? && n <= WORD - 32
    ensures var t := MallocSpec(s, n, noacct).0;
      && t.acct.Some?
      && t.acct.value.footprint == s.acct.value.footprint && t.acct.value.baseline == s.acct.value.baseline
      && (t.acct == s.acct || CartHeap(t.acct.value) + s.acct.value.footprint <= BUDGET)
  {
    MallocEffect(s, n, noacct);
  }

  /** Every event keeps the budget; every event but a reset over a reserved table keeps
      the published footprint honest. */
  lemma NextWithin(s: Lua, e: Event)
    requires Sound(s) && Allowed(s, e) && WithinBudget(s) && Covered(s)
    ensures Sound(Next(s, e)) && WithinBudget(Next(s, e))
    ensures !e.ArenaReset? || Footprint(s.table) == 0 ==> Covered(Next(s, e))
  {
    match e
    case HeapOp(op) => HeapOpCounters(s.arena, op);
    case Pin(i, decodes) => PinWithin(s, i, decodes);
    case Unpin(i) => FootprintUpdate(s.table, i, Unpinned(s.table[i]));
    case FrameRelease => ReleaseShrinks(s.table);
    case _ =>
  }

  lemma PinWithin(s: Lua, i: nat, decodes: bool)
    requires Sound(s) && i < |s.table| && WithinBudget(s) && Covered(s)
    ensures var t := Next(s, Pin(i, decodes)); Sound(t) && WithinBudget(t) && Covered(t)
  {
    FootprintUpdate(s.table, i, Pinned(s.table[i]));
  }

  lemma NextSound(s: Lua, e: Event)
    requires Sound(s) && Allowed(s, e)
    ensures Sound(Next(s, e))
  {
    if e.HeapOp? { HeapOpCounters(s.arena, e.op); }
  }

  /** A run in which every arena reset finds nothing reserved. */
  ghost predicate Playable(s: Lua, es: seq<Event>)
    requires Sound(s)
    decreases |es|
  {
    es == [] || (
      && Allowed(s, es[0])
      && (es[0].ArenaReset? ==> Footprint(s.table) == 0)
      && (NextSound(s, es[0]); Playable(Next(s, es[0]), es[1..])))
  }

  ghost predicate AlwaysWithin(s: Lua, es: seq<Event>)
    requires Sound(s) && Playable(s, es)
    decreases |es|
  {
    WithinBudget(s) && (es == [] || (NextSound(s, es[0]); AlwaysWithin(Next(s, es[0]), es[1..])))
  }

  /** Every interleaving of heap traffic, pins, unpins, frame releases, publishes and
      rebaselines, with resets over an unreserved table, stays within 16 MB. */
  lemma {:induction false} RunWithin(s: Lua, es: seq<Event>)
    requires Sound(s) && WithinBudget(s) && Covered(s) && Playable(s, es)
    ensures AlwaysWithin(s, es)
    decreases |es|
  {
    if es != [] {
      NextWithin(s, es[0]);
      RunWithin(Next(s, es[0]), es[1..]);
    }
  }

  /** Whatever happens after resetting the arena now, the budget holds. */
  ghost predicate ResetSafe(s: Lua)
    requires Sound(s)
  {
    var t := Next(s, ArenaReset);
    Sound(t) && forall es | Playable(t, es) :: AlwaysWithin(t, es)
  }

  /** The reset path publishes a footprint of zero, which for a pure-Lua cart stands until
      the next pin or unpin.  It is safe exactly when nothing was reserved. */
  lemma ResetSafeIffUnreserved(s: Lua)
    requires Sound(s) && WithinBudget(s) && Covered(s) && 16 * s.arena.cap == BUDGET
    ensures ResetSafe(s) <==> Footprint(s.table) == 0
  {
    var t := Next(s, ArenaReset);
    NextWithin(s, ArenaReset);
    if Footprint(s.table) == 0 {
      forall es | Playable(t, es) ensures AlwaysWithin(t, es) { RunWithin(t, es); }
    } else {
      var es := [HeapOp(OpMalloc(BUDGET - 16, false))];
      NeedCoversIffInRange(BUDGET - 16);
      assert NeedCells(BUDGET - 16) == BUDGET / 16;
      MallocFromBump(t.arena, BUDGET - 16, false);
      NextSound(t, es[0]);
      var u := Next(t, es[0]);
      assert A(u).used == BUDGET;
      assert es[1..] == [] && Playable(u, es[1..]) && Playable(t, es);
      assert !AlwaysWithin(u, es[1..]);
    }
  }
}

/** The host side of a pure-Lua cart: the calls that move pins and publish the footprint. */
module LuaHost {
  import opened MemBudget
  import opened ArenaSpec
  import opened Resources
  import opened LuaBudget
  import Arena

  class Host {
    const arena: Arena.Arena
    const acct: Arena.Accounting
    var table: seq<Entry>

    constructor (arena: Arena.Arena, acct: Arena.Accounting, table: seq<Entry>)
      requires arena.acct == acct
      ensures this.arena == arena && this.acct == acct && this.table == table
    {
      this.arena, this.acct, this.table := arena, acct, table;
    }

    ghost function View(): Lua
      reads this, arena, acct, arena.acct
    { Lua(arena.View(), table) }

    ghost predicate Valid()
      reads this, arena, arena.mem, acct, arena.acct
    { arena.acct == acct && arena.Valid() && Sound(View()) }

    /** The table walk, summing in 32 bits. */
    method TableFootprint() returns (total: u32)
      ensures total == Footprint32(table)
    {
      total := 0;
      for i := 0 to |table|
        invariant (total + Footprint(table[i..])) % WORD == Footprint(table) % WORD
      {
        assert table[i..][0] == table[i] && table[i..][1..] == table[i + 1..];
        WrapStep(total, Reserved(table[i]), Footprint(table[i + 1..]));
        if table[i].persistent || !Evictable(table[i]) { total := (total + table[i].len) % WORD; }
      }
      assert table[|table|..] == [];
    }

    method PublishFootprint()
      requires Valid()
      modifies acct
      ensures Valid() && View() == Next(old(View()), Publish)
    {
      var f := TableFootprint();
      acct.nonEvictableFootprint := f;
    }

    method PinEntry(i: nat, decodes: bool) returns (ok: bool)
      requires Valid() && i < |table|
      modifies this, acct
      ensures Valid() && View() == Next(old(View()), Pin(i, decodes))
      ensures ok == (ReferenceFits(old(View()), i) && decodes)
    {
      var f := TableFootprint();
      var incoming := if Evictable(table[i]) then table[i].len else 0;
      if !AllocFits(CartHeap(acct.Value()), f, incoming) || !decodes { return false; }
      table := table[i := Pinned(table[i])];
      PublishFootprint();
      ok := true;
    }

    method UnpinEntry(i: nat)
      requires Valid() && i < |table|
      modifies this, acct
      ensures Valid() && View() == Next(old(View()), Unpin(i))
    {
      table := table[i := Unpinned(table[i])];
      PublishFootprint();
    }

    /** Frame boundary: every pin still held is dropped. */
    method ForceReleasePins()
      requires Valid()
      modifies this
      ensures Valid() && View() == Next(old(View()), FrameRelease)
    {
      ghost var t := table;
      for i := 0 to |table|
        invariant |table| == |t|
        invariant forall j :: 0 <= j < |t| ==> table[j] == if j < i then t[j].(pins := 0) else t[j]
      {
        table := table[i := table[i].(pins := 0)];
      }
      assert table == ReleaseAll(t);
    }

    method ResetArena()
      requires Valid()
      modifies arena.Repr()
      ensures Valid() && View() == Next(old(View()), ArenaReset)
    {
      arena.Reset();
      acct.nonEvictableFootprint := 0;
      acct.guestHeapBaseline := 0;
    }

    /** For a cart without a native half this only captures the baseline: the publish
        that would follow is guarded by the native session's presence. */
    method RebaselineAndSeed()
      requires Valid()
      modifies acct
      ensures Valid() && View() == Next(old(View()), Rebaseline)
    {
      acct.guestHeapBaseline := acct.guestHeapUsed;
    }
  }

  lemma WrapStep(total: u32, x: nat, rest: nat)
    ensures ((total + x) % WORD + rest) % WORD == (total + (x + rest)) % WORD
  {
    var q := (total + x) / WORD;
    assert total + x + rest == (total + x) % WORD + rest + q * WORD;
    ModShift((total + x) % WORD + rest, q);
  }

  lemma {:induction false} ModShift(a: nat, q: nat)
    ensures (a + q * WORD) % WORD == a % WORD
  {
    if q > 0 { ModShift(a, q - 1); }
  }
}

/**
 A hybrid cart: the Lua half and the native half each have an arena, and the two
 publish their heaps to each other around every native call.  Native calls do not
 nest and return normally.
 */
module HybridBudget {
  import opened MemBudget
  import opened ArenaSpec
  import opened Resources
  import LuaBudget
  import Arena

  datatype Hybrid = Hybrid(lua: State, native: State, peer: u32, table: seq<Entry>, inNative: bool)

  datatype Event =
    | LuaOp(op: Op)
    | LuaPin(i: nat, decodes: bool)
    | LuaUnpin(i: nat)
    | FrameRelease
    | Enter
    | NativeOp(op: Op)
    | NativePin(i: nat, decodes: bool)
    | NativeUnpin(i: nat)
    | Leave
    | Reload(setup: seq<Op>)

  ghost predicate Sound(s: Hybrid) {
    Good(s.lua) && s.lua.acct.Some? && Good(s.native) && s.native.acct.Some?
  }

  function LuaHeap(s: Hybrid): u32 requires s.lua.acct.Some? { CartHeap(s.lua.acct.value) }
  function NativeHeap(s: Hybrid): u32 requires s.native.acct.Some? { CartHeap(s.native.acct.value) }

  /** Both heaps and the reserved resources share one 16 MB pool. */
  ghost predicate WithinBudget(s: Hybrid)
    requires Sound(s)
  { LuaHeap(s) + NativeHeap(s) + Footprint(s.table) <= BUDGET }

  /** The half that is running sees at least what the other half and the table hold. */
  ghost predicate Coupled(s: Hybrid)
    requires Sound(s)
  {
    if s.inNative then
      s.peer == LuaHeap(s) && Footprint(s.table) + s.peer <= s.native.acct.value.footprint
    else
      Footprint(s.table) + NativeHeap(s) <= s.lua.acct.value.footprint
  }

  function PublishToLua(s: Hybrid): Hybrid
    requires s.lua.acct.Some? && s.native.acct.Some?
  {
    s.(lua := s.lua.(acct := Some(s.lua.acct.value.(footprint := (Footprint32(s.table) + NativeHeap(s)) % WORD))))
  }

  function PublishToNative(s: Hybrid): Hybrid
    requires s.native.acct.Some?
  {
    s.(native := s.native.(acct := Some(s.native.acct.value.(footprint := (Footprint32(s.table) + s.peer) % WORD))))
  }

  function Incoming(e: Entry): u32 { if Evictable(e) then e.len else 0 }

  /** The Lua half's pin gate: the table's footprint, without the native heap. */
  predicate LuaReferenceFits(s: Hybrid, i: nat)
    requires s.lua.acct.Some? && i < |s.table|
  { AllocFits(LuaHeap(s), Footprint32(s.table), Incoming(s.table[i])) }

  predicate NativeReferenceFits(s: Hybrid, i: nat)
    requires s.native.acct.Some? && i < |s.table|
  { AllocFits(s.native.acct.value.used, (Footprint32(s.table) + s.peer) % WORD, Incoming(s.table[i])) }

  ghost predicate Allowed(s: Hybrid, e: Event)
    requires Sound(s)
  {
    match e
    case LuaOp(op) => !s.inNative && !op.OpReset? && Legal(s.lua, op)
    case LuaPin(i, _) => !s.inNative && i < |s.table|
    case LuaUnpin(i) => !s.inNative && i < |s.table|
    case FrameRelease => true
    case Enter => !s.inNative
    case NativeOp(op) => s.inNative && !op.OpReset? && Legal(s.native, op)
    case NativePin(i, _) => s.inNative && i < |s.table|
    case NativeUnpin(i) => s.inNative && i < |s.table|
    case Leave => s.inNative
    case Reload(setup) => !s.inNative && Good(Emptied(s.lua)) && LegalRun(Emptied(s.lua), setup)
  }

  /** The Lua arena after its reset: empty, and all three counters zero. */
  function Emptied(a: State): State { ResetSpec(a).(acct := Some(Acct(0, 0, 0))) }

  /** What has been allocated becomes the baseline of the cart's own heap. */
  function Rebased(a: State): State
    requires a.acct.Some?
  { a.(acct := Some(a.acct.value.(baseline := a.acct.value.used))) }

  ghost function Next(s: Hybrid, e: Event): Hybrid
    requires Sound(s) && Allowed(s, e)
  {
    match e
    case LuaOp(op) => s.(lua := Step(s.lua, op).0)
    case LuaPin(i, decodes) =>
      if !LuaReferenceFits(s, i) || !decodes then s
      else PublishToLua(s.(table := s.table[i := Pinned(s.table[i])]))
    case LuaUnpin(i) => PublishToLua(s.(table := s.table[i := Unpinned(s.table[i])]))
    case FrameRelease => PublishToNative(s.(table := ReleaseAll(s.table)))
    case Enter => PublishToNative(s.(peer := LuaHeap(s), inNative := true))
    case NativeOp(op) => s.(native := Step(s.native, op).0)
    case NativePin(i, decodes) =>
      if !NativeReferenceFits(s, i) || !decodes then s
      else PublishToNative(s.(table := s.table[i := Pinned(s.table[i])]))
    case NativeUnpin(i) => PublishToNative(s.(table := s.table[i := Unpinned(s.table[i])]))
    case Leave => PublishToLua(s.(inNative := false))
    case Reload(setup) =>
      RunKeepsAcct(Emptied(s.lua), setup);
      var t := s.(lua := Rebased(Run(Emptied(s.lua), setup)));
      PublishToLua(PublishToNative(t.(peer := LuaHeap(t))))
  }

  lemma {:induction false} RunKeepsAcct(a: State, ops: seq<Op>)
    requires Good(a) && LegalRun(a, ops) && a.acct.Some?
    ensures Good(Run(a, ops)) && Run(a, ops).acct.Some?
    decreases |ops|
  {
    if ops != [] {
      StepGood(a, ops[0]);
      if !ops[0].OpReset? { LuaBudget.HeapOpCounters(a, ops[0]); }
      RunKeepsAcct(Step(a, ops[0]).0, ops[1..]);
    }
  }

  lemma NextSound(s: Hybrid, e: Event)
    requires Sound(s) && Allowed(s, e)
    ensures Sound(Next(s, e))
  {
    match e
    case LuaOp(op) => LuaBudget.HeapOpCounters(s.lua, op);
    case NativeOp(op) => LuaBudget.HeapOpCounters(s.native, op);
    case Reload(setup) => RunKeepsAcct(Emptied(s.lua), setup);
    case _ =>
  }

  /** A pin from the Lua half that succeeds and reserves new bytes must fit beside the
      native heap as well; the gate does not look at it. */
  predicate PinOverlooksNothing(s: Hybrid, e: Event)
    requires s.lua.acct.Some? && s.native.acct.Some? && (e.LuaPin? ==> e.i < |s.table|)
  {
    e.LuaPin? && e.decodes && LuaReferenceFits(s, e.i) && !s.table[e.i].persistent ==>
      LuaHeap(s) + (Footprint(s.table) + NativeHeap(s)) + Incoming(s.table[e.i]) <= BUDGET
  }

  lemma PublishToLuaCouples(s: Hybrid)
    requires Sound(s) && WithinBudget(s) && !s.inNative
    ensures Sound(PublishToLua(s)) && WithinBudget(PublishToLua(s)) && Coupled(PublishToLua(s))
  {
    assert (Footprint32(s.table) + NativeHeap(s)) % WORD == Footprint(s.table) + NativeHeap(s);
  }

  lemma PublishToNativeCouples(s: Hybrid)
    requires Sound(s) && WithinBudget(s) && s.inNative && s.peer == LuaHeap(s)
    ensures Sound(PublishToNative(s)) && WithinBudget(PublishToNative(s)) && Coupled(PublishToNative(s))
  {
    assert (Footprint32(s.table) + s.peer) % WORD == Footprint(s.table) + s.peer;
  }

  lemma NativePinWithin(s: Hybrid, i: nat)
    requires Sound(s) && WithinBudget(s) && Coupled(s) && s.inNative && i < |s.table| && NativeReferenceFits(s, i)
    ensures WithinBudget(s.(table := s.table[i := Pinned(s.table[i])]))
  {
    assert (Footprint32(s.table) + s.peer) % WORD == Footprint(s.table) + s.peer;
    FootprintUpdate(s.table, i, Pinned(s.table[i]));
  }

  lemma TableEventWithin(s: Hybrid, e: Event)
    requires Sound(s) && Allowed(s, e) && WithinBudget(s) && Coupled(s)
    requires e.LuaUnpin? || e.NativePin? || e.NativeUnpin? || e.FrameRelease?
    ensures Sound(Next(s, e)) && WithinBudget(Next(s, e)) && Coupled(Next(s, e))
  {
    match e
    case LuaUnpin(i) =>
      FootprintUpdate(s.table, i, Unpinned(s.table[i]));
      PublishToLuaCouples(s.(table := s.table[i := Unpinned(s.table[i])]));
    case NativeUnpin(i) =>
      FootprintUpdate(s.table, i, Unpinned(s.table[i]));
      PublishToNativeCouples(s.(table := s.table[i := Unpinned(s.table[i])]));
    case NativePin(i, _) =>
      if Next(s, e) != s {
        NativePinWithin(s, i);
        PublishToNativeCouples(s.(table := s.table[i := Pinned(s.table[i])]));
      }
    case FrameRelease =>
      ReleaseShrinks(s.table);
      if s.inNative { PublishToNativeCouples(s.(table := ReleaseAll(s.table))); }
  }

  /** While a reload sets the runtime up again nothing is published: the Lua heap keeps within
      16 MB, but only on its own, whatever the table and the native heap hold. */
  lemma {:induction false} SetUpAlone(a: State, ops: seq<Op>)
    requires Good(a) && LegalRun(a, ops) && a.acct.Some? && CartHeap(a.acct.value) <= BUDGET
    ensures Run(a, ops).acct.Some? && CartHeap(Run(a, ops).acct.value) <= BUDGET
    decreases |ops|
  {
    if ops != [] {
      StepGood(a, ops[0]);
      if !ops[0].OpReset? { LuaBudget.HeapOpCounters(a, ops[0]); }
      SetUpAlone(Step(a, ops[0]).0, ops[1..]);
    }
  }

  /** Resetting the Lua arena, setting the runtime up again and rebaselining leaves the
      budget and the coupling intact, whatever the set-up allocates. */
  lemma ReloadWithin(s: Hybrid, setup: seq<Op>)
    requires Sound(s) && Allowed(s, Reload(setup)) && WithinBudget(s)
    ensures var t := Next(s, Reload(setup)); Sound(t) && WithinBudget(t) && Coupled(t) && LuaHeap(t) == 0
  {
    RunKeepsAcct(Emptied(s.lua), setup);
    var t := s.(lua := Rebased(Run(Emptied(s.lua), setup)));
    PublishToLuaCouples(PublishToNative(t.(peer := LuaHeap(t))));
  }

  /** A Lua-side pin keeps the shared budget exactly when the combined check, which the
      code does not make, would have held. */
  lemma LuaPinWithinIff(s: Hybrid, i: nat, decodes: bool)
    requires Sound(s) && Allowed(s, LuaPin(i, decodes)) && WithinBudget(s) && Coupled(s)
    ensures Sound(Next(s, LuaPin(i, decodes)))
    ensures WithinBudget(Next(s, LuaPin(i, decodes))) <==> PinOverlooksNothing(s, LuaPin(i, decodes))
  {
    FootprintUpdate(s.table, i, Pinned(s.table[i]));
  }

  lemma NextWithin(s: Hybrid, e: Event)
    requires Sound(s) && Allowed(s, e) && WithinBudget(s) && Coupled(s) && PinOverlooksNothing(s, e)
    ensures Sound(Next(s, e)) && WithinBudget(Next(s, e)) && Coupled(Next(s, e))
  {
    match e
    case LuaOp(op) => LuaBudget.HeapOpCounters(s.lua, op);
    case NativeOp(op) => LuaBudget.HeapOpCounters(s.native, op);
    case LuaPin(i, _) =>
      if Next(s, e) != s {
        FootprintUpdate(s.table, i, Pinned(s.table[i]));
        PublishToLuaCouples(s.(table := s.table[i := Pinned(s.table[i])]));
      }
    case Enter => PublishToNativeCouples(s.(peer := LuaHeap(s), inNative := true));
    case Leave => PublishToLuaCouples(s.(inNative := false));
    case Reload(setup) => ReloadWithin(s, setup);
    case _ => TableEventWithin(s, e);
  }

  ghost predicate Playable(s: Hybrid, es: seq<Event>)
    requires Sound(s)
    decreases |es|
  {
    es == [] || (Allowed(s, es[0]) && PinOverlooksNothing(s, es[0])
                 && (NextSound(s, es[0]); Playable(Next(s, es[0]), es[1..])))
  }

  ghost predicate AlwaysWithin(s: Hybrid, es: seq<Event>)
    requires Sound(s) && Playable(s, es)
    decreases |es|
  {
    WithinBudget(s) && (es == [] || (NextSound(s, es[0]); AlwaysWithin(Next(s, es[0]), es[1..])))
  }

  /** Every run of both halves, its Lua-side pins checked against the native heap, keeps
      Lua heap, native heap and reserved resources within 16 MB in every state. */
  lemma {:induction false} RunWithin(s: Hybrid, es: seq<Event>)
    requires Sound(s) && WithinBudget(s) && Coupled(s) && Playable(s, es)
    ensures AlwaysWithin(s, es)
    decreases |es|
  {
    if es != [] {
      NextWithin(s, es[0]);
      RunWithin(Next(s, es[0]), es[1..]);
    }
  }

  function Boot(): Hybrid {
    var a := State(BUDGET / 16, EMPTY, Some(Acct(0, 0, 0)));
    Hybrid(a, a, 0, [Entry(BUDGET, false, 0)], false)
  }

  /** The native half, once entered, can fill an empty heap. */
  lemma NativeFills(s: Hybrid)
    requires Sound(s) && s.inNative && s.native == State(BUDGET / 16, EMPTY, Some(Acct(0, 0, 0)))
    ensures var fill := NativeOp(OpMalloc(BUDGET - 16, false));
      && Allowed(s, fill) && Sound(Next(s, fill)) && NativeHeap(Next(s, fill)) == BUDGET
      && Next(s, fill).(native := s.native) == s
  {
    NeedCoversIffInRange(BUDGET - 16);
    assert NeedCells(BUDGET - 16) == BUDGET / 16;
    MallocFromBump(s.native, BUDGET - 16, false);
    NextSound(s, NativeOp(OpMalloc(BUDGET - 16, false)));
  }

  /** Without that check: the native half fills its heap, returns, and the Lua half pins
      a 16 MB resource; 32 MB are then in use. */
  lemma LuaPinOverruns()
    ensures var s0 := Boot();
      && Sound(s0) && WithinBudget(s0) && Coupled(s0) && Allowed(s0, Enter)
      && var s1 := Next(s0, Enter);
      && var fill := NativeOp(OpMalloc(BUDGET - 16, false));
      && Sound(s1) && Allowed(s1, fill)
      && var s2 := Next(s1, fill);
      && Sound(s2) && Allowed(s2, Leave)
      && var s3 := Next(s2, Leave);
      && Sound(s3) && WithinBudget(s3) && Allowed(s3, LuaPin(0, true))
      && Sound(Next(s3, LuaPin(0, true))) && !WithinBudget(Next(s3, LuaPin(0, true)))
  {
    var s0 := Boot();
    NextSound(s0, Enter);
    var s1 := Next(s0, Enter);
    NativeFills(s1);
    var s2 := Next(s1, NativeOp(OpMalloc(BUDGET - 16, false)));
    NextSound(s2, Leave);
    var s3 := Next(s2, Leave);
    assert s3.table[1..] == [] && Footprint(s3.table) == 0;
    FootprintUpdate(s3.table, 0, Pinned(s3.table[0]));
    NextSound(s3, LuaPin(0, true));
  }

  /** The host side of the coupling: two counter blocks, the peer figure, one table. */
  class Host {
    const luaArena: Arena.Arena
    const nativeArena: Arena.Arena
    const luaAcct: Arena.Accounting
    const nativeAcct: Arena.Accounting
    var peer: u32
    var table: seq<Entry>
    var inNative: bool

    constructor (l: Arena.Arena, n: Arena.Arena, la: Arena.Accounting, na: Arena.Accounting, table: seq<Entry>)
      ensures luaArena == l && nativeArena == n && luaAcct == la && nativeAcct == na
      ensures peer == 0 && this.table == table && !inNative
    {
      luaArena, nativeArena, luaAcct, nativeAcct := l, n, la, na;
      peer, this.table, inNative := 0, table, false;
    }

    ghost function View(): Hybrid
      reads this, luaArena, luaArena.acct, nativeArena, nativeArena.acct
    { Hybrid(luaArena.View(), nativeArena.View(), peer, table, inNative) }

    ghost predicate Valid()
      reads this, luaArena, luaArena.mem, luaArena.acct, nativeArena, nativeArena.mem, nativeArena.acct
    {
      && luaArena.acct == luaAcct && nativeArena.acct == nativeAcct && luaAcct != nativeAcct
      && luaArena != nativeArena && luaArena.mem != nativeArena.mem
      && luaArena.Valid() && nativeArena.Valid()
    }

    method PublishLua()
      requires Valid()
      modifies luaAcct
      ensures Valid() && View() == PublishToLua(old(View()))
    {
      luaAcct.nonEvictableFootprint := (Footprint32(table) + CartHeap(nativeAcct.Value())) % WORD;
    }

    method PublishNative()
      requires Valid()
      modifies nativeAcct
      ensures Valid() && View() == PublishToNative(old(View()))
    {
      nativeAcct.nonEvictableFootprint := (Footprint32(table) + peer) % WORD;
    }

    /** Push the Lua heap into the session before a native call. */
    method EnterNative()
      requires Valid() && !inNative
      modifies this, nativeAcct
      ensures Valid() && View() == Next(old(View()), Enter)
    {
      peer, inNative := CartHeap(luaAcct.Value()), true;
      PublishNative();
    }

    /** Fold the settled native heap back into the Lua half's predicate. */
    method LeaveNative()
      requires Valid() && inNative
      modifies this, luaAcct
      ensures Valid() && View() == Next(old(View()), Leave)
    {
      inNative := false;
      PublishLua();
    }

    method PinFromLua(i: nat, decodes: bool) returns (ok: bool)
      requires Valid() && !inNative && i < |table|
      modifies this, luaAcct
      ensures Valid() && View() == Next(old(View()), LuaPin(i, decodes))
      ensures ok == (LuaReferenceFits(old(View()), i) && decodes)
    {
      ok := AllocFits(CartHeap(luaAcct.Value()), Footprint32(table), Incoming(table[i])) && decodes;
      if ok {
        table := table[i := Pinned(table[i])];
        PublishLua();
      }
    }
  }
}
