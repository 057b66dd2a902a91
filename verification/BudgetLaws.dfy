/** Pins and footprints in plain numbers: what is reserved when, and what is published. */
module BudgetLaws {
  import opened MemBudget
  import opened ArenaSpec
  import opened Resources
  import LuaBudget
  import HybridBudget

  // ---------------------------------------------------------------- pins

  /** Pins (true) and unpins (false) of one entry, in order. */
  function Moved(e: Entry, moves: seq<bool>): Entry
    decreases |moves|
  {
    if moves == [] then e else
      var f := Moved(e, moves[..|moves| - 1]);
      if moves[|moves| - 1] then Pinned(f) else Unpinned(f)
  }

  /** Pins less unpins. */
  function Net(moves: seq<bool>): int
    decreases |moves|
  { if moves == [] then 0 else Net(moves[..|moves| - 1]) + if moves[|moves| - 1] then 1 else -1 }

  ghost predicate Balanced(e: Entry, moves: seq<bool>) {
    forall i | 0 <= i <= |moves| :: 0 <= e.pins + Net(moves[..i]) < 0x1_0000_0000
  }

  /** However pins and unpins are mixed, an entry that is not persistent keeps its bytes
      reserved exactly as long as more pins than unpins have been made. */
  lemma {:induction false} ReservedWhilePinned(e: Entry, moves: seq<bool>)
    requires Balanced(e, moves)
    ensures var f := Moved(e, moves);
      && f.pins == e.pins + Net(moves) && f.len == e.len && f.persistent == e.persistent
      && Reserved(f) == if e.persistent || e.pins + Net(moves) > 0 then e.len else 0
    decreases |moves|
  {
    assert moves[..|moves|] == moves;
    if moves != [] {
      var init := moves[..|moves| - 1];
      assert forall i | 0 <= i <= |init| :: init[..i] == moves[..i];
      ReservedWhilePinned(e, init);
    }
  }

  /** An unpin too many changes nothing. */
  lemma SpareUnpin(e: Entry)
    ensures Unpinned(e) == if e.pins > 0 then Entry(e.len, e.persistent, e.pins - 1) else e
  {}

  /** The bytes of the persistent entries. */
  function PersistentBytes(t: seq<Entry>): nat {
    if t == [] then 0 else (if t[0].persistent then t[0].len else 0) + PersistentBytes(t[1..])
  }

  /** A frame boundary drops every pin and nothing else: only the persistent entries stay
      reserved. */
  lemma {:induction false} OnlyPersistentStay(t: seq<Entry>)
    ensures forall i | 0 <= i < |t| :: ReleaseAll(t)[i] == Entry(t[i].len, t[i].persistent, 0)
    ensures Footprint(ReleaseAll(t)) == PersistentBytes(t)
  {
    if t != [] {
      OnlyPersistentStay(t[1..]);
      assert ReleaseAll(t)[1..] == ReleaseAll(t[1..]);
    }
  }

  // ---------------------------------------------------------------- a pure-Lua cart

  /** The cart's own bytes. */
  function Own(a: Acct): int { if a.used > a.baseline then a.used - a.baseline else 0 }

  /** What a pin asks for: all of an entry without pins. */
  function Asked(e: Entry): int { if e.pins == 0 then e.len else 0 }

  ghost predicate LuaExact(s: LuaBudget.Lua)
    requires s.arena.acct.Some?
  { LuaBudget.A(s).footprint == Footprint(s.table) }

  /** Only the counters' footprint may differ. */
  ghost predicate SameButFootprint(a: State, b: State) {
    && a.acct.Some? && b.acct.Some? && b.cap == a.cap && b.heap == a.heap
    && b.acct.value.used == a.acct.value.used && b.acct.value.baseline == a.acct.value.baseline
  }

  /** A pin takes place exactly if the entry decodes and its bytes fit beside the cart's own
      and what is reserved; then the one entry has one pin more and the exact footprint is
      published.  Otherwise nothing happens. */
  lemma LuaPinExact(s: LuaBudget.Lua, i: nat, decodes: bool)
    requires LuaBudget.Sound(s) && i < |s.table| && Footprint(s.table) <= 16777216
    ensures var t := LuaBudget.Next(s, LuaBudget.Pin(i, decodes));
      if !decodes || Own(LuaBudget.A(s)) + Footprint(s.table) + Asked(s.table[i]) > 16777216 then t == s
      else
        && t.table == s.table[i := Entry(s.table[i].len, s.table[i].persistent, (s.table[i].pins + 1) % 0x1_0000_0000)]
        && SameButFootprint(s.arena, t.arena)
        && (Footprint(t.table) <= 16777216 ==> LuaExact(t))
  {
    FootprintUpdate(s.table, i, Pinned(s.table[i]));
  }

  /** The published footprint is the reserved bytes, no more and no less, from any pin, unpin
      or publish until a frame boundary drops pins or the arena is reset. */
  lemma LuaStaysExact(s: LuaBudget.Lua, e: LuaBudget.Event)
    requires LuaBudget.Sound(s) && LuaBudget.Allowed(s, e) && LuaBudget.WithinBudget(s) && LuaBudget.Covered(s)
    ensures var t := LuaBudget.Next(s, e);
      && t.arena.acct.Some?
      && (e.Unpin? || e.Publish? || (e.Pin? && t != s) ==> LuaExact(t))
      && (LuaExact(s) && !e.FrameRelease? && !e.ArenaReset? ==> LuaExact(t))
  {
    LuaBudget.NextWithin(s, e);
    if e.HeapOp? { LuaBudget.HeapOpCounters(s.arena, e.op); }
  }

  /** An unpin touches its own entry only; a frame boundary touches no counter; rebaselining
      leaves the cart with no bytes of its own; a reset leaves an empty arena and zeroed
      counters.  None of them changes anything else. */
  lemma LuaOthersExact(s: LuaBudget.Lua, i: nat)
    requires LuaBudget.Sound(s) && i < |s.table|
    ensures var t := LuaBudget.Next(s, LuaBudget.Unpin(i));
      && SameButFootprint(s.arena, t.arena) && |t.table| == |s.table|
      && (forall j | 0 <= j < |s.table| && j != i :: t.table[j] == s.table[j])
      && t.table[i].pins == (if s.table[i].pins == 0 then 0 else s.table[i].pins - 1)
      && t.table[i].len == s.table[i].len && t.table[i].persistent == s.table[i].persistent
    ensures var t := LuaBudget.Next(s, LuaBudget.FrameRelease);
      && t.arena == s.arena && |t.table| == |s.table|
      && forall j | 0 <= j < |s.table| :: t.table[j] == Entry(s.table[j].len, s.table[j].persistent, 0)
    ensures var t := LuaBudget.Next(s, LuaBudget.Rebaseline);
      && t.table == s.table && t.arena.heap == s.arena.heap && t.arena.cap == s.arena.cap
      && t.arena.acct.Some? && Own(LuaBudget.A(t)) == 0
      && LuaBudget.A(t).used == LuaBudget.A(s).used && LuaBudget.A(t).footprint == LuaBudget.A(s).footprint
    ensures var t := LuaBudget.Next(s, LuaBudget.ArenaReset);
      && t.table == s.table && t.arena.cap == s.arena.cap
      && t.arena.heap.blocks == map[] && t.arena.heap.bump == 0 && t.arena.heap.fl == []
      && t.arena.acct == Some(Acct(0, 0, 0))
  {
    OnlyPersistentStay(s.table);
  }

  // ---------------------------------------------------------------- a hybrid cart

  /** The half that is running is shown exactly what the other half and the table hold. */
  ghost predicate HybridExact(s: HybridBudget.Hybrid)
    requires HybridBudget.Sound(s)
  {
    if s.inNative then
      s.peer == Own(s.lua.acct.value) && s.native.acct.value.footprint == Footprint(s.table) + Own(s.lua.acct.value)
    else
      s.lua.acct.value.footprint == Footprint(s.table) + Own(s.native.acct.value)
  }

  lemma ShownToLua(s: HybridBudget.Hybrid)
    requires HybridBudget.Sound(s) && HybridBudget.WithinBudget(s) && !s.inNative
    ensures HybridBudget.Sound(HybridBudget.PublishToLua(s)) && HybridExact(HybridBudget.PublishToLua(s))
  {
    assert (Footprint32(s.table) + HybridBudget.NativeHeap(s)) % WORD == Footprint(s.table) + HybridBudget.NativeHeap(s);
  }

  lemma ShownToNative(s: HybridBudget.Hybrid)
    requires HybridBudget.Sound(s) && HybridBudget.WithinBudget(s) && s.inNative && s.peer == HybridBudget.LuaHeap(s)
    ensures HybridBudget.Sound(HybridBudget.PublishToNative(s)) && HybridExact(HybridBudget.PublishToNative(s))
  {
    assert (Footprint32(s.table) + s.peer) % WORD == Footprint(s.table) + s.peer;
  }

  /** Entering, leaving, reloading, an unpin, a frame boundary inside a native call, and a pin
      that takes place. */
  ghost predicate Publishes(s: HybridBudget.Hybrid, e: HybridBudget.Event, t: HybridBudget.Hybrid) {
    match e
    case LuaOp(_) => false
    case NativeOp(_) => false
    case FrameRelease => s.inNative
    case LuaPin(_, _) => t != s
    case NativePin(_, _) => t != s
    case _ => true
  }

  /** Those make the figure exact, whatever it was, and nothing but a frame boundary on the Lua
      side lets it fall behind. */
  lemma HybridStaysExact(s: HybridBudget.Hybrid, e: HybridBudget.Event)
    requires HybridBudget.Sound(s) && HybridBudget.Allowed(s, e) && HybridBudget.WithinBudget(s) && HybridBudget.Coupled(s)
    requires HybridBudget.PinOverlooksNothing(s, e)
    ensures var t := HybridBudget.Next(s, e);
      && HybridBudget.Sound(t)
      && (Publishes(s, e, t) ==> HybridExact(t))
      && (HybridExact(s) && (e.FrameRelease? ==> s.inNative) ==> HybridExact(t))
  {
    HybridBudget.NextWithin(s, e);
    match e
    case LuaOp(op) => LuaBudget.HeapOpCounters(s.lua, op);
    case NativeOp(op) => LuaBudget.HeapOpCounters(s.native, op);
    case Reload(setup) => ReloadExact(s, setup);
    case Enter => ShownToNative(s.(peer := HybridBudget.LuaHeap(s), inNative := true));
    case Leave => ShownToLua(s.(inNative := false));
    case _ => TableExact(s, e);
  }

  lemma ReloadExact(s: HybridBudget.Hybrid, setup: seq<Op>)
    requires HybridBudget.Sound(s) && HybridBudget.Allowed(s, HybridBudget.Reload(setup)) && HybridBudget.WithinBudget(s)
    ensures var t := HybridBudget.Next(s, HybridBudget.Reload(setup)); HybridBudget.Sound(t) && HybridExact(t)
  {
    HybridBudget.RunKeepsAcct(HybridBudget.Emptied(s.lua), setup);
    var t := s.(lua := HybridBudget.Rebased(Run(HybridBudget.Emptied(s.lua), setup)));
    ShownToLua(HybridBudget.PublishToNative(t.(peer := HybridBudget.LuaHeap(t))));
  }

  lemma TableExact(s: HybridBudget.Hybrid, e: HybridBudget.Event)
    requires HybridBudget.Sound(s) && HybridBudget.Allowed(s, e) && HybridBudget.Coupled(s)
    requires e.LuaPin? || e.LuaUnpin? || e.NativePin? || e.NativeUnpin? || e.FrameRelease?
    requires HybridBudget.Sound(HybridBudget.Next(s, e)) && HybridBudget.WithinBudget(HybridBudget.Next(s, e))
    ensures var t := HybridBudget.Next(s, e); (e.FrameRelease? ==> s.inNative) && t != s ==> HybridExact(t)
    ensures e.LuaUnpin? || e.NativeUnpin? ==> HybridExact(HybridBudget.Next(s, e))
    ensures e.FrameRelease? && s.inNative ==> HybridExact(HybridBudget.Next(s, e))
  {
    var t := HybridBudget.Next(s, e);
    var u := s.(table := t.table);
    if t != s || e.LuaUnpin? || e.NativeUnpin? || e.FrameRelease? {
      if s.inNative { ShownToNative(u); } else { ShownToLua(u); }
    }
  }

  /** A pin takes place exactly if the entry decodes and fits beside `taken` bytes. */
  ghost predicate PinsIff(s: HybridBudget.Hybrid, t: HybridBudget.Hybrid, i: nat, decodes: bool, taken: int)
    requires i < |s.table|
  {
    if decodes && taken + Footprint(s.table) + Asked(s.table[i]) <= 16777216
    then t.table == s.table[i := Pinned(s.table[i])] else t == s
  }

  /** The two pin gates in plain numbers: the native one looks at both heaps, the Lua one only
      at its own. */
  lemma LuaSidePin(s: HybridBudget.Hybrid, i: nat, decodes: bool)
    requires HybridBudget.Sound(s) && i < |s.table| && HybridBudget.WithinBudget(s) && !s.inNative
    ensures PinsIff(s, HybridBudget.Next(s, HybridBudget.LuaPin(i, decodes)), i, decodes, Own(s.lua.acct.value))
  {}

  lemma NativeSidePin(s: HybridBudget.Hybrid, i: nat, decodes: bool)
    requires HybridBudget.Sound(s) && i < |s.table| && HybridBudget.WithinBudget(s) && HybridBudget.Coupled(s) && s.inNative
    ensures PinsIff(s, HybridBudget.Next(s, HybridBudget.NativePin(i, decodes)), i, decodes,
                    s.native.acct.value.used + Own(s.lua.acct.value))
  {
    assert (Footprint32(s.table) + s.peer) % WORD == Footprint(s.table) + s.peer;
  }

  /** The table after an event that is no pin. */
  ghost function TableAfter(t: seq<Entry>, e: HybridBudget.Event): seq<Entry> {
    match e
    case LuaUnpin(i) => if i < |t| then t[i := Unpinned(t[i])] else t
    case NativeUnpin(i) => if i < |t| then t[i := Unpinned(t[i])] else t
    case FrameRelease => ReleaseAll(t)
    case _ => t
  }

  /** Everything else an event does: it moves only its own half's heap, a reload makes the Lua
      half's anew with no bytes of the cart's own, and entering and leaving switch halves. */
  lemma HybridFrame(s: HybridBudget.Hybrid, e: HybridBudget.Event)
    requires HybridBudget.Sound(s) && HybridBudget.Allowed(s, e)
    ensures var t := HybridBudget.Next(s, e);
      && t.inNative == (e.Enter? || (s.inNative && !e.Leave?))
      && (!e.LuaPin? && !e.NativePin? ==> t.table == TableAfter(s.table, e))
      && (!e.LuaOp? && !e.Reload? ==> SameButFootprint(s.lua, t.lua))
      && (!e.NativeOp? ==> SameButFootprint(s.native, t.native))
    ensures e.LuaOp? ==> HybridBudget.Next(s, e).lua == Step(s.lua, e.op).0
    ensures e.NativeOp? ==> HybridBudget.Next(s, e).native == Step(s.native, e.op).0
    ensures e.Reload? ==>
      var (blank, t) := (State(s.lua.cap, EMPTY, Some(Acct(0, 0, 0))), HybridBudget.Next(s, e).lua);
      && Shaped(blank) && LegalRun(blank, e.setup) && t.heap == Run(blank, e.setup).heap
      && t.acct.Some? && Own(t.acct.value) == 0 && Run(blank, e.setup).acct.Some?
      && t.acct.value.used == Run(blank, e.setup).acct.value.used
  {
    if e.Reload? { HybridBudget.RunKeepsAcct(HybridBudget.Emptied(s.lua), e.setup); }
  }
}
