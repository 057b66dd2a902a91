/**
 Bridged calls between Lua and native code: every nesting level runs on its own
 exchange thread, and the debugger's frame base composes across levels, also when a
 pause throws away the whole C stack in the middle.
 */
module Exchange {
  const POOL_DEPTH := 8

  /** The state of one nesting level.  `added` is what the level added to the frame base. */
  datatype Level = Level(ex: nat, prev: nat, frameBase: int, saved: int, added: nat)

  /** Who is running: Lua code, a level's native half, nobody (the debugger holds the
      program), or the continuation of level `k` on its way back in. */
  datatype Mode = InLua | InNative | Paused | Resuming(k: nat)

  datatype Machine = Machine(
    pool: seq<nat>, depth: nat, exch: nat, attached: nat, base: int, levels: seq<Level>, mode: Mode)

  datatype Event =
    | Call(callerDepth: nat, stackOk: bool, setupOk: bool, dap: bool)
    | Callback
    | CallbackDone(resumed: bool)
    | Pause
    | Continue
    | ResumeInner
    | Finish

  // ---------------------------------------------------------------- steps

  predicate Allowed(m: Machine, e: Event) {
    match e
    case Call(_, _, _, _) => m.mode.InLua?
    case Callback => m.mode.InNative?
    case CallbackDone(_) => m.mode.InLua? && m.depth > 0
    case Pause => m.mode.InLua? && m.depth > 0
    case Continue => m.mode.Paused?
    case ResumeInner => m.mode.Resuming?
    case Finish => m.mode.InNative? && m.depth > 0
  }

  /** Entering level `d`: its thread, the thread to return to, and the frame base. */
  function Opened(m: Machine, callerDepth: nat, dap: bool): Level
    requires m.depth < |m.pool|
  {
    var added := if dap then callerDepth else 0;
    Level(m.pool[m.depth], m.exch, m.base + added, m.base, added)
  }

  function Next(m: Machine, e: Event): Machine
    requires Wf(m) && Allowed(m, e)
  {
    match e
    case Call(callerDepth, stackOk, setupOk, dap) =>
      if m.depth >= POOL_DEPTH || !stackOk then m
      else
        var l := Opened(m, callerDepth, dap);
        if !setupOk then m.(levels := m.levels[m.depth := m.levels[m.depth].(ex := l.ex, prev := l.prev)]) else
        m.(depth := m.depth + 1, exch := l.ex, attached := l.ex, base := l.frameBase,
           levels := m.levels[m.depth := l], mode := InNative)
    case Callback => m.(mode := InLua)
    case CallbackDone(resumed) =>
      m.(mode := InNative, base := if resumed then m.levels[m.depth - 1].frameBase else m.base)
    case Pause => m.(mode := Paused)
    case Continue => m.(mode := Resuming(0), base := m.levels[0].frameBase)
    case ResumeInner =>
      if m.mode.k + 1 < m.depth then m.(mode := Resuming(m.mode.k + 1), base := m.levels[m.mode.k + 1].frameBase)
      else m.(mode := InLua)
    case Finish =>
      var l := m.levels[m.depth - 1];
      m.(depth := m.depth - 1, exch := l.prev, attached := l.prev, base := l.saved, mode := InLua)
  }

  // ---------------------------------------------------------------- the invariant

  ghost predicate Wf(m: Machine) {
    && |m.pool| == POOL_DEPTH && |m.levels| == POOL_DEPTH && m.depth <= POOL_DEPTH
    && (m.mode.InNative? || m.mode.Paused? || m.mode.Resuming? ==> m.depth > 0)
    && (m.mode.Resuming? ==> m.mode.k < m.depth)
  }

  ghost predicate DistinctThreads(pool: seq<nat>) { forall i, j :: 0 <= i < j < |pool| ==> pool[i] != pool[j] }

  /** The thread the bridge uses at nesting depth `d`. */
  function ThreadAt(pool: seq<nat>, d: nat): nat
    requires pool != [] && d <= |pool|
  { if d == 0 then pool[0] else pool[d - 1] }

  /** The sum of the caller depths of the `d` outermost active levels. */
  function SumAdded(levels: seq<Level>, d: nat): nat
    requires d <= |levels|
  { if d == 0 then 0 else SumAdded(levels, d - 1) + levels[d - 1].added }

  ghost predicate LevelOk(m: Machine, d: nat)
    requires |m.pool| == POOL_DEPTH && |m.levels| == POOL_DEPTH
  {
    d < m.depth <= POOL_DEPTH ==>
      && m.levels[d].ex == m.pool[d]
      && m.levels[d].prev == ThreadAt(m.pool, d)
      && m.levels[d].saved == SumAdded(m.levels, d)
      && m.levels[d].frameBase == SumAdded(m.levels, d + 1)
  }

  ghost predicate Disciplined(m: Machine) {
    && Wf(m)
    && DistinctThreads(m.pool)
    && (forall d: nat {:trigger LevelOk(m, d)} :: LevelOk(m, d))
    && m.exch == m.attached == ThreadAt(m.pool, m.depth)
    && m.base == SumAdded(m.levels, if m.mode.Resuming? then m.mode.k + 1 else m.depth)
  }

  /** All but the frame base is in order for native code to run at the innermost level. */
  ghost predicate DisciplinedButForBase(m: Machine) {
    m.depth <= |m.levels| && Disciplined(m.(base := SumAdded(m.levels, m.depth), mode := InNative))
  }

  lemma {:induction false} SumPrefix(a: seq<Level>, b: seq<Level>, d: nat)
    requires d <= |a| && d <= |b| && a[..d] == b[..d]
    ensures SumAdded(a, d) == SumAdded(b, d)
  {
    if d > 0 {
      assert a[..d][..d - 1] == a[..d - 1] && b[..d][..d - 1] == b[..d - 1];
      assert a[..d][d - 1] == b[..d][d - 1];
      SumPrefix(a, b, d - 1);
    }
  }

  lemma CallDisciplined(m: Machine, e: Event)
    requires Disciplined(m) && Allowed(m, e) && e.Call?
    ensures Disciplined(Next(m, e))
  {
    var n := Next(m, e);
    if n != m {
      forall d: nat ensures LevelOk(n, d) {
        assert LevelOk(m, d);
        if d < n.depth {
          assert m.levels[..d] == n.levels[..d];
          SumPrefix(m.levels, n.levels, d);
          if d < m.depth { assert m.levels[..d + 1] == n.levels[..d + 1]; SumPrefix(m.levels, n.levels, d + 1); }
        }
      }
      assert m.levels[..m.depth] == n.levels[..m.depth];
      SumPrefix(m.levels, n.levels, m.depth);
    }
  }

  lemma NextDisciplined(m: Machine, e: Event)
    requires Disciplined(m) && Allowed(m, e)
    ensures Disciplined(Next(m, e))
  {
    if e.Call? {
      CallDisciplined(m, e);
    } else {
      var n := Next(m, e);
      forall d: nat ensures LevelOk(n, d) { assert LevelOk(m, d); }
      match e
      case CallbackDone(_) => assert LevelOk(m, m.depth - 1);
      case Continue => assert LevelOk(m, 0);
      case ResumeInner => assert LevelOk(m, m.mode.k + 1);
      case Finish => assert LevelOk(m, m.depth - 1);
      case _ =>
    }
  }

  ghost predicate Playable(m: Machine, es: seq<Event>)
    requires Wf(m)
    decreases |es|
  { es == [] || (Allowed(m, es[0]) && Wf(Next(m, es[0])) && Playable(Next(m, es[0]), es[1..])) }

  ghost function Play(m: Machine, es: seq<Event>): Machine
    requires Wf(m) && Playable(m, es)
    decreases |es|
  { if es == [] then m else Play(Next(m, es[0]), es[1..]) }

  function Idle(pool: seq<nat>, levels: seq<Level>): Machine
    requires pool != []
  { Machine(pool, 0, pool[0], pool[0], 0, levels, InLua) }

  /** For every nesting of native and Lua calls with pauses anywhere: active levels use
      distinct threads, the innermost is the attached one, and the frame base is the sum of
      the active caller depths. */
  lemma {:induction false} RunDisciplined(m: Machine, es: seq<Event>)
    requires Disciplined(m) && Playable(m, es)
    ensures Disciplined(Play(m, es)) && Play(m, es).pool == m.pool
    decreases |es|
  {
    if es != [] {
      NextDisciplined(m, es[0]);
      RunDisciplined(Next(m, es[0]), es[1..]);
    }
  }

  /** When the outermost call is over, everything is back at its initial value. */
  lemma OutermostRestores(pool: seq<nat>, levels: seq<Level>, es: seq<Event>)
    requires |pool| == POOL_DEPTH && |levels| == POOL_DEPTH && DistinctThreads(pool)
    requires Playable(Idle(pool, levels), es) && Play(Idle(pool, levels), es).depth == 0
    ensures var m := Play(Idle(pool, levels), es); m == Idle(pool, m.levels)
  {
    var m := Idle(pool, levels);
    forall d: nat ensures LevelOk(m, d) {}
    RunDisciplined(m, es);
  }

  // ---------------------------------------------------------------- from the events alone

  /** The frames each call under way put below its callee: a call that starts adds its
      caller's depth, or nothing without a debugger; a call that ends takes its own away. */
  function Called(st: seq<nat>, e: Event): seq<nat> {
    match e
    case Call(callerDepth, stackOk, setupOk, dap) =>
      if |st| < 8 && stackOk && setupOk then st + [if dap then callerDepth else 0] else st
    case Finish => if st == [] then [] else st[..|st| - 1]
    case _ => st
  }

  function Calls(st: seq<nat>, es: seq<Event>): seq<nat>
    decreases |es|
  { if es == [] then st else Calls(Called(st, es[0]), es[1..]) }

  function Sum(st: seq<nat>): nat { if st == [] then 0 else Sum(st[..|st| - 1]) + st[|st| - 1] }

  /** The levels hold what the calls put there. */
  ghost predicate Matches(m: Machine, st: seq<nat>) {
    |st| == m.depth <= |m.levels| && forall d | 0 <= d < m.depth :: m.levels[d].added == st[d]
  }

  lemma {:induction false} SumMatches(m: Machine, st: seq<nat>, d: nat)
    requires Matches(m, st) && d <= m.depth
    ensures SumAdded(m.levels, d) == Sum(st[..d])
  {
    if d > 0 {
      SumMatches(m, st, d - 1);
      assert st[..d][..d - 1] == st[..d - 1] && st[..d][d - 1] == st[d - 1];
    }
  }

  lemma {:induction false} CallsMatch(m: Machine, st: seq<nat>, es: seq<Event>)
    requires Wf(m) && Matches(m, st) && Playable(m, es)
    ensures Matches(Play(m, es), Calls(st, es))
    decreases |es|
  {
    if es != [] { CallsMatch(Next(m, es[0]), Called(st, es[0]), es[1..]); }
  }

  /** After any run from the idle machine: the depth is the number of calls under way, the
      running thread is that of the innermost one, and the frame base is the sum of what the
      calls added, or on the way back in what the levels re-entered so far added. */
  lemma BaseFromEvents(pool: seq<nat>, levels: seq<Level>, es: seq<Event>)
    requires |pool| == POOL_DEPTH && |levels| == POOL_DEPTH && DistinctThreads(pool)
    requires Playable(Idle(pool, levels), es)
    ensures var (m, st) := (Play(Idle(pool, levels), es), Calls([], es));
      && m.depth == |st| <= 8
      && m.exch == m.attached == pool[if st == [] then 0 else |st| - 1]
      && (m.mode.Resuming? ==> m.mode.k < |st| && m.base == Sum(st[..m.mode.k + 1]))
      && (!m.mode.Resuming? ==> m.base == Sum(st))
  {
    var m := Idle(pool, levels);
    forall d: nat ensures LevelOk(m, d) {}
    RunDisciplined(m, es);
    CallsMatch(m, [], es);
    var (t, st) := (Play(m, es), Calls([], es));
    assert st[..t.depth] == st;
    SumMatches(t, st, if t.mode.Resuming? then t.mode.k + 1 else t.depth);
  }

  /** Calls to native code one inside the other, each level calling back into Lua. */
  function Descent(ds: seq<nat>): seq<Event>
    decreases |ds|
  { if ds == [] then [] else [Call(ds[0], true, true, true), Callback] + Descent(ds[1..]) }

  /** And all of them returning, the innermost first. */
  function Ascent(n: nat): seq<Event> { if n == 0 then [] else [CallbackDone(false), Finish] + Ascent(n - 1) }

  function WayBack(n: nat): seq<Event> { seq(n, _ => ResumeInner) }

  ghost predicate Leads(m: Machine, es: seq<Event>, t: Machine) { Wf(m) && Playable(m, es) && Play(m, es) == t }

  lemma LeadsTwo(m: Machine, a: Event, b: Event, rest: seq<Event>, t: Machine)
    requires Wf(m) && Allowed(m, a) && Wf(Next(m, a)) && Allowed(Next(m, a), b) && Leads(Next(Next(m, a), b), rest, t)
    ensures Leads(m, [a, b] + rest, t)
  {
    var es := [a, b] + rest;
    assert es[1..] == [b] + rest && es[1..][1..] == rest;
  }

  /** Native and Lua code may call each other down to the full depth of eight. */
  lemma {:induction false} Descends(m: Machine, ds: seq<nat>) returns (t: Machine)
    requires Disciplined(m) && m.mode.InLua? && m.depth + |ds| <= 8
    ensures Leads(m, Descent(ds), t) && Disciplined(t) && t.mode.InLua? && t.depth == m.depth + |ds|
    decreases |ds|
  {
    t := m;
    if ds != [] {
      var c := Call(ds[0], true, true, true);
      NextDisciplined(m, c);
      NextDisciplined(Next(m, c), Callback);
      t := Descends(Next(Next(m, c), Callback), ds[1..]);
      LeadsTwo(m, c, Callback, Descent(ds[1..]), t);
    }
  }

  /** And back out again. */
  lemma {:induction false} Ascends(m: Machine, n: nat) returns (t: Machine)
    requires Disciplined(m) && m.mode.InLua? && n <= m.depth
    ensures Leads(m, Ascent(n), t) && Disciplined(t) && t.mode.InLua? && t.depth == m.depth - n
    decreases n
  {
    t := m;
    if n > 0 {
      NextDisciplined(m, CallbackDone(false));
      NextDisciplined(Next(m, CallbackDone(false)), Finish);
      t := Ascends(Next(Next(m, CallbackDone(false)), Finish), n - 1);
      LeadsTwo(m, CallbackDone(false), Finish, Ascent(n - 1), t);
    }
  }

  lemma {:induction false} Resumes(m: Machine, n: nat)
    requires Disciplined(m) && m.mode.Resuming? && m.mode.k + n == m.depth
    ensures Leads(m, WayBack(n), m.(mode := InLua, base := SumAdded(m.levels, m.depth)))
    decreases n
  {
    var es := WayBack(n);
    assert es[0] == ResumeInner && es[1..] == WayBack(n - 1);
    NextDisciplined(m, ResumeInner);
    if n > 1 { Resumes(Next(m, ResumeInner), n - 1); }
  }

  /** A pause at any depth, then one re-entry per level, brings back the very state it was. */
  lemma PauseUndone(m: Machine)
    requires Disciplined(m) && m.mode.InLua? && m.depth > 0
    ensures Leads(m, [Pause, Continue] + WayBack(m.depth), m)
  {
    NextDisciplined(m, Pause);
    NextDisciplined(Next(m, Pause), Continue);
    Resumes(Next(Next(m, Pause), Continue), m.depth);
    LeadsTwo(m, Pause, Continue, WayBack(m.depth), m);
  }

  // ---------------------------------------------------------------- the splice walk

  datatype Option<+T> = None | Some(value: T)

  /** The debugger's parent of thread `t`: the next outer exchange thread, the driver
      coroutine at the outermost level, nothing for any other thread. */
  function ParentFrom(m: Machine, t: nat, co: nat, k: nat): Option<nat>
    requires m.depth <= |m.pool| && k <= m.depth
    decreases m.depth - k
  {
    if k == m.depth then None
    else if t == m.pool[k] then Some(if k == 0 then co else m.pool[k - 1])
    else ParentFrom(m, t, co, k + 1)
  }

  method ParentThread(m: Machine, t: nat, co: nat) returns (r: Option<nat>)
    requires m.depth <= |m.pool|
    ensures r == if t == co then None else ParentFrom(m, t, co, 0)
  {
    if t == co { return None; }
    var k := 0;
    while k < m.depth
      invariant k <= m.depth && ParentFrom(m, t, co, 0) == ParentFrom(m, t, co, k)
    {
      if t == m.pool[k] { return Some(if k == 0 then co else m.pool[k - 1]); }
      k := k + 1;
    }
    r := None;
  }

  lemma {:induction false} ParentOf(m: Machine, co: nat, d: nat, k: nat)
    requires Disciplined(m) && k <= d < m.depth
    ensures ParentFrom(m, m.pool[d], co, k) == Some(if d == 0 then co else m.pool[d - 1])
    decreases d - k
  {
    if k < d { ParentOf(m, co, d, k + 1); }
  }

  /** The walk from a thread to its parents, for at most `n` steps. */
  function Walk(m: Machine, t: nat, co: nat, n: nat): seq<nat>
    requires m.depth <= |m.pool|
    decreases n
  {
    var p := if t == co then None else ParentFrom(m, t, co, 0);
    if n == 0 || p.None? then [t] else [t] + Walk(m, p.value, co, n - 1)
  }

  /** From level `d`'s thread the walk visits every outer level once, innermost first, and
      ends at the driver coroutine. */
  lemma {:induction false} WalkVisitsAllLevels(m: Machine, co: nat, d: nat, n: nat)
    requires Disciplined(m) && d < m.depth && co !in m.pool && n > d
    ensures var w := Walk(m, m.pool[d], co, n);
      |w| == d + 2 && w[d + 1] == co && forall i | 0 <= i <= d :: w[i] == m.pool[d - i]
    decreases d
  {
    ParentOf(m, co, d, 0);
    assert m.pool[d] in m.pool;
    if d == 0 {
      assert Walk(m, co, co, n - 1) == [co];
    } else {
      WalkVisitsAllLevels(m, co, d - 1, n - 1);
    }
  }

  // ---------------------------------------------------------------- the bridge in place

  /** The frontend's globals. */
  class Bridge {
    var pool: seq<nat>
    var depth: nat
    var exch: nat
    var attached: nat
    var base: int
    var levels: seq<Level>
    var mode: Mode

    constructor (threads: seq<nat>, blank: seq<Level>)
      requires |threads| == POOL_DEPTH && |blank| == POOL_DEPTH && DistinctThreads(threads)
      ensures View() == Idle(threads, blank) && Disciplined(View())
    {
      pool, depth, exch, attached, base, levels, mode :=
        threads, 0, threads[0], threads[0], 0, blank, InLua;
      new;
      forall d: nat ensures LevelOk(View(), d) {}
    }

    function View(): Machine
      reads this
    { Machine(pool, depth, exch, attached, base, levels, mode) }

    /** The bridged trampoline up to the first entry into the drive loop. */
    method Trampoline(callerDepth: nat, stackOk: bool, setupOk: bool, dap: bool) returns (started: bool)
      requires Disciplined(View()) && mode.InLua?
      modifies this
      ensures Disciplined(View()) && View() == Next(old(View()), Call(callerDepth, stackOk, setupOk, dap))
      ensures started == (old(depth) < POOL_DEPTH && stackOk && setupOk)
      ensures base == old(base) + if started && dap then callerDepth else 0
    {
      NextDisciplined(View(), Call(callerDepth, stackOk, setupOk, dap));
      if depth >= POOL_DEPTH { return false; }
      var d := depth;
      var ex := pool[d];
      if !stackOk { return false; }
      levels := levels[d := levels[d].(ex := ex, prev := exch)];
      exch, attached, depth := ex, ex, depth + 1;
      if !setupOk {
        depth, exch, attached := depth - 1, levels[d].prev, levels[d].prev;
        assert View() == Next(old(View()), Call(callerDepth, stackOk, setupOk, dap));
        return false;
      }
      var added := if dap then callerDepth else 0;
      levels := levels[d := levels[d].(saved := base, frameBase := base + added, added := added)];
      assert View().(base := levels[d].frameBase, mode := InNative)
          == Next(old(View()), Call(callerDepth, stackOk, setupOk, dap));
      Drive();
      started := true;
      assert View() == Next(old(View()), Call(callerDepth, stackOk, setupOk, dap));
    }

    /** Entering the drive loop restores the discipline whatever ran, or unwound, since the
        base was last right: the frame base is again the sum of all active caller depths. */
    method Drive()
      requires depth > 0 && DisciplinedButForBase(View())
      modifies this`base, this`mode
      ensures Disciplined(View()) && View() == old(View()).(base := SumAdded(levels, depth), mode := InNative)
    {
      assert LevelOk(old(View()).(base := SumAdded(levels, depth), mode := InNative), depth - 1);
      base, mode := levels[depth - 1].frameBase, InNative;
    }

    method FinishCall()
      requires Disciplined(View()) && mode.InNative?
      modifies this
      ensures Disciplined(View()) && View() == Next(old(View()), Finish)
    {
      NextDisciplined(View(), Finish);
      var l := levels[depth - 1];
      base := l.saved;
      depth := depth - 1;
      exch, attached := l.prev, l.prev;
      mode := InLua;
    }

    /** The whole way back in after a pause: the continuation of each level, outermost
        first, until the parked callback runs again. */
    method ResumeAll()
      requires Disciplined(View()) && mode.Paused?
      modifies this`base, this`mode
      ensures Disciplined(View()) && mode == InLua && View() == old(View()).(mode := InLua)
    {
      ghost var m := View();
      NextDisciplined(View(), Continue);
      mode, base := Resuming(0), levels[0].frameBase;
      while mode.k + 1 < depth
        invariant mode.Resuming? && Disciplined(View()) && View() == m.(mode := mode, base := base)
        decreases depth - mode.k
      {
        NextDisciplined(View(), ResumeInner);
        mode, base := Resuming(mode.k + 1), levels[mode.k + 1].frameBase;
      }
      NextDisciplined(View(), ResumeInner);
      mode := InLua;
    }
  }
}
