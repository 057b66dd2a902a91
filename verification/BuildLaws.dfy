/** When the build engine skips and what it records, in plain terms, and that a second build
    has nothing to do. */
module BuildLaws {
  import opened BuildEngine

  // ---------------------------------------------------------------- when a task is skipped

  /** The input counts as unchanged: a value is on record; a file is there, on record, and has
      the recorded size and time or else the recorded hash. */
  predicate AsRecorded(env: Env, w: World, t: Task, i: Input) {
    t.key in w.states &&
    var r := w.states[t.key].inputs;
    match i
    case ValueIn(v) => "value:" + v in r
    case FileIn(p) =>
      && p in w.files && p in r
      && ((r[p].size == |w.files[p].content| && r[p].mtime == w.files[p].mtime) || r[p].hash == env.hash(w.files[p].content))
  }

  lemma OneUnchanged(env: Env, w: World, t: Task, i: Input)
    ensures !CheckOne(env, w.files, i, PrevState(w, t)).1 <==> AsRecorded(env, w, t, i)
  {}

  lemma {:induction false} AllUnchanged(env: Env, files: map<Path, File>, ins: seq<Input>, prev: Option<TaskState>)
    ensures !CheckAll(env, files, ins, prev).1 <==> forall i | i in ins :: !CheckOne(env, files, i, prev).1
  {
    if ins != [] {
      var n := |ins| - 1;
      AllUnchanged(env, files, ins[..n], prev);
      assert ins == ins[..n] + [ins[n]];
    }
  }

  /** A task is skipped if and only if all its outputs are there and every input on its list
      counts as unchanged. */
  lemma SkippedIff(env: Env, w: World, t: Task)
    ensures Skips(env, w, t) <==>
      (forall p | p in t.outputs :: p in w.files) && forall i | i in Inputs(env, w.files, t) :: AsRecorded(env, w, t, i)
  {
    var ins := Inputs(env, w.files, t);
    AllUnchanged(env, w.files, ins, PrevState(w, t));
    forall i | i in ins ensures !CheckOne(env, w.files, i, PrevState(w, t)).1 <==> AsRecorded(env, w, t, i) {
      OneUnchanged(env, w, t, i);
    }
  }

  /** The list: the fixed inputs, what the dependency file names if it is there, more fixed
      inputs, and the tool itself. */
  lemma ListIs(env: Env, files: map<Path, File>, t: Task, named: seq<Path>)
    requires named == if t.depfile.Some? && t.depfile.value in files then env.parse(files[t.depfile.value].content) else []
    ensures var (l, b, n) := (Inputs(env, files, t), |t.before|, |named|);
      && |l| == b + n + |t.after| + (if env.exe.Some? then 1 else 0)
      && l[..b] == t.before && (forall k | 0 <= k < n :: l[b + k] == FileIn(named[k]))
      && l[b + n..b + n + |t.after|] == t.after && (env.exe.Some? ==> l[|l| - 1] == FileIn(env.exe.value))
  {}

  // ---------------------------------------------------------------- what is recorded

  /** The entry a check makes for an input that is there: its size, time and hash now; only
      for a file whose size and time are the recorded ones the hash is the recorded one. */
  ghost predicate Entered(env: Env, files: map<Path, File>, i: Input, was: Option<FileState>, f: FileState) {
    match i
    case ValueIn(v) => f == FileState(0, 0, env.hash(v))
    case FileIn(p) =>
      p in files ==>
        && f.size == |files[p].content| && f.mtime == files[p].mtime
        && (f.hash == env.hash(files[p].content) || Some(f) == was)
  }

  lemma {:induction false} RecordIs(env: Env, files: map<Path, File>, ins: seq<Input>, prev: Option<TaskState>, i: Input)
    requires i in ins && NoClash(ins) && (i.FileIn? ==> i.path in files)
    ensures var m := CheckAll(env, files, ins, prev).0;
      Key(i) in m && Some(m[Key(i)]) == CheckOne(env, files, i, prev).0
      && Entered(env, files, i, Recorded(prev, Key(i)), m[Key(i)])
  {
    var n := |ins| - 1;
    var last := ins[n];
    assert last in ins && forall j | j in ins[..n] :: j in ins;
    if last != i {
      assert i in ins[..n];
      RecordIs(env, files, ins[..n], prev, i);
      if Key(last) == Key(i) { KeyInjective(last, i); }
    }
  }

  /** A run succeeds exactly if the tool does and makes every output.  Then each output holds
      what was made for it, the dependency file what was reported, and no other file changed;
      the record is made of the list as it is after the run, and no other record changed. */
  lemma RanExact(env: Env, w: World, t: Task)
    requires Distinct(Owned(t.outputs, t.depfile))
    ensures var (r, (w', ok)) := (env.exec(t, Contents(w.files)), Ran(env, w, t));
      && (ok <==> r.Some? && |r.value.outs| == |t.outputs|)
      && w'.clock == w.clock + 1
      && (!ok ==> w'.states == w.states)
      && (ok ==>
            && (forall j | 0 <= j < |t.outputs| :: t.outputs[j] in w'.files && w'.files[t.outputs[j]].content == r.value.outs[j])
            && (t.depfile.Some? ==> t.depfile.value in w'.files && w'.files[t.depfile.value].content == r.value.deps)
            && (forall p | p !in t.outputs && t.depfile != Some(p) ::
                  (p in w'.files <==> p in w.files) && (p in w.files ==> w'.files[p] == w.files[p]))
            && w'.states.Keys == w.states.Keys + {t.key} && w'.states[t.key].outputs == t.outputs
            && (forall k | k in w.states && k != t.key :: w'.states[k] == w.states[k]))
      && (forall p | p !in t.outputs && t.depfile != Some(p) :: p in w.files ==> p in w'.files && w'.files[p] == w.files[p])
  {
    var r := env.exec(t, Contents(w.files));
    var outs := Owned(t.outputs, t.depfile);
    if r.Some? && |r.value.outs| == |t.outputs| {
      Written(env, w.files, w.clock, outs, Texts(t.depfile, r.value));
      forall j | 0 <= j < |t.outputs| ensures outs[j] == t.outputs[j] && Texts(t.depfile, r.value)[j] == r.value.outs[j] {}
      assert t.depfile.Some? ==> outs[|t.outputs|] == t.depfile.value && Texts(t.depfile, r.value)[|t.outputs|] == r.value.deps;
    }
  }

  /** A build is its tasks one after the other, up to the first that fails. */
  lemma {:induction false} BuildSplits(env: Env, w: World, a: seq<Task>, b: seq<Task>, force: bool)
    ensures var (u, ok) := RunTasks(env, w, a, force);
      RunTasks(env, w, a + b, force) == if ok then RunTasks(env, u, b, force) else (u, false)
    ensures forall t :: RunTasks(env, w, [t], force) == RunTask(env, w, t, force)
    decreases a
  {
    forall t ensures RunTasks(env, w, [t], force) == RunTask(env, w, t, force) { assert [t][1..] == []; }
    if a == [] {
      assert a + b == b;
    } else {
      assert (a + b)[1..] == a[1..] + b;
      BuildSplits(env, RunTask(env, w, a[0], force).0, a[1..], b, force);
    }
  }

  // ---------------------------------------------------------------- the second build

  /** Checking the task again finds nothing changed and leaves its record as it is. */
  ghost predicate Settled(env: Env, w: World, t: Task) {
    && OutputsExist(w.files, t.outputs) && t.key in w.states && w.states[t.key].outputs == t.outputs
    && CheckAll(env, w.files, Inputs(env, w.files, t), Some(w.states[t.key])) == (w.states[t.key].inputs, false)
  }

  lemma SettledStays(env: Env, w: World, t: Task)
    requires Settled(env, w, t)
    ensures RunTask(env, w, t, false) == (w, true)
  {
    assert w.states[t.key := w.states[t.key]] == w.states;
  }

  ghost predicate AllThere(files: map<Path, File>, ins: seq<Input>) { forall i | i in ins && i.FileIn? :: i.path in files }

  /** A record just made passes the check that made it. */
  lemma {:induction false} Recheck(env: Env, files: map<Path, File>, ins: seq<Input>, prev: Option<TaskState>,
                                   all: seq<Input>, m: TaskState)
    requires NoClash(all) && AllThere(files, all) && ins <= all && m.inputs == CheckAll(env, files, all, prev).0
    ensures CheckAll(env, files, ins, Some(m)) == (CheckAll(env, files, ins, prev).0, false)
    decreases |ins|
  {
    if ins != [] {
      var n := |ins| - 1;
      assert ins[..n] <= all && ins[n] == all[n] && ins[n] in all;
      Recheck(env, files, ins[..n], prev, all, m);
      RecordIs(env, files, all, prev, ins[n]);
    }
  }

  /** A task that went through, with its whole list there, is settled. */
  lemma WentThrough(env: Env, w: World, t: Task, force: bool)
    requires RunTask(env, w, t, force).1 && Distinct(Owned(t.outputs, t.depfile))
    requires var files := RunTask(env, w, t, force).0.files; var l := Inputs(env, files, t); NoClash(l) && AllThere(files, l)
    ensures Settled(env, RunTask(env, w, t, force).0, t)
  {
    var w' := RunTask(env, w, t, force).0;
    var l := Inputs(env, w'.files, t);
    var prev := if !force && Skips(env, w, t) then PrevState(w, t) else None;
    if force || !Skips(env, w, t) { RanExact(env, w, t); }
    assert w'.states[t.key] == TaskState(CheckAll(env, w'.files, l, prev).0, t.outputs);
    Recheck(env, w'.files, l, prev, l, w'.states[t.key]);
  }

  lemma OneFrame(env: Env, f: map<Path, File>, g: map<Path, File>, i: Input, prev: Option<TaskState>)
    requires i.FileIn? ==> (i.path in f <==> i.path in g) && (i.path in f ==> f[i.path] == g[i.path])
    ensures CheckOne(env, f, i, prev) == CheckOne(env, g, i, prev)
  {}

  ghost predicate SameAt(f: map<Path, File>, g: map<Path, File>, p: Path) {
    (p in f <==> p in g) && (p in f ==> f[p] == g[p])
  }

  /** What a check depends on. */
  lemma {:induction false} CheckFrame(env: Env, f: map<Path, File>, g: map<Path, File>, ins: seq<Input>, prev: Option<TaskState>)
    requires forall i | i in ins && i.FileIn? :: SameAt(f, g, i.path)
    ensures CheckAll(env, f, ins, prev) == CheckAll(env, g, ins, prev)
  {
    if ins != [] {
      var n := |ins| - 1;
      assert ins[n] in ins && forall i | i in ins[..n] :: i in ins;
      CheckFrame(env, f, g, ins[..n], prev);
      if ins[n].FileIn? { assert SameAt(f, g, ins[n].path); }
      OneFrame(env, f, g, ins[n], prev);
    }
  }

  /** The later task neither writes what the earlier one owns or lists, nor has its key. */
  ghost predicate KeepsOff(env: Env, files: map<Path, File>, later: Task, earlier: Task) {
    && later.key != earlier.key
    && forall p | p in Owned(later.outputs, later.depfile) ::
         p !in Owned(earlier.outputs, earlier.depfile) && FileIn(p) !in Inputs(env, files, earlier)
  }

  /** Every task of the build has a proper list at the end, all of it there, and no later task
      meddles with an earlier one. */
  ghost predicate InOrder(env: Env, files: map<Path, File>, ts: seq<Task>)
    decreases ts
  {
    ts == [] || (
      && Distinct(Owned(ts[0].outputs, ts[0].depfile))
      && NoClash(Inputs(env, files, ts[0])) && AllThere(files, Inputs(env, files, ts[0]))
      && (forall u | u in ts[1..] :: KeepsOff(env, files, u, ts[0]))
      && InOrder(env, files, ts[1..]))
  }

  ghost predicate Untouched(w: World, w': World, p: Path) { SameAt(w.files, w'.files, p) }

  lemma {:induction false} BuildFrame(env: Env, w: World, ts: seq<Task>, force: bool, p: Path, k: string)
    requires RunTasks(env, w, ts, force).1
    requires forall u | u in ts :: Distinct(Owned(u.outputs, u.depfile))
    ensures var w' := RunTasks(env, w, ts, force).0;
      && ((forall u | u in ts :: p !in Owned(u.outputs, u.depfile)) ==> Untouched(w, w', p))
      && ((forall u | u in ts :: u.key != k) ==> (k in w'.states <==> k in w.states) && (k in w.states ==> w'.states[k] == w.states[k]))
    decreases ts
  {
    if ts != [] {
      var t := ts[0];
      assert t in ts && forall u | u in ts[1..] :: u in ts;
      if force || !Skips(env, w, t) {
        RanExact(env, w, t);
        assert p !in Owned(t.outputs, t.depfile) ==> p !in t.outputs && t.depfile != Some(p) by {
          if t.depfile == Some(p) { assert Owned(t.outputs, t.depfile)[|t.outputs|] == p; }
        }
      }
      BuildFrame(env, RunTask(env, w, t, force).0, ts[1..], force, p, k);
    }
  }

  /** The rest of the build does not disturb a task that is settled. */
  lemma RestLeaves(env: Env, w: World, t: Task, rest: seq<Task>, force: bool)
    requires RunTasks(env, w, rest, force).1
    requires forall u | u in rest :: Distinct(Owned(u.outputs, u.depfile))
    requires forall u | u in rest :: KeepsOff(env, RunTasks(env, w, rest, force).0.files, u, t)
    ensures var w' := RunTasks(env, w, rest, force).0;
      && Inputs(env, w'.files, t) == Inputs(env, w.files, t)
      && (AllThere(w'.files, Inputs(env, w'.files, t)) ==> AllThere(w.files, Inputs(env, w.files, t)))
      && (Settled(env, w, t) ==> Settled(env, w', t))
  {
    var w' := RunTasks(env, w, rest, force).0;
    forall p | p in Owned(t.outputs, t.depfile) || FileIn(p) in Inputs(env, w'.files, t) ensures Untouched(w, w', p) {
      BuildFrame(env, w, rest, force, p, t.key);
    }
    BuildFrame(env, w, rest, force, "", t.key);
    if t.depfile.Some? {
      assert Owned(t.outputs, t.depfile)[|t.outputs|] == t.depfile.value;
      assert Untouched(w, w', t.depfile.value);
    }
    forall p | p in t.outputs ensures Untouched(w, w', p) {
      var j :| 0 <= j < |t.outputs| && t.outputs[j] == p;
      assert Owned(t.outputs, t.depfile)[j] == p;
    }
    if Settled(env, w, t) { CheckFrame(env, w.files, w'.files, Inputs(env, w.files, t), Some(w.states[t.key])); }
  }

  lemma {:induction false} AllSettled(env: Env, w: World, ts: seq<Task>, force: bool)
    requires RunTasks(env, w, ts, force).1 && InOrder(env, RunTasks(env, w, ts, force).0.files, ts)
    ensures forall t | t in ts :: Settled(env, RunTasks(env, w, ts, force).0, t)
    decreases ts
  {
    if ts != [] {
      var u := RunTask(env, w, ts[0], force).0;
      OwnedDistinct(env, RunTasks(env, w, ts, force).0.files, ts);
      RestLeaves(env, u, ts[0], ts[1..], force);
      WentThrough(env, w, ts[0], force);
      AllSettled(env, u, ts[1..], force);
    }
  }

  lemma {:induction false} OwnedDistinct(env: Env, files: map<Path, File>, ts: seq<Task>)
    requires InOrder(env, files, ts)
    ensures forall t | t in ts :: Distinct(Owned(t.outputs, t.depfile))
    decreases ts
  {
    if ts != [] { OwnedDistinct(env, files, ts[1..]); }
  }

  lemma {:induction false} NothingRuns(env: Env, w: World, ts: seq<Task>)
    requires forall t | t in ts :: Settled(env, w, t)
    ensures RunTasks(env, w, ts, false) == (w, true)
    decreases ts
  {
    if ts != [] {
      SettledStays(env, w, ts[0]);
      NothingRuns(env, w, ts[1..]);
    }
  }

  /** After a build that succeeded, forced or not, a second build of the same tasks runs none
      of them and leaves the workspace exactly as it is. */
  lemma SecondBuildIdle(env: Env, w: World, ts: seq<Task>, force: bool)
    requires RunTasks(env, w, ts, force).1 && InOrder(env, RunTasks(env, w, ts, force).0.files, ts)
    ensures var w' := RunTasks(env, w, ts, force).0;
      (forall t | t in ts :: Skips(env, w', t)) && RunTasks(env, w', ts, false) == (w', true)
  {
    AllSettled(env, w, ts, force);
    NothingRuns(env, RunTasks(env, w, ts, force).0, ts);
  }
}
