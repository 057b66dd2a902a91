/**
 The incremental build engine: which tasks a build skips, and why skipping them
 leaves the same files as running everything.
 */
module BuildEngine {
  datatype Option<+T> = None | Some(value: T)

  type Path = string
  type Content = string
  type Disk = map<Path, Content>

  datatype File = File(content: Content, mtime: nat)
  datatype Input = FileIn(path: Path) | ValueIn(val: string)
  datatype FileState = FileState(size: nat, mtime: nat, hash: int)
  datatype TaskState = TaskState(inputs: map<string, FileState>, outputs: seq<Path>)

  /** A task lists its inputs in order: some fixed ones, then whatever its dependency file
      names, then more fixed ones.  A run also uses `extra`, parameters that are on no list. */
  datatype Task = Task(
    key: string,
    before: seq<Input>,
    depfile: Option<Path>,
    after: seq<Input>,
    outputs: seq<Path>,
    extra: seq<string>)

  datatype World = World(files: map<Path, File>, states: map<string, TaskState>, clock: nat)

  /** What a run writes: its outputs and its dependency file. */
  datatype Built = Built(outs: seq<Content>, deps: Content)

  /** Everything the engine does not decide: the hash, what a task's run makes of the disk,
      which paths it looks for there in vain and what a failing one leaves of its outputs, the
      paths a dependency file names, when a write lands, and the running executable. */
  datatype Env = Env(
    hash: Content -> int,
    exec: (Task, Disk) -> Option<Built>,
    misses: (Task, Disk) -> set<Path>,
    wreck: (Task, Disk) -> Disk,
    parse: Content -> seq<Path>,
    stamp: (nat, Path, Content) -> nat,
    exe: Option<Path>)

  // ---------------------------------------------------------------- the checks

  function ValueKey(v: string): string { "value:" + v }

  predicate IsValueKey(k: string) { "value:" <= k }

  function Key(i: Input): string { if i.FileIn? then i.path else ValueKey(i.val) }

  function FileIns(ps: seq<Path>): (r: seq<Input>)
    ensures |r| == |ps|
  { seq(|ps|, i requires 0 <= i < |ps| => FileIn(ps[i])) }

  /** The input list when the dependency file names `deps`; the running executable is an
      implicit last entry. */
  function Listing(env: Env, t: Task, deps: seq<Path>): seq<Input> {
    t.before + FileIns(deps) + t.after + if env.exe.None? then [] else [FileIn(env.exe.value)]
  }

  /** The input list as of now.  A missing dependency file names nothing. */
  function Inputs(env: Env, files: map<Path, File>, t: Task): seq<Input> {
    Listing(env, t, if t.depfile.Some? && t.depfile.value in files then env.parse(files[t.depfile.value].content) else [])
  }

  function Fingerprint(env: Env, f: File): FileState { FileState(|f.content|, f.mtime, env.hash(f.content)) }

  /** One file input: its new fingerprint, and whether it counts as changed. */
  function CheckFile(env: Env, files: map<Path, File>, p: Path, prev: Option<FileState>): (Option<FileState>, bool) {
    if p !in files then (None, true)
    else if prev.None? then (Some(Fingerprint(env, files[p])), true)
    else if prev.value.size == |files[p].content| && prev.value.mtime == files[p].mtime then (prev, false)
    else (Some(Fingerprint(env, files[p])), prev.value.hash != env.hash(files[p].content))
  }

  function Recorded(prev: Option<TaskState>, k: string): Option<FileState> {
    if prev.Some? && k in prev.value.inputs then Some(prev.value.inputs[k]) else None
  }

  function CheckOne(env: Env, files: map<Path, File>, i: Input, prev: Option<TaskState>): (Option<FileState>, bool) {
    match i
    case FileIn(p) => CheckFile(env, files, p, Recorded(prev, p))
    case ValueIn(v) => (Some(FileState(0, 0, env.hash(v))), Recorded(prev, ValueKey(v)).None?)
  }

  function CheckAll(env: Env, files: map<Path, File>, ins: seq<Input>, prev: Option<TaskState>)
    : (map<string, FileState>, bool)
  {
    if ins == [] then (map[], false) else
      var n := |ins| - 1;
      var (m, b) := CheckAll(env, files, ins[..n], prev);
      var (fs, changed) := CheckOne(env, files, ins[n], prev);
      (if fs.Some? then m[Key(ins[n]) := fs.value] else m, b || changed)
  }

  method CheckInputs(env: Env, files: map<Path, File>, ins: seq<Input>, prev: Option<TaskState>)
    returns (found: map<string, FileState>, needsRun: bool)
    ensures (found, needsRun) == CheckAll(env, files, ins, prev)
  {
    found, needsRun := map[], false;
    for i := 0 to |ins|
      invariant (found, needsRun) == CheckAll(env, files, ins[..i], prev)
    {
      var (fs, changed) := CheckOne(env, files, ins[i], prev);
      if changed { needsRun := true; }
      if fs.Some? { found := found[Key(ins[i]) := fs.value]; }
      assert ins[..i + 1][..i] == ins[..i];
    }
    assert ins[..|ins|] == ins;
  }

  predicate OutputsExist(files: map<Path, File>, outs: seq<Path>) { forall p | p in outs :: p in files }

  // ---------------------------------------------------------------- running

  function Contents(files: map<Path, File>): Disk { map p | p in files :: files[p].content }

  /** The paths a task's run writes, and what it writes there. */
  function Owned(outputs: seq<Path>, depfile: Option<Path>): seq<Path> {
    outputs + if depfile.Some? then [depfile.value] else []
  }

  function Texts(depfile: Option<Path>, b: Built): seq<Content> { b.outs + if depfile.Some? then [b.deps] else [] }

  function WriteAll(env: Env, files: map<Path, File>, clock: nat, outs: seq<Path>, cs: seq<Content>): map<Path, File>
    requires |outs| == |cs|
    decreases outs
  {
    if outs == [] then files
    else WriteAll(env, files[outs[0] := File(cs[0], env.stamp(clock, outs[0], cs[0]))], clock, outs[1..], cs[1..])
  }

  function PrevState(w: World, t: Task): Option<TaskState> {
    if t.key in w.states then Some(w.states[t.key]) else None
  }

  predicate Skips(env: Env, w: World, t: Task) {
    OutputsExist(w.files, t.outputs) && !CheckAll(env, w.files, Inputs(env, w.files, t), PrevState(w, t)).1
  }

  /** The files after a run that built `b`. */
  function Write(env: Env, w: World, t: Task, b: Built): map<Path, File>
    requires |b.outs| == |t.outputs|
  { WriteAll(env, w.files, w.clock, Owned(t.outputs, t.depfile), Texts(t.depfile, b)) }

  /** The files after a run that failed: of what the task owns only the wreck is there. */
  function Failed(env: Env, w: World, t: Task): map<Path, File> {
    var own, left := Owned(t.outputs, t.depfile), env.wreck(t, Contents(w.files));
    map p | p in w.files.Keys + left.Keys && (if p in own then p in left else p in w.files) ::
      if p in w.files && (p in own ==> w.files[p].content == left[p]) then w.files[p]
      else File(left[p], env.stamp(w.clock, p, left[p]))
  }

  /** Run a task and record the inputs listed after the run; a failing run leaves the record
      alone. */
  function Ran(env: Env, w: World, t: Task): (World, bool) {
    var r := env.exec(t, Contents(w.files));
    if r.None? || |r.value.outs| != |t.outputs| then (World(Failed(env, w, t), w.states, w.clock + 1), false)
    else
      var files := Write(env, w, t, r.value);
      var found := CheckAll(env, files, Inputs(env, files, t), None).0;
      (World(files, w.states[t.key := TaskState(found, t.outputs)], w.clock + 1), true)
  }

  /** One task: skip and refresh its record, or run it. */
  function RunTask(env: Env, w: World, t: Task, force: bool): (World, bool) {
    if !force && Skips(env, w, t) then
      var found := CheckAll(env, w.files, Inputs(env, w.files, t), PrevState(w, t)).0;
      (w.(states := w.states[t.key := TaskState(found, t.outputs)]), true)
    else Ran(env, w, t)
  }

  /** Tasks in order, stopping at the first failure. */
  function RunTasks(env: Env, w: World, ts: seq<Task>, force: bool): (World, bool)
    decreases ts
  {
    if ts == [] then (w, true) else
      var (w1, ok) := RunTask(env, w, ts[0], force);
      if !ok then (w1, false) else RunTasks(env, w1, ts[1..], force)
  }

  class Workspace {
    var world: World

    constructor (w: World) ensures world == w { world := w; }

    method RunNow(env: Env, t: Task) returns (ok: bool)
      modifies this
      ensures (world, ok) == Ran(env, old(world), t)
    {
      var r := env.exec(t, Contents(world.files));
      if r.None? || |r.value.outs| != |t.outputs| {
        world := World(Failed(env, world, t), world.states, world.clock + 1);
        return false;
      }
      var files := Write(env, world, t, r.value);
      var found, _ := CheckInputs(env, files, Inputs(env, files, t), None);
      world := World(files, world.states[t.key := TaskState(found, t.outputs)], world.clock + 1);
      ok := true;
    }

    method BuildOne(env: Env, t: Task, force: bool) returns (ok: bool)
      modifies this
      ensures (world, ok) == RunTask(env, old(world), t, force)
    {
      if !force && OutputsExist(world.files, t.outputs) {
        var found, needsRun := CheckInputs(env, world.files, Inputs(env, world.files, t), PrevState(world, t));
        if !needsRun {
          world := world.(states := world.states[t.key := TaskState(found, t.outputs)]);
          return true;
        }
      }
      ok := RunNow(env, t);
    }

    method Build(env: Env, ts: seq<Task>, force: bool) returns (ok: bool)
      modifies this
      ensures (world, ok) == RunTasks(env, old(world), ts, force)
    {
      for k := 0 to |ts|
        invariant RunTasks(env, old(world), ts, force) == RunTasks(env, world, ts[k..], force)
      {
        assert ts[k..][0] == ts[k] && ts[k..][1..] == ts[k + 1..];
        ok := BuildOne(env, ts[k], force);
        if !ok { return; }
      }
      ok := true;
    }
  }

  // ---------------------------------------------------------------- premises

  /** What the caching relies on: `at` says which content a path had at a size and time,
      `seen` which contents ever occur, `outputs` and `depfile` what a task key owns. */
  datatype Hist = Hist(
    at: (Path, nat, nat) -> Content,
    seen: Content -> bool,
    outputs: string -> seq<Path>,
    depfile: string -> Option<Path>)

  ghost function Owns(h: Hist, k: string): seq<Path> { Owned(h.outputs(k), h.depfile(k)) }

  ghost predicate HashInjective(env: Env, h: Hist) {
    forall c, d :: h.seen(c) && h.seen(d) && env.hash(c) == env.hash(d) ==> c == d
  }

  ghost predicate Distinct(s: seq<Path>) { forall i, j :: 0 <= i < j < |s| ==> s[i] != s[j] }

  ghost predicate OutputsOwned(h: Hist) {
    && (forall k :: Distinct(Owns(h, k)))
    && (forall k, l, p :: p in Owns(h, k) && p in Owns(h, l) ==> k == l)
  }

  /** The list as it stands after a run that built `b`. */
  ghost function Reported(env: Env, t: Task, b: Built): seq<Input> {
    Listing(env, t, if t.depfile.Some? then env.parse(b.deps) else [])
  }

  /** Both disks have the same files of the list, with the same contents. */
  ghost predicate SameOn(d: Disk, e: Disk, ins: seq<Input>) {
    forall i | i in ins && i.FileIn? :: (i.path in d <==> i.path in e) && (i.path in d ==> d[i.path] == e[i.path])
  }

  /** A run reports every file it reads: it builds the same on any disk that agrees on the
      reported list and has none of the paths it looked for in vain. */
  ghost predicate ReportsReads(env: Env) {
    forall t: Task, d: Disk, e: Disk ::
      env.exec(t, d).Some? && SameOn(d, e, Reported(env, t, env.exec(t, d).value)) && env.misses(t, d) !! e.Keys ==>
        env.exec(t, e) == env.exec(t, d)
  }

  ghost function Elements(ins: seq<Input>): set<Input> { set i | i in ins }

  /** A run does not care in which order, or how often, its inputs are listed. */
  ghost predicate OrderBlind(env: Env) {
    forall s: Task, t: Task, d: Disk ::
      s.(before := t.before, after := t.after) == t && env.exec(s, d).Some?
      && Elements(Reported(env, t, env.exec(s, d).value)) == Elements(Reported(env, s, env.exec(s, d).value)) ==>
        env.exec(t, d) == env.exec(s, d)
  }

  ghost predicate Premises(env: Env, h: Hist) { HashInjective(env, h) && OutputsOwned(h) && ReportsReads(env) }

  /** Size and time identify the content of every file that is there. */
  ghost predicate FilesConform(h: Hist, files: map<Path, File>) {
    forall p :: p in files ==> h.seen(files[p].content) && h.at(p, |files[p].content|, files[p].mtime) == files[p].content
  }

  /** No file of the list could be mistaken for a configuration value, or is written by the task. */
  ghost predicate ListOk(h: Hist, t: Task, ins: seq<Input>) {
    ins != [] && forall i | i in ins :: i.FileIn? ==> !IsValueKey(i.path) && i.path !in Owns(h, t.key)
  }

  ghost predicate TaskOk(h: Hist, t: Task) { t.outputs == h.outputs(t.key) && t.depfile == h.depfile(t.key) }

  function KeySet(ins: seq<Input>): set<string> { set i | i in ins :: Key(i) }

  // ---------------------------------------------------------------- the invariant

  /** The run that made a record: which task, on which disk, and what it built. */
  datatype Made = Made(task: Task, disk: Disk, built: Built)

  /** The runs behind the records, by task key. */
  type Log = map<string, Made>

  /** What is asked of a task that is skipped: its dependency file is there, its list still has
      every entry it had after the run that made its record, nothing has appeared where that
      run looked in vain, and it is that very task, or differs from it only in the order of
      its list and runs do not care about order. */
  ghost predicate KeepsInputs(env: Env, h: Hist, w: World, log: Log, t: Task) {
    Skips(env, w, t) ==>
      && ListOk(h, t, Inputs(env, w.files, t))
      && (t.depfile.Some? ==> t.depfile.value in w.files)
      && (t.key in log ==>
            var g := log[t.key];
            && Elements(Reported(env, g.task, g.built)) <= Elements(Inputs(env, w.files, t))
            && env.misses(g.task, g.disk) !! w.files.Keys
            && (t == g.task || (t.(before := g.task.before, after := g.task.after) == g.task && OrderBlind(env))))
  }

  /** The present inputs and their contents, by key. */
  ghost function Snapshot(d: Disk, ins: seq<Input>): map<string, Content> {
    if ins == [] then map[] else
      var n := |ins| - 1;
      var m := Snapshot(d, ins[..n]);
      match ins[n]
      case FileIn(p) => if p in d then m[p := d[p]] else m
      case ValueIn(v) => m[ValueKey(v) := ""]
  }

  /** The contents a record stands for. */
  ghost function Recall(h: Hist, r: map<string, FileState>): map<string, Content> {
    map s | s in r :: if IsValueKey(s) then "" else h.at(s, r[s].size, r[s].mtime)
  }

  ghost predicate Honest(env: Env, h: Hist, r: map<string, FileState>) {
    forall s | s in r && !IsValueKey(s) ::
      h.seen(h.at(s, r[s].size, r[s].mtime)) && r[s].hash == env.hash(h.at(s, r[s].size, r[s].mtime))
  }

  /** A run of task key `k`, as the log has it. */
  ghost predicate MadeOk(env: Env, h: Hist, k: string, g: Made) {
    && g.task.key == k && g.task.outputs == h.outputs(k) && g.task.depfile == h.depfile(k)
    && env.exec(g.task, g.disk) == Some(g.built) && |g.built.outs| == |h.outputs(k)|
    && ListOk(h, g.task, Reported(env, g.task, g.built))
  }

  /** What the task owns is, where it is still there, what that run wrote. */
  ghost predicate OnDisk(h: Hist, files: map<Path, File>, k: string, g: Made)
    requires |g.built.outs| == |h.outputs(k)|
  {
    forall j | 0 <= j < |Owns(h, k)| ::
      Owns(h, k)[j] in files ==> files[Owns(h, k)[j]].content == Texts(h.depfile(k), g.built)[j]
  }

  /** The record stands for the inputs the run that made it reported, as they were then. */
  ghost predicate RecordOk(env: Env, h: Hist, w: World, log: Log, k: string)
    requires k in w.states
  {
    && k in log && MadeOk(env, h, k, log[k]) && OnDisk(h, w.files, k, log[k])
    && Honest(env, h, w.states[k].inputs)
    && Recall(h, w.states[k].inputs) == Snapshot(log[k].disk, Reported(env, log[k].task, log[k].built))
  }

  ghost predicate Inv(env: Env, h: Hist, w: World, log: Log) {
    FilesConform(h, w.files) && forall k | k in w.states :: RecordOk(env, h, w, log, k)
  }

  // ---------------------------------------------------------------- what the checks establish

  ghost predicate NoClash(ins: seq<Input>) { forall i | i in ins :: i.FileIn? ==> !IsValueKey(i.path) }

  /** What an input contributes to the snapshot once it counts as unchanged. */
  ghost function Seen(files: map<Path, File>, i: Input): Content {
    if i.FileIn? && i.path in files then files[i.path].content else ""
  }

  ghost function RecallOne(h: Hist, k: string, f: FileState): Content {
    if IsValueKey(k) then "" else h.at(k, f.size, f.mtime)
  }

  lemma UnchangedOne(env: Env, h: Hist, files: map<Path, File>, i: Input, prev: TaskState)
    requires HashInjective(env, h) && FilesConform(h, files) && Honest(env, h, prev.inputs)
    requires i.FileIn? ==> !IsValueKey(i.path)
    requires !CheckOne(env, files, i, Some(prev)).1
    ensures var fs := CheckOne(env, files, i, Some(prev)).0;
      && fs.Some? && Key(i) in prev.inputs && (i.FileIn? ==> i.path in files)
      && RecallOne(h, Key(i), fs.value) == Seen(files, i) == RecallOne(h, Key(i), prev.inputs[Key(i)])
      && (i.FileIn? ==> h.seen(Seen(files, i)) && fs.value.hash == env.hash(Seen(files, i)))
  {
    assert i.ValueIn? ==> IsValueKey(Key(i));
  }

  lemma RecordUpdate(env: Env, h: Hist, m: map<string, FileState>, k: string, f: FileState)
    requires Honest(env, h, m)
    requires IsValueKey(k) || (h.seen(RecallOne(h, k, f)) && f.hash == env.hash(RecallOne(h, k, f)))
    ensures Honest(env, h, m[k := f]) && Recall(h, m[k := f]) == Recall(h, m)[k := RecallOne(h, k, f)]
  {
  }

  /** A fresh record stands for exactly the inputs present. */
  lemma {:induction false} FreshRecord(env: Env, h: Hist, files: map<Path, File>, ins: seq<Input>)
    requires FilesConform(h, files) && NoClash(ins)
    ensures var m := CheckAll(env, files, ins, None).0;
      Honest(env, h, m) && Recall(h, m) == Snapshot(Contents(files), ins)
  {
    if ins != [] {
      var n := |ins| - 1;
      assert ins[n] in ins && forall i | i in ins[..n] :: i in ins;
      FreshRecord(env, h, files, ins[..n]);
      var fs := CheckOne(env, files, ins[n], None).0;
      if fs.Some? { RecordUpdate(env, h, CheckAll(env, files, ins[..n], None).0, Key(ins[n]), fs.value); }
    }
  }

  /** When nothing counts as changed, the refreshed record stands for the present
      inputs, and each of them is what the old record says. */
  lemma {:induction false} UnchangedRecord(env: Env, h: Hist, files: map<Path, File>, ins: seq<Input>, prev: TaskState)
    requires HashInjective(env, h) && FilesConform(h, files) && NoClash(ins) && Honest(env, h, prev.inputs)
    requires !CheckAll(env, files, ins, Some(prev)).1
    ensures var m := CheckAll(env, files, ins, Some(prev)).0; var snap := Snapshot(Contents(files), ins);
      && Honest(env, h, m) && Recall(h, m) == snap
      && snap.Keys == KeySet(ins) && snap.Keys <= prev.inputs.Keys
      && forall k | k in snap :: snap[k] == Recall(h, prev.inputs)[k]
  {
    if ins != [] {
      var n, i := |ins| - 1, ins[|ins| - 1];
      assert i in ins && forall x | x in ins[..n] :: x in ins;
      UnchangedRecord(env, h, files, ins[..n], prev);
      UnchangedOne(env, h, files, i, prev);
      RecordUpdate(env, h, CheckAll(env, files, ins[..n], Some(prev)).0, Key(i),
                   CheckOne(env, files, i, Some(prev)).0.value);
      assert Snapshot(Contents(files), ins) == Snapshot(Contents(files), ins[..n])[Key(i) := Seen(files, i)];
      KeySetSnoc(ins);
    }
  }

  lemma KeySetSnoc(ins: seq<Input>)
    requires ins != []
    ensures KeySet(ins) == KeySet(ins[..|ins| - 1]) + {Key(ins[|ins| - 1])}
  {
    assert ins == ins[..|ins| - 1] + [ins[|ins| - 1]];
  }

  lemma RecallKeys(h: Hist, r: map<string, FileState>)
    ensures Recall(h, r).Keys == r.Keys
  {}

  lemma SameMapIff(a: map<string, Content>, b: map<string, Content>)
    requires a.Keys <= b.Keys && forall k | k in a :: a[k] == b[k]
    ensures a == b <==> b.Keys <= a.Keys
  {}

  lemma KeyInjective(i: Input, j: Input)
    requires Key(i) == Key(j)
    requires (i.FileIn? ==> !IsValueKey(i.path)) && (j.FileIn? ==> !IsValueKey(j.path))
    ensures i == j
  {
    if i.ValueIn? { assert IsValueKey(Key(i)) && Key(i)[6..] == i.val; }
    if j.ValueIn? { assert IsValueKey(Key(j)) && Key(j)[6..] == j.val; }
  }

  /** A snapshot has exactly the listed keys that are there, with their contents. */
  lemma {:induction false} SnapshotAt(d: Disk, ins: seq<Input>, p: Path)
    requires NoClash(ins) && !IsValueKey(p)
    ensures p in Snapshot(d, ins) <==> FileIn(p) in ins && p in d
    ensures p in Snapshot(d, ins) ==> Snapshot(d, ins)[p] == d[p]
  {
    if ins != [] {
      var n := |ins| - 1;
      assert ins == ins[..n] + [ins[n]];
      SnapshotAt(d, ins[..n], p);
      if ins[n].ValueIn? { assert IsValueKey(ValueKey(ins[n].val)); }
    }
  }

  lemma {:induction false} SnapshotKeys(d: Disk, ins: seq<Input>, k: string)
    requires k in Snapshot(d, ins)
    ensures exists i :: i in ins && Key(i) == k
  {
    var n := |ins| - 1;
    if ins[n].ValueIn? || ins[n].path in d {
      if Key(ins[n]) != k { SnapshotKeys(d, ins[..n], k); }
    } else {
      SnapshotKeys(d, ins[..n], k);
    }
  }

  // ---------------------------------------------------------------- when a skip is justified

  /** An entry of the list as a run gets to see it. */
  datatype Entry = Entry(input: Input, text: Option<Content>)

  ghost function ToldOne(d: Disk, i: Input): Entry {
    Entry(i, if i.FileIn? && i.path in d then Some(d[i.path]) else None)
  }

  /** What a run is told: the list in order, with the contents of its files. */
  ghost function Told(d: Disk, ins: seq<Input>): (r: seq<Entry>)
    ensures |r| == |ins| && forall i | 0 <= i < |ins| :: r[i] == ToldOne(d, ins[i])
  { seq(|ins|, i requires 0 <= i < |ins| => ToldOne(d, ins[i])) }

  /** The same without order and repetition. */
  ghost function ToldSet(d: Disk, ins: seq<Input>): set<Entry> { set i | i in ins :: ToldOne(d, i) }

  /** All a run depends on: what it is told, its unlisted parameters, and which of the paths
      it looks for are there. */
  datatype Briefing = Briefing(entries: seq<Entry>, extra: seq<string>, found: set<Path>)

  ghost function Brief(t: Task, d: Disk, ins: seq<Input>, sought: set<Path>): Briefing {
    Briefing(Told(d, ins), t.extra, sought * d.Keys)
  }

  /** Nothing counts as changed, and the record stands for list `was` on disk `d`. */
  ghost predicate Passes(env: Env, h: Hist, files: map<Path, File>, ins: seq<Input>, prev: TaskState, d: Disk, was: seq<Input>) {
    && HashInjective(env, h) && FilesConform(h, files) && NoClash(ins) && NoClash(was) && Honest(env, h, prev.inputs)
    && !CheckAll(env, files, ins, Some(prev)).1 && Recall(h, prev.inputs) == Snapshot(d, was)
  }

  /** Every input that is still listed is as it was. */
  lemma PassedInput(env: Env, h: Hist, files: map<Path, File>, ins: seq<Input>, prev: TaskState, d: Disk, was: seq<Input>, i: Input)
    requires Passes(env, h, files, ins, prev, d, was) && i in ins
    ensures i in was
    ensures i.FileIn? ==> i.path in d && i.path in files && d[i.path] == files[i.path].content
  {
    UnchangedRecord(env, h, files, ins, prev);
    assert Key(i) in KeySet(ins);
    SnapshotKeys(d, was, Key(i));
    var j :| j in was && Key(j) == Key(i);
    KeyInjective(i, j);
    if i.FileIn? {
      SnapshotAt(d, was, i.path);
      SnapshotAt(Contents(files), ins, i.path);
    }
  }

  /** When nothing counts as changed: all a run of `t` would depend on now is as it was for the
      recorded run of `g` if and only if the list is the recorded one, entry by entry, the
      unlisted parameters are the same and nothing has appeared where that run looked in
      vain.  The list as a set is the same if and only if no entry has left it. */
  lemma SkipExact(env: Env, h: Hist, files: map<Path, File>, prev: TaskState, t: Task, ins: seq<Input>,
                  g: Task, d: Disk, was: seq<Input>, sought: set<Path>)
    requires Passes(env, h, files, ins, prev, d, was) && sought !! d.Keys
    ensures Brief(t, Contents(files), ins, sought) == Brief(g, d, was, sought) <==>
      ins == was && t.extra == g.extra && sought !! files.Keys
    ensures ToldSet(Contents(files), ins) == ToldSet(d, was) <==> Elements(was) <= Elements(ins)
    ensures Elements(was) <= Elements(ins) ==> SameOn(d, Contents(files), was)
  {
    assert Contents(files).Keys == files.Keys && sought * d.Keys == {};
    DisjointIff(sought, files.Keys);
    forall i | i in ins ensures i in was && ToldOne(Contents(files), i) == ToldOne(d, i) {
      PassedInput(env, h, files, ins, prev, d, was, i);
    }
    ToldIff(Contents(files), ins, d, was);
    if Elements(was) <= Elements(ins) {
      forall i | i in was ensures i in ins { assert i in Elements(was); }
      forall i | i in was && i.FileIn? ensures i.path in d && i.path in files && d[i.path] == files[i.path].content {
        PassedInput(env, h, files, ins, prev, d, was, i);
      }
    }
  }

  lemma DisjointIff(a: set<Path>, b: set<Path>)
    ensures a * b == {} <==> a !! b
  {
    assert forall x | x in a && x in b :: x in a * b;
  }

  lemma ToldIff(d: Disk, ins: seq<Input>, e: Disk, was: seq<Input>)
    requires forall i | i in ins :: i in was && ToldOne(d, i) == ToldOne(e, i)
    ensures Told(d, ins) == Told(e, was) <==> ins == was
    ensures ToldSet(d, ins) == ToldSet(e, was) <==> Elements(was) <= Elements(ins)
  {
    if Told(d, ins) == Told(e, was) {
      assert |ins| == |was| && forall i | 0 <= i < |ins| :: Told(d, ins)[i].input == Told(e, was)[i].input;
      assert ins == was;
    }
    if ToldSet(d, ins) == ToldSet(e, was) {
      forall i | i in was ensures i in ins { assert ToldOne(e, i) in ToldSet(d, ins); }
    }
    if Elements(was) <= Elements(ins) {
      forall i | i in was ensures i in ins { assert i in Elements(was); }
      assert forall x | x in ToldSet(e, was) :: x in ToldSet(d, ins);
    }
  }

  // ---------------------------------------------------------------- one task

  lemma {:induction false} Written(env: Env, files: map<Path, File>, clock: nat, outs: seq<Path>, cs: seq<Content>)
    requires |outs| == |cs| && Distinct(outs)
    ensures var w := WriteAll(env, files, clock, outs, cs);
      && (forall p | p !in outs :: (p in w <==> p in files) && (p in files ==> w[p] == files[p]))
      && (forall j | 0 <= j < |outs| :: outs[j] in w && w[outs[j]].content == cs[j])
    decreases outs
  {
    if outs != [] {
      var f := files[outs[0] := File(cs[0], env.stamp(clock, outs[0], cs[0]))];
      Written(env, f, clock, outs[1..], cs[1..]);
      forall j | 0 <= j < |outs|
        ensures var w := WriteAll(env, files, clock, outs, cs); outs[j] in w && w[outs[j]].content == cs[j]
      {
        if j > 0 { assert outs[1..][j - 1] == outs[j]; } else { assert outs[0] !in outs[1..]; }
      }
    }
  }

  /** A snapshot depends only on the files of its list. */
  lemma {:induction false} SameSnapshot(d: Disk, e: Disk, ins: seq<Input>)
    requires SameOn(d, e, ins)
    ensures Snapshot(d, ins) == Snapshot(e, ins)
  {
    if ins != [] {
      var n := |ins| - 1;
      assert ins[n] in ins && forall i | i in ins[..n] :: i in ins;
      SameSnapshot(d, e, ins[..n]);
    }
  }

  lemma NoRecordNoSkip(env: Env, w: World, t: Task)
    requires Inputs(env, w.files, t) != [] && Skips(env, w, t)
    ensures t.key in w.states
  {
    var ins := Inputs(env, w.files, t);
    assert CheckOne(env, w.files, ins[|ins| - 1], None).1;
  }

  /** With the dependency file the recorded run wrote still there, the list is the one a run
      of `t` would report. */
  lemma ListAsReported(env: Env, h: Hist, w: World, t: Task, g: Made)
    requires t.outputs == h.outputs(t.key) && t.depfile == h.depfile(t.key) && |g.built.outs| == |t.outputs|
    requires OnDisk(h, w.files, t.key, g) && (t.depfile.Some? ==> t.depfile.value in w.files)
    ensures Inputs(env, w.files, t) == Reported(env, t, g.built)
  {
    if t.depfile.Some? { assert Owns(h, t.key)[|t.outputs|] == t.depfile.value; }
  }

  /** A skip is justified: a run now would build what is on disk. */
  lemma SkipJustified(env: Env, h: Hist, w: World, log: Log, t: Task)
    requires Premises(env, h) && Inv(env, h, w, log) && TaskOk(h, t) && KeepsInputs(env, h, w, log, t)
    requires Skips(env, w, t)
    ensures t.key in w.states && t.key in log && env.exec(t, Contents(w.files)) == Some(log[t.key].built)
  {
    NoRecordNoSkip(env, w, t);
    assert RecordOk(env, h, w, log, t.key);
    Justified(env, h, w.files, w.states[t.key], t, Inputs(env, w.files, t), log[t.key]);
    if t != log[t.key].task {
      ListAsReported(env, h, w, t, log[t.key]);
      OtherOrder(env, log[t.key], t, Contents(w.files));
    }
  }

  /** With every entry still listed and nothing new where the recorded run looked in vain, that
      run would build the same again, and the list has the recorded entries and no others. */
  lemma Justified(env: Env, h: Hist, files: map<Path, File>, prev: TaskState, t: Task, ins: seq<Input>, g: Made)
    requires ReportsReads(env) && env.exec(g.task, g.disk) == Some(g.built)
    requires Passes(env, h, files, ins, prev, g.disk, Reported(env, g.task, g.built))
    requires Elements(Reported(env, g.task, g.built)) <= Elements(ins) && env.misses(g.task, g.disk) !! files.Keys
    ensures env.exec(g.task, Contents(files)) == Some(g.built)
    ensures Elements(ins) == Elements(Reported(env, g.task, g.built))
  {
    var was := Reported(env, g.task, g.built);
    SkipExact(env, h, files, prev, t, ins, g.task, g.disk, was, {});
    RunAgain(env, g, Contents(files));
    forall i | i in ins ensures i in was { PassedInput(env, h, files, ins, prev, g.disk, was, i); }
  }

  lemma RunAgain(env: Env, g: Made, d: Disk)
    requires ReportsReads(env) && env.exec(g.task, g.disk) == Some(g.built)
    requires SameOn(g.disk, d, Reported(env, g.task, g.built)) && env.misses(g.task, g.disk) !! d.Keys
    ensures env.exec(g.task, d) == Some(g.built)
  {}

  lemma OtherOrder(env: Env, g: Made, t: Task, d: Disk)
    requires OrderBlind(env) && t.(before := g.task.before, after := g.task.after) == g.task
    requires env.exec(g.task, d) == Some(g.built)
    requires Elements(Reported(env, t, g.built)) == Elements(Reported(env, g.task, g.built))
    ensures env.exec(t, d) == Some(g.built)
  {
    assert g.task.(before := t.before, after := t.after) == t;
  }

  /** The refreshed record stands for what the old one stood for. */
  lemma Refreshed(env: Env, h: Hist, files: map<Path, File>, prev: TaskState, ins: seq<Input>, d: Disk, was: seq<Input>)
    requires Passes(env, h, files, ins, prev, d, was) && Elements(was) <= Elements(ins)
    ensures var m := CheckAll(env, files, ins, Some(prev)).0; Honest(env, h, m) && Recall(h, m) == Snapshot(d, was)
  {
    UnchangedRecord(env, h, files, ins, prev);
    RecallKeys(h, prev.inputs);
    forall k | k in prev.inputs ensures k in KeySet(ins) {
      SnapshotKeys(d, was, k);
      var j :| j in was && Key(j) == k;
      assert j in Elements(was);
    }
    SameMapIff(Snapshot(Contents(files), ins), Recall(h, prev.inputs));
  }

  lemma SkipKeepsInv(env: Env, h: Hist, w: World, log: Log, t: Task)
    requires Premises(env, h) && Inv(env, h, w, log) && TaskOk(h, t) && KeepsInputs(env, h, w, log, t)
    requires Skips(env, w, t)
    ensures Inv(env, h, RunTask(env, w, t, false).0, log)
  {
    var ins := Inputs(env, w.files, t);
    NoRecordNoSkip(env, w, t);
    assert RecordOk(env, h, w, log, t.key);
    var g := log[t.key];
    var was := Reported(env, g.task, g.built);
    Refreshed(env, h, w.files, w.states[t.key], ins, g.disk, was);
    var w' := RunTask(env, w, t, false).0;
    forall k | k in w'.states ensures RecordOk(env, h, w', log, k) {
      assert k != t.key ==> RecordOk(env, h, w, log, k);
    }
  }

  /** The runs behind the records after one task. */
  ghost function LogTask(env: Env, w: World, log: Log, t: Task, force: bool): Log {
    if (!force && Skips(env, w, t)) || !RunTask(env, w, t, force).1 then log
    else log[t.key := Made(t, Contents(w.files), env.exec(t, Contents(w.files)).value)]
  }

  /** A failing run leaves each of its outputs alone or removes it. */
  ghost predicate CleanFailure(env: Env, w: World, t: Task) {
    var left := env.wreck(t, Contents(w.files));
    forall p | p in Owned(t.outputs, t.depfile) && p in left :: p in w.files && w.files[p].content == left[p]
  }

  /** What a run leaves conforms to the history; if it succeeds its list has no clash, and if it
      fails although there is a record it fails cleanly. */
  ghost predicate RunOk(env: Env, h: Hist, w: World, t: Task, force: bool) {
    var (w', ok) := RunTask(env, w, t, force);
    && FilesConform(h, w'.files)
    && if ok then ListOk(h, t, Inputs(env, w'.files, t)) else t.key in w.states ==> CleanFailure(env, w, t)
  }

  lemma RunKeepsInv(env: Env, h: Hist, w: World, log: Log, t: Task)
    requires Premises(env, h) && Inv(env, h, w, log) && TaskOk(h, t) && RunOk(env, h, w, t, true)
    ensures Inv(env, h, RunTask(env, w, t, true).0, LogTask(env, w, log, t, true))
  {
    var (w', ok) := RunTask(env, w, t, true);
    if ok {
      var b, log' := env.exec(t, Contents(w.files)).value, LogTask(env, w, log, t, true);
      assert Distinct(Owns(h, t.key));
      Written(env, w.files, w.clock, Owned(t.outputs, t.depfile), Texts(t.depfile, b));
      assert t.depfile.Some? ==> Owned(t.outputs, t.depfile)[|t.outputs|] == t.depfile.value;
      ListAsReported(env, h, w', t, log'[t.key]);
      var ins := Inputs(env, w'.files, t);
      assert SameOn(Contents(w'.files), Contents(w.files), ins);
      SameSnapshot(Contents(w'.files), Contents(w.files), ins);
      FreshRecord(env, h, w'.files, ins);
      forall k | k in w'.states ensures RecordOk(env, h, w', log', k) {
        if k != t.key { OthersKept(env, h, w, w', log, log', t, k); }
      }
    } else {
      forall k | k in w'.states ensures RecordOk(env, h, w', log, k) {
        assert RecordOk(env, h, w, log, k);
        if k != t.key { OthersKept(env, h, w, w', log, log, t, k); } else { CleanKept(env, h, w, t, log[k]); }
      }
    }
  }

  lemma CleanKept(env: Env, h: Hist, w: World, t: Task, g: Made)
    requires TaskOk(h, t) && CleanFailure(env, w, t) && |g.built.outs| == |h.outputs(t.key)| && OnDisk(h, w.files, t.key, g)
    ensures OnDisk(h, Failed(env, w, t), t.key, g)
  {
    forall j | 0 <= j < |Owns(h, t.key)| && Owns(h, t.key)[j] in Failed(env, w, t)
      ensures Failed(env, w, t)[Owns(h, t.key)[j]].content == Texts(h.depfile(t.key), g.built)[j]
    {
      assert Owns(h, t.key)[j] in Owned(t.outputs, t.depfile);
    }
  }

  /** With all its outputs there, a failing run leaves the record true if and only if it fails
      cleanly. */
  lemma FailureHarmlessIff(env: Env, h: Hist, w: World, log: Log, t: Task)
    requires TaskOk(h, t) && t.key in w.states && RecordOk(env, h, w, log, t.key)
    requires !Ran(env, w, t).1 && OutputsExist(w.files, Owned(t.outputs, t.depfile))
    ensures RecordOk(env, h, Ran(env, w, t).0, log, t.key) <==> CleanFailure(env, w, t)
  {
    var g, left := log[t.key], env.wreck(t, Contents(w.files));
    if CleanFailure(env, w, t) { CleanKept(env, h, w, t, g); }
    if OnDisk(h, Failed(env, w, t), t.key, g) {
      forall p | p in Owned(t.outputs, t.depfile) && p in left ensures w.files[p].content == left[p] {
        var j :| 0 <= j < |Owns(h, t.key)| && Owns(h, t.key)[j] == p;
        assert p in Failed(env, w, t);
      }
    }
  }

  /** Another task's record does not notice the write. */
  lemma OthersKept(env: Env, h: Hist, w: World, w': World, log: Log, log': Log, t: Task, k: string)
    requires OutputsOwned(h) && k != t.key && k in w.states && RecordOk(env, h, w, log, k)
    requires k in w'.states && w'.states[k] == w.states[k] && k in log' && log'[k] == log[k]
    requires forall p | p !in Owns(h, t.key) :: (p in w'.files <==> p in w.files) && (p in w.files ==> w'.files[p] == w.files[p])
    ensures RecordOk(env, h, w', log', k)
  {
    forall j | 0 <= j < |Owns(h, k)| ensures Owns(h, k)[j] !in Owns(h, t.key) { assert Owns(h, k)[j] in Owns(h, k); }
  }

  // ---------------------------------------------------------------- agreement

  /** From worlds with the same contents, an incremental task that succeeds and a forced
      one end with the same contents, and the forced one succeeds too. */
  lemma TaskAgrees(env: Env, h: Hist, w: World, log: Log, v: World, t: Task)
    requires Premises(env, h) && Inv(env, h, w, log) && TaskOk(h, t) && KeepsInputs(env, h, w, log, t)
    requires RunOk(env, h, w, t, false) && Contents(w.files) == Contents(v.files) && RunTask(env, w, t, false).1
    ensures Inv(env, h, RunTask(env, w, t, false).0, LogTask(env, w, log, t, false))
    ensures RunTask(env, v, t, true).1
    ensures Contents(RunTask(env, w, t, false).0.files) == Contents(RunTask(env, v, t, true).0.files)
  {
    if Skips(env, w, t) { SkippedAgrees(env, h, w, log, v, t); } else { RanAgrees(env, h, w, log, v, t); }
  }

  lemma SkippedAgrees(env: Env, h: Hist, w: World, log: Log, v: World, t: Task)
    requires Premises(env, h) && Inv(env, h, w, log) && TaskOk(h, t) && KeepsInputs(env, h, w, log, t)
    requires RunOk(env, h, w, t, false) && Contents(w.files) == Contents(v.files) && Skips(env, w, t)
    ensures Inv(env, h, RunTask(env, w, t, false).0, log)
    ensures Ran(env, v, t).1 && Contents(w.files) == Contents(Ran(env, v, t).0.files)
  {
    SkipJustified(env, h, w, log, t);
    SkipKeepsInv(env, h, w, log, t);
    assert RecordOk(env, h, w, log, t.key);
    WritesTheSame(env, h, w, v, t, log[t.key]);
  }

  /** Writing again what is there changes no content. */
  lemma WritesTheSame(env: Env, h: Hist, w: World, v: World, t: Task, g: Made)
    requires TaskOk(h, t) && OutputsOwned(h) && |g.built.outs| == |t.outputs| && OnDisk(h, w.files, t.key, g)
    requires OutputsExist(w.files, t.outputs) && (t.depfile.Some? ==> t.depfile.value in w.files)
    requires Contents(w.files) == Contents(v.files)
    ensures Contents(w.files) == Contents(Write(env, v, t, g.built))
  {
    var outs := Owned(t.outputs, t.depfile);
    assert Distinct(Owns(h, t.key));
    Written(env, v.files, v.clock, outs, Texts(t.depfile, g.built));
    OwnedThere(h, w, t, g.built, g);
    SameContents(w.files, w.files, v.files, Write(env, v, t, g.built), outs);
  }

  lemma RanAgrees(env: Env, h: Hist, w: World, log: Log, v: World, t: Task)
    requires Premises(env, h) && Inv(env, h, w, log) && TaskOk(h, t)
    requires RunOk(env, h, w, t, true) && Contents(w.files) == Contents(v.files) && Ran(env, w, t).1
    ensures Inv(env, h, Ran(env, w, t).0, LogTask(env, w, log, t, true))
    ensures Ran(env, v, t).1 && Contents(Ran(env, w, t).0.files) == Contents(Ran(env, v, t).0.files)
  {
    var outs, b := Owned(t.outputs, t.depfile), env.exec(t, Contents(w.files)).value;
    RunKeepsInv(env, h, w, log, t);
    assert Distinct(Owns(h, t.key));
    Written(env, w.files, w.clock, outs, Texts(t.depfile, b));
    Written(env, v.files, v.clock, outs, Texts(t.depfile, b));
    SameContents(w.files, Write(env, w, t, b), v.files, Write(env, v, t, b), outs);
  }

  lemma OwnedThere(h: Hist, w: World, t: Task, b: Built, g: Made)
    requires t.outputs == h.outputs(t.key) && t.depfile == h.depfile(t.key) && g.built == b && |b.outs| == |t.outputs|
    requires OutputsExist(w.files, t.outputs) && (t.depfile.Some? ==> t.depfile.value in w.files)
    requires OnDisk(h, w.files, t.key, g)
    ensures var outs := Owned(t.outputs, t.depfile);
      forall j | 0 <= j < |outs| :: outs[j] in w.files && w.files[outs[j]].content == Texts(t.depfile, b)[j]
  {
    var outs := Owned(t.outputs, t.depfile);
    forall j | 0 <= j < |outs| ensures outs[j] in w.files {
      if j < |t.outputs| { assert t.outputs[j] in t.outputs; }
    }
  }

  /** Two pairs of disks that differ before and after only where both now agree. */
  lemma SameContents(f: map<Path, File>, f': map<Path, File>, g: map<Path, File>, g': map<Path, File>, outs: seq<Path>)
    requires Contents(f) == Contents(g)
    requires forall p | p !in outs :: (p in f' <==> p in f) && (p in f ==> f'[p] == f[p])
    requires forall p | p !in outs :: (p in g' <==> p in g) && (p in g ==> g'[p] == g[p])
    requires forall j | 0 <= j < |outs| :: outs[j] in f' && outs[j] in g' && f'[outs[j]].content == g'[outs[j]].content
    ensures Contents(f') == Contents(g')
  {
    forall p ensures p in f' <==> p in g' {
      if p in outs { var j :| 0 <= j < |outs| && outs[j] == p; } else { assert p in Contents(f) <==> p in Contents(g); }
    }
    forall p | p in f' ensures f'[p].content == g'[p].content {
      if p in outs { var j :| 0 <= j < |outs| && outs[j] == p; } else { assert Contents(f)[p] == Contents(g)[p]; }
    }
  }

  // ---------------------------------------------------------------- builds and histories

  /** Every task the build gets to is well formed, what it leaves conforms to the history, and
      a task that is skipped has kept its inputs. */
  ghost predicate BuildOk(env: Env, h: Hist, w: World, log: Log, ts: seq<Task>, force: bool)
    decreases ts
  {
    ts == [] || (
      && TaskOk(h, ts[0]) && RunOk(env, h, w, ts[0], force)
      && (force || KeepsInputs(env, h, w, log, ts[0]))
      && (RunTask(env, w, ts[0], force).1 ==>
            BuildOk(env, h, RunTask(env, w, ts[0], force).0, LogTask(env, w, log, ts[0], force), ts[1..], force)))
  }

  ghost function LogTasks(env: Env, w: World, log: Log, ts: seq<Task>, force: bool): Log
    decreases ts
  {
    if ts == [] then log else
      var (w1, ok) := RunTask(env, w, ts[0], force);
      if !ok then log else LogTasks(env, w1, LogTask(env, w, log, ts[0], force), ts[1..], force)
  }

  lemma {:induction false} BuildKeepsInv(env: Env, h: Hist, w: World, log: Log, ts: seq<Task>, force: bool)
    requires Premises(env, h) && Inv(env, h, w, log) && BuildOk(env, h, w, log, ts, force)
    ensures Inv(env, h, RunTasks(env, w, ts, force).0, LogTasks(env, w, log, ts, force))
    decreases ts
  {
    if ts != [] {
      var t := ts[0];
      if !force && Skips(env, w, t) { SkipKeepsInv(env, h, w, log, t); } else { RunKeepsInv(env, h, w, log, t); }
      if RunTask(env, w, t, force).1 {
        BuildKeepsInv(env, h, RunTask(env, w, t, force).0, LogTask(env, w, log, t, force), ts[1..], force);
      }
    }
  }

  /** A successful incremental build leaves what a forced build leaves, chains of
      tasks that read each other's outputs included. */
  lemma {:induction false} BuildAgrees(env: Env, h: Hist, w: World, log: Log, v: World, ts: seq<Task>)
    requires Premises(env, h) && Inv(env, h, w, log) && BuildOk(env, h, w, log, ts, false)
    requires Contents(w.files) == Contents(v.files) && RunTasks(env, w, ts, false).1
    ensures RunTasks(env, v, ts, true).1
    ensures Contents(RunTasks(env, w, ts, false).0.files) == Contents(RunTasks(env, v, ts, true).0.files)
    decreases ts
  {
    if ts != [] {
      TaskAgrees(env, h, w, log, v, ts[0]);
      BuildAgrees(env, h, RunTask(env, w, ts[0], false).0, LogTask(env, w, log, ts[0], false),
                  RunTask(env, v, ts[0], true).0, ts[1..]);
    }
  }

  datatype Event = Edit(path: Path, file: Option<File>) | Build(tasks: seq<Task>, force: bool)

  function Apply(env: Env, w: World, e: Event): World {
    match e
    case Edit(p, f) => w.(files := if f.None? then w.files - {p} else w.files[p := f.value])
    case Build(ts, force) => RunTasks(env, w, ts, force).0
  }

  ghost function LogEvent(env: Env, w: World, log: Log, e: Event): Log {
    if e.Edit? then log else LogTasks(env, w, log, e.tasks, e.force)
  }

  /** Users edit or delete sources and may delete outputs, but do not write outputs. */
  ghost predicate EventOk(env: Env, h: Hist, w: World, log: Log, e: Event) {
    match e
    case Edit(p, f) =>
      f.Some? ==> h.seen(f.value.content) && h.at(p, |f.value.content|, f.value.mtime) == f.value.content
                  && forall k :: p !in Owns(h, k)
    case Build(ts, force) => BuildOk(env, h, w, log, ts, force)
  }

  ghost function Play(env: Env, w: World, es: seq<Event>): World
    decreases es
  { if es == [] then w else Play(env, Apply(env, w, es[0]), es[1..]) }

  ghost function LogEvents(env: Env, w: World, log: Log, es: seq<Event>): Log
    decreases es
  { if es == [] then log else LogEvents(env, Apply(env, w, es[0]), LogEvent(env, w, log, es[0]), es[1..]) }

  ghost predicate HistoryOk(env: Env, h: Hist, w: World, log: Log, es: seq<Event>)
    decreases es
  {
    es == [] || (EventOk(env, h, w, log, es[0])
                 && HistoryOk(env, h, Apply(env, w, es[0]), LogEvent(env, w, log, es[0]), es[1..]))
  }

  lemma EventKeepsInv(env: Env, h: Hist, w: World, log: Log, e: Event)
    requires Premises(env, h) && Inv(env, h, w, log) && EventOk(env, h, w, log, e)
    ensures Inv(env, h, Apply(env, w, e), LogEvent(env, w, log, e))
  {
    match e
    case Build(ts, force) => BuildKeepsInv(env, h, w, log, ts, force);
    case Edit(p, f) =>
      var w' := Apply(env, w, e);
      forall k | k in w'.states ensures RecordOk(env, h, w', log, k) {
        assert RecordOk(env, h, w, log, k);
        forall j | 0 <= j < |Owns(h, k)| && f.Some? ensures Owns(h, k)[j] != p { assert Owns(h, k)[j] in Owns(h, k); }
      }
  }

  /** For any interleaving of edits and builds, failed and forced ones included: a successful
      incremental build leaves every file equal to what running everything would have
      produced. */
  lemma {:induction false} IncrementalEqualsForced(env: Env, h: Hist, w: World, log: Log, es: seq<Event>, ts: seq<Task>)
    requires Premises(env, h) && Inv(env, h, w, log) && HistoryOk(env, h, w, log, es)
    requires var u := Play(env, w, es);
      BuildOk(env, h, u, LogEvents(env, w, log, es), ts, false) && RunTasks(env, u, ts, false).1
    ensures var u := Play(env, w, es);
      && RunTasks(env, u, ts, true).1
      && Contents(RunTasks(env, u, ts, false).0.files) == Contents(RunTasks(env, u, ts, true).0.files)
    decreases es
  {
    if es == [] {
      BuildAgrees(env, h, w, log, w, ts);
    } else {
      EventKeepsInv(env, h, w, log, es[0]);
      IncrementalEqualsForced(env, h, Apply(env, w, es[0]), LogEvent(env, w, log, es[0]), es[1..], ts);
    }
  }

  /** From a workspace without records. */
  lemma FromScratch(env: Env, h: Hist, w: World, es: seq<Event>, ts: seq<Task>)
    requires Premises(env, h) && FilesConform(h, w.files) && w.states == map[] && HistoryOk(env, h, w, map[], es)
    requires var u := Play(env, w, es);
      BuildOk(env, h, u, LogEvents(env, w, map[], es), ts, false) && RunTasks(env, u, ts, false).1
    ensures var u := Play(env, w, es);
      && RunTasks(env, u, ts, true).1
      && Contents(RunTasks(env, u, ts, false).0.files) == Contents(RunTasks(env, u, ts, true).0.files)
  {
    assert Inv(env, h, w, map[]);
    IncrementalEqualsForced(env, h, w, map[], es, ts);
  }
}
