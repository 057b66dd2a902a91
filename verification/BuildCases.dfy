/** What the build engine's check does not see, case by case, and a history it serves well. */
module BuildCases {
  import opened BuildEngine

  /** A compiler whose object shows the last flag it was given, and a clock that ticks with
      every run. */
  function DemoEnv(): Env {
    Env(c => if c == "" then 0 else c[0] as int, (t: Task, d: Disk) => Some(Built([LastFlag(t.before)], "")),
        (t, d) => {}, (t, d) => map[], c => [], (n, p, c) => n, Some("b"))
  }

  function LastFlag(flags: seq<Input>): Content {
    if flags != [] && flags[|flags| - 1].ValueIn? then flags[|flags| - 1].val else "plain"
  }

  function DemoTask(flags: seq<Input>): Task { Task("cc", flags, None, [], ["o"], []) }

  ghost predicate DemoFlags(flags: seq<Input>) { forall i | i in flags :: i.ValueIn? }

  /** The compiler is there, and unless `made` is none its last run was with those flags. */
  ghost predicate DemoWorld(w: World, made: Option<seq<Input>>) {
    && "b" in w.files && w.files["b"] == File("", 0)
    && (made.None? ==> w.states == map[])
    && (made.Some? ==>
          && w.states.Keys == {"cc"} && "o" in w.files && w.files["o"].content == LastFlag(made.value)
          && "b" in w.states["cc"].inputs && w.states["cc"].inputs["b"] == FileState(0, 0, 0)
          && w.states["cc"].inputs.Keys == KeySet(made.value + [FileIn("b")]))
  }

  /** A record has the keys of the inputs that are there. */
  lemma {:induction false} RecordKeys(env: Env, files: map<Path, File>, ins: seq<Input>, prev: Option<TaskState>)
    requires forall i | i in ins :: i.FileIn? ==> i.path in files
    ensures CheckAll(env, files, ins, prev).0.Keys == KeySet(ins)
  {
    if ins != [] {
      var n := |ins| - 1;
      assert ins[n] in ins && forall i | i in ins[..n] :: i in ins;
      RecordKeys(env, files, ins[..n], prev);
      KeySetSnoc(ins);
    }
  }

  lemma {:induction false} SomeChanged(env: Env, files: map<Path, File>, ins: seq<Input>, prev: Option<TaskState>, i: Input)
    requires i in ins && CheckOne(env, files, i, prev).1
    ensures CheckAll(env, files, ins, prev).1
  {
    var n := |ins| - 1;
    if ins[n] != i { SomeChanged(env, files, ins[..n], prev, i); }
  }

  lemma {:induction false} NoneChanged(env: Env, files: map<Path, File>, ins: seq<Input>, prev: Option<TaskState>)
    requires forall i | i in ins :: !CheckOne(env, files, i, prev).1
    ensures !CheckAll(env, files, ins, prev).1
  {
    if ins != [] {
      var n := |ins| - 1;
      assert ins[n] in ins && forall i | i in ins[..n] :: i in ins;
      NoneChanged(env, files, ins[..n], prev);
    }
  }

  lemma DemoRun(w: World, flags: seq<Input>, made: Option<seq<Input>>)
    requires DemoWorld(w, made) && DemoFlags(flags)
    ensures var (w', ok) := Ran(DemoEnv(), w, DemoTask(flags));
      && ok && DemoWorld(w', Some(flags)) && w'.clock == w.clock + 1
      && w'.files == w.files["o" := File(LastFlag(flags), w.clock)]
  {
    var env, t := DemoEnv(), DemoTask(flags);
    var b := Built([LastFlag(flags)], "");
    assert Owned(t.outputs, t.depfile) == ["o"] && Texts(t.depfile, b) == [LastFlag(flags)];
    var files := Write(env, w, t, b);
    assert files == w.files["o" := File(LastFlag(flags), w.clock)];
    var ins := Inputs(env, files, t);
    assert ins == flags + [FileIn("b")] && ins[..|flags|] == flags;
    RecordKeys(env, files, ins, None);
  }

  /** Flags that are all on record, in whatever order and however often, mean a skip. */
  lemma DemoSkip(w: World, flags: seq<Input>, made: seq<Input>)
    requires DemoWorld(w, Some(made)) && DemoFlags(flags) && forall i | i in flags :: i in made
    ensures Skips(DemoEnv(), w, DemoTask(flags))
  {
    var env, t := DemoEnv(), DemoTask(flags);
    var ins, prev := Inputs(env, w.files, t), PrevState(w, t);
    assert ins == flags + [FileIn("b")];
    forall i | i in ins ensures !CheckOne(env, w.files, i, prev).1 {
      if i.ValueIn? { assert i in made + [FileIn("b")] && Key(i) in KeySet(made + [FileIn("b")]); }
    }
    NoneChanged(env, w.files, ins, prev);
  }

  /** A flag that is not on record means a run. */
  lemma DemoRuns(w: World, flags: seq<Input>, made: seq<Input>, i: Input)
    requires DemoWorld(w, Some(made)) && DemoFlags(flags) && DemoFlags(made) && i in flags && i !in made
    ensures !Skips(DemoEnv(), w, DemoTask(flags))
  {
    var env, t := DemoEnv(), DemoTask(flags);
    var ins, prev := Inputs(env, w.files, t), PrevState(w, t);
    assert ins == flags + [FileIn("b")];
    assert Key(i) !in KeySet(made + [FileIn("b")]) by {
      if Key(i) in KeySet(made + [FileIn("b")]) {
        var j :| j in made + [FileIn("b")] && Key(j) == Key(i);
        assert !IsValueKey("b");
        KeyInjective(i, j);
      }
    }
    SomeChanged(env, w.files, ins, prev, i);
  }

  function DemoStart(): World { World(map["b" := File("", 0)], map[], 0) }

  /** Build with `first`, then with `flags` that are all among them: the old object stays,
      and a forced build would have made the one for `flags`. */
  lemma FlagsUnnoticed(first: seq<Input>, flags: seq<Input>)
    requires DemoFlags(first) && DemoFlags(flags) && forall i | i in flags :: i in first
    ensures var w := RunTask(DemoEnv(), DemoStart(), DemoTask(first), false).0;
      var kept, rebuilt := RunTask(DemoEnv(), w, DemoTask(flags), false), RunTask(DemoEnv(), w, DemoTask(flags), true);
      && kept.1 && rebuilt.1 && "o" in kept.0.files && "o" in rebuilt.0.files
      && kept.0.files["o"].content == LastFlag(first) && rebuilt.0.files["o"].content == LastFlag(flags)
  {
    var env, w0 := DemoEnv(), DemoStart();
    assert "o" in ["o"] && !Skips(env, w0, DemoTask(first));
    DemoRun(w0, first, None);
    var w := Ran(env, w0, DemoTask(first)).0;
    DemoSkip(w, flags, first);
    DemoRun(w, flags, Some(first));
  }

  /** Dropping a flag is not noticed. */
  lemma DroppedFlagGoesUnnoticed()
    ensures var w := RunTask(DemoEnv(), DemoStart(), DemoTask([ValueIn("g")]), false).0;
      var kept, rebuilt := RunTask(DemoEnv(), w, DemoTask([]), false), RunTask(DemoEnv(), w, DemoTask([]), true);
      && "o" in kept.0.files && "o" in rebuilt.0.files
      && kept.0.files["o"].content == "g" && rebuilt.0.files["o"].content == "plain"
  {
    FlagsUnnoticed([ValueIn("g")], []);
  }

  const O0 := ValueIn("0")
  const O2 := ValueIn("2")

  /** Nor is swapping two. */
  lemma ReorderedFlagsGoUnnoticed()
    ensures var w := RunTask(DemoEnv(), DemoStart(), DemoTask([O0, O2]), false).0;
      var kept, rebuilt := RunTask(DemoEnv(), w, DemoTask([O2, O0]), false), RunTask(DemoEnv(), w, DemoTask([O2, O0]), true);
      && "o" in kept.0.files && "o" in rebuilt.0.files
      && kept.0.files["o"].content == "2" && rebuilt.0.files["o"].content == "0"
  {
    FlagsUnnoticed([O0, O2], [O2, O0]);
  }

  // ---------------------------------------------------------------- headers

  /** The first of the candidate paths that is there. */
  function FirstFound(ps: seq<Path>, d: Disk): (r: Option<Path>)
    ensures r.Some? ==> r.value in ps && r.value in d
    ensures r.None? ==> forall p | p in ps :: p !in d
  { if ps == [] then None else if ps[0] in d then Some(ps[0]) else FirstFound(ps[1..], d) }

  /** The candidates before it. */
  function PassedOver(ps: seq<Path>, d: Disk): (r: set<Path>)
    ensures r !! d.Keys
  { if ps == [] || ps[0] in d then {} else {ps[0]} + PassedOver(ps[1..], d) }

  /** A compiler that looks for a header along its unlisted include path, copies the first one
      it finds into the object and reports it. */
  function IncludeEnv(): Env {
    Env(c => |c|,
        (t: Task, d: Disk) =>
          var p := FirstFound(t.extra, d);
          if t.depfile.None? || p.None? then None else Some(Built([d[p.value]], p.value)),
        (t: Task, d: Disk) => PassedOver(t.extra, d), (t, d) => map[],
        c => [c], (n, p, c) => n, None)
  }

  function IncludeTask(extra: seq<Path>): Task { Task("cc", [FileIn("s")], Some("d"), [], ["o"], extra) }

  lemma {:induction false} SameFind(ps: seq<Path>, d: Disk, e: Disk)
    requires FirstFound(ps, d).Some? && FirstFound(ps, d).value in e && PassedOver(ps, d) !! e.Keys
    ensures FirstFound(ps, e) == FirstFound(ps, d)
  {
    if ps != [] && ps[0] !in d {
      assert ps[0] in PassedOver(ps, d);
      SameFind(ps[1..], d, e);
    }
  }

  /** It does report every file it reads. */
  lemma IncludeReports()
    ensures ReportsReads(IncludeEnv())
  {
    var env := IncludeEnv();
    forall t: Task, d: Disk, e: Disk |
      env.exec(t, d).Some? && SameOn(d, e, Reported(env, t, env.exec(t, d).value)) && env.misses(t, d) !! e.Keys
      ensures env.exec(t, e) == env.exec(t, d)
    {
      var p := FirstFound(t.extra, d).value;
      var ins := Reported(env, t, env.exec(t, d).value);
      assert ins[|t.before|] == FileIn(p) && FileIn(p) in ins;
      SameFind(t.extra, d, e);
    }
  }

  ghost predicate Apart(p: Path) { p != "s" && p != "o" && p != "d" }

  /** The record of a build that found header `p` as it is in `f`. */
  ghost predicate BuiltWith(w: World, p: Path, f: File) {
    && "cc" in w.states && "s" in w.states["cc"].inputs && w.states["cc"].inputs["s"] == FileState(0, 0, 0)
    && p in w.states["cc"].inputs && w.states["cc"].inputs[p] == Fingerprint(IncludeEnv(), f)
  }

  lemma IncludeWrites(w: World, extra: seq<Path>, p: Path)
    requires FirstFound(extra, Contents(w.files)) == Some(p)
    ensures var (w', ok) := Ran(IncludeEnv(), w, IncludeTask(extra));
      ok && w'.files == w.files["o" := File(w.files[p].content, w.clock)]["d" := File(p, w.clock)]
  {
    var t, b := IncludeTask(extra), Built([w.files[p].content], p);
    assert Owned(t.outputs, t.depfile) == ["o", "d"] && Texts(t.depfile, b) == [w.files[p].content, p];
    assert ["o", "d"][1..] == ["d"] && ["d"][1..] == [] && Texts(t.depfile, b)[1..] == [p];
  }

  lemma IncludeBuilt(w: World, extra: seq<Path>, p: Path)
    requires FirstFound(extra, Contents(w.files)) == Some(p) && Apart(p)
    requires "s" in w.files && w.files["s"] == File("", 0) && "o" !in w.files
    ensures var (w', ok) := RunTask(IncludeEnv(), w, IncludeTask(extra), false);
      && ok && BuiltWith(w', p, w.files[p])
      && w'.files == w.files["o" := File(w.files[p].content, w.clock)]["d" := File(p, w.clock)]
  {
    var env, t := IncludeEnv(), IncludeTask(extra);
    assert "o" in ["o"] && !Skips(env, w, t);
    IncludeWrites(w, extra, p);
    var files := Ran(env, w, t).0.files;
    var ins := [FileIn("s"), FileIn(p)];
    assert FileIns([p]) == [FileIn(p)] && Inputs(env, files, t) == ins;
    assert ins[..1] == [FileIn("s")] && [FileIn("s")][..0] == [];
    assert CheckAll(env, files, [FileIn("s")], None).0 == map["s" := FileState(0, 0, 0)];
  }

  /** While the source and the header it found are as they were, nothing counts as changed. */
  lemma IncludeSkips(w: World, extra: seq<Path>, p: Path, f: File)
    requires BuiltWith(w, p, f) && "s" in w.files && w.files["s"] == File("", 0) && "o" in w.files
    requires "d" in w.files ==> w.files["d"].content == p && p in w.files && w.files[p] == f
    ensures Skips(IncludeEnv(), w, IncludeTask(extra))
  {
    var env, t := IncludeEnv(), IncludeTask(extra);
    var ins, prev := Inputs(env, w.files, t), PrevState(w, t);
    assert FileIns([p]) == [FileIn(p)] && FileIns([]) == [];
    assert ins == if "d" in w.files then [FileIn("s"), FileIn(p)] else [FileIn("s")];
    forall i | i in ins ensures !CheckOne(env, w.files, i, prev).1 {}
    NoneChanged(env, w.files, ins, prev);
  }

  function Source(headers: map<Path, File>): World { World(headers["s" := File("", 0)], map[], 0) }

  /** In `w` an unforced build keeps the object "1" where a forced one makes "2". */
  ghost predicate KeepsStale(w: World, t: Task) {
    var kept, rebuilt := RunTask(IncludeEnv(), w, t, false), RunTask(IncludeEnv(), w, t, true);
    && kept.1 && rebuilt.1 && "o" in kept.0.files && "o" in rebuilt.0.files
    && kept.0.files["o"].content == "1" && rebuilt.0.files["o"].content == "2"
  }

  /** The dependency file is no output the check looks for: without it the list has lost the
      headers, and an edited one goes unnoticed. */
  lemma LostDepfileGoesUnnoticed()
    ensures var t := IncludeTask(["x"]);
      var w := RunTask(IncludeEnv(), Source(map["x" := File("1", 0)]), t, false).0;
      KeepsStale(w.(files := (w.files - {"d"})["x" := File("2", 5)]), t)
  {
    var t, w0 := IncludeTask(["x"]), Source(map["x" := File("1", 0)]);
    IncludeBuilt(w0, ["x"], "x");
    var w := RunTask(IncludeEnv(), w0, t, false).0;
    var u := w.(files := (w.files - {"d"})["x" := File("2", 5)]);
    IncludeSkips(u, ["x"], "x", File("1", 0));
    IncludeWrites(u, ["x"], "x");
  }

  /** A header that appears earlier on the include path goes unnoticed: the list, its order and
      all its contents are the recorded ones. */
  lemma NewHeaderGoesUnnoticed()
    ensures var t := IncludeTask(["x", "y"]);
      var w := RunTask(IncludeEnv(), Source(map["y" := File("1", 0)]), t, false).0;
      KeepsStale(w.(files := w.files["x" := File("2", 5)]), t)
  {
    var t, w0 := IncludeTask(["x", "y"]), Source(map["y" := File("1", 0)]);
    assert ["x", "y"][1..] == ["y"];
    IncludeBuilt(w0, ["x", "y"], "y");
    var w := RunTask(IncludeEnv(), w0, t, false).0;
    var u := w.(files := w.files["x" := File("2", 5)]);
    IncludeSkips(u, ["x", "y"], "y", File("1", 0));
    IncludeWrites(u, ["x", "y"], "x");
  }

  /** So does a change of the include path itself, which is on no list. */
  lemma UnlistedParameterGoesUnnoticed()
    ensures var w := RunTask(IncludeEnv(), Source(map["x" := File("1", 0), "y" := File("2", 0)]), IncludeTask(["x"]), false).0;
      KeepsStale(w, IncludeTask(["y"]))
  {
    var w0 := Source(map["x" := File("1", 0), "y" := File("2", 0)]);
    IncludeBuilt(w0, ["x"], "x");
    var w := RunTask(IncludeEnv(), w0, IncludeTask(["x"]), false).0;
    IncludeSkips(w, ["y"], "x", File("1", 0));
    IncludeWrites(w, ["y"], "y");
  }

  // ---------------------------------------------------------------- failures

  /** A copier that fails on the source "bad" and then leaves junk. */
  function JunkEnv(): Env {
    Env(c => if c == "" then 0 else c[0] as int,
        (t: Task, d: Disk) => if "s" in d && d["s"] != "bad" then Some(Built([d["s"]], "")) else None,
        (t, d) => {}, (t, d) => map["o" := "junk"], c => [], (n, p, c) => n, None)
  }

  const COPY := Task("cp", [FileIn("s")], None, [], ["o"], [])

  /** Only the source and the object, in a workspace whose record is of source "1". */
  ghost predicate JunkWorld(w: World, source: File, made: Content) {
    && w.files.Keys == {"s", "o"} && w.files["s"] == source && w.files["o"].content == made
    && "cp" in w.states && w.states["cp"].inputs.Keys == {"s"} && w.states["cp"].inputs["s"] == FileState(1, 0, 49)
  }

  lemma CopyInputs(files: map<Path, File>)
    ensures Inputs(JunkEnv(), files, COPY) == [FileIn("s")] && [FileIn("s")][..0] == []
  {}

  lemma CopyRuns(w: World)
    requires "s" in w.files && w.files["s"].content != "bad"
    ensures var (w', ok) := Ran(JunkEnv(), w, COPY);
      && ok && w'.files == w.files["o" := File(w.files["s"].content, w.clock)]
      && "cp" in w'.states && w'.states["cp"].inputs == map["s" := Fingerprint(JunkEnv(), w.files["s"])]
  {
    var b := Built([w.files["s"].content], "");
    assert Owned(COPY.outputs, COPY.depfile) == ["o"] && Texts(COPY.depfile, b) == [w.files["s"].content];
    var files := Write(JunkEnv(), w, COPY, b);
    CopyInputs(files);
    assert files["s"] == w.files["s"];
    assert CheckAll(JunkEnv(), files, [FileIn("s")], None).0 == map["s" := Fingerprint(JunkEnv(), w.files["s"])];
  }

  lemma CopyFails(w: World)
    requires JunkWorld(w, File("bad", 1), "1")
    ensures var (w', ok) := RunTask(JunkEnv(), w, COPY, false); !ok && JunkWorld(w', File("bad", 1), "junk")
  {
    CopyInputs(w.files);
    assert Owned(COPY.outputs, COPY.depfile) == ["o"];
    assert "s" in Contents(w.files) && Contents(w.files)["s"] == "bad";
  }

  lemma CopySkips(w: World, made: Content)
    requires JunkWorld(w, File("1", 2), made)
    ensures Skips(JunkEnv(), w, COPY)
  {
    CopyInputs(w.files);
    assert "1"[0] as int == 49;
  }

  function Edited(w: World, source: File): World { w.(files := w.files["s" := source]) }

  /** A failing run that leaves junk goes unnoticed once its cause is undone: the record from
      before it still matches. */
  lemma JunkGoesUnnoticed()
    ensures var w1 := RunTask(JunkEnv(), World(map["s" := File("1", 0)], map[], 0), COPY, false).0;
      var w2 := RunTask(JunkEnv(), Edited(w1, File("bad", 1)), COPY, false).0;
      var w3 := Edited(w2, File("1", 2));
      var kept, rebuilt := RunTask(JunkEnv(), w3, COPY, false), RunTask(JunkEnv(), w3, COPY, true);
      && kept.1 && rebuilt.1 && "o" in kept.0.files && "o" in rebuilt.0.files
      && kept.0.files["o"].content == "junk" && rebuilt.0.files["o"].content == "1"
  {
    var w0 := World(map["s" := File("1", 0)], map[], 0);
    assert "o" in ["o"] && !Skips(JunkEnv(), w0, COPY);
    CopyRuns(w0);
    assert "1"[0] as int == 49;
    var w1 := RunTask(JunkEnv(), w0, COPY, false).0;
    CopyFails(Edited(w1, File("bad", 1)));
    var w2 := RunTask(JunkEnv(), Edited(w1, File("bad", 1)), COPY, false).0;
    CopySkips(Edited(w2, File("1", 2)), "junk");
    CopyRuns(Edited(w2, File("1", 2)));
  }

  // ---------------------------------------------------------------- the premises can be met

  /** What happened: the object was "0" at time 0 and "2" at time 1. */
  function DemoHist(): Hist {
    Hist((p, n, m) => if p != "o" then "" else if m == 0 then "0" else "2", c => c == "" || c == "0" || c == "2",
         k => if k == "cc" then ["o"] else [], k => None)
  }

  /** The theorem applies where a flag changes between two unforced builds, write times come
      from a clock, and one path gets different contents of the same length. */
  lemma ChangedFlagWitness()
    ensures var env, h, w := DemoEnv(), DemoHist(), DemoStart();
      var es := [Build([DemoTask([O0])], false), Build([DemoTask([O2])], false)];
      var ts := [DemoTask([O2])];
      var u := Play(env, w, es);
      && Premises(env, h) && FilesConform(h, w.files) && w.states == map[] && HistoryOk(env, h, w, map[], es)
      && BuildOk(env, h, u, LogEvents(env, w, map[], es), ts, false) && RunTasks(env, u, ts, false).1
      && "o" in u.files && u.files["o"] == File("2", 1)
  {
    var env, h, w := DemoEnv(), DemoHist(), DemoStart();
    var e, f := Build([DemoTask([O0])], false), Build([DemoTask([O2])], false);
    DemoPremises();
    TwoEvents(env, h, w, map[], e, f);
    FirstBuild();
    var w1, log1 := Apply(env, w, e), LogEvent(env, w, map[], e);
    SecondBuild(w1, log1);
    DemoLast(Apply(env, w1, f), LogEvent(env, w1, log1, f), [O2]);
  }

  lemma FirstBuild()
    ensures var e := Build([DemoTask([O0])], false);
      var w', log' := Apply(DemoEnv(), DemoStart(), e), LogEvent(DemoEnv(), DemoStart(), map[], e);
      && EventOk(DemoEnv(), DemoHist(), DemoStart(), map[], e) && DemoWorld(w', Some([O0])) && w'.clock == 1
      && FilesConform(DemoHist(), w'.files) && FilesConform(DemoHist(), DemoStart().files)
  {
    assert "o" in ["o"] && !Skips(DemoEnv(), DemoStart(), DemoTask([O0]));
    DemoStep(DemoStart(), map[], [O0], None, false);
  }

  lemma SecondBuild(w: World, log: Log)
    requires DemoWorld(w, Some([O0])) && w.clock == 1 && FilesConform(DemoHist(), w.files)
    ensures var e := Build([DemoTask([O2])], false);
      var w', log' := Apply(DemoEnv(), w, e), LogEvent(DemoEnv(), w, log, e);
      && EventOk(DemoEnv(), DemoHist(), w, log, e) && DemoWorld(w', Some([O2])) && FilesConform(DemoHist(), w'.files)
      && w'.files["o"] == File("2", 1) && "cc" in log' && log'["cc"].task == DemoTask([O2])
  {
    DemoRuns(w, [O2], [O0], O2);
    DemoStep(w, log, [O2], Some([O0]), false);
  }

  lemma TwoEvents(env: Env, h: Hist, w: World, log: Log, e: Event, f: Event)
    ensures var w1, log1 := Apply(env, w, e), LogEvent(env, w, log, e);
      && Play(env, w, [e, f]) == Apply(env, w1, f) && LogEvents(env, w, log, [e, f]) == LogEvent(env, w1, log1, f)
      && (EventOk(env, h, w, log, e) && EventOk(env, h, w1, log1, f) ==> HistoryOk(env, h, w, log, [e, f]))
  {
    assert [e, f][1..] == [f];
    OneEvent(env, h, Apply(env, w, e), LogEvent(env, w, log, e), f);
  }

  lemma OneEvent(env: Env, h: Hist, w: World, log: Log, e: Event)
    ensures Play(env, w, [e]) == Apply(env, w, e) && LogEvents(env, w, log, [e]) == LogEvent(env, w, log, e)
    ensures EventOk(env, h, w, log, e) ==> HistoryOk(env, h, w, log, [e])
  {
    assert [e][1..] == [];
    assert LogEvents(env, Apply(env, w, e), LogEvent(env, w, log, e), []) == LogEvent(env, w, log, e);
    assert HistoryOk(env, h, Apply(env, w, e), LogEvent(env, w, log, e), []);
  }

  /** A build that runs its task. */
  lemma DemoStep(w: World, log: Log, flags: seq<Input>, made: Option<seq<Input>>, force: bool)
    requires DemoWorld(w, made) && DemoFlags(flags) && FilesConform(DemoHist(), w.files)
    requires LastFlag(flags) == if w.clock == 0 then "0" else "2"
    requires force || !Skips(DemoEnv(), w, DemoTask(flags))
    ensures var e := Build([DemoTask(flags)], force);
      var w', log' := Apply(DemoEnv(), w, e), LogEvent(DemoEnv(), w, log, e);
      && EventOk(DemoEnv(), DemoHist(), w, log, e) && DemoWorld(w', Some(flags)) && w'.clock == w.clock + 1
      && FilesConform(DemoHist(), w'.files) && w'.files["o"] == File(LastFlag(flags), w.clock)
      && "cc" in log' && log'["cc"].task == DemoTask(flags)
  {
    DemoRun(w, flags, made);
    DemoConforms(w.files, w.clock);
    assert RunTask(DemoEnv(), w, DemoTask(flags), force) == Ran(DemoEnv(), w, DemoTask(flags));
    DemoBuild(w, log, flags, made, force);
  }

  lemma DemoConforms(files: map<Path, File>, clock: nat)
    requires FilesConform(DemoHist(), files)
    ensures FilesConform(DemoHist(), files["o" := File(if clock == 0 then "0" else "2", clock)])
  {}

  /** A build that skips it. */
  lemma DemoLast(w: World, log: Log, flags: seq<Input>)
    requires DemoWorld(w, Some(flags)) && DemoFlags(flags) && FilesConform(DemoHist(), w.files)
    requires "cc" in log && log["cc"].task == DemoTask(flags)
    ensures BuildOk(DemoEnv(), DemoHist(), w, log, [DemoTask(flags)], false)
    ensures RunTasks(DemoEnv(), w, [DemoTask(flags)], false).1
  {
    DemoSkip(w, flags, flags);
    DemoOk(w, flags);
    DemoBuild(w, log, flags, Some(flags), false);
  }

  /** In a demo world a build of one task meets what the history asks of it. */
  lemma DemoBuild(w: World, log: Log, flags: seq<Input>, made: Option<seq<Input>>, force: bool)
    requires DemoWorld(w, made) && DemoFlags(flags) && FilesConform(DemoHist(), w.files)
    requires var w' := RunTask(DemoEnv(), w, DemoTask(flags), force).0;
      FilesConform(DemoHist(), w'.files)
    requires force || KeepsInputs(DemoEnv(), DemoHist(), w, log, DemoTask(flags))
    ensures BuildOk(DemoEnv(), DemoHist(), w, log, [DemoTask(flags)], force)
    ensures RunTask(DemoEnv(), w, DemoTask(flags), force).1 ==>
      && RunTasks(DemoEnv(), w, [DemoTask(flags)], force) == (RunTask(DemoEnv(), w, DemoTask(flags), force).0, true)
      && LogTasks(DemoEnv(), w, log, [DemoTask(flags)], force) == LogTask(DemoEnv(), w, log, DemoTask(flags), force)
  {
    var env, h, t := DemoEnv(), DemoHist(), DemoTask(flags);
    DemoOk(RunTask(env, w, t, force).0, flags);
    if force || !Skips(env, w, t) { DemoRun(w, flags, made); }
    OneTask(env, h, w, log, t, force);
  }

  /** A build of one task. */
  lemma OneTask(env: Env, h: Hist, w: World, log: Log, t: Task, force: bool)
    ensures TaskOk(h, t) && RunOk(env, h, w, t, force) && (force || KeepsInputs(env, h, w, log, t)) ==>
      BuildOk(env, h, w, log, [t], force)
    ensures RunTask(env, w, t, force).1 ==>
      && RunTasks(env, w, [t], force) == (RunTask(env, w, t, force).0, true)
      && LogTasks(env, w, log, [t], force) == LogTask(env, w, log, t, force)
  {
    var u, log1 := RunTask(env, w, t, force).0, LogTask(env, w, log, t, force);
    assert [t][1..] == [] && BuildOk(env, h, u, log1, [], force) && LogTasks(env, u, log1, [], force) == log1;
  }

  lemma DemoPremises()
    ensures Premises(DemoEnv(), DemoHist())
  {
    var h := DemoHist();
    forall k ensures Distinct(Owns(h, k)) { assert Owns(h, k) == if k == "cc" then ["o"] else []; }
  }

  lemma DemoOk(w: World, flags: seq<Input>)
    requires DemoFlags(flags)
    ensures TaskOk(DemoHist(), DemoTask(flags))
    ensures ListOk(DemoHist(), DemoTask(flags), Inputs(DemoEnv(), w.files, DemoTask(flags)))
  {
    var env, h, t := DemoEnv(), DemoHist(), DemoTask(flags);
    assert Inputs(env, w.files, t) == flags + [FileIn("b")] && Owns(h, "cc") == ["o"];
    assert !("value:" <= "b");
  }
}
