/** Flattening a record's fields, embedded records included, into one list of primitives. */
module Flatten {
  datatype Option<+T> = None | Some(value: T)

  datatype Field = Field(name: string, typeName: Option<string>, refTarget: Option<string>)

  type Records = map<string, seq<Field>>

  datatype FlatField = FlatField(flatName: string, tag: nat, index: nat, refTarget: Option<string>)

  datatype Error = Cyclic(record: string) | Undeclared(record: string) | BadField(record: string, field: string)

  datatype Result = Ok(fields: seq<FlatField>) | Err(error: Error)

  const TYPE_U32 := 5

  function ParseTypeTag(n: string): Option<nat> {
    if n == "i8" then Some(0) else if n == "u8" then Some(1) else if n == "i16" then Some(2)
    else if n == "u16" then Some(3) else if n == "i32" then Some(4) else if n == "u32" then Some(5)
    else if n == "f32" then Some(6) else if n == "bool" then Some(7) else if n == "f64" then Some(8)
    else None
  }

  /** Exactly one of `type:` and `ref:` is declared. */
  predicate WellFormed(f: Field) { f.typeName.Some? != f.refTarget.Some? }

  /** The record a field embeds, if it embeds one. */
  function Embedded(f: Field): Option<string> {
    if WellFormed(f) && f.typeName.Some? && ParseTypeTag(f.typeName.value).None? then f.typeName else None
  }

  function LeafOf(f: Field): FlatField
    requires WellFormed(f) && Embedded(f).None?
  {
    if f.refTarget.Some? then FlatField(f.name, TYPE_U32, 0, f.refTarget)
    else FlatField(f.name, ParseTypeTag(f.typeName.value).value, 0, None)
  }

  function Prefixed(f: Field, sub: seq<FlatField>): (r: seq<FlatField>)
    ensures |r| == |sub|
  {
    seq(|sub|, i requires 0 <= i < |sub| => sub[i].(flatName := f.name + "_" + sub[i].flatName, index := 0))
  }

  function Numbered(fs: seq<FlatField>): (r: seq<FlatField>)
    ensures |r| == |fs| && forall i | 0 <= i < |fs| :: r[i] == fs[i].(index := i + 1)
  { seq(|fs|, i requires 0 <= i < |fs| => fs[i].(index := i + 1)) }

  // ---------------------------------------------------------------- the recursion

  /** Declared records not being visited: what every embedding step uses up. */
  ghost function Unvisited(recs: Records, visiting: seq<string>): set<string> { set r | r in recs.Keys && r !in visiting }

  ghost function Left(recs: Records, visiting: seq<string>): nat { |Unvisited(recs, visiting)| }

  lemma LeftShrinks(recs: Records, visiting: seq<string>, name: string)
    requires name in recs && name !in visiting
    ensures Left(recs, visiting + [name]) < Left(recs, visiting)
  {
    assert Unvisited(recs, visiting + [name]) == Unvisited(recs, visiting) - {name};
    assert name in Unvisited(recs, visiting);
  }

  ghost function Flat(recs: Records, name: string, visiting: seq<string>): Result
    decreases Left(recs, visiting), 0, 0
  {
    if name in visiting then Err(Cyclic(name))
    else if name !in recs then Err(Undeclared(name))
    else
      LeftShrinks(recs, visiting, name);
      var r := FieldsFrom(recs, name, visiting + [name], 0);
      if r.Err? then r else Ok(Numbered(r.fields))
  }

  ghost function FieldsFrom(recs: Records, name: string, visiting: seq<string>, i: nat): Result
    requires name in recs && i <= |recs[name]|
    decreases Left(recs, visiting), 1, |recs[name]| - i
  {
    if i == |recs[name]| then Ok([])
    else
      var here := FieldAt(recs, name, visiting, i);
      if here.Err? then here else
        var rest := FieldsFrom(recs, name, visiting, i + 1);
        if rest.Err? then rest else Ok(here.fields + rest.fields)
  }

  /** What one field contributes. */
  ghost function FieldAt(recs: Records, name: string, visiting: seq<string>, i: nat): Result
    requires name in recs && i < |recs[name]|
    decreases Left(recs, visiting), 1, 0
  {
    var f := recs[name][i];
    if !WellFormed(f) then Err(BadField(name, f.name))
    else if Embedded(f).None? then Ok([LeafOf(f)])
    else
      var sub := Flat(recs, Embedded(f).value, visiting);
      if sub.Err? then sub else Ok(Prefixed(f, sub.fields))
  }

  /** The visiting stack is a value passed in and handed back.  On success it comes back as
      it was; on failure the records on the way to the offending one may be left on it. */
  method FlattenRecord(recs: Records, name: string, visiting: seq<string>) returns (r: Result, left: seq<string>)
    ensures r == Flat(recs, name, visiting)
    ensures visiting <= left && (r.Ok? ==> left == visiting)
    decreases Left(recs, visiting)
  {
    left := visiting;
    if name in visiting { return Err(Cyclic(name)), left; }
    if name !in recs { return Err(Undeclared(name)), left; }
    LeftShrinks(recs, visiting, name);
    left := left + [name];
    var flat: seq<FlatField> := [];
    var i := 0;
    while i < |recs[name]|
      invariant i <= |recs[name]| && left == visiting + [name]
      invariant FieldsFrom(recs, name, visiting + [name], 0)
             == var rest := FieldsFrom(recs, name, visiting + [name], i);
                if rest.Err? then rest else Ok(flat + rest.fields)
    {
      var f := recs[name][i];
      if f.typeName.Some? == f.refTarget.Some? {
        return Err(BadField(name, f.name)), left[..|left| - 1];
      }
      if Embedded(f).None? {
        flat := flat + [LeafOf(f)];
      } else {
        var sub;
        sub, left := FlattenRecord(recs, Embedded(f).value, left);
        if sub.Err? { return sub, left; }
        flat := flat + Prefixed(f, sub.fields);
      }
      i := i + 1;
    }
    left := left[..|left| - 1];
    r := Ok(Numbered(flat));
  }

  // ---------------------------------------------------------------- when it succeeds

  ghost predicate Embeds(recs: Records, a: string, b: string) {
    a in recs && exists i | 0 <= i < |recs[a]| :: Embedded(recs[a][i]) == Some(b)
  }

  /** A chain of records, each embedded in the one before. */
  ghost predicate IsPath(recs: Records, p: seq<string>) {
    p != [] && forall i | 0 <= i < |p| - 1 :: Embeds(recs, p[i], p[i + 1])
  }

  ghost predicate FieldsOk(recs: Records, name: string) {
    name in recs && forall i | 0 <= i < |recs[name]| :: WellFormed(recs[name][i])
  }

  /** The path ends at a declared, well-formed record not seen before on it or in `visiting`. */
  ghost predicate EndOk(recs: Records, visiting: seq<string>, p: seq<string>)
    requires p != []
  {
    var last := p[|p| - 1];
    FieldsOk(recs, last) && last !in visiting && last !in p[..|p| - 1]
  }

  /** Everything reachable by embedding is declared and well formed, and no path comes back
      to a record it has already been through. */
  ghost predicate Sound(recs: Records, name: string, visiting: seq<string>) {
    forall p: seq<string> | IsPath(recs, p) && p[0] == name :: EndOk(recs, visiting, p)
  }

  lemma {:induction false} FieldsAllOk(recs: Records, name: string, visiting: seq<string>, i: nat, j: nat)
    requires name in recs && i <= j < |recs[name]|
    requires FieldsFrom(recs, name, visiting, i).Ok?
    ensures FieldAt(recs, name, visiting, j).Ok?
    decreases j - i
  {
    if i < j { FieldsAllOk(recs, name, visiting, i + 1, j); }
  }

  lemma {:induction false} AllFieldsOk(recs: Records, name: string, visiting: seq<string>, i: nat)
    requires name in recs && i <= |recs[name]|
    requires forall j | i <= j < |recs[name]| :: FieldAt(recs, name, visiting, j).Ok?
    ensures FieldsFrom(recs, name, visiting, i).Ok?
    decreases |recs[name]| - i
  {
    if i < |recs[name]| { AllFieldsOk(recs, name, visiting, i + 1); }
  }

  lemma {:induction false} SuccessImpliesEndOk(recs: Records, name: string, visiting: seq<string>, p: seq<string>)
    requires Flat(recs, name, visiting).Ok? && IsPath(recs, p) && p[0] == name
    ensures EndOk(recs, visiting, p)
    decreases |p|
  {
    var vis := visiting + [name];
    forall j | 0 <= j < |recs[name]| ensures FieldAt(recs, name, vis, j).Ok? && WellFormed(recs[name][j]) {
      FieldsAllOk(recs, name, vis, 0, j);
    }
    if |p| > 1 {
      assert Embeds(recs, p[0], p[1]);
      var j :| 0 <= j < |recs[name]| && Embedded(recs[name][j]) == Some(p[1]);
      assert FieldAt(recs, name, vis, j).Ok?;
      var q := p[1..];
      assert forall i | 0 <= i < |q| - 1 :: Embeds(recs, q[i], q[i + 1]) by {
        forall i | 0 <= i < |q| - 1 ensures Embeds(recs, q[i], q[i + 1]) { assert Embeds(recs, p[i + 1], p[i + 2]); }
      }
      SuccessImpliesEndOk(recs, p[1], vis, q);
      assert q[|q| - 1] == p[|p| - 1] && p[..|p| - 1] == [name] + q[..|q| - 1];
      assert forall x | x in visiting :: x in vis;
      assert name in vis;
    }
  }

  lemma {:induction false} SoundImpliesSuccess(recs: Records, name: string, visiting: seq<string>)
    requires Sound(recs, name, visiting)
    ensures Flat(recs, name, visiting).Ok?
    decreases Left(recs, visiting)
  {
    assert IsPath(recs, [name]);
    assert EndOk(recs, visiting, [name]);
    var vis := visiting + [name];
    LeftShrinks(recs, visiting, name);
    forall j | 0 <= j < |recs[name]| ensures FieldAt(recs, name, vis, j).Ok? {
      var e := Embedded(recs[name][j]);
      if e.Some? {
        assert Embeds(recs, name, e.value);
        SoundStep(recs, name, visiting, e.value);
        SoundImpliesSuccess(recs, e.value, vis);
      }
    }
    AllFieldsOk(recs, name, vis, 0);
  }

  lemma SoundStep(recs: Records, name: string, visiting: seq<string>, b: string)
    requires Sound(recs, name, visiting) && Embeds(recs, name, b)
    ensures Sound(recs, b, visiting + [name])
  {
    forall q: seq<string> | IsPath(recs, q) && q[0] == b ensures EndOk(recs, visiting + [name], q) {
      var p := [name] + q;
      forall i | 0 <= i < |p| - 1 ensures Embeds(recs, p[i], p[i + 1]) {
        if i > 0 { assert p[i] == q[i - 1] && p[i + 1] == q[i] && Embeds(recs, q[i - 1], q[i]); }
      }
      assert IsPath(recs, p) && EndOk(recs, visiting, p);
      assert p[..|p| - 1] == [name] + q[..|q| - 1] && p[|p| - 1] == q[|q| - 1];
    }
  }

  /** Flattening succeeds exactly when every field reachable from the root declares one of
      `type` and `ref`, and the embedding graph reached is fully declared and acyclic; a
      record embedded twice side by side is fine. */
  lemma FlattensIff(recs: Records, root: string)
    ensures Flat(recs, root, []).Ok? <==> Sound(recs, root, [])
  {
    if Flat(recs, root, []).Ok? {
      forall p: seq<string> | IsPath(recs, p) && p[0] == root ensures EndOk(recs, [], p) {
        SuccessImpliesEndOk(recs, root, [], p);
      }
    }
    if Sound(recs, root, []) { SoundImpliesSuccess(recs, root, []); }
  }

  // ---------------------------------------------------------------- what it returns

  /** Follow a path of field positions from a record; it leads to a leaf or to nothing. */
  ghost function Follow(recs: Records, name: string, path: seq<nat>): Option<FlatField>
    decreases |path|
  {
    if path == [] || name !in recs || path[0] >= |recs[name]| || !WellFormed(recs[name][path[0]]) then None
    else
      var f := recs[name][path[0]];
      if Embedded(f).None? then (if |path| == 1 then Some(LeafOf(f)) else None)
      else
        var sub := Follow(recs, Embedded(f).value, path[1..]);
        if sub.None? then None
        else Some(sub.value.(flatName := f.name + "_" + sub.value.flatName))
  }

  /** Depth-first order on paths. */
  ghost predicate Before(a: seq<nat>, b: seq<nat>) {
    a != [] && b != [] && (a[0] < b[0] || (a[0] == b[0] && Before(a[1..], b[1..])))
  }

  ghost predicate InOrder(ps: seq<seq<nat>>) { forall i, j | 0 <= i < j < |ps| :: Before(ps[i], ps[j]) }

  /** The path starts at field `lo` or later and before `hi`, and leads to the leaf `f`. */
  ghost predicate LeadsTo(recs: Records, name: string, lo: nat, hi: nat, path: seq<nat>, f: FlatField) {
    path != [] && lo <= path[0] < hi && Follow(recs, name, path) == Some(f.(index := 0))
  }

  ghost predicate LeadsToLeaf(recs: Records, name: string, lo: nat, hi: nat, path: seq<nat>) {
    path != [] && lo <= path[0] < hi && Follow(recs, name, path).Some?
  }

  /** `ps` are the paths of all leaves of fields `lo` up to `hi`, in depth-first order, and
      `fs` are those leaves. */
  ghost predicate Lists(recs: Records, name: string, lo: nat, hi: nat, ps: seq<seq<nat>>, fs: seq<FlatField>) {
    && |ps| == |fs| && InOrder(ps)
    && (forall k | 0 <= k < |ps| :: LeadsTo(recs, name, lo, hi, ps[k], fs[k]))
    && (forall q: seq<nat> | LeadsToLeaf(recs, name, lo, hi, q) :: q in ps)
  }

  function Under(j: nat, ps: seq<seq<nat>>): (r: seq<seq<nat>>)
    ensures |r| == |ps| && forall k | 0 <= k < |ps| :: r[k] == [j] + ps[k]
  { seq(|ps|, k requires 0 <= k < |ps| => [j] + ps[k]) }

  /** One field's paths, followed by those of the later fields. */
  lemma ListsCons(recs: Records, name: string, lo: nat, mid: nat, hi: nat,
                  hp: seq<seq<nat>>, hf: seq<FlatField>, tp: seq<seq<nat>>, tf: seq<FlatField>)
    requires lo <= mid <= hi && Lists(recs, name, lo, mid, hp, hf) && Lists(recs, name, mid, hi, tp, tf)
    ensures Lists(recs, name, lo, hi, hp + tp, hf + tf)
  {
    var ps, fs := hp + tp, hf + tf;
    forall a, b | 0 <= a < b < |ps| ensures Before(ps[a], ps[b]) {
      if a < |hp| && b >= |hp| {
        assert LeadsTo(recs, name, lo, mid, hp[a], hf[a]) && LeadsTo(recs, name, mid, hi, tp[b - |hp|], tf[b - |hp|]);
      }
    }
    forall k | 0 <= k < |ps| ensures LeadsTo(recs, name, lo, hi, ps[k], fs[k]) {
      if k < |hp| {
        assert LeadsTo(recs, name, lo, mid, hp[k], hf[k]);
      } else {
        assert LeadsTo(recs, name, mid, hi, tp[k - |hp|], tf[k - |hp|]);
      }
    }
    forall q: seq<nat> | LeadsToLeaf(recs, name, lo, hi, q) ensures q in ps {
      if q[0] < mid {
        assert LeadsToLeaf(recs, name, lo, mid, q);
      } else {
        assert LeadsToLeaf(recs, name, mid, hi, q);
      }
    }
  }

  lemma FollowUnder(recs: Records, name: string, i: nat, path: seq<nat>)
    requires name in recs && i < |recs[name]| && Embedded(recs[name][i]).Some?
    ensures var sub := Follow(recs, Embedded(recs[name][i]).value, path);
      Follow(recs, name, [i] + path)
      == if sub.None? then None else Some(sub.value.(flatName := recs[name][i].name + "_" + sub.value.flatName))
  {
    assert ([i] + path)[1..] == path;
  }

  lemma EmbeddedLists(recs: Records, name: string, i: nat, n: nat, sp: seq<seq<nat>>, sf: seq<FlatField>)
    requires name in recs && i < |recs[name]| && Embedded(recs[name][i]).Some?
    requires Lists(recs, Embedded(recs[name][i]).value, 0, n, sp, sf)
    requires FieldCount(recs, Embedded(recs[name][i]).value) <= n
    ensures Lists(recs, name, i, i + 1, Under(i, sp), Prefixed(recs[name][i], sf))
  {
    var sub, hp, hf := Embedded(recs[name][i]).value, Under(i, sp), Prefixed(recs[name][i], sf);
    forall a, b | 0 <= a < b < |hp| ensures Before(hp[a], hp[b]) {
      assert hp[a][1..] == sp[a] && hp[b][1..] == sp[b] && Before(sp[a], sp[b]);
    }
    forall k | 0 <= k < |hp| ensures LeadsTo(recs, name, i, i + 1, hp[k], hf[k]) {
      assert LeadsTo(recs, sub, 0, n, sp[k], sf[k]);
      FollowUnder(recs, name, i, sp[k]);
    }
    forall q: seq<nat> | LeadsToLeaf(recs, name, i, i + 1, q) ensures q in hp {
      assert q == [i] + q[1..];
      FollowUnder(recs, name, i, q[1..]);
      assert LeadsToLeaf(recs, sub, 0, n, q[1..]);
      var k :| 0 <= k < |sp| && sp[k] == q[1..];
      assert q == hp[k];
    }
  }

  ghost function FieldCount(recs: Records, name: string): nat { if name in recs then |recs[name]| else 0 }

  lemma LeafLists(recs: Records, name: string, i: nat)
    requires name in recs && i < |recs[name]| && WellFormed(recs[name][i]) && Embedded(recs[name][i]).None?
    ensures Lists(recs, name, i, i + 1, [[i]], [LeafOf(recs[name][i])])
  {
    forall q: seq<nat> | LeadsToLeaf(recs, name, i, i + 1, q) ensures q in [[i]] { assert q == [i]; }
  }

  lemma {:induction false} FieldsListed(recs: Records, name: string, visiting: seq<string>, i: nat) returns (ps: seq<seq<nat>>)
    requires name in recs && i <= |recs[name]| && FieldsFrom(recs, name, visiting, i).Ok?
    ensures Lists(recs, name, i, |recs[name]|, ps, FieldsFrom(recs, name, visiting, i).fields)
    decreases Left(recs, visiting), 1, |recs[name]| - i
  {
    var n := |recs[name]|;
    if i == n { return []; }
    var e := Embedded(recs[name][i]);
    var here := FieldAt(recs, name, visiting, i);
    var tp := FieldsListed(recs, name, visiting, i + 1);
    var hp := [[i]];
    if e.None? {
      LeafLists(recs, name, i);
    } else {
      var sp := LeavesListed(recs, e.value, visiting);
      EmbeddedLists(recs, name, i, FieldCount(recs, e.value), sp, Flat(recs, e.value, visiting).fields);
      hp := Under(i, sp);
    }
    ListsCons(recs, name, i, i + 1, n, hp, here.fields, tp, FieldsFrom(recs, name, visiting, i + 1).fields);
    ps := hp + tp;
  }

  /** The result is the record's leaves in depth-first order: the paths `ps` are all the
      paths that lead to a leaf, each once and in order, entry `k` is the leaf at the end of
      path `k`, named by the fields on the way, and the indices count from 1. */
  lemma {:induction false} LeavesListed(recs: Records, name: string, visiting: seq<string>) returns (ps: seq<seq<nat>>)
    requires Flat(recs, name, visiting).Ok?
    ensures Lists(recs, name, 0, FieldCount(recs, name), ps, Flat(recs, name, visiting).fields)
    ensures var fs := Flat(recs, name, visiting).fields; forall k | 0 <= k < |fs| :: fs[k].index == k + 1
    decreases Left(recs, visiting), 0, 0
  {
    LeftShrinks(recs, visiting, name);
    ps := FieldsListed(recs, name, visiting + [name], 0);
    var raw, fs := FieldsFrom(recs, name, visiting + [name], 0).fields, Flat(recs, name, visiting).fields;
    forall k | 0 <= k < |ps| ensures LeadsTo(recs, name, 0, FieldCount(recs, name), ps[k], fs[k]) {
      assert LeadsTo(recs, name, 0, FieldCount(recs, name), ps[k], raw[k]);
    }
  }

  // ---------------------------------------------------------------- one field in plain terms

  /** The primitive types and their tags. */
  const TAGS: map<string, nat> :=
    map["i8" := 0, "u8" := 1, "i16" := 2, "u16" := 3, "i32" := 4, "u32" := 5, "f32" := 6, "bool" := 7, "f64" := 8]

  lemma TagsParsed(n: string)
    ensures ParseTypeTag(n) == if n in TAGS then Some(TAGS[n]) else None
  {}

  lemma OnlyField(recs: Records, name: string, visiting: seq<string>)
    requires name in recs && name !in visiting && |recs[name]| == 1
    ensures var here := FieldAt(recs, name, visiting + [name], 0);
      Flat(recs, name, visiting) == if here.Err? then here else Ok(Numbered(here.fields))
  {
    LeftShrinks(recs, visiting, name);
    assert FieldsFrom(recs, name, visiting + [name], 1) == Ok([]);
    var here := FieldAt(recs, name, visiting + [name], 0);
    if here.Ok? { assert here.fields + [] == here.fields; }
  }

  /** Its type is no primitive one. */
  predicate OfRecord(f: Field) { f.typeName.Some? && f.refTarget.None? && f.typeName.value !in TAGS }

  /** `r` is what embedding `sub` as field `f` gives. */
  ghost predicate EmbedsAs(f: Field, sub: Result, r: Result) {
    if sub.Err? then r == sub
    else
      && r.Ok? && |r.fields| == |sub.fields|
      && forall i | 0 <= i < |sub.fields| ::
           r.fields[i] == FlatField(f.name + "_" + sub.fields[i].flatName, sub.fields[i].tag, i + 1, sub.fields[i].refTarget)
  }

  /** A record of one field: both or neither of type and reference is an error; a reference is
      a 32-bit field with its target; a primitive type has its tag; any other type is embedded,
      which fails as the embedded record does and otherwise puts the field's name and an
      underscore before each of its names, numbered from one. */
  lemma OneField(recs: Records, name: string, f: Field, visiting: seq<string>)
    requires name in recs && name !in visiting && recs[name] == [f]
    ensures f.typeName.Some? == f.refTarget.Some? ==> Flat(recs, name, visiting) == Err(BadField(name, f.name))
    ensures f.typeName.None? && f.refTarget.Some? ==>
      Flat(recs, name, visiting) == Ok([FlatField(f.name, 5, 1, f.refTarget)])
    ensures f.typeName.Some? && f.refTarget.None? && f.typeName.value in TAGS ==>
      Flat(recs, name, visiting) == Ok([FlatField(f.name, TAGS[f.typeName.value], 1, None)])
    ensures OfRecord(f) ==> EmbedsAs(f, Flat(recs, f.typeName.value, visiting + [name]), Flat(recs, name, visiting))
    ensures OfRecord(f) && f.typeName.value in visiting + [name] ==>
      Flat(recs, name, visiting) == Err(Cyclic(f.typeName.value))
    ensures OfRecord(f) && f.typeName.value !in visiting + [name] && f.typeName.value !in recs ==>
      Flat(recs, name, visiting) == Err(Undeclared(f.typeName.value))
  {
    OnlyField(recs, name, visiting);
    if f.typeName.Some? { TagsParsed(f.typeName.value); }
  }

  lemma {:induction false} FirstFailureFrom(recs: Records, name: string, visiting: seq<string>, i: nat, j: nat)
    requires name in recs && j <= i < |recs[name]| && FieldAt(recs, name, visiting, i).Err?
    requires forall k | j <= k < i :: FieldAt(recs, name, visiting, k).Ok?
    ensures FieldsFrom(recs, name, visiting, j) == FieldAt(recs, name, visiting, i)
    decreases i - j
  {
    if j < i { FirstFailureFrom(recs, name, visiting, i, j + 1); }
  }

  /** The error is that of the first field that has one. */
  lemma FirstFailure(recs: Records, name: string, visiting: seq<string>, i: nat)
    requires name in recs && name !in visiting && i < |recs[name]| && FieldAt(recs, name, visiting + [name], i).Err?
    requires forall k | 0 <= k < i :: FieldAt(recs, name, visiting + [name], k).Ok?
    ensures Flat(recs, name, visiting) == FieldAt(recs, name, visiting + [name], i)
  {
    FirstFailureFrom(recs, name, visiting + [name], i, 0);
  }

  // ---------------------------------------------------------------- configuration checks

  ghost predicate RefOk(f: Option<string>, buffers: map<string, string>) { f.Some? ==> f.value in buffers }

  /** What one declared field must meet, on its own. */
  ghost predicate FieldDeclared(recs: Records, buffers: map<string, string>, f: Field) {
    && WellFormed(f) && RefOk(f.refTarget, buffers)
    && (Embedded(f).Some? ==> Embedded(f).value in recs)
  }

  ghost predicate RecordDeclared(recs: Records, buffers: map<string, string>, name: string) {
    name in recs && forall i | 0 <= i < |recs[name]| :: FieldDeclared(recs, buffers, recs[name][i])
  }

  ghost predicate NoRepeat(p: seq<string>)
    requires p != []
  { p[|p| - 1] !in p[..|p| - 1] }

  /** Every declaration is right on its own and records do not embed themselves. */
  ghost predicate ConfigOk(recs: Records, buffers: map<string, string>) {
    && (forall r | r in recs :: RecordDeclared(recs, buffers, r))
    && (forall p: seq<string> | IsPath(recs, p) :: NoRepeat(p))
    && (forall b | b in buffers :: buffers[b] in recs)
  }

  /** What the loop finds out about one record. */
  ghost predicate RecordPasses(recs: Records, buffers: map<string, string>, name: string) {
    var r := Flat(recs, name, []);
    r.Ok? && forall k | 0 <= k < |r.fields| :: RefOk(r.fields[k].refTarget, buffers)
  }

  lemma PassesDeclared(recs: Records, buffers: map<string, string>, name: string)
    requires name in recs && RecordPasses(recs, buffers, name)
    requires forall r | r in recs :: RecordPasses(recs, buffers, r)
    ensures RecordDeclared(recs, buffers, name)
  {
    FlattensIff(recs, name);
    assert IsPath(recs, [name]) && EndOk(recs, [], [name]);
    var ps := LeavesListed(recs, name, []);
    var fs := Flat(recs, name, []).fields;
    forall i | 0 <= i < |recs[name]| ensures FieldDeclared(recs, buffers, recs[name][i]) {
      var e := Embedded(recs[name][i]);
      if e.Some? {
        assert Embeds(recs, name, e.value);
        assert IsPath(recs, [name, e.value]) && EndOk(recs, [], [name, e.value]);
      } else {
        assert Follow(recs, name, [i]) == Some(LeafOf(recs[name][i]));
        assert LeadsToLeaf(recs, name, 0, FieldCount(recs, name), [i]);
        var k :| 0 <= k < |ps| && ps[k] == [i];
        assert LeadsTo(recs, name, 0, FieldCount(recs, name), ps[k], fs[k]);
        assert RefOk(fs[k].refTarget, buffers);
      }
    }
  }

  lemma {:induction false} FollowedRefOk(recs: Records, buffers: map<string, string>, name: string, path: seq<nat>)
    requires forall r | r in recs :: RecordDeclared(recs, buffers, r)
    requires Follow(recs, name, path).Some?
    ensures RefOk(Follow(recs, name, path).value.refTarget, buffers)
    decreases |path|
  {
    assert RecordDeclared(recs, buffers, name);
    var f := recs[name][path[0]];
    assert FieldDeclared(recs, buffers, f);
    if Embedded(f).Some? { FollowedRefOk(recs, buffers, Embedded(f).value, path[1..]); }
  }

  lemma ConfigOkPasses(recs: Records, buffers: map<string, string>, name: string)
    requires ConfigOk(recs, buffers) && name in recs
    ensures RecordPasses(recs, buffers, name)
  {
    forall p: seq<string> | IsPath(recs, p) && p[0] == name ensures EndOk(recs, [], p) {
      var last := p[|p| - 1];
      assert NoRepeat(p);
      if |p| > 1 {
        assert Embeds(recs, p[|p| - 2], p[|p| - 2 + 1]);
        assert RecordDeclared(recs, buffers, p[|p| - 2]);
      }
      assert RecordDeclared(recs, buffers, last);
    }
    FlattensIff(recs, name);
    var ps := LeavesListed(recs, name, []);
    var fs := Flat(recs, name, []).fields;
    forall k | 0 <= k < |fs| ensures RefOk(fs[k].refTarget, buffers) {
      assert LeadsTo(recs, name, 0, FieldCount(recs, name), ps[k], fs[k]);
      FollowedRefOk(recs, buffers, name, ps[k]);
    }
  }

  lemma PassingConfig(recs: Records, buffers: map<string, string>)
    requires forall r | r in recs :: RecordPasses(recs, buffers, r)
    requires forall b | b in buffers :: buffers[b] in recs
    ensures ConfigOk(recs, buffers)
  {
    forall r | r in recs ensures RecordDeclared(recs, buffers, r) { PassesDeclared(recs, buffers, r); }
    forall p: seq<string> | IsPath(recs, p) ensures NoRepeat(p) {
      if |p| > 1 {
        assert Embeds(recs, p[0], p[0 + 1]);
        FlattensIff(recs, p[0]);
        assert EndOk(recs, [], p);
      }
    }
  }

  method CheckRefs(fs: seq<FlatField>, buffers: map<string, string>) returns (ok: bool)
    ensures ok <==> forall k | 0 <= k < |fs| :: RefOk(fs[k].refTarget, buffers)
  {
    for i := 0 to |fs|
      invariant forall k | 0 <= k < i :: RefOk(fs[k].refTarget, buffers)
    {
      if fs[i].refTarget.Some? && fs[i].refTarget.value !in buffers {
        assert !RefOk(fs[i].refTarget, buffers);
        return false;
      }
    }
    return true;
  }

  /** Checking record by record, each from an empty visiting stack, accepts exactly the
      configurations whose declarations are right one by one and whose embedding graph has
      no cycle.  `buffers` gives each state buffer's record. */
  method ValidateRecords(recs: Records, buffers: map<string, string>) returns (ok: bool)
    ensures ok <==> ConfigOk(recs, buffers)
  {
    var bs := buffers.Keys;
    while bs != {}
      invariant bs <= buffers.Keys
      invariant forall b | b in buffers.Keys - bs :: buffers[b] in recs
      decreases |bs|
    {
      var b :| b in bs;
      if buffers[b] !in recs { return false; }
      bs := bs - {b};
    }
    var rs := recs.Keys;
    while rs != {}
      invariant rs <= recs.Keys
      invariant forall r | r in recs.Keys - rs :: RecordPasses(recs, buffers, r)
      decreases |rs|
    {
      var r :| r in rs;
      var flat, _ := FlattenRecord(recs, r, []);
      var good := false;
      if flat.Ok? { good := CheckRefs(flat.fields, buffers); }
      if !good {
        assert !ConfigOk(recs, buffers) by {
          if ConfigOk(recs, buffers) { ConfigOkPasses(recs, buffers, r); }
        }
        return false;
      }
      assert RecordPasses(recs, buffers, r);
      rs := rs - {r};
    }
    PassingConfig(recs, buffers);
    return true;
  }
}
