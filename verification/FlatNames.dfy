/** When the names of flattened fields are pairwise distinct. */
module FlatNames {
  import opened Flatten

  /** Two paths from record `r` lead to leaves of the same flat name. */
  ghost predicate Collide(recs: Records, r: string, p: seq<nat>, q: seq<nat>) {
    && Follow(recs, r, p).Some? && Follow(recs, r, q).Some?
    && Follow(recs, r, p).value.flatName == Follow(recs, r, q).value.flatName
  }

  /** Two different fields of record `r` contribute the same flat name. */
  ghost predicate FieldsClash(recs: Records, r: string) {
    exists p: seq<nat>, q: seq<nat> {:trigger Collide(recs, r, p, q)} :: Collide(recs, r, p, q) && p[0] != q[0]
  }

  /** The record a path of embedding fields leads to. */
  ghost function RecordAt(recs: Records, name: string, path: seq<nat>): Option<string>
    decreases |path|
  {
    if path == [] then Some(name)
    else if name in recs && path[0] < |recs[name]| && Embedded(recs[name][path[0]]).Some?
    then RecordAt(recs, Embedded(recs[name][path[0]]).value, path[1..])
    else None
  }

  ghost predicate NamesDistinct(fs: seq<FlatField>) {
    forall k, l | 0 <= k < l < |fs| :: fs[k].flatName != fs[l].flatName
  }

  /** A clash in an embedded record is a clash in the record it is embedded in. */
  lemma {:induction false} ClashLifts(recs: Records, name: string, path: seq<nat>, p: seq<nat>, q: seq<nat>)
    requires RecordAt(recs, name, path).Some? && Collide(recs, RecordAt(recs, name, path).value, p, q)
    ensures Collide(recs, name, path + p, path + q)
    decreases |path|
  {
    if path == [] {
      assert path + p == p && path + q == q;
    } else {
      var i := path[0];
      var sub := Embedded(recs[name][i]).value;
      ClashLifts(recs, sub, path[1..], p, q);
      assert path + p == [i] + (path[1..] + p) && path + q == [i] + (path[1..] + q);
      FollowUnder(recs, name, i, path[1..] + p);
      FollowUnder(recs, name, i, path[1..] + q);
    }
  }

  /** Two paths that collide part at some record, where two different fields clash. */
  lemma {:induction false} CollisionParts(recs: Records, name: string, p: seq<nat>, q: seq<nat>) returns (path: seq<nat>)
    requires Collide(recs, name, p, q) && p != q
    ensures RecordAt(recs, name, path).Some? && FieldsClash(recs, RecordAt(recs, name, path).value)
    decreases |p|
  {
    if p[0] != q[0] { return []; }
    var i := p[0];
    assert p == [i] + p[1..] && q == [i] + q[1..];
    var f := recs[name][i];
    var sub := Embedded(f).value;
    FollowUnder(recs, name, i, p[1..]);
    FollowUnder(recs, name, i, q[1..]);
    SamePrefix(f.name + "_", Follow(recs, sub, p[1..]).value.flatName, Follow(recs, sub, q[1..]).value.flatName);
    var rest := CollisionParts(recs, sub, p[1..], q[1..]);
    path := [i] + rest;
    assert path[1..] == rest;
  }

  lemma SamePrefix(a: string, x: string, y: string)
    requires a + x == a + y
    ensures x == y
  {
    assert (a + x)[|a|..] == x && (a + y)[|a|..] == y;
  }

  lemma {:induction false} BeforeDiffers(a: seq<nat>, b: seq<nat>)
    requires Before(a, b)
    ensures a != b
    decreases |a|
  {
    if a[0] == b[0] { BeforeDiffers(a[1..], b[1..]); }
  }

  /** The flat names are pairwise distinct if and only if in no record that is reached do two
      fields contribute the same name. */
  lemma DistinctIff(recs: Records, root: string)
    requires Flat(recs, root, []).Ok?
    ensures NamesDistinct(Flat(recs, root, []).fields) <==>
      forall path: seq<nat> | RecordAt(recs, root, path).Some? :: !FieldsClash(recs, RecordAt(recs, root, path).value)
  {
    var fs := Flat(recs, root, []).fields;
    var ps := LeavesListed(recs, root, []);
    if k, l :| 0 <= k < l < |fs| && fs[k].flatName == fs[l].flatName {
      CollidingEntries(recs, root, ps, fs, k, l);
      var path := CollisionParts(recs, root, ps[k], ps[l]);
      assert !NamesDistinct(fs);
    }
    if path: seq<nat> :| RecordAt(recs, root, path).Some? && FieldsClash(recs, RecordAt(recs, root, path).value) {
      ClashIndistinct(recs, root, path);
    }
  }

  lemma ClashIndistinct(recs: Records, root: string, path: seq<nat>)
    requires Flat(recs, root, []).Ok? && RecordAt(recs, root, path).Some?
    requires FieldsClash(recs, RecordAt(recs, root, path).value)
    ensures !NamesDistinct(Flat(recs, root, []).fields)
  {
    var r := RecordAt(recs, root, path).value;
    var p: seq<nat>, q: seq<nat> :| Collide(recs, r, p, q) && p[0] != q[0];
    ClashLifts(recs, root, path, p, q);
    assert (path + p)[|path|] != (path + q)[|path|];
    var ps := LeavesListed(recs, root, []);
    Indistinct(recs, root, ps, Flat(recs, root, []).fields, path + p, path + q);
  }

  lemma CollidingEntries(recs: Records, root: string, ps: seq<seq<nat>>, fs: seq<FlatField>, k: nat, l: nat)
    requires Lists(recs, root, 0, FieldCount(recs, root), ps, fs) && k < l < |fs| && fs[k].flatName == fs[l].flatName
    ensures Collide(recs, root, ps[k], ps[l]) && ps[k] != ps[l]
  {
    assert LeadsTo(recs, root, 0, FieldCount(recs, root), ps[k], fs[k]);
    assert LeadsTo(recs, root, 0, FieldCount(recs, root), ps[l], fs[l]);
    BeforeDiffers(ps[k], ps[l]);
  }

  lemma Indistinct(recs: Records, root: string, ps: seq<seq<nat>>, fs: seq<FlatField>, p: seq<nat>, q: seq<nat>)
    requires Lists(recs, root, 0, FieldCount(recs, root), ps, fs) && Collide(recs, root, p, q) && p != q
    ensures !NamesDistinct(fs)
  {
    assert LeadsToLeaf(recs, root, 0, FieldCount(recs, root), p);
    assert LeadsToLeaf(recs, root, 0, FieldCount(recs, root), q);
    var k :| 0 <= k < |ps| && ps[k] == p;
    var l :| 0 <= l < |ps| && ps[l] == q;
    assert LeadsTo(recs, root, 0, FieldCount(recs, root), ps[k], fs[k]);
    assert LeadsTo(recs, root, 0, FieldCount(recs, root), ps[l], fs[l]);
    assert fs[k].flatName == fs[l].flatName;
    if k < l { assert !NamesDistinct(fs); } else { assert !NamesDistinct(fs); }
  }

  // ---------------------------------------------------------------- a simple rule

  /** The fields of the record have different names, and none contains an underscore. */
  ghost predicate PlainNames(recs: Records, r: string) {
    r in recs ==>
      && (forall i | 0 <= i < |recs[r]| :: '_' !in recs[r][i].name)
      && (forall i, j | 0 <= i < j < |recs[r]| :: recs[r][i].name != recs[r][j].name)
  }

  /** A flat name is the first field's name, alone or followed by an underscore. */
  lemma StartsWithField(recs: Records, r: string, p: seq<nat>) returns (rest: string)
    requires Follow(recs, r, p).Some?
    ensures Follow(recs, r, p).value.flatName == recs[r][p[0]].name + rest && (rest != "" ==> rest[0] == '_')
  {
    var f := recs[r][p[0]];
    if Embedded(f).None? {
      assert f.name + "" == f.name;
      return "";
    }
    var sub := Follow(recs, Embedded(f).value, p[1..]).value.flatName;
    rest := "_" + sub;
    assert f.name + "_" + sub == f.name + rest;
  }

  /** The part before the first underscore. */
  function Head(s: string): string { if s == "" || s[0] == '_' then "" else [s[0]] + Head(s[1..]) }

  lemma {:induction false} HeadOf(a: string, x: string)
    requires '_' !in a && (x != "" ==> x[0] == '_')
    ensures Head(a + x) == a
    decreases |a|
  {
    if a == "" {
      assert a + x == x;
    } else {
      assert (a + x)[0] == a[0] && (a + x)[1..] == a[1..] + x && a == [a[0]] + a[1..];
      HeadOf(a[1..], x);
    }
  }

  lemma PlainNoClash(recs: Records, r: string)
    requires PlainNames(recs, r)
    ensures !FieldsClash(recs, r)
  {
    forall p: seq<nat>, q: seq<nat> | Collide(recs, r, p, q) ensures p[0] == q[0] {
      var x := StartsWithField(recs, r, p);
      var y := StartsWithField(recs, r, q);
      HeadOf(recs[r][p[0]].name, x);
      HeadOf(recs[r][q[0]].name, y);
    }
  }

  /** Field names that are distinct within each record and have no underscore give distinct
      flat names. */
  lemma PlainNamesDistinct(recs: Records, root: string)
    requires Flat(recs, root, []).Ok? && forall r | r in recs :: PlainNames(recs, r)
    ensures NamesDistinct(Flat(recs, root, []).fields)
  {
    forall path: seq<nat> | RecordAt(recs, root, path).Some? ensures !FieldsClash(recs, RecordAt(recs, root, path).value) {
      PlainNoClash(recs, RecordAt(recs, root, path).value);
    }
    DistinctIff(recs, root);
  }

  // ---------------------------------------------------------------- a collision

  const LEAF_B := Field("b", Some("i8"), None)
  const CLASHING: Records := map[
    "R" := [Field("a_b", Some("i8"), None), Field("a", Some("S"), None)],
    "S" := [LEAF_B]]

  /** A field `a_b` beside an embedded `a` with a field `b`: both are called a_b. */
  lemma UnderscoreCollides()
    ensures Flat(CLASHING, "R", []).Ok? && !NamesDistinct(Flat(CLASHING, "R", []).fields)
  {
    ClashingFlattens();
    var recs := CLASHING;
    assert Follow(recs, "S", [0]) == Some(LeafOf(LEAF_B)) && LeafOf(LEAF_B).flatName == "b";
    assert [1] + [0] == [1, 0];
    FollowUnder(recs, "R", 1, [0]);
    assert "a" + "_" + "b" == "a_b";
    assert Collide(recs, "R", [0], [1, 0]) && [0][0] != [1, 0][0];
    ClashIndistinct(recs, "R", []);
  }

  lemma ClashingFlattens()
    ensures Flat(CLASHING, "R", []).Ok?
  {
    var recs := CLASHING;
    assert Embedded(recs["R"][1]) == Some("S") && Embedded(recs["S"][0]) == None && Embedded(recs["R"][0]) == None;
    assert FieldsFrom(recs, "S", ["R", "S"], 1) == Ok([]);
    assert FieldAt(recs, "S", ["R", "S"], 0).Ok?;
    assert FieldsFrom(recs, "S", ["R", "S"], 0).Ok?;
    assert ["R"] + ["S"] == ["R", "S"] && Flat(recs, "S", ["R"]).Ok?;
    assert FieldsFrom(recs, "R", ["R"], 2) == Ok([]);
    assert FieldAt(recs, "R", ["R"], 1).Ok? && FieldAt(recs, "R", ["R"], 0).Ok?;
    assert FieldsFrom(recs, "R", ["R"], 1).Ok? && FieldsFrom(recs, "R", ["R"], 0).Ok?;
    assert [] + ["R"] == ["R"];
  }
}
