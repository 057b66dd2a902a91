/** The save file byte by byte, and what the reader makes of bytes no writer produces. */
module BlysLaws {
  import opened BlysFormat
  import opened BlysSpec

  // ---------------------------------------------------------------- scalars

  lemma {:induction false} DivTwice(v: nat, p: nat)
    requires p > 0
    ensures v / 256 / p == v / (256 * p)
  {
    var q, r := v / (256 * p), v % (256 * p);
    assert v == q * (256 * p) + r;
    var x := v / 256;
    assert x == q * p + r / 256 by {
      assert v == 256 * (q * p) + r;
      assert (256 * (q * p) + r) / 256 == q * p + r / 256;
    }
    assert r / 256 < p;
    Quotient(x, p, q, r / 256);
  }

  lemma Quotient(x: nat, p: nat, q: nat, r: nat)
    requires p > 0 && x == q * p + r && r < p
    ensures x / p == q
  {
    var d := x / p;
    assert x == d * p + x % p;
    if d < q { Times(d + 1, q, p); } else if d > q { Times(q + 1, d, p); }
  }

  lemma Times(a: nat, b: nat, m: nat)
    requires a <= b
    ensures a * m <= b * m && (a - 1) * m == a * m - m
  {}

  /** Byte `i` of an encoded number is its `i`-th digit in base 256, the lowest first. */
  lemma {:induction false} LeDigit(v: nat, n: nat, i: nat)
    requires i < n
    ensures Pow256(i) > 0 && Le(v, n)[i] == v / Pow256(i) % 256
  {
    if i > 0 {
      LeDigit(v / 256, n - 1, i - 1);
      DivTwice(v, Pow256(i - 1));
    }
  }

  lemma LeFour(v: u32)
    ensures Le(v, 4) == [v % 256, v / 256 % 256, v / 65536 % 256, v / 16777216]
  {
    var (a, b, c) := (v / 256, v / 256 / 256, v / 256 / 256 / 256);
    assert Le(v, 4) == [v % 256] + Le(a, 3) && Le(a, 3) == [a % 256] + Le(b, 2);
    assert Le(b, 2) == [b % 256] + Le(c, 1) && Le(c, 1) == [c % 256] + Le(c / 256, 0);
    assert b == v / 65536 && c == v / 16777216 && c < 256;
  }

  lemma LeTwo(v: nat)
    requires v < 65536
    ensures Le(v, 2) == [v % 256, v / 256]
  {
    assert Le(v, 2) == [v % 256] + Le(v / 256, 1) && Le(v / 256, 1) == [v / 256 % 256] + Le(v / 256 / 256, 0);
  }

  // ---------------------------------------------------------------- the header

  /** Twenty bytes: the letters BLYS, version 1.1 as two 16-bit numbers, the schema hash and
      the save version. */
  lemma HeaderLayout(h: Header, i: nat)
    ensures var s := EncodeHeader(h);
      && |s| == 20
      && s[..8] == [66, 76, 89, 83, 1, 0, 1, 0]
      && (i < 8 ==> Pow256(i) > 0 && s[8 + i] == h.schemaHash / Pow256(i) % 256)
      && s[16..] == [h.saveVersion % 256, h.saveVersion / 256 % 256, h.saveVersion / 65536 % 256, h.saveVersion / 16777216]
  {
    LeTwo(1);
    LeFour(h.saveVersion);
    if i < 8 { LeDigit(h.schemaHash, 8, i); }
    var v := Le(1, 2);
    assert MAGIC + v + v == [66, 76, 89, 83, 1, 0, 1, 0];
    HeaderSlices(MAGIC, v, v, Le(h.schemaHash, 8), Le(h.saveVersion, 4), []);
    HeaderSplit(MAGIC + v + v, Le(h.schemaHash, 8), Le(h.saveVersion, 4));
  }

  lemma HeaderSplit(a: seq<byte>, b: seq<byte>, c: seq<byte>)
    requires |a| == 8 && |b| == 8 && |c| == 4
    ensures var s := a + b + c; |s| == 20 && s[..8] == a && (forall i | 0 <= i < 8 :: s[8 + i] == b[i]) && s[16..] == c
  {}

  lemma PowersOf256()
    ensures Pow256(1) == 256 && Pow256(2) == 65536 && Pow256(3) == 16777216 && Pow256(0) == 1
  {
    assert Pow256(1) == 256 * Pow256(0);
    assert Pow256(2) == 256 * Pow256(1);
    assert Pow256(3) == 256 * Pow256(2);
  }

  // ---------------------------------------------------------------- a buffer's section

  /** Bytes of one value of each type tag: 8-bit and bool, 16-bit, 64-bit, all others 32-bit. */
  function Width(tag: byte): nat {
    if tag in {0, 1, 7} then 1 else if tag in {2, 3} then 2 else if tag == 8 then 8 else 4
  }

  /** Where field `j` starts among the fields. */
  function Offset(fields: seq<seq<byte>>, j: nat): nat
    requires j <= |fields|
  { if j == 0 then 0 else Offset(fields, j - 1) + |fields[j - 1]| }

  lemma {:induction false} FieldAt(fields: seq<seq<byte>>, j: nat)
    requires j < |fields|
    ensures Offset(fields, j) + |fields[j]| <= |BlysSpec.Concat(fields)|
    ensures BlysSpec.Concat(fields)[Offset(fields, j)..][..|fields[j]|] == fields[j]
  {
    var rest := BlysSpec.Concat(fields[1..]);
    if j > 0 {
      FieldAt(fields[1..], j - 1);
      OffsetTail(fields, j);
      assert (fields[0] + rest)[Offset(fields, j)..] == rest[Offset(fields[1..], j - 1)..];
    }
  }

  lemma {:induction false} OffsetTail(fields: seq<seq<byte>>, j: nat)
    requires 0 < j <= |fields|
    ensures Offset(fields, j) == |fields[0]| + Offset(fields[1..], j - 1)
  {
    if j > 1 { OffsetTail(fields, j - 1); }
  }

  lemma {:induction false} FieldsTotal(fields: seq<seq<byte>>)
    ensures |BlysSpec.Concat(fields)| == Offset(fields, |fields|)
  {
    if fields != [] {
      FieldsTotal(fields[1..]);
      OffsetTail(fields, |fields|);
    }
  }

  /** The section of a buffer: the letters CART, the number of bytes that follow, the length of
      the name, the name, the fields, 16 and 256 bytes of slots. */
  lemma SectionLayout(b: Buffer)
    requires Writable(b)
    ensures var (s, n, f) := (EncodeSection(Cart(b)), |b.name|, Offset(b.fields, |b.fields|));
      && |s| == 12 + n + f + 272
      && s[..4] == [67, 65, 82, 84]
      && s[4..8] == Le(|s| - 8, 4) && s[8..12] == Le(n, 4) && s[12..12 + n] == b.name
      && s[12 + n + f..][..16] == b.bitset && s[12 + n + f + 16..] == b.gens
  {
    FieldsTotal(b.fields);
    PayloadIs(b);
    SectionPieces(Le(PayloadBytes(b), 4), Le(|b.name|, 4), b.name, BlysSpec.Concat(b.fields), b.bitset, b.gens);
  }

  lemma PayloadIs(b: Buffer)
    requires Writable(b)
    ensures PayloadBytes(b) == 4 + |b.name| + |BlysSpec.Concat(b.fields)| + 272
  {
    BodyLength(b);
  }

  /** And the fields follow one another, each with one value per slot. */
  lemma FieldLayout(b: Buffer, j: nat)
    requires Writable(b) && j < |b.fields|
    ensures var (s, at) := (EncodeSection(Cart(b)), 12 + |b.name| + Offset(b.fields, j));
      && |b.fields[j]| == b.count * Width(b.types[j])
      && at + |b.fields[j]| <= |s| && s[at..][..|b.fields[j]|] == b.fields[j]
  {
    SectionPieces(Le(PayloadBytes(b), 4), Le(|b.name|, 4), b.name, BlysSpec.Concat(b.fields), b.bitset, b.gens);
    FieldInSection(b, EncodeSection(Cart(b)), j);
  }

  lemma FieldInSection(b: Buffer, s: seq<byte>, j: nat)
    requires Shaped(b) && j < |b.fields|
    requires var fields := BlysSpec.Concat(b.fields);
      12 + |b.name| + |fields| <= |s| && s[12 + |b.name|..12 + |b.name| + |fields|] == fields
    ensures var at := 12 + |b.name| + Offset(b.fields, j);
      && |b.fields[j]| == b.count * Width(b.types[j])
      && at + |b.fields[j]| <= |s| && s[at..][..|b.fields[j]|] == b.fields[j]
  {
    FieldAt(b.fields, j);
    assert FieldWidth(b.types[j]) == Width(b.types[j]);
    InBody(s, 12 + |b.name|, BlysSpec.Concat(b.fields), Offset(b.fields, j), |b.fields[j]|);
  }

  lemma SectionPieces(p: seq<byte>, l: seq<byte>, name: seq<byte>, fields: seq<byte>, bits: seq<byte>, gens: seq<byte>)
    requires |p| == |l| == 4 && |bits| == 16 && |gens| == 256
    ensures var s := CART + p + (l + (name + (fields + bits + gens)));
      var at := 12 + |name|;
      && |s| == at + |fields| + 272 && s[..4] == CART && s[4..8] == p && s[8..12] == l && s[12..at] == name
      && s[at..at + |fields|] == fields && s[at + |fields|..][..16] == bits && s[at + |fields| + 16..] == gens
  {
    var tail := fields + bits + gens;
    var s := CART + p + (l + (name + tail));
    assert s[12 + |name|..] == tail;
    assert s[12 + |name| + |fields|..] == tail[|fields|..] == bits + gens;
    assert s[12 + |name| + |fields| + 16..] == tail[|fields| + 16..] == gens;
  }

  lemma InBody(s: seq<byte>, at: nat, fields: seq<byte>, o: nat, n: nat)
    requires at + |fields| <= |s| && s[at..at + |fields|] == fields && o + n <= |fields|
    ensures s[at + o..][..n] == fields[o..][..n]
  {
    var x, y := s[at + o..][..n], fields[o..][..n];
    forall k | 0 <= k < n ensures x[k] == y[k] { assert x[k] == s[at..at + |fields|][o + k]; }
  }

  // ---------------------------------------------------------------- a section cut short

  /** Where field `j` ends, counted from the start of field `i`. */
  function EndFrom(w: Buffer, i: nat, j: nat): int
    requires i <= |w.fields| && j < |w.fields|
  { Offset(w.fields, j + 1) - Offset(w.fields, i) }

  /** `c` is `b` with those arrays of `w`, from field `i` on, that lie whole in the first `k`
      bytes. */
  ghost predicate FilledSoFar(w: Buffer, b: Buffer, c: Buffer, i: nat, k: int)
    requires i <= |w.fields| == |b.fields|
  {
    && c.(fields := b.fields, bitset := b.bitset) == b && |c.fields| == |b.fields|
    && (forall j {:trigger EndFrom(w, i, j)} {:trigger c.fields[j]} :: 0 <= j < |b.fields| ==>
          c.fields[j] == if j >= i && EndFrom(w, i, j) <= k then w.fields[j] else b.fields[j])
    && c.bitset == if Offset(w.fields, |w.fields|) - Offset(w.fields, i) + 16 <= k then w.bitset else b.bitset
  }

  lemma SoFarStep(w: Buffer, b: Buffer, c: Buffer, i: nat, k: int)
    requires i < |w.fields| == |b.fields| && |w.fields[i]| <= k
    requires FilledSoFar(w, b.(fields := b.fields[i := w.fields[i]]), c, i + 1, k - |w.fields[i]|)
    ensures FilledSoFar(w, b, c, i, k)
  {
    var d := b.(fields := b.fields[i := w.fields[i]]);
    forall j | 0 <= j < |b.fields| ensures c.fields[j] == if j >= i && EndFrom(w, i, j) <= k then w.fields[j] else b.fields[j] {
      assert EndFrom(w, i, j) == EndFrom(w, i + 1, j) + |w.fields[i]|;
    }
  }

  lemma NoneSoFar(w: Buffer, b: Buffer, i: nat, k: int)
    requires i < |w.fields| == |b.fields| && |w.fields[i]| > k
    ensures FilledSoFar(w, b, b, i, k)
  {
    forall j | 0 <= j < |b.fields| ensures j >= i ==> EndFrom(w, i, j) > k { if j >= i { OffsetGrows(w.fields, i + 1, j + 1); } }
    OffsetGrows(w.fields, i + 1, |w.fields|);
  }

  lemma {:induction false} OffsetGrows(fields: seq<seq<byte>>, i: nat, j: nat)
    requires i <= j <= |fields|
    ensures Offset(fields, i) <= Offset(fields, j)
    decreases j - i
  {
    if i < j { OffsetGrows(fields, i, j - 1); }
  }

  /** A section that ends too soon is an error, and yet the arrays that were whole before the
      cut are in the buffer; the others are as they were. */
  lemma {:induction false} CutFills(w: Buffer, b: Buffer, i: nat, k: nat)
    requires Storable(w) && Shaped(b) && SameShape(b, w) && i <= |w.types|
    requires k < |BlysSpec.Concat(w.fields[i..]) + w.bitset + w.gens|
    ensures var (ok, c, _) := Fill((BlysSpec.Concat(w.fields[i..]) + w.bitset + w.gens)[..k], b, i);
      !ok && FilledSoFar(w, b, c, i, k)
    decreases |w.types| - i
  {
    var rest := BlysSpec.Concat(w.fields[i..]) + w.bitset + w.gens;
    if i < |w.types| {
      var n := |w.fields[i]|;
      FieldsFit(w, i);
      FirstArray(w, i, w.bitset, w.gens, []);
      assert rest + [] == rest;
      CutAgain(w, b, i, k, rest);
    } else {
      assert BlysSpec.Concat(w.fields[i..]) == [] && rest == w.bitset + w.gens;
      if k >= 16 { assert rest[..k][..16] == w.bitset; }
    }
  }

  lemma CutParts(rest: seq<byte>, n: nat, k: nat, x: seq<byte>, was: seq<byte>)
    requires n <= k <= |rest| && rest[..n] == x && |was| == |x| == n
    ensures rest[..k][n..] == rest[n..][..k - n] && Over(rest[..k][..n], was) == x
  {
    assert rest[..k][..n] == x;
  }

  lemma StillShaped(b: Buffer, w: Buffer, i: nat)
    requires Shaped(b) && Shaped(w) && SameShape(b, w) && i < |w.types|
    ensures Shaped(b.(fields := b.fields[i := w.fields[i]])) && |b.fields[i]| == |w.fields[i]|
  {}

  lemma CutAgain(w: Buffer, b: Buffer, i: nat, k: nat, rest: seq<byte>)
    requires Storable(w) && Shaped(b) && SameShape(b, w) && i < |w.types| && k < |rest|
    requires |w.fields[i]| == FieldBytes(b, i) <= |rest| && rest[..|w.fields[i]|] == w.fields[i]
    requires rest[|w.fields[i]|..] == BlysSpec.Concat(w.fields[i + 1..]) + w.bitset + w.gens
    ensures var (ok, c, _) := Fill(rest[..k], b, i); !ok && FilledSoFar(w, b, c, i, k)
    decreases |w.types| - i, 0
  {
    var n := |w.fields[i]|;
    if n <= k {
      var d := b.(fields := b.fields[i := w.fields[i]]);
      StillShaped(b, w, i);
      CutParts(rest, n, k, w.fields[i], b.fields[i]);
      CutFills(w, d, i + 1, k - n);
      SoFarStep(w, b, Fill(rest[..k], b, i).1, i, k);
    } else {
      NoneSoFar(w, b, i, k);
    }
  }

  // ---------------------------------------------------------------- bytes no writer produces

  /** A header with the right magic: any major version, any minor version, any hash. */
  function AnyHeader(major: nat, minor: nat, hash: u64): seq<byte> {
    [66, 76, 89, 83] + Le(major, 2) + Le(minor, 2) + Le(hash, 8)
  }

  /** From minor version 1 on, and only then, four bytes of save version follow the header; if
      they are missing that is an error.  A wrong hash is told after the version is known. */
  lemma AnyHeaderRead(major: nat, minor: nat, hash: u64, rest: seq<byte>, want: nat, bufs: seq<Buffer>)
    requires minor < 65536 && Readable(bufs)
    ensures var r := Read(AnyHeader(major, minor, hash) + rest, want, bufs);
      && (minor == 0 && want == hash ==> r == (ReadSections(rest, bufs).0, 0, ReadSections(rest, bufs).1))
      && (minor == 0 && want != hash ==> r == (ErrSchema, 0, bufs))
      && (minor >= 1 && |rest| < 4 ==> r == (ErrIo, 0, bufs))
      && (minor >= 1 && |rest| >= 4 && want == hash ==>
            r == (ReadSections(rest[4..], bufs).0, FromLe(rest[..4]), ReadSections(rest[4..], bufs).1))
      && (minor >= 1 && |rest| >= 4 && want != hash ==> r == (ErrSchema, FromLe(rest[..4]), bufs))
  {
    var s := AnyHeader(major, minor, hash) + rest;
    Pow256Eight();
    LeRoundTrip(hash, 8);
    WordIsPow();
    LeRoundTrip(minor, 2);
    OldSlices(MAGIC, Le(major, 2), Le(minor, 2), Le(hash, 8), rest);
    assert |s| == 16 + |rest|;
    if |rest| >= 4 { assert s[16..20] == s[16..][..4] && s[20..] == s[16..][4..]; }
  }

  /** Without the magic nothing is read. */
  lemma WrongMagic(s: seq<byte>, want: nat, bufs: seq<Buffer>)
    requires Readable(bufs) && (|s| < 16 || s[..4] != [66, 76, 89, 83])
    ensures Read(s, want, bufs) == (ErrIo, 0, bufs)
  {}

  /** The size word of a buffer the reader knows is not looked at. */
  lemma KnownIgnoresSize(size: u32, size': u32, rest: seq<byte>, bufs: seq<Buffer>)
    requires Readable(bufs) && |rest| >= 4 && FromLe(rest[..4]) < 256 && 4 + FromLe(rest[..4]) <= |rest|
    requires exists b | b in bufs :: b.name == rest[4..4 + FromLe(rest[..4])]
    ensures ReadSections(CART + Le(size, 4) + rest, bufs) == ReadSections(CART + Le(size', 4) + rest, bufs)
  {
    ToNamed(size, rest, bufs);
    ToNamed(size', rest, bufs);
    var name := rest[4..4 + FromLe(rest[..4])];
    assert rest[4..][..FromLe(rest[..4])] == name && rest[0..4] == rest[..4];
    var b :| b in bufs && b.name == name;
    var i :| 0 <= i < |bufs| && bufs[i] == b;
  }

  /** Of a buffer the reader does not know, it alone says how much to skip, in 32 bits. */
  lemma UnknownSkipsSize(size: u32, name: seq<byte>, body: seq<byte>, bufs: seq<Buffer>)
    requires Readable(bufs) && |name| < 256 && forall b | b in bufs :: b.name != name
    ensures var skip := if size >= 4 + |name| then size - 4 - |name| else size - 4 - |name| + 0x1_0000_0000;
      ReadSections(CART + Le(size, 4) + (Le(|name|, 4) + (name + body)), bufs)
        == if skip > |body| then (ErrIo, bufs) else ReadSections(body[skip..], bufs)
  {
    ToNamed(size, Le(|name|, 4) + (name + body), bufs);
    NamedIs(size, name, body, bufs);
    forall i | 0 <= i < |bufs| ensures bufs[i].name != name { assert bufs[i] in bufs; }
    SkipIs(size, name, body, bufs);
  }

  lemma NamedIs(size: u32, name: seq<byte>, body: seq<byte>, bufs: seq<Buffer>)
    requires Readable(bufs) && |name| < 256
    ensures ReadNamed(size, Le(|name|, 4) + (name + body), bufs) == ReadCart(size, name, body, bufs)
  {
    var rest := Le(|name|, 4) + (name + body);
    WordIsPow();
    LeRoundTrip(|name|, 4);
    assert rest[0..4] == Le(|name|, 4) && rest[4..] == name + body;
    assert (name + body)[..|name|] == name && (name + body)[|name|..] == body;
  }

  lemma SkipIs(size: u32, name: seq<byte>, body: seq<byte>, bufs: seq<Buffer>)
    requires Readable(bufs) && |name| < 256 && Find(bufs, name) == |bufs|
    ensures var skip := if size >= 4 + |name| then size - 4 - |name| else size - 4 - |name| + 0x1_0000_0000;
      ReadCart(size, name, body, bufs) == if skip > |body| then (ErrIo, bufs) else ReadSections(body[skip..], bufs)
  {
    var d := size - 4 - |name|;
    assert d % WORD == if d >= 0 then d else d + WORD;
  }

  lemma ToNamed(size: u32, rest: seq<byte>, bufs: seq<Buffer>)
    requires Readable(bufs)
    ensures ReadSections(CART + Le(size, 4) + rest, bufs) == ReadNamed(size, rest, bufs)
  {
    var s := CART + Le(size, 4) + rest;
    assert s[..4] == CART && s[8..] == rest;
    U32Written(size, CART, rest);
  }
}
