/** The BLYS save format: little-endian scalars, buffers, sections. */
module BlysFormat {
  const WORD := 0x1_0000_0000

  type byte = x: int | 0 <= x < 256
  type u32 = x: int | 0 <= x < 0x1_0000_0000

  const MAGIC: seq<byte> := [66, 76, 89, 83]
  const CART: seq<byte> := [67, 65, 82, 84]
  const BITSET_BYTES := 16
  const GENS_BYTES := 256

  // ---------------------------------------------------------------- little-endian scalars

  function Pow256(n: nat): nat { if n == 0 then 1 else 256 * Pow256(n - 1) }

  function Le(v: nat, n: nat): (s: seq<byte>)
    ensures |s| == n
  { if n == 0 then [] else [v % 256] + Le(v / 256, n - 1) }

  function FromLe(s: seq<byte>): nat { if s == [] then 0 else s[0] + 256 * FromLe(s[1..]) }

  lemma {:induction false} LeRoundTrip(v: nat, n: nat)
    requires v < Pow256(n)
    ensures FromLe(Le(v, n)) == v
  {
    if n > 0 {
      assert v / 256 < Pow256(n - 1);
      LeRoundTrip(v / 256, n - 1);
      assert Le(v, n)[1..] == Le(v / 256, n - 1);
    }
  }

  lemma {:induction false} FromLeBound(s: seq<byte>)
    ensures FromLe(s) < Pow256(|s|)
  {
    if s != [] { FromLeBound(s[1..]); }
  }

  lemma WordIsPow()
    ensures Pow256(2) == 0x1_0000 && Pow256(4) == WORD
  {
    assert Pow256(1) == 256 * Pow256(0);
    assert Pow256(2) == 256 * Pow256(1);
    assert Pow256(3) == 256 * Pow256(2);
  }

  function U32At(s: seq<byte>, i: nat): (v: u32)
    requires i + 4 <= |s|
  {
    FromLeBound(s[i..i + 4]); WordIsPow();
    FromLe(s[i..i + 4])
  }

  method PutLe(v: nat, n: nat) returns (s: seq<byte>)
    ensures s == Le(v, n)
  {
    s := [];
    var x := v;
    for i := 0 to n
      invariant s + Le(x, n - i) == Le(v, n)
    {
      assert Le(x, n - i) == [x % 256] + Le(x / 256, n - i - 1);
      s, x := s + [x % 256], x / 256;
    }
  }

  method GetLe(s: seq<byte>) returns (v: nat)
    ensures v == FromLe(s)
  {
    v := 0;
    for i := |s| downto 0
      invariant v == FromLe(s[i..])
    {
      assert s[i..][1..] == s[i + 1..];
      v := v * 256 + s[i];
    }
    assert s[0..] == s;
  }

  // ---------------------------------------------------------------- buffers

  datatype Buffer = Buffer(
    name: seq<byte>, types: seq<byte>, count: u32,
    fields: seq<seq<byte>>, bitset: seq<byte>, gens: seq<byte>)

  function FieldWidth(tag: byte): nat {
    if tag == 0 || tag == 1 || tag == 7 then 1
    else if tag == 2 || tag == 3 then 2
    else if tag == 8 then 8
    else 4
  }

  /** Bytes of one field's array, multiplied in 32 bits. */
  function FieldBytes(b: Buffer, i: nat): u32
    requires i < |b.types|
  { b.count * FieldWidth(b.types[i]) % WORD }

  function FieldsFrom(b: Buffer, i: nat): nat
    requires i <= |b.types|
    decreases |b.types| - i
  { if i == |b.types| then 0 else b.count * FieldWidth(b.types[i]) + FieldsFrom(b, i + 1) }

  /** The payload's true size; the code keeps only its low 32 bits. */
  function PayloadBytes(b: Buffer): nat { 4 + |b.name| + FieldsFrom(b, 0) + BITSET_BYTES + GENS_BYTES }

  /** The arrays have the sizes the header promises. */
  ghost predicate Shaped(b: Buffer) {
    && |b.fields| == |b.types| && |b.bitset| == BITSET_BYTES && |b.gens| == GENS_BYTES
    && forall i | 0 <= i < |b.types| :: |b.fields[i]| == b.count * FieldWidth(b.types[i])
  }

  /** A buffer the writer can describe: its payload size fits 32 bits. */
  ghost predicate Writable(b: Buffer) { Shaped(b) && PayloadBytes(b) < WORD }

  /** A buffer the reader accepts back: its name also fits the reader's 256-byte array. */
  ghost predicate Storable(b: Buffer) { Writable(b) && |b.name| < 256 }

  lemma WrapSum(a: nat, b: nat)
    ensures (a % WORD + b % WORD) % WORD == (a + b) % WORD
  {
  }

  method PayloadSize(b: Buffer) returns (p: u32)
    requires |b.name| < WORD
    ensures p == PayloadBytes(b) % WORD
  {
    p := (4 + |b.name|) % WORD;
    ghost var total: nat := 4 + |b.name|;
    for i := 0 to |b.types|
      invariant p == total % WORD && total + FieldsFrom(b, i) == 4 + |b.name| + FieldsFrom(b, 0)
    {
      WrapSum(total, b.count * FieldWidth(b.types[i]));
      p := (p + b.count * FieldWidth(b.types[i]) % WORD) % WORD;
      total := total + b.count * FieldWidth(b.types[i]);
    }
    WrapSum(total, BITSET_BYTES);
    p := (p + BITSET_BYTES) % WORD;
    WrapSum(total + BITSET_BYTES, GENS_BYTES);
    p := (p + GENS_BYTES) % WORD;
  }
}

/** Files as sequences of sections, and reading as a function of the remaining bytes. */
module BlysSpec {
  import opened BlysFormat

  type u64 = x: int | 0 <= x < 0x1_0000_0000_0000_0000

  datatype Header = Header(schemaHash: u64, saveVersion: u32)

  datatype Section = Cart(buffer: Buffer) | Other(tag: seq<byte>, payload: seq<byte>)

  datatype Code = Ok | ErrIo | ErrSchema

  function Concat(ss: seq<seq<byte>>): seq<byte> { if ss == [] then [] else ss[0] + Concat(ss[1..]) }

  function CartBody(b: Buffer): seq<byte> { Concat(b.fields) + b.bitset + b.gens }

  function EncodeSection(s: Section): seq<byte> {
    match s
    case Cart(b) => CART + Le(PayloadBytes(b), 4) + (Le(|b.name|, 4) + (b.name + CartBody(b)))
    case Other(tag, payload) => tag + Le(|payload|, 4) + payload
  }

  function Encode(ss: seq<Section>): seq<byte> { if ss == [] then [] else EncodeSection(ss[0]) + Encode(ss[1..]) }

  function EncodeHeader(h: Header): seq<byte> {
    MAGIC + Le(1, 2) + Le(1, 2) + Le(h.schemaHash, 8) + Le(h.saveVersion, 4)
  }

  /** A section the format can carry. */
  ghost predicate Valid(s: Section) {
    match s
    case Cart(b) => Storable(b)
    case Other(tag, payload) => |tag| == 4 && tag != CART && |payload| < WORD
  }

  // ---------------------------------------------------------------- reading

  function Find(bufs: seq<Buffer>, name: seq<byte>): (k: nat)
    ensures k <= |bufs|
    ensures k < |bufs| ==> bufs[k].name == name
    ensures forall i | 0 <= i < k :: bufs[i].name != name
  { if bufs == [] || bufs[0].name == name then 0 else 1 + Find(bufs[1..], name) }

  /** New bytes over the start of an array. */
  function Over(bytes: seq<byte>, was: seq<byte>): seq<byte> {
    bytes + if |bytes| <= |was| then was[|bytes|..] else []
  }

  /** Fill a buffer's arrays from field `i` on; on a short source the arrays filled so far stay filled. */
  function Fill(s: seq<byte>, b: Buffer, i: nat): (bool, Buffer, seq<byte>)
    requires i <= |b.types| == |b.fields|
    decreases |b.types| - i
  {
    if i < |b.types| then
      var n := FieldBytes(b, i);
      if n > |s| then (false, b, s)
      else Fill(s[n..], b.(fields := b.fields[i := Over(s[..n], b.fields[i])]), i + 1)
    else if BITSET_BYTES > |s| then (false, b, s)
    else
      var c := b.(bitset := s[..BITSET_BYTES]);
      var t := s[BITSET_BYTES..];
      if GENS_BYTES > |t| then (false, c, t) else (true, c.(gens := t[..GENS_BYTES]), t[GENS_BYTES..])
  }

  ghost predicate Readable(bufs: seq<Buffer>) { forall b | b in bufs :: |b.types| == |b.fields| }

  lemma {:induction false} FillShrinks(s: seq<byte>, b: Buffer, i: nat)
    requires i <= |b.types| == |b.fields|
    ensures var (ok, c, t) := Fill(s, b, i); |t| <= |s| && c.types == b.types && |c.fields| == |b.fields| && c.name == b.name
    decreases |b.types| - i
  {
    if i < |b.types| && FieldBytes(b, i) <= |s| {
      var n := FieldBytes(b, i);
      FillShrinks(s[n..], b.(fields := b.fields[i := Over(s[..n], b.fields[i])]), i + 1);
    }
  }

  function ReadSections(s: seq<byte>, bufs: seq<Buffer>): (Code, seq<Buffer>)
    requires Readable(bufs)
    decreases |s|, 0
  {
    if |s| == 0 then (Ok, bufs)
    else if |s| < 8 then (ErrIo, bufs)
    else
      var payload, rest := U32At(s, 4), s[8..];
      if s[..4] != CART then
        if payload > |rest| then (ErrIo, bufs) else ReadSections(rest[payload..], bufs)
      else ReadNamed(payload, rest, bufs)
  }

  function ReadNamed(payload: u32, s: seq<byte>, bufs: seq<Buffer>): (Code, seq<Buffer>)
    requires Readable(bufs)
    decreases |s|, 2
  {
    if |s| < 4 then (ErrIo, bufs)
    else
      var n, rest := U32At(s, 0), s[4..];
      if n >= 256 || |rest| < n then (ErrIo, bufs)
      else ReadCart(payload, rest[..n], rest[n..], bufs)
  }

  function ReadCart(payload: u32, name: seq<byte>, body: seq<byte>, bufs: seq<Buffer>): (Code, seq<Buffer>)
    requires Readable(bufs)
    decreases |body|, 1
  {
    var k := Find(bufs, name);
    if k == |bufs| then
      var skip := (payload - 4 - |name|) % WORD;
      if skip > |body| then (ErrIo, bufs)
      else ReadSections(body[skip..], bufs)
    else
      FillShrinks(body, bufs[k], 0);
      var (ok, b, rest) := Fill(body, bufs[k], 0);
      if !ok then (ErrIo, bufs[k := b]) else ReadSections(rest, bufs[k := b])
  }

  /** The whole reader: result code, save version, and the buffers afterwards. */
  function Read(s: seq<byte>, want: nat, bufs: seq<Buffer>): (Code, u32, seq<Buffer>)
    requires Readable(bufs)
  {
    if |s| < 16 || s[..4] != MAGIC then (ErrIo, 0, bufs)
    else
      var versioned := FromLe(s[6..8]) >= 1;
      if versioned && |s| < 20 then (ErrIo, 0, bufs)
      else
        var version := if versioned then U32At(s, 16) else 0;
        if FromLe(s[8..16]) != want then (ErrSchema, version, bufs)
        else
          var (code, out) := ReadSections(s[if versioned then 20 else 16..], bufs);
          (code, version, out)
  }

  // ---------------------------------------------------------------- what a section does

  function Restored(b: Buffer, w: Buffer): Buffer { b.(fields := w.fields, bitset := w.bitset, gens := w.gens) }

  /** The effect a section should have, stated without parsing. */
  function Apply(bufs: seq<Buffer>, s: Section): seq<Buffer> {
    if s.Other? then bufs else
      var k := Find(bufs, s.buffer.name);
      if k == |bufs| then bufs else bufs[k := Restored(bufs[k], s.buffer)]
  }

  function Restore(bufs: seq<Buffer>, ss: seq<Section>): seq<Buffer>
    decreases ss
  { if ss == [] then bufs else Restore(Apply(bufs, ss[0]), ss[1..]) }

  ghost predicate SameShape(b: Buffer, w: Buffer) { b.types == w.types && b.count == w.count }

  /** Every reader buffer is shaped, and shaped alike where names agree. */
  ghost predicate Compatible(bufs: seq<Buffer>, ss: seq<Section>) {
    && (forall b | b in bufs :: Shaped(b))
    && (forall b, s | b in bufs && s in ss && s.Cart? && s.buffer.name == b.name :: SameShape(b, s.buffer))
  }

  lemma ApplyCompatible(bufs: seq<Buffer>, s: Section, ss: seq<Section>)
    requires Compatible(bufs, [s] + ss) && Valid(s)
    ensures Compatible(Apply(bufs, s), ss) && Readable(Apply(bufs, s))
  {
    var out := Apply(bufs, s);
    assert s in [s] + ss && forall t | t in ss :: t in [s] + ss;
    forall i | 0 <= i < |out|
      ensures Shaped(out[i]) && out[i].name == bufs[i].name && SameShape(out[i], bufs[i])
    { assert bufs[i] in bufs; }
    forall b, t | b in out && t in ss && t.Cart? && t.buffer.name == b.name ensures SameShape(b, t.buffer) {
      var i :| 0 <= i < |out| && out[i] == b;
      assert bufs[i] in bufs && SameShape(bufs[i], t.buffer);
    }
  }

  // ---------------------------------------------------------------- filling reads back what was written

  lemma {:induction false} FieldsFit(b: Buffer, i: nat)
    requires Writable(b) && i < |b.types|
    ensures |b.fields[i]| == FieldBytes(b, i)
  {
    FieldBelowPayload(b, i, 0);
  }

  lemma {:induction false} FieldBelowPayload(b: Buffer, i: nat, j: nat)
    requires j <= i < |b.types|
    ensures b.count * FieldWidth(b.types[i]) <= FieldsFrom(b, j)
    decreases i - j
  {
    if j < i { FieldBelowPayload(b, i, j + 1); }
  }

  lemma {:induction false} ConcatLength(b: Buffer, i: nat)
    requires Shaped(b) && i <= |b.types|
    ensures |Concat(b.fields[i..])| == FieldsFrom(b, i)
    decreases |b.types| - i
  {
    if i < |b.types| {
      assert b.fields[i..][1..] == b.fields[i + 1..];
      ConcatLength(b, i + 1);
    }
  }

  lemma FirstArray(w: Buffer, i: nat, x: seq<byte>, y: seq<byte>, z: seq<byte>)
    requires i < |w.fields|
    ensures var s, n := Concat(w.fields[i..]) + x + y + z, |w.fields[i]|;
      n <= |s| && s[..n] == w.fields[i] && s[n..] == Concat(w.fields[i + 1..]) + x + y + z
  {
    assert w.fields[i..][1..] == w.fields[i + 1..];
    assert Concat(w.fields[i..]) == w.fields[i] + Concat(w.fields[i + 1..]);
    var rest := Concat(w.fields[i + 1..]);
    assert w.fields[i] + rest + x + y + z == w.fields[i] + (rest + x + y + z);
  }

  /** Filling from the bytes a writer produced gives the written arrays and leaves the tail. */
  lemma {:induction false} FillWritten(w: Buffer, b: Buffer, i: nat, tail: seq<byte>)
    requires Storable(w) && Shaped(b) && SameShape(b, w) && i <= |w.types|
    requires b.fields[..i] == w.fields[..i]
    ensures Fill(Concat(w.fields[i..]) + w.bitset + w.gens + tail, b, i) == (true, Restored(b, w), tail)
    decreases |w.types| - i
  {
    var s := Concat(w.fields[i..]) + w.bitset + w.gens + tail;
    if i < |w.types| {
      var n := FieldBytes(b, i);
      FieldsFit(w, i);
      FirstArray(w, i, w.bitset, w.gens, tail);
      assert Over(s[..n], b.fields[i]) == w.fields[i];
      var c := b.(fields := b.fields[i := w.fields[i]]);
      assert c.fields[..i + 1] == b.fields[..i] + [w.fields[i]] == w.fields[..i + 1];
      FillWritten(w, c, i + 1, tail);
    } else {
      assert Concat(w.fields[i..]) == [];
      assert s == w.bitset + (w.gens + tail);
      assert b.fields == b.fields[..i] && w.fields == w.fields[..i];
    }
  }

  /** A cut inside the written arrays makes filling fail. */
  lemma {:induction false} FillCut(w: Buffer, b: Buffer, i: nat, k: nat)
    requires Storable(w) && |b.fields| == |b.types| && SameShape(b, w) && i <= |w.types|
    requires k < |Concat(w.fields[i..]) + w.bitset + w.gens|
    ensures !Fill((Concat(w.fields[i..]) + w.bitset + w.gens)[..k], b, i).0
    decreases |w.types| - i
  {
    var full := Concat(w.fields[i..]) + w.bitset + w.gens;
    var s := full[..k];
    if i < |w.types| {
      var n := FieldBytes(b, i);
      FieldsFit(w, i);
      assert w.fields[i..][1..] == w.fields[i + 1..];
      assert full == w.fields[i] + (Concat(w.fields[i + 1..]) + w.bitset + w.gens);
      if n <= |s| {
        assert s[n..] == (Concat(w.fields[i + 1..]) + w.bitset + w.gens)[..k - n];
        FillCut(w, b.(fields := b.fields[i := Over(s[..n], b.fields[i])]), i + 1, k - n);
      }
    } else {
      assert Concat(w.fields[i..]) == [];
    }
  }

  // ---------------------------------------------------------------- one section

  lemma U32Written(v: u32, pre: seq<byte>, post: seq<byte>)
    ensures U32At(pre + Le(v, 4) + post, |pre|) == v
  {
    WordIsPow();
    LeRoundTrip(v, 4);
    assert (pre + Le(v, 4) + post)[|pre|..|pre| + 4] == Le(v, 4);
  }

  lemma BodyLength(b: Buffer)
    requires Shaped(b)
    ensures |CartBody(b)| == PayloadBytes(b) - 4 - |b.name|
  {
    ConcatLength(b, 0);
    assert b.fields[0..] == b.fields;
  }

  lemma Slices(tag: seq<byte>, p: seq<byte>, n: seq<byte>, name: seq<byte>, body: seq<byte>, tail: seq<byte>)
    requires |tag| == |p| == |n| == 4
    ensures var s := tag + p + (n + (name + body)) + tail;
      && |s| >= 12 + |name| && s[..4] == tag && s[4..8] == p
      && s[8..][0..4] == n && s[8..][4..4 + |name|] == name && s[8..][4 + |name|..] == body + tail
  {
    var s := tag + p + (n + (name + body)) + tail;
    assert s == tag + (p + (n + (name + (body + tail))));
    assert s[8..] == n + (name + (body + tail));
  }

  /** How a written cart section splits into the pieces the reader takes. */
  lemma CartPieces(b: Buffer, tail: seq<byte>)
    requires Writable(b)
    ensures var s := EncodeSection(Cart(b)) + tail;
      && |s| >= 12 + |b.name| && s[..4] == CART && U32At(s, 4) == PayloadBytes(b)
      && U32At(s[8..], 0) == |b.name|
      && s[8..][4..4 + |b.name|] == b.name
      && s[8..][4 + |b.name|..] == CartBody(b) + tail
  {
    Slices(CART, Le(PayloadBytes(b), 4), Le(|b.name|, 4), b.name, CartBody(b), tail);
    WordIsPow();
    LeRoundTrip(PayloadBytes(b), 4);
    LeRoundTrip(|b.name|, 4);
  }

  lemma OtherPieces(tag: seq<byte>, payload: seq<byte>, tail: seq<byte>)
    requires |tag| == 4 && |payload| < WORD
    ensures var s := EncodeSection(Other(tag, payload)) + tail;
      && |s| >= 8 && s[..4] == tag && U32At(s, 4) == |payload| && s[8..] == payload + tail
  {
    var s := EncodeSection(Other(tag, payload)) + tail;
    assert s == tag + Le(|payload|, 4) + (payload + tail);
    U32Written(|payload|, tag, payload + tail);
  }

  /** A cart section whose header and name are complete is decided by its body. */
  lemma ToBody(s: seq<byte>, bufs: seq<Buffer>, name: seq<byte>, body: seq<byte>)
    requires Readable(bufs) && |name| < 256 && |s| == 12 + |name| + |body|
    requires s[..4] == CART && U32At(s[8..], 0) == |name|
    requires s[8..][4..4 + |name|] == name && s[8..][4 + |name|..] == body
    ensures ReadSections(s, bufs) == ReadCart(U32At(s, 4), name, body, bufs)
  {
    var r := s[8..];
    assert r[4..][..|name|] == r[4..4 + |name|] && r[4..][|name|..] == r[4 + |name|..];
    assert ReadNamed(U32At(s, 4), r, bufs) == ReadCart(U32At(s, 4), name, body, bufs);
  }

  lemma SkipBytes(payload: u32, name: seq<byte>, x: seq<byte>, tail: seq<byte>, bufs: seq<Buffer>)
    requires Readable(bufs) && Find(bufs, name) == |bufs| && payload == 4 + |name| + |x|
    ensures ReadCart(payload, name, x + tail, bufs) == ReadSections(tail, bufs)
  {
    assert (x + tail)[|x|..] == tail;
  }

  /** A buffer the reader does not have is skipped. */
  lemma SkipBody(w: Buffer, tail: seq<byte>, bufs: seq<Buffer>)
    requires Writable(w) && Readable(bufs) && Find(bufs, w.name) == |bufs|
    ensures ReadCart(PayloadBytes(w), w.name, CartBody(w) + tail, bufs) == ReadSections(tail, bufs)
  {
    BodyLength(w);
    SkipBytes(PayloadBytes(w), w.name, CartBody(w), tail, bufs);
  }

  /** A buffer the reader has is filled. */
  lemma FillBody(w: Buffer, tail: seq<byte>, bufs: seq<Buffer>)
    requires Storable(w) && Compatible(bufs, [Cart(w)]) && Find(bufs, w.name) < |bufs|
    ensures Readable(bufs) && Readable(Apply(bufs, Cart(w)))
    ensures ReadCart(PayloadBytes(w), w.name, CartBody(w) + tail, bufs) == ReadSections(tail, Apply(bufs, Cart(w)))
  {
    var k := Find(bufs, w.name);
    assert bufs[k] in bufs && Cart(w) in [Cart(w)] && SameShape(bufs[k], w);
    FillWritten(w, bufs[k], 0, tail);
    assert w.fields[0..] == w.fields;
  }

  lemma ReadBody(w: Buffer, tail: seq<byte>, bufs: seq<Buffer>)
    requires Storable(w) && Compatible(bufs, [Cart(w)])
    ensures Readable(bufs) && Readable(Apply(bufs, Cart(w)))
    ensures ReadCart(PayloadBytes(w), w.name, CartBody(w) + tail, bufs) == ReadSections(tail, Apply(bufs, Cart(w)))
  {
    if Find(bufs, w.name) == |bufs| {
      SkipBody(w, tail, bufs);
    } else {
      FillBody(w, tail, bufs);
    }
  }

  lemma CutBody(w: Buffer, j: nat, bufs: seq<Buffer>)
    requires Storable(w) && Compatible(bufs, [Cart(w)]) && j < |CartBody(w)|
    ensures Readable(bufs) && ReadCart(PayloadBytes(w), w.name, CartBody(w)[..j], bufs).0 == ErrIo
  {
    BodyLength(w);
    var k := Find(bufs, w.name);
    if k < |bufs| {
      assert bufs[k] in bufs && Cart(w) in [Cart(w)] && SameShape(bufs[k], w);
      assert w.fields[0..] == w.fields;
      FillCut(w, bufs[k], 0, j);
    }
  }

  /** Reading a valid section has exactly its stated effect and goes on with the tail. */
  lemma ReadOne(sect: Section, tail: seq<byte>, bufs: seq<Buffer>)
    requires Valid(sect) && Compatible(bufs, [sect])
    ensures Readable(bufs) && Readable(Apply(bufs, sect))
    ensures ReadSections(EncodeSection(sect) + tail, bufs) == ReadSections(tail, Apply(bufs, sect))
  {
    match sect
    case Other(tag, payload) =>
      OtherPieces(tag, payload, tail);
      assert (payload + tail)[|payload|..] == tail;
    case Cart(w) =>
      CartPieces(w, tail);
      ReadBody(w, tail, bufs);
      ToBody(EncodeSection(sect) + tail, bufs, w.name, CartBody(w) + tail);
  }

  /** A section whose name is too long for the reader is written without complaint and
      then refused. */
  lemma LongNameRefused(w: Buffer, tail: seq<byte>, bufs: seq<Buffer>)
    requires Writable(w) && |w.name| >= 256 && Readable(bufs)
    ensures ReadSections(EncodeSection(Cart(w)) + tail, bufs) == (ErrIo, bufs)
  {
    CartPieces(w, tail);
    var s := EncodeSection(Cart(w)) + tail;
    assert ReadNamed(U32At(s, 4), s[8..], bufs) == (ErrIo, bufs);
  }

  lemma CutAfterEight(full: seq<byte>, k: nat)
    requires 8 <= k <= |full|
    ensures var s := full[..k]; s[..4] == full[..4] && s[4..8] == full[4..8] && s[8..] == full[8..][..k - 8]
  {}

  /** A file that ends inside a section is an I/O error. */
  lemma ReadCut(sect: Section, k: nat, bufs: seq<Buffer>)
    requires Valid(sect) && Compatible(bufs, [sect]) && 0 < k < |EncodeSection(sect)|
    ensures Readable(bufs) && ReadSections(EncodeSection(sect)[..k], bufs).0 == ErrIo
  {
    var full := EncodeSection(sect);
    var s := full[..k];
    assert full + [] == full;
    if k >= 8 {
      CutAfterEight(full, k);
      match sect
      case Other(tag, payload) => OtherPieces(tag, payload, []);
      case Cart(w) =>
        CartPieces(w, []);
        if k >= 12 {
          assert s[8..][0..4] == full[8..][0..4];
          if k >= 12 + |w.name| { CutCart(w, k, bufs); }
        }
    }
  }

  lemma CutCart(w: Buffer, k: nat, bufs: seq<Buffer>)
    requires Storable(w) && Compatible(bufs, [Cart(w)]) && 12 + |w.name| <= k < |EncodeSection(Cart(w))|
    ensures Readable(bufs) && ReadSections(EncodeSection(Cart(w))[..k], bufs).0 == ErrIo
  {
    var full := EncodeSection(Cart(w));
    assert full + [] == full && CartBody(w) + [] == CartBody(w);
    CartPieces(w, []);
    var j := k - 12 - |w.name|;
    CutBody(w, j, bufs);
    CutSlices(full, k, |w.name|);
    ToBody(full[..k], bufs, w.name, CartBody(w)[..j]);
  }

  lemma CutSlices(full: seq<byte>, k: nat, n: nat)
    requires 12 + n <= k <= |full|
    ensures var s := full[..k];
      && s[..4] == full[..4] && s[4..8] == full[4..8] && s[8..][0..4] == full[8..][0..4]
      && s[8..][4..4 + n] == full[8..][4..4 + n] && s[8..][4 + n..] == full[8..][4 + n..][..k - 12 - n]
  {
    var s, r := full[..k], full[8..];
    assert s[8..] == r[..k - 8];
    assert r[..k - 8][4..4 + n] == r[4..4 + n];
  }

  // ---------------------------------------------------------------- whole files

  ghost predicate AllValid(ss: seq<Section>) { forall s | s in ss :: Valid(s) }

  lemma Associative(a: seq<byte>, b: seq<byte>, c: seq<byte>)
    ensures a + b + c == a + (b + c)
  {}

  lemma HeadAndRest(ss: seq<Section>, tail: seq<byte>)
    requires ss != [] && AllValid(ss)
    ensures ss == [ss[0]] + ss[1..] && Valid(ss[0]) && AllValid(ss[1..])
    ensures Encode(ss) + tail == EncodeSection(ss[0]) + (Encode(ss[1..]) + tail)
  {
    assert forall s | s in ss[1..] :: s in ss;
    Associative(EncodeSection(ss[0]), Encode(ss[1..]), tail);
  }

  /** Reading the encoding of any list of sections has the effect of those sections in order. */
  lemma {:induction false} ReadAll(ss: seq<Section>, tail: seq<byte>, bufs: seq<Buffer>)
    requires AllValid(ss) && Compatible(bufs, ss)
    ensures Readable(bufs) && Readable(Restore(bufs, ss))
    ensures ReadSections(Encode(ss) + tail, bufs) == ReadSections(tail, Restore(bufs, ss))
    decreases ss
  {
    if ss == [] {
      assert Encode(ss) + tail == tail;
    } else {
      HeadAndRest(ss, tail);
      ApplyCompatible(bufs, ss[0], ss[1..]);
      ReadOne(ss[0], Encode(ss[1..]) + tail, bufs);
      ReadAll(ss[1..], tail, Apply(bufs, ss[0]));
    }
  }

  lemma {:induction false} RestoreCompatible(bufs: seq<Buffer>, a: seq<Section>, b: seq<Section>)
    requires Compatible(bufs, a + b) && AllValid(a)
    ensures Compatible(Restore(bufs, a), b)
    decreases a
  {
    if a == [] {
      assert a + b == b;
    } else {
      assert a + b == [a[0]] + (a[1..] + b) && a[0] in a && forall s | s in a[1..] :: s in a;
      ApplyCompatible(bufs, a[0], a[1..] + b);
      RestoreCompatible(Apply(bufs, a[0]), a[1..], b);
    }
  }

  /** Cutting at a section boundary restores exactly the earlier sections; cutting `k`
      bytes into the next section is an I/O error. */
  lemma ReadTruncated(done: seq<Section>, next: Section, k: nat, bufs: seq<Buffer>)
    requires AllValid(done) && Valid(next) && Compatible(bufs, done + [next]) && k < |EncodeSection(next)|
    ensures Readable(bufs)
    ensures var r := ReadSections(Encode(done) + EncodeSection(next)[..k], bufs);
      if k == 0 then r == (Ok, Restore(bufs, done)) else r.0 == ErrIo
  {
    assert forall s | s in done :: s in done + [next];
    ReadAll(done, EncodeSection(next)[..k], bufs);
    if k > 0 {
      RestoreCompatible(bufs, done, [next]);
      ReadCut(next, k, Restore(bufs, done));
    }
  }

  lemma {:induction false} RestoreSplit(bufs: seq<Buffer>, a: seq<Section>, b: seq<Section>)
    ensures Restore(bufs, a + b) == Restore(Restore(bufs, a), b)
    decreases a
  {
    if a == [] {
      assert a + b == b;
    } else {
      assert (a + b)[1..] == a[1..] + b;
      RestoreSplit(Apply(bufs, a[0]), a[1..], b);
    }
  }

  lemma ReadWhole(ss: seq<Section>, bufs: seq<Buffer>)
    requires AllValid(ss) && Compatible(bufs, ss)
    ensures Readable(bufs) && ReadSections(Encode(ss), bufs) == (Ok, Restore(bufs, ss))
  {
    ReadAll(ss, [], bufs);
    assert Encode(ss) + [] == Encode(ss);
  }

  lemma RestoreInsert(bufs: seq<Buffer>, a: seq<Section>, x: Section, b: seq<Section>)
    requires x.Other?
    ensures Restore(bufs, a + [x] + b) == Restore(bufs, a + b)
  {
    RestoreSplit(bufs, a, b);
    RestoreSplit(bufs, a + [x], b);
    RestoreSplit(bufs, a, [x]);
    assert [x][1..] == [];
  }

  /** A section the reader does not know, at any boundary, changes nothing. */
  lemma ForeignSectionIgnored(a: seq<Section>, x: Section, b: seq<Section>, bufs: seq<Buffer>)
    requires AllValid(a + b) && Valid(x) && x.Other? && Compatible(bufs, a + b)
    ensures Readable(bufs)
    ensures ReadSections(Encode(a + [x] + b), bufs) == ReadSections(Encode(a + b), bufs)
  {
    forall s | s in a + [x] + b ensures s == x || s in a + b {}
    ReadWhole(a + b, bufs);
    ReadWhole(a + [x] + b, bufs);
    RestoreInsert(bufs, a, x, b);
  }

  // ---------------------------------------------------------------- round trip

  ghost predicate DistinctNames(bs: seq<Buffer>) { forall i, j | 0 <= i < j < |bs| :: bs[i].name != bs[j].name }

  function Carts(ws: seq<Buffer>): (ss: seq<Section>)
    ensures |ss| == |ws| && forall i | 0 <= i < |ws| :: ss[i] == Cart(ws[i])
  { seq(|ws|, i requires 0 <= i < |ws| => Cart(ws[i])) }

  /** What the reader's buffer `r` should hold afterwards: the written buffer of its name, or itself. */
  function Expected(r: Buffer, ws: seq<Buffer>): Buffer {
    var k := Find(ws, r.name);
    if k < |ws| then Restored(r, ws[k]) else r
  }

  lemma FirstNameOnce(ws: seq<Buffer>)
    requires DistinctNames(ws) && ws != []
    ensures Find(ws[1..], ws[0].name) == |ws| - 1
  {
    forall i | 0 <= i < |ws| - 1 ensures ws[1..][i].name != ws[0].name { assert ws[1..][i] == ws[i + 1]; }
  }

  lemma ExpectedFirst(r: Buffer, ws: seq<Buffer>)
    requires DistinctNames(ws) && ws != [] && r.name == ws[0].name
    ensures Expected(r, ws) == Restored(r, ws[0]) == Expected(Restored(r, ws[0]), ws[1..])
  {
    FirstNameOnce(ws);
  }

  lemma ExpectedLater(r: Buffer, ws: seq<Buffer>)
    requires ws != [] && r.name != ws[0].name
    ensures Expected(r, ws) == Expected(r, ws[1..])
  {
    assert Find(ws, r.name) == 1 + Find(ws[1..], r.name);
  }

  /** A section changes the buffer of its name and no other. */
  lemma ApplyAt(rs: seq<Buffer>, w: Buffer, i: nat)
    requires DistinctNames(rs) && i < |rs|
    ensures |Apply(rs, Cart(w))| == |rs|
    ensures Apply(rs, Cart(w))[i] == if rs[i].name == w.name then Restored(rs[i], w) else rs[i]
  {
    var k := Find(rs, w.name);
    if rs[i].name == w.name { assert k == i; }
  }

  lemma ExpectedStep(rs: seq<Buffer>, ws: seq<Buffer>, i: nat)
    requires DistinctNames(rs) && DistinctNames(ws) && ws != [] && i < |rs|
    ensures |Apply(rs, Cart(ws[0]))| == |rs|
    ensures Expected(Apply(rs, Cart(ws[0]))[i], ws[1..]) == Expected(rs[i], ws)
  {
    ApplyAt(rs, ws[0], i);
    if rs[i].name == ws[0].name {
      ExpectedFirst(rs[i], ws);
    } else {
      ExpectedLater(rs[i], ws);
    }
  }

  /** For any order, subset or superset of buffers on the reading side. */
  lemma {:induction false} RestoreMeaning(rs: seq<Buffer>, ws: seq<Buffer>)
    requires DistinctNames(rs) && DistinctNames(ws)
    ensures |Restore(rs, Carts(ws))| == |rs|
    ensures forall i | 0 <= i < |rs| :: Restore(rs, Carts(ws))[i] == Expected(rs[i], ws)
    decreases ws
  {
    if ws != [] {
      var out := Apply(rs, Cart(ws[0]));
      assert Carts(ws)[1..] == Carts(ws[1..]);
      forall i | 0 <= i < |rs| ensures out[i].name == rs[i].name {}
      RestoreMeaning(out, ws[1..]);
      forall i | 0 <= i < |rs| ensures Expected(out[i], ws[1..]) == Expected(rs[i], ws) { ExpectedStep(rs, ws, i); }
    }
  }

  // ---------------------------------------------------------------- the header

  lemma Pow256Eight()
    ensures Pow256(8) == 0x1_0000_0000_0000_0000
  {
    WordIsPow();
    assert Pow256(5) == 256 * Pow256(4);
    assert Pow256(6) == 256 * Pow256(5);
    assert Pow256(7) == 256 * Pow256(6);
  }

  lemma HeaderSlices(a: seq<byte>, b: seq<byte>, c: seq<byte>, d: seq<byte>, e: seq<byte>, rest: seq<byte>)
    requires |a| == 4 && |b| == |c| == 2 && |d| == 8 && |e| == 4
    ensures var s := a + b + c + d + e + rest;
      s[..4] == a && s[6..8] == c && s[8..16] == d && s[16..20] == e && s[20..] == rest
  {
    var s := a + b + c + d + e + rest;
    assert s == a + (b + (c + (d + (e + rest))));
  }

  lemma HeaderPieces(h: Header, rest: seq<byte>)
    ensures var s := EncodeHeader(h) + rest;
      && |EncodeHeader(h)| == 20 && s[..4] == MAGIC && FromLe(s[6..8]) == 1
      && FromLe(s[8..16]) == h.schemaHash && U32At(s, 16) == h.saveVersion && s[20..] == rest
  {
    WordIsPow(); Pow256Eight();
    LeRoundTrip(1, 2); LeRoundTrip(h.schemaHash, 8); LeRoundTrip(h.saveVersion, 4);
    HeaderSlices(MAGIC, Le(1, 2), Le(1, 2), Le(h.schemaHash, 8), Le(h.saveVersion, 4), rest);
  }

  /** The header is checked first: a wrong schema hash stops before any buffer changes. */
  lemma ReadHeader(h: Header, rest: seq<byte>, want: nat, bufs: seq<Buffer>)
    requires Readable(bufs)
    ensures var r := Read(EncodeHeader(h) + rest, want, bufs);
      if want == h.schemaHash then r == (ReadSections(rest, bufs).0, h.saveVersion, ReadSections(rest, bufs).1)
      else r == (ErrSchema, h.saveVersion, bufs)
  {
    HeaderPieces(h, rest);
  }

  lemma HeaderCut(h: Header, k: nat, want: nat, bufs: seq<Buffer>)
    requires Readable(bufs) && k < 20
    ensures |EncodeHeader(h)| == 20 && Read(EncodeHeader(h)[..k], want, bufs) == (ErrIo, 0, bufs)
  {
    HeaderPieces(h, []);
    var full := EncodeHeader(h);
    assert full + [] == full;
    if k >= 16 { assert full[..k][..4] == full[..4] && full[..k][6..8] == full[6..8]; }
  }

  lemma CartsCompatible(ws: seq<Buffer>, rs: seq<Buffer>)
    requires forall w | w in ws :: Storable(w)
    requires forall r | r in rs :: Shaped(r)
    requires forall r, w | r in rs && w in ws && r.name == w.name :: SameShape(r, w)
    ensures AllValid(Carts(ws)) && Compatible(rs, Carts(ws))
  {
    var ss := Carts(ws);
    forall s | s in ss ensures Valid(s) && s.Cart? && s.buffer in ws {
      var i :| 0 <= i < |ss| && ss[i] == s;
      assert ws[i] in ws;
    }
  }

  /** The round trip: whatever order, subset or superset of buffers the reader has, it
      gets the saved version, each buffer that was written exactly as it was written,
      and every other buffer untouched. */
  lemma SaveRoundTrip(h: Header, ws: seq<Buffer>, rs: seq<Buffer>)
    requires DistinctNames(ws) && DistinctNames(rs)
    requires forall w | w in ws :: Storable(w)
    requires forall r | r in rs :: Shaped(r)
    requires forall r, w | r in rs && w in ws && r.name == w.name :: SameShape(r, w)
    ensures Readable(rs)
    ensures var (code, version, out) := Read(EncodeHeader(h) + Encode(Carts(ws)), h.schemaHash, rs);
      && code == Ok && version == h.saveVersion && |out| == |rs|
      && (forall i, j | 0 <= i < |rs| && 0 <= j < |ws| && rs[i].name == ws[j].name :: out[i] == ws[j])
      && (forall i | 0 <= i < |rs| && (forall w | w in ws :: w.name != rs[i].name) :: out[i] == rs[i])
  {
    var ss := Carts(ws);
    CartsCompatible(ws, rs);
    ReadWhole(ss, rs);
    ReadHeader(h, Encode(ss), h.schemaHash, rs);
    RestoreMeaning(rs, ws);
    var out := Restore(rs, ss);
    forall i, j | 0 <= i < |rs| && 0 <= j < |ws| && rs[i].name == ws[j].name ensures out[i] == ws[j] {
      assert Find(ws, rs[i].name) == j && rs[i] in rs && ws[j] in ws;
    }
  }

  // ---------------------------------------------------------------- damaged files

  /** Where byte `k` of a concatenation falls: after `j` whole pieces and `r` bytes more. */
  lemma {:induction false} LocatePiece(ps: seq<seq<byte>>, k: nat) returns (j: nat, r: nat)
    requires k <= |Concat(ps)|
    ensures j <= |ps| && (if j == |ps| then r == 0 else r < |ps[j]|)
    ensures k == |Concat(ps[..j])| + r
    ensures Concat(ps)[..k] == Concat(ps[..j]) + (if j == |ps| then [] else ps[j][..r])
    decreases ps
  {
    if ps == [] { return 0, 0; }
    var first, rest := ps[0], ps[1..];
    if k < |first| {
      assert (first + Concat(rest))[..k] == first[..k] && ps[..0] == [];
      return 0, k;
    }
    var i, q := LocatePiece(rest, k - |first|);
    j, r := i + 1, q;
    assert ps[..j][0] == first && ps[..j][1..] == rest[..i];
    LocateStep(first, Concat(rest), Concat(rest[..i]), if i == |rest| then [] else rest[i][..q], k);
  }

  function Pieces(ss: seq<Section>): (ps: seq<seq<byte>>)
    ensures |ps| == |ss| && forall i | 0 <= i < |ss| :: ps[i] == EncodeSection(ss[i])
  { seq(|ss|, i requires 0 <= i < |ss| => EncodeSection(ss[i])) }

  lemma {:induction false} EncodePieces(ss: seq<Section>)
    ensures Encode(ss) == Concat(Pieces(ss))
    decreases ss
  {
    if ss != [] {
      assert Pieces(ss)[1..] == Pieces(ss[1..]);
      EncodePieces(ss[1..]);
    }
  }

  lemma Locate(ss: seq<Section>, k: nat) returns (j: nat, r: nat)
    requires k <= |Encode(ss)|
    ensures j <= |ss| && (if j == |ss| then r == 0 else r < |EncodeSection(ss[j])|)
    ensures k == |Encode(ss[..j])| + r
    ensures Encode(ss)[..k] == Encode(ss[..j]) + (if j == |ss| then [] else EncodeSection(ss[j])[..r])
  {
    EncodePieces(ss);
    j, r := LocatePiece(Pieces(ss), k);
    assert Pieces(ss)[..j] == Pieces(ss[..j]);
    EncodePieces(ss[..j]);
  }

  lemma LocateStep(first: seq<byte>, rest: seq<byte>, a: seq<byte>, b: seq<byte>, k: nat)
    requires |first| <= k <= |first| + |rest| && rest[..k - |first|] == a + b
    ensures (first + rest)[..k] == (first + a) + b
  {
    assert (first + rest)[..k] == first + rest[..k - |first|];
    Associative(first, a, b);
  }

  lemma {:induction false} CartsPrefix(ws: seq<Buffer>, j: nat)
    requires j <= |ws|
    ensures Carts(ws)[..j] == Carts(ws[..j])
  {
    assert forall i | 0 <= i < j :: Carts(ws)[..j][i] == Carts(ws[..j])[i];
  }

  /** A header in front of sections: the reader's result is theirs, with the saved version. */
  lemma ReadBehindHeader(h: Header, s: seq<byte>, k: nat, rs: seq<Buffer>)
    requires Readable(rs) && k <= |s|
    ensures |EncodeHeader(h)| == 20
    ensures Read((EncodeHeader(h) + s)[..20 + k], h.schemaHash, rs)
         == (ReadSections(s[..k], rs).0, h.saveVersion, ReadSections(s[..k], rs).1)
  {
    HeaderPieces(h, s);
    assert (EncodeHeader(h) + s)[..20 + k] == EncodeHeader(h) + s[..k];
    ReadHeader(h, s[..k], h.schemaHash, rs);
  }

  /** A written file cut anywhere.  Inside the header it is refused with version zero.  After
      that the version is known; at a section boundary the buffers written before the cut,
      and only those, are restored, and anywhere else the cut is an I/O error. */
  lemma CutFile(h: Header, ws: seq<Buffer>, rs: seq<Buffer>, k: nat) returns (j: nat, r: nat)
    requires DistinctNames(ws) && DistinctNames(rs)
    requires forall w | w in ws :: Storable(w)
    requires forall b | b in rs :: Shaped(b)
    requires forall b, w | b in rs && w in ws && b.name == w.name :: SameShape(b, w)
    requires k <= |EncodeHeader(h) + Encode(Carts(ws))|
    ensures Readable(rs)
    ensures var (code, version, out) := Read((EncodeHeader(h) + Encode(Carts(ws)))[..k], h.schemaHash, rs);
      if k < 20 then (code, version, out) == (ErrIo, 0, rs)
      else
        && j <= |ws| && k == 20 + |Encode(Carts(ws[..j]))| + r && (j == |ws| ==> r == 0)
        && (j < |ws| ==> r < |EncodeSection(Cart(ws[j]))|)
        && version == h.saveVersion
        && (if r > 0 then code == ErrIo else
              code == Ok && |out| == |rs| && forall i | 0 <= i < |rs| :: out[i] == Expected(rs[i], ws[..j]))
  {
    var ss := Carts(ws);
    CartsCompatible(ws, rs);
    HeaderPieces(h, Encode(ss));
    if k < 20 {
      assert (EncodeHeader(h) + Encode(ss))[..k] == EncodeHeader(h)[..k];
      HeaderCut(h, k, h.schemaHash, rs);
      return 0, 0;
    }
    j, r := CutAfterHeader(h, ss, rs, k - 20);
    CartsPrefix(ws, j);
    RestoreMeaning(rs, ws[..j]);
  }

  lemma CutAfterHeader(h: Header, ss: seq<Section>, rs: seq<Buffer>, k: nat) returns (j: nat, r: nat)
    requires AllValid(ss) && Compatible(rs, ss) && k <= |Encode(ss)|
    ensures Readable(rs) && |EncodeHeader(h)| == 20
    ensures j <= |ss| && k == |Encode(ss[..j])| + r && (if j == |ss| then r == 0 else r < |EncodeSection(ss[j])|)
    ensures var (code, version, out) := Read((EncodeHeader(h) + Encode(ss))[..20 + k], h.schemaHash, rs);
      version == h.saveVersion && if r == 0 then code == Ok && out == Restore(rs, ss[..j]) else code == ErrIo
  {
    j, r := Locate(ss, k);
    CutSections(ss, j, r, rs);
    ReadBehindHeader(h, Encode(ss), k, rs);
  }

  lemma CutSections(ss: seq<Section>, j: nat, r: nat, rs: seq<Buffer>)
    requires AllValid(ss) && Compatible(rs, ss) && j <= |ss|
    requires if j == |ss| then r == 0 else r < |EncodeSection(ss[j])|
    ensures Readable(rs)
    ensures var out := ReadSections(Encode(ss[..j]) + (if j == |ss| then [] else EncodeSection(ss[j])[..r]), rs);
      if r == 0 then out == (Ok, Restore(rs, ss[..j])) else out.0 == ErrIo
  {
    assert forall s | s in ss[..j] :: s in ss;
    if j == |ss| {
      ReadWhole(ss[..j], rs);
      assert Encode(ss[..j]) + [] == Encode(ss[..j]);
    } else {
      assert ss[j] in ss && forall s | s in ss[..j] + [ss[j]] :: s in ss;
      ReadTruncated(ss[..j], ss[j], r, rs);
    }
  }

  /** A well-formed section of another kind, inserted into a written file at any section
      boundary, changes nothing. */
  lemma ForeignInFile(h: Header, a: seq<Section>, x: Section, b: seq<Section>, rs: seq<Buffer>)
    requires AllValid(a + b) && Valid(x) && x.Other? && Compatible(rs, a + b)
    ensures Readable(rs)
    ensures Read(EncodeHeader(h) + Encode(a + [x] + b), h.schemaHash, rs) == Read(EncodeHeader(h) + Encode(a + b), h.schemaHash, rs)
  {
    ForeignSectionIgnored(a, x, b, rs);
    ReadHeader(h, Encode(a + [x] + b), h.schemaHash, rs);
    ReadHeader(h, Encode(a + b), h.schemaHash, rs);
  }

  // ---------------------------------------------------------------- names

  lemma {:induction false} EncodeSplit(a: seq<Section>, b: seq<Section>)
    ensures Encode(a + b) == Encode(a) + Encode(b)
    decreases a
  {
    if a == [] {
      assert a + b == b;
    } else {
      assert (a + b)[0] == a[0] && (a + b)[1..] == a[1..] + b;
      EncodeSplit(a[1..], b);
      Associative(EncodeSection(a[0]), Encode(a[1..]), Encode(b));
    }
  }

  /** The first buffer whose name the reader has no room for. */
  function FirstLong(ws: seq<Buffer>): (j: nat)
    ensures j <= |ws| && (forall i | 0 <= i < j :: |ws[i].name| < 256) && (j < |ws| ==> |ws[j].name| >= 256)
  { if ws == [] || |ws[0].name| >= 256 then 0 else 1 + FirstLong(ws[1..]) }

  lemma StorablePrefix(ws: seq<Buffer>, rs: seq<Buffer>)
    requires forall w | w in ws :: Writable(w)
    requires forall b | b in rs :: Shaped(b)
    requires forall b, w | b in rs && w in ws && b.name == w.name :: SameShape(b, w)
    ensures var done := Carts(ws[..FirstLong(ws)]); AllValid(done) && Compatible(rs, done)
  {
    var vs := ws[..FirstLong(ws)];
    forall w | w in vs ensures Storable(w) {
      var i :| 0 <= i < |vs| && vs[i] == w;
      assert ws[i] in ws;
    }
    CartsCompatible(vs, rs);
  }

  /** A written file is read back without error if and only if every name has fewer than 256
      bytes.  Either way the version is returned, and the buffers in front of the first longer
      name, and only those, are restored. */
  lemma ReadableIffShortNames(h: Header, ws: seq<Buffer>, rs: seq<Buffer>)
    requires forall w | w in ws :: Writable(w)
    requires forall b | b in rs :: Shaped(b)
    requires forall b, w | b in rs && w in ws && b.name == w.name :: SameShape(b, w)
    ensures Readable(rs)
    ensures var (code, version, out) := Read(EncodeHeader(h) + Encode(Carts(ws)), h.schemaHash, rs);
      && (code == Ok <==> forall w | w in ws :: |w.name| < 256)
      && version == h.saveVersion && out == Restore(rs, Carts(ws[..FirstLong(ws)]))
  {
    ReadHeader(h, Encode(Carts(ws)), h.schemaHash, rs);
    ReadUpToLong(ws, rs);
    if FirstLong(ws) < |ws| { assert ws[FirstLong(ws)] in ws; }
  }

  lemma ReadUpToLong(ws: seq<Buffer>, rs: seq<Buffer>)
    requires forall w | w in ws :: Writable(w)
    requires forall b | b in rs :: Shaped(b)
    requires forall b, w | b in rs && w in ws && b.name == w.name :: SameShape(b, w)
    ensures Readable(rs)
    ensures ReadSections(Encode(Carts(ws)), rs)
      == (if FirstLong(ws) < |ws| then ErrIo else Ok, Restore(rs, Carts(ws[..FirstLong(ws)])))
  {
    var j := FirstLong(ws);
    StorablePrefix(ws, rs);
    assert Carts(ws) == Carts(ws[..j]) + Carts(ws[j..]);
    ReadOn(Carts(ws[..j]), Carts(ws[j..]), rs);
    LongAhead(ws[j..], Restore(rs, Carts(ws[..j])));
  }

  lemma ReadOn(done: seq<Section>, rest: seq<Section>, rs: seq<Buffer>)
    requires Readable(rs) && AllValid(done) && Compatible(rs, done)
    ensures Readable(Restore(rs, done))
    ensures ReadSections(Encode(done + rest), rs) == ReadSections(Encode(rest), Restore(rs, done))
  {
    EncodeSplit(done, rest);
    ReadAll(done, Encode(rest), rs);
  }

  lemma LongAhead(ws: seq<Buffer>, bufs: seq<Buffer>)
    requires Readable(bufs) && forall w | w in ws :: Writable(w)
    requires ws != [] ==> |ws[0].name| >= 256
    ensures ReadSections(Encode(Carts(ws)), bufs) == (if ws == [] then Ok else ErrIo, bufs)
  {
    if ws != [] {
      assert ws[0] in ws && Carts(ws)[0] == Cart(ws[0]);
      LongNameRefused(ws[0], Encode(Carts(ws)[1..]), bufs);
    }
  }

  // ---------------------------------------------------------------- older files

  /** A header from before the save version was added: 16 bytes, minor version 0. */
  function OldHeader(major: nat, schemaHash: u64): seq<byte> { MAGIC + Le(major, 2) + Le(0, 2) + Le(schemaHash, 8) }

  /** It is read with version 0, and the sections behind it as behind a current header. */
  lemma ReadOldHeader(major: nat, h: Header, rest: seq<byte>, rs: seq<Buffer>)
    requires Readable(rs)
    ensures var now := Read(EncodeHeader(h) + rest, h.schemaHash, rs);
      Read(OldHeader(major, h.schemaHash) + rest, h.schemaHash, rs) == (now.0, 0, now.2)
  {
    ReadHeader(h, rest, h.schemaHash, rs);
    Pow256Eight();
    LeRoundTrip(h.schemaHash, 8);
    WordIsPow();
    LeRoundTrip(0, 2);
    OldSlices(MAGIC, Le(major, 2), Le(0, 2), Le(h.schemaHash, 8), rest);
  }

  lemma OldSlices(a: seq<byte>, b: seq<byte>, c: seq<byte>, d: seq<byte>, rest: seq<byte>)
    requires |a| == 4 && |b| == |c| == 2 && |d| == 8
    ensures var s := a + b + c + d + rest; s[..4] == a && s[6..8] == c && s[8..16] == d && s[16..] == rest
  {
    assert a + b + c + d + rest == a + (b + (c + (d + rest)));
  }
}

/** The writer and the reader, streaming through a sink and a source. */
module Blys {
  import opened BlysFormat
  import opened BlysSpec

  /** A byte sink that accepts `limit` bytes in all. */
  class Sink {
    const limit: nat
    var data: seq<byte>

    constructor (limit: nat)
      ensures this.limit == limit && data == []
    {
      this.limit, data := limit, [];
    }

    method Put(s: seq<byte>) returns (ok: bool)
      modifies this
      ensures ok == (|old(data)| + |s| <= limit)
      ensures data == if ok then old(data) + s else old(data)
    {
      ok := |data| + |s| <= limit;
      if ok { data := data + s; }
    }
  }

  /** A byte source: 0 on success, 1 when nothing is left, -1 on a short read. */
  class Source {
    const data: seq<byte>
    var pos: nat

    constructor (data: seq<byte>)
      ensures this.data == data && pos == 0
    {
      this.data, pos := data, 0;
    }

    function Rest(): seq<byte>
      reads this
    { if pos <= |data| then data[pos..] else [] }

    method Get(n: nat) returns (code: int, s: seq<byte>)
      modifies this
      ensures code == (if n <= |old(Rest())| then 0 else if old(Rest()) == [] then 1 else -1)
      ensures code == 0 ==> s == old(Rest())[..n] && Rest() == old(Rest())[n..]
      ensures code != 0 ==> Rest() == old(Rest())
    {
      var r := Rest();
      if n > |r| { return if r == [] then 1 else -1, []; }
      assert pos + n <= |data| || n == 0;
      code, s := 0, r[..n];
      pos := pos + n;
    }

    /** Discard `n` bytes through a 256-byte scratch buffer. */
    method Skip(n: nat) returns (ok: bool)
      modifies this
      ensures ok == (n <= |old(Rest())|)
      ensures ok ==> Rest() == old(Rest())[n..]
    {
      var left := n;
      while left > 0
        invariant 0 <= left <= n && n - left <= |old(Rest())| && Rest() == old(Rest())[n - left..]
      {
        var chunk := if left > 256 then 256 else left;
        var code, _ := Get(chunk);
        if code != 0 { return false; }
        left := left - chunk;
      }
      ok := true;
    }
  }

  // ---------------------------------------------------------------- writing

  /** Still to write: `s`, after which `goal` is complete. */
  ghost predicate Toward(sink: Sink, s: seq<byte>, goal: seq<byte>)
    reads sink
  { sink.data + s == goal }

  lemma Advance(d: seq<byte>, x: seq<byte>, rest: seq<byte>)
    ensures d + (x + rest) == (d + x) + rest
  {
  }

  /** One chunk: either it lands and the rest remains, or the goal cannot fit. */
  method PutChunk(x: seq<byte>, sink: Sink, ghost rest: seq<byte>, ghost goal: seq<byte>) returns (ok: bool)
    requires Toward(sink, x + rest, goal)
    modifies sink
    ensures ok ==> Toward(sink, rest, goal) && sink.data == old(sink.data) + x && |sink.data| <= sink.limit
    ensures !ok ==> |goal| > sink.limit && sink.data == old(sink.data)
  {
    Advance(sink.data, x, rest);
    ok := sink.Put(x);
  }

  method WriteBody(b: Buffer, sink: Sink, ghost rest: seq<byte>, ghost goal: seq<byte>) returns (ok: bool)
    requires Writable(b) && Toward(sink, CartBody(b) + rest, goal)
    modifies sink
    ensures ok ==> Toward(sink, rest, goal) && |sink.data| <= sink.limit
    ensures !ok ==> |goal| > sink.limit
    ensures sink.data <= goal
  {
    ghost var tail := b.bitset + (b.gens + rest);
    assert CartBody(b) + rest == Concat(b.fields[0..]) + tail by { assert b.fields[0..] == b.fields; }
    for i := 0 to |b.types|
      invariant Toward(sink, Concat(b.fields[i..]) + tail, goal)
    {
      FieldsFit(b, i);
      assert b.fields[i..][1..] == b.fields[i + 1..];
      Advance(b.fields[i], Concat(b.fields[i + 1..]), tail);
      if FieldBytes(b, i) > 0 {
        ok := PutChunk(b.fields[i], sink, Concat(b.fields[i + 1..]) + tail, goal);
        if !ok { return; }
      } else {
        assert b.fields[i] == [];
      }
    }
    assert Concat(b.fields[|b.types|..]) + tail == tail by { assert b.fields[|b.types|..] == []; }
    ok := PutChunk(b.bitset, sink, b.gens + rest, goal);
    if !ok { return; }
    ok := PutChunk(b.gens, sink, rest, goal);
  }

  lemma Regroup(h: seq<byte>, n: seq<byte>, name: seq<byte>, body: seq<byte>, rest: seq<byte>)
    ensures (h + (n + (name + body))) + rest == h + (n + (name + (body + rest)))
  {
    assert (n + (name + body)) + rest == n + (name + (body + rest));
  }

  lemma SectionChunks(b: Buffer, rest: seq<byte>)
    ensures EncodeSection(Cart(b)) + rest
         == (CART + Le(PayloadBytes(b), 4)) + (Le(|b.name|, 4) + (b.name + (CartBody(b) + rest)))
  {
    Regroup(CART + Le(PayloadBytes(b), 4), Le(|b.name|, 4), b.name, CartBody(b), rest);
  }

  method WriteSection(b: Buffer, sink: Sink, ghost rest: seq<byte>, ghost goal: seq<byte>) returns (ok: bool)
    requires Writable(b) && Toward(sink, EncodeSection(Cart(b)) + rest, goal)
    modifies sink
    ensures ok ==> Toward(sink, rest, goal) && |sink.data| <= sink.limit
    ensures !ok ==> |goal| > sink.limit
    ensures sink.data <= goal
  {
    var size := PayloadSize(b);
    assert size == PayloadBytes(b);
    SectionChunks(b, rest);
    var s := PutLe(size, 4);
    ok := PutChunk(CART + s, sink, Le(|b.name|, 4) + (b.name + (CartBody(b) + rest)), goal);
    if !ok { return; }
    ok := WriteName(b.name, sink, CartBody(b) + rest, goal);
    if !ok { return; }
    ok := WriteBody(b, sink, rest, goal);
  }

  method WriteName(name: seq<byte>, sink: Sink, ghost rest: seq<byte>, ghost goal: seq<byte>) returns (ok: bool)
    requires Toward(sink, Le(|name|, 4) + (name + rest), goal)
    modifies sink
    ensures ok ==> Toward(sink, rest, goal)
    ensures !ok ==> |goal| > sink.limit
    ensures sink.data <= goal
  {
    var n := PutLe(|name|, 4);
    ok := PutChunk(n, sink, name + rest, goal);
    if !ok { return; }
    if |name| > 0 {
      ok := PutChunk(name, sink, rest, goal);
    } else {
      assert name + rest == rest;
    }
  }

  /** The writer delivers exactly the encoded file, or fails because it does not fit,
      having delivered a prefix of it. */
  method Write(h: Header, bufs: seq<Buffer>, sink: Sink) returns (code: Code)
    requires forall b | b in bufs :: Writable(b)
    modifies sink
    ensures var file := old(sink.data) + (EncodeHeader(h) + Encode(Carts(bufs)));
      && sink.data <= file
      && code == (if |file| <= sink.limit then Ok else ErrIo)
      && (code == Ok ==> sink.data == file)
  {
    ghost var ss := Carts(bufs);
    ghost var goal := sink.data + (EncodeHeader(h) + Encode(ss));
    var major := PutLe(1, 2);
    var minor := PutLe(1, 2);
    var hash := PutLe(h.schemaHash, 8);
    var version := PutLe(h.saveVersion, 4);
    var ok := PutChunk(MAGIC + major + minor + hash + version, sink, Encode(ss), goal);
    if !ok { return ErrIo; }
    assert ss[0..] == ss;
    for i := 0 to |bufs|
      invariant Toward(sink, Encode(ss[i..]), goal) && |sink.data| <= sink.limit
    {
      assert ss[i..][1..] == ss[i + 1..] && bufs[i] in bufs;
      ok := WriteSection(bufs[i], sink, Encode(ss[i + 1..]), goal);
      if !ok { return ErrIo; }
    }
    assert ss[|bufs|..] == [] && sink.data + [] == sink.data;
    code := Ok;
  }

  // ---------------------------------------------------------------- reading

  /** Fill one buffer's arrays from the source. */
  method FillBuffer(b: Buffer, src: Source) returns (ok: bool, c: Buffer)
    requires |b.types| == |b.fields|
    modifies src
    ensures var r := Fill(old(src.Rest()), b, 0);
      ok == r.0 && c == r.1 && (ok ==> src.Rest() == r.2)
  {
    ghost var s0 := src.Rest();
    c := b;
    for i := 0 to |b.types|
      invariant c.types == b.types && |c.fields| == |b.fields|
      invariant Fill(s0, b, 0) == Fill(src.Rest(), c, i)
    {
      var n := FieldBytes(c, i);
      var code, s := src.Get(n);
      if code != 0 { return false, c; }
      c := c.(fields := c.fields[i := Over(s, c.fields[i])]);
    }
    var code, s := src.Get(BITSET_BYTES);
    if code != 0 { return false, c; }
    c := c.(bitset := s);
    code, s := src.Get(GENS_BYTES);
    if code != 0 { return false, c; }
    c := c.(gens := s);
    ok := true;
  }

  method FindBuffer(bufs: array<Buffer>, name: seq<byte>) returns (k: nat)
    ensures k == Find(bufs[..], name)
  {
    k := 0;
    while k < bufs.Length
      invariant 0 <= k <= bufs.Length && forall i | 0 <= i < k :: bufs[i].name != name
    {
      if bufs[k].name == name { return; }
      k := k + 1;
    }
  }

  datatype Progress = More | Done(code: Code)

  method GetU32(s: seq<byte>) returns (v: u32)
    requires |s| == 4
    ensures v == U32At(s, 0)
  {
    FromLeBound(s);
    WordIsPow();
    assert s[0..4] == s;
    v := GetLe(s);
  }

  /** One turn of the section loop. */
  method ReadSection(bufs: array<Buffer>, src: Source) returns (p: Progress)
    requires Readable(bufs[..])
    modifies bufs, src
    ensures Readable(bufs[..])
    ensures p.More? ==> |src.Rest()| < |old(src.Rest())|
    ensures p.More? ==> ReadSections(src.Rest(), bufs[..]) == old(ReadSections(src.Rest(), bufs[..]))
    ensures p.Done? ==> (p.code, bufs[..]) == old(ReadSections(src.Rest(), bufs[..]))
  {
    ghost var s0 := src.Rest();
    var code, sect := src.Get(8);
    if code == 1 { return Done(Ok); }
    if code != 0 { return Done(ErrIo); }
    assert sect[4..8][0..4] == s0[4..8] && sect[..4] == s0[..4];
    var payload := GetU32(sect[4..8]);
    if sect[..4] != CART {
      var ok := src.Skip(payload);
      return if ok then More else Done(ErrIo);
    }
    p := ReadNamedSection(payload, bufs, src);
  }

  /** A cart section after its 8-byte header. */
  method ReadNamedSection(payload: u32, bufs: array<Buffer>, src: Source) returns (p: Progress)
    requires Readable(bufs[..])
    modifies bufs, src
    ensures Readable(bufs[..])
    ensures p.More? ==> |src.Rest()| <= |old(src.Rest())|
    ensures p.More? ==> ReadSections(src.Rest(), bufs[..]) == old(ReadNamed(payload, src.Rest(), bufs[..]))
    ensures p.Done? ==> (p.code, bufs[..]) == old(ReadNamed(payload, src.Rest(), bufs[..]))
  {
    ghost var s0 := src.Rest();
    var code, nl := src.Get(4);
    if code != 0 { return Done(ErrIo); }
    assert nl[0..4] == s0[0..4];
    var n := GetU32(nl);
    if n >= 256 { return Done(ErrIo); }
    var name;
    code, name := src.Get(n);
    if code != 0 { return Done(ErrIo); }
    p := ReadCartBody(payload, name, bufs, src);
  }

  method ReadCartBody(payload: nat, name: seq<byte>, bufs: array<Buffer>, src: Source) returns (p: Progress)
    requires payload < WORD && Readable(bufs[..])
    modifies bufs, src
    ensures Readable(bufs[..])
    ensures p.More? ==> |src.Rest()| <= |old(src.Rest())|
    ensures p.More? ==> ReadSections(src.Rest(), bufs[..]) == old(ReadCart(payload, name, src.Rest(), bufs[..]))
    ensures p.Done? ==> (p.code, bufs[..]) == old(ReadCart(payload, name, src.Rest(), bufs[..]))
  {
    var k := FindBuffer(bufs, name);
    if k == bufs.Length {
      var ok := src.Skip((payload - 4 - |name|) % WORD);
      return if ok then More else Done(ErrIo);
    }
    assert bufs[..][k] in bufs[..];
    FillShrinks(src.Rest(), bufs[k], 0);
    ghost var was := bufs[..];
    var ok, b := FillBuffer(bufs[k], src);
    bufs[k] := b;
    assert bufs[..] == was[k := b];
    p := if ok then More else Done(ErrIo);
  }

  /** The reader computes exactly `BlysSpec.Read` of the source's bytes, filling the
      buffers in place. */
  method ReadFile(want: nat, bufs: array<Buffer>, src: Source) returns (code: Code, version: u32)
    requires Readable(bufs[..])
    modifies bufs, src
    ensures (code, version, bufs[..]) == old(Read(src.Rest(), want, bufs[..]))
  {
    ghost var s0, b0 := src.Rest(), bufs[..];
    version := 0;
    var c, h := src.Get(16);
    if c != 0 || h[..4] != MAGIC { return ErrIo, 0; }
    assert s0[..16][6..8] == s0[6..8] && s0[..16][8..16] == s0[8..16];
    var minor := GetLe(h[6..8]);
    if minor >= 1 {
      var sv;
      c, sv := src.Get(4);
      if c != 0 { return ErrIo, 0; }
      assert sv[0..4] == s0[16..20];
      version := GetU32(sv);
    }
    var hash := GetLe(h[8..16]);
    if hash != want { return ErrSchema, version; }
    while true
      invariant Readable(bufs[..])
      invariant Read(s0, want, b0) ==
        var r := ReadSections(src.Rest(), bufs[..]); (r.0, version, r.1)
      decreases |src.Rest()|
    {
      var p := ReadSection(bufs, src);
      if p.Done? { return p.code, version; }
    }
  }
}
