/** Classic BPF, as far as a seccomp filter of loads, equality jumps and returns needs it. */
module Bpf {
  type u8 = x: int | 0 <= x < 256
  type u32 = x: int | 0 <= x < 0x1_0000_0000

  datatype Insn = Insn(code: u32, jt: u8, jf: u8, k: u32)

  /** The part of the kernel's seccomp data the filter looks at. */
  datatype Call = Call(nr: u32, arch: u32)

  datatype Option<+T> = None | Some(value: T)

  const LD_W_ABS: u32 := 0x20
  const JEQ_K: u32 := 0x15
  const RET_K: u32 := 0x06
  const NR: u32 := 0
  const ARCH: u32 := 4

  /** Run from `pc` with accumulator `acc`.  Jump offsets count from the next instruction.
      `None` is a program that runs off its end, loads elsewhere or is malformed. */
  function Exec(p: seq<Insn>, c: Call, pc: nat, acc: u32): Option<u32>
    decreases |p| - pc
  {
    if pc >= |p| then None
    else
      var i := p[pc];
      if i.code == RET_K then Some(i.k)
      else if i.code == JEQ_K then Exec(p, c, pc + 1 + (if acc == i.k then i.jt else i.jf), acc)
      else if i.code == LD_W_ABS && i.k == NR then Exec(p, c, pc + 1, c.nr)
      else if i.code == LD_W_ABS && i.k == ARCH then Exec(p, c, pc + 1, c.arch)
      else None
  }
}

/** The launcher's arch-dispatch filter: two allowlists compiled to one BPF program. */
module Seccomp {
  import opened Bpf

  const KILL: u32 := 0x8000_0000
  const ALLOW: u32 := 0x7fff_0000
  const RISCV64: u32 := 0xC000_00F3
  const RISCV32: u32 := 0x4000_00F3

  function Stmt(code: u32, k: u32): Insn { Insn(code, 0, 0, k) }

  /** One allowlist entry per pair: skip the ALLOW unless the number matches. */
  function AllowPairs(nrs: seq<u32>): (p: seq<Insn>)
    ensures |p| == 2 * |nrs|
  {
    if nrs == [] then [] else
      AllowPairs(nrs[..|nrs| - 1]) + [Insn(JEQ_K, 0, 1, nrs[|nrs| - 1]), Stmt(RET_K, ALLOW)]
  }

  function Block(nrs: seq<u32>): seq<Insn> { [Stmt(LD_W_ABS, NR)] + AllowPairs(nrs) + [Stmt(RET_K, KILL)] }

  function Dispatch(n64: nat): seq<Insn>
    requires 2 + 2 * n64 <= 255
  { [Stmt(LD_W_ABS, ARCH), Insn(JEQ_K, 0, 2 + 2 * n64, RISCV64)] }

  const Check32: seq<Insn> := [Insn(JEQ_K, 1, 0, RISCV32), Stmt(RET_K, KILL)]

  function Filter(rv64: seq<u32>, rv32: seq<u32>): (p: seq<Insn>)
    requires 2 + 2 * |rv64| <= 255
    ensures |p| == 8 + 2 * (|rv64| + |rv32|)
  { Dispatch(|rv64|) + Block(rv64) + Check32 + Block(rv32) }

  /** What the filter is for. */
  predicate Permitted(c: Call, rv64: seq<u32>, rv32: seq<u32>) {
    (c.arch == RISCV64 && c.nr in rv64) || (c.arch == RISCV32 && c.nr in rv32)
  }

  lemma {:induction false} PairsAt(nrs: seq<u32>, j: nat)
    requires j < |nrs|
    ensures AllowPairs(nrs)[2 * j] == Insn(JEQ_K, 0, 1, nrs[j]) && AllowPairs(nrs)[2 * j + 1] == Stmt(RET_K, ALLOW)
  {
    if j < |nrs| - 1 { PairsAt(nrs[..|nrs| - 1], j); }
  }

  /** From entry `j` on, a block allows exactly the numbers left in its list. */
  lemma {:induction false} PairsRun(p: seq<Insn>, c: Call, at: nat, nrs: seq<u32>, j: nat)
    requires j <= |nrs| && at + 2 * |nrs| < |p|
    requires p[at..at + 2 * |nrs|] == AllowPairs(nrs) && p[at + 2 * |nrs|] == Stmt(RET_K, KILL)
    ensures Exec(p, c, at + 2 * j, c.nr) == Some(if c.nr in nrs[j..] then ALLOW else KILL)
    decreases |nrs| - j
  {
    if j < |nrs| {
      PairsAt(nrs, j);
      var q := p[at..at + 2 * |nrs|];
      assert p[at + 2 * j] == q[2 * j] && p[at + 2 * j + 1] == q[2 * j + 1];
      assert nrs[j..] == [nrs[j]] + nrs[j + 1..];
      PairsRun(p, c, at, nrs, j + 1);
    }
  }

  lemma SubSlice(p: seq<Insn>, at: nat, n: nat, i: nat, m: nat)
    requires at + n <= |p| && i + m <= n
    ensures p[at..at + n][i..i + m] == p[at + i..at + i + m]
  {
    var x, y := p[at..at + n][i..i + m], p[at + i..at + i + m];
    assert |x| == |y|;
    forall k | 0 <= k < |x| ensures x[k] == y[k] {
      assert x[k] == p[at..at + n][i + k] == p[at + (i + k)];
    }
  }

  lemma BlockRun(p: seq<Insn>, c: Call, at: nat, nrs: seq<u32>, acc: u32)
    requires at + |Block(nrs)| <= |p| && p[at..at + |Block(nrs)|] == Block(nrs)
    ensures Exec(p, c, at, acc) == Some(if c.nr in nrs then ALLOW else KILL)
  {
    var b := p[at..at + |Block(nrs)|];
    assert p[at] == b[0] && p[at + 1 + 2 * |nrs|] == b[1 + 2 * |nrs|];
    SubSlice(p, at, |Block(nrs)|, 1, 2 * |nrs|);
    assert b[1..1 + 2 * |nrs|] == AllowPairs(nrs);
    PairsRun(p, c, at + 1, nrs, 0);
    assert nrs[0..] == nrs;
  }

  /** Compiler correctness: the program always halts inside its own text, and it answers
      ALLOW exactly for the permitted calls and KILL for every other. */
  lemma FilterCorrect(rv64: seq<u32>, rv32: seq<u32>, c: Call)
    requires 2 + 2 * |rv64| <= 255
    ensures Exec(Filter(rv64, rv32), c, 0, 0) == Some(if Permitted(c, rv64, rv32) then ALLOW else KILL)
  {
    var p := Filter(rv64, rv32);
    var at32 := 4 + 2 * |rv64|;
    assert p[0] == Stmt(LD_W_ABS, ARCH) && p[1] == Insn(JEQ_K, 0, 2 + 2 * |rv64|, RISCV64);
    assert p[2..2 + |Block(rv64)|] == Block(rv64);
    assert p[at32] == Insn(JEQ_K, 1, 0, RISCV32) && p[at32 + 1] == Stmt(RET_K, KILL);
    assert p[at32 + 2..at32 + 2 + |Block(rv32)|] == Block(rv32);
    BlockRun(p, c, 2, rv64, c.arch);
    BlockRun(p, c, at32 + 2, rv32, c.arch);
    assert Exec(p, c, 0, 0) == Exec(p, c, 1, c.arch);
    if c.arch == RISCV64 {
      assert Exec(p, c, 1, c.arch) == Exec(p, c, 2, c.arch);
    } else {
      assert Exec(p, c, 1, c.arch) == Exec(p, c, at32, c.arch);
      assert Exec(p, c, at32 + 1, c.arch) == Some(KILL);
    }
  }

  /** One block of the program text, instruction by instruction. */
  ghost predicate BlockText(p: seq<Insn>, at: nat, nrs: seq<u32>) {
    && at + 2 + 2 * |nrs| <= |p|
    && p[at] == Insn(0x20, 0, 0, 0) && p[at + 1 + 2 * |nrs|] == Insn(0x06, 0, 0, 0x8000_0000)
    && forall j | 0 <= j < |nrs| ::
         p[at + 1 + 2 * j] == Insn(0x15, 0, 1, nrs[j]) && p[at + 2 + 2 * j] == Insn(0x06, 0, 0, 0x7fff_0000)
  }

  lemma BlockHasText(p: seq<Insn>, at: nat, nrs: seq<u32>)
    requires at + |Block(nrs)| <= |p| && p[at..at + |Block(nrs)|] == Block(nrs)
    ensures BlockText(p, at, nrs)
  {
    var b := p[at..at + |Block(nrs)|];
    assert p[at] == b[0] && p[at + 1 + 2 * |nrs|] == b[1 + 2 * |nrs|];
    forall j | 0 <= j < |nrs|
      ensures p[at + 1 + 2 * j] == Insn(0x15, 0, 1, nrs[j]) && p[at + 2 + 2 * j] == Insn(0x06, 0, 0, 0x7fff_0000)
    {
      PairsAt(nrs, j);
      assert p[at + 1 + 2 * j] == b[1 + 2 * j] && p[at + 2 + 2 * j] == b[2 + 2 * j];
    }
  }

  /** The whole program in the kernel's numbers: dispatch on the architecture, the 64-bit
      block, the check for 32 bits, the 32-bit block. */
  lemma FilterText(rv64: seq<u32>, rv32: seq<u32>)
    requires |rv64| <= 126
    ensures var (p, n) := (Filter(rv64, rv32), |rv64|);
      && |p| == 8 + 2 * (n + |rv32|)
      && p[0] == Insn(0x20, 0, 0, 4) && p[1] == Insn(0x15, 0, 2 + 2 * n, 0xC000_00F3)
      && BlockText(p, 2, rv64)
      && p[4 + 2 * n] == Insn(0x15, 1, 0, 0x4000_00F3) && p[5 + 2 * n] == Insn(0x06, 0, 0, 0x8000_0000)
      && BlockText(p, 6 + 2 * n, rv32)
  {
    var (p, n) := (Filter(rv64, rv32), |rv64|);
    assert p[2..2 + |Block(rv64)|] == Block(rv64);
    assert p[6 + 2 * n..6 + 2 * n + |Block(rv32)|] == Block(rv32);
    BlockHasText(p, 2, rv64);
    BlockHasText(p, 6 + 2 * n, rv32);
  }

  lemma TwoMore(a: seq<Insn>, b: seq<Insn>, at: nat, i: nat)
    requires at <= i && i + 2 <= |a| == |b| && b == a[i := b[i]][i + 1 := b[i + 1]]
    ensures b[at..i + 2] == a[at..i] + [b[i], b[i + 1]]
    ensures b[..at] == a[..at] && b[i + 2..] == a[i + 2..]
  {}

  /** Write one allowlist block at `at`. */
  method EmitBlock(buf: array<Insn>, at: nat, nrs: seq<u32>) returns (i: nat)
    requires at + |Block(nrs)| <= buf.Length
    modifies buf
    ensures i == at + |Block(nrs)| && buf[at..i] == Block(nrs)
    ensures buf[..at] == old(buf[..at]) && buf[i..] == old(buf[i..])
  {
    i := at;
    buf[i] := Stmt(LD_W_ABS, NR);
    i := i + 1;
    for j := 0 to |nrs|
      invariant i == at + 1 + 2 * j
      invariant buf[at..i] == [Stmt(LD_W_ABS, NR)] + AllowPairs(nrs[..j])
      invariant buf[..at] == old(buf[..at]) && buf[i..] == old(buf[i..])
    {
      assert nrs[..j + 1][..j] == nrs[..j];
      ghost var before := buf[..];
      buf[i] := Insn(JEQ_K, 0, 1, nrs[j]);
      buf[i + 1] := Stmt(RET_K, ALLOW);
      TwoMore(before, buf[..], at, i);
      i := i + 2;
    }
    assert nrs[..|nrs|] == nrs;
    ghost var done := buf[at..i];
    buf[i] := Stmt(RET_K, KILL);
    assert buf[at..i + 1] == done + [buf[i]];
    i := i + 1;
  }

  /** Refuses exactly the lists that do not fit the buffer or the 8-bit jump; otherwise the
      buffer starts with the compiled filter and is unchanged after it. */
  method BuildLauncherFilter(buf: array<Insn>, bufsz: nat, rv64: seq<u32>, rv32: seq<u32>) returns (n: int)
    requires bufsz <= buf.Length
    modifies buf
    ensures n == if 8 + 2 * (|rv64| + |rv32|) <= bufsz && |rv64| <= 126 then 8 + 2 * (|rv64| + |rv32|) else -1
    ensures n < 0 ==> buf[..] == old(buf[..])
    ensures n >= 0 ==> n <= buf.Length && buf[..n] == Filter(rv64, rv32) && buf[n..] == old(buf[n..])
  {
    var total := 8 + 2 * (|rv64| + |rv32|);
    if total > bufsz { return -1; }
    if 2 + 2 * |rv64| > 255 { return -1; }
    ghost var before := buf[..];
    buf[0] := Stmt(LD_W_ABS, ARCH);
    buf[1] := Insn(JEQ_K, 0, 2 + 2 * |rv64|, RISCV64);
    TwoMore(before, buf[..], 0, 0);
    assert buf[..2] == Dispatch(|rv64|);
    var i := EmitBlock(buf, 2, rv64);
    assert buf[..i] == Dispatch(|rv64|) + Block(rv64);
    before := buf[..];
    buf[i] := Insn(JEQ_K, 1, 0, RISCV32);
    buf[i + 1] := Stmt(RET_K, KILL);
    TwoMore(before, buf[..], 0, i);
    assert buf[..i + 2] == Dispatch(|rv64|) + Block(rv64) + Check32;
    n := EmitBlock(buf, i + 2, rv32);
    assert buf[..n] == buf[..i + 2] + buf[i + 2..n] && n == total;
  }

  const Rv64Allowed: seq<u32> := [221, 64, 94]

  const Rv32Allowed: seq<u32> :=
    [56, 57, 63, 25, 291, 222, 226, 214, 96, 66, 277, 80, 215, 278, 261, 29, 64, 72, 93, 94]

  /** The filter that is installed fits the 256-instruction buffer.  The 64-bit launcher may do
      nothing but exec, write and exit, a 32-bit cart only the listed calls, and every other
      call of either, or of any other architecture, kills the process. */
  lemma ShippedFilter(c: Call)
    ensures |Filter(Rv64Allowed, Rv32Allowed)| <= 256
    ensures Exec(Filter(Rv64Allowed, Rv32Allowed), c, 0, 0) ==
      if (c.arch == 0xC000_00F3 && c.nr in {221, 64, 94})
         || (c.arch == 0x4000_00F3 && c.nr in {56, 57, 63, 25, 291, 222, 226, 214, 96, 66, 277, 80, 215, 278, 261, 29, 64, 72, 93, 94})
      then Some(0x7fff_0000) else Some(0x8000_0000)
  {
    FilterCorrect(Rv64Allowed, Rv32Allowed, c);
  }
}
