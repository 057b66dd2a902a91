/** What the dev control channel makes of a byte stream, whatever pieces it arrives in. */
module LineFraming {
  type byte = x: int | 0 <= x < 256

  const NEWLINE: byte := 10
  const CARRIAGE_RETURN: byte := 13
  const NUL: byte := 0

  /** The receive buffer less the byte kept free for a terminator. */
  const ROOM := 4095

  function UpToNul(s: seq<byte>): (r: seq<byte>)
    ensures r <= s && NUL !in r && (|r| < |s| ==> s[|r|] == NUL)
  { if s == [] || s[0] == NUL then [] else [s[0]] + UpToNul(s[1..]) }

  lemma {:induction false} FirstNul(s: seq<byte>, n: nat)
    requires n <= |s| && NUL !in s[..n] && (n < |s| ==> s[n] == NUL)
    ensures UpToNul(s) == s[..n]
  {
    if n > 0 {
      assert s[0] == s[..n][0] && s[1..][..n - 1] == s[..n][1..];
      FirstNul(s[1..], n - 1);
      assert [s[0]] + s[1..][..n - 1] == s[..n];
    }
  }

  function StripCr(s: seq<byte>): seq<byte> {
    if s != [] && s[|s| - 1] == CARRIAGE_RETURN then s[..|s| - 1] else s
  }

  /** The C string a line is dispatched as. */
  function Command(line: seq<byte>): seq<byte> { StripCr(UpToNul(line)) }

  function Emit(line: seq<byte>): seq<seq<byte>> { if Command(line) == [] then [] else [Command(line)] }

  /** The unfinished line held and the commands dispatched so far. */
  datatype Rx = Rx(buf: seq<byte>, log: seq<seq<byte>>)

  /** A buffer with no room left is dropped. */
  function Settle(r: Rx): Rx { if |r.buf| >= ROOM then r.(buf := []) else r }

  function Byte(r: Rx, b: byte): Rx {
    if b == NEWLINE then Rx([], r.log + Emit(r.buf)) else Settle(r.(buf := r.buf + [b]))
  }

  /** The stream taken one byte at a time. */
  function Feed(r: Rx, s: seq<byte>): Rx
    decreases |s|
  { if s == [] then r else Byte(Feed(r, s[..|s| - 1]), s[|s| - 1]) }

  lemma {:induction false} FeedConcat(r: Rx, a: seq<byte>, b: seq<byte>)
    ensures Feed(r, a + b) == Feed(Feed(r, a), b)
    decreases |b|
  {
    if b == [] {
      assert a + b == a;
    } else {
      assert (a + b)[..|a + b| - 1] == a + b[..|b| - 1];
      FeedConcat(r, a, b[..|b| - 1]);
    }
  }

  lemma {:induction false} FeedShort(r: Rx, l: seq<byte>)
    requires NEWLINE !in l && |r.buf| + |l| < ROOM
    ensures Feed(r, l) == r.(buf := r.buf + l)
    decreases |l|
  {
    if l == [] {
      assert r.buf + l == r.buf;
    } else {
      var n := |l| - 1;
      FeedShort(r, l[..n]);
      assert r.buf + l[..n] + [l[n]] == r.buf + l;
    }
  }

  /** What is left of a line after whole buffers of it have been dropped. */
  function Residue(l: seq<byte>): (t: seq<byte>)
    ensures |t| < ROOM && (|l| < ROOM ==> t == l)
    ensures |l| >= ROOM ==> |t| <= |l| - ROOM
    decreases |l|
  { if |l| < ROOM then l else Residue(l[ROOM..]) }

  lemma FeedFull(log: seq<seq<byte>>, l: seq<byte>)
    requires NEWLINE !in l && |l| == ROOM
    ensures Feed(Rx([], log), l) == Rx([], log)
  {
    var n := ROOM - 1;
    FeedShort(Rx([], log), l[..n]);
    assert |[] + l[..n] + [l[n]]| == ROOM;
  }

  lemma {:induction false} FeedLine(log: seq<seq<byte>>, l: seq<byte>)
    requires NEWLINE !in l
    ensures Feed(Rx([], log), l) == Rx(Residue(l), log)
    decreases |l|
  {
    if |l| < ROOM {
      FeedShort(Rx([], log), l);
    } else {
      var a, b := l[..ROOM], l[ROOM..];
      assert l == a + b;
      FeedConcat(Rx([], log), a, b);
      FeedFull(log, a);
      FeedLine(log, b);
    }
  }

  // ---------------------------------------------------------------- by lines

  function Join(lines: seq<seq<byte>>): seq<byte>
    decreases |lines|
  { if lines == [] then [] else Join(lines[..|lines| - 1]) + lines[|lines| - 1] + [NEWLINE] }

  function Commands(lines: seq<seq<byte>>): seq<seq<byte>>
    decreases |lines|
  { if lines == [] then [] else Commands(lines[..|lines| - 1]) + Emit(lines[|lines| - 1]) }

  function Residues(lines: seq<seq<byte>>): (r: seq<seq<byte>>)
    ensures |r| == |lines| && forall i | 0 <= i < |lines| :: r[i] == Residue(lines[i])
  { seq(|lines|, i requires 0 <= i < |lines| => Residue(lines[i])) }

  ghost predicate Plain(lines: seq<seq<byte>>) { forall i | 0 <= i < |lines| :: NEWLINE !in lines[i] }

  /** A line is short enough to be held with room to spare. */
  ghost predicate Fits(lines: seq<seq<byte>>) { forall i | 0 <= i < |lines| :: |lines[i]| <= 4094 }

  lemma FeedOneLine(r: Rx, l: seq<byte>)
    requires r.buf == [] && NEWLINE !in l
    ensures Feed(r, l + [NEWLINE]) == Rx([], r.log + Emit(Residue(l)))
  {
    FeedLine(r.log, l);
    assert (l + [NEWLINE])[..|l|] == l;
  }

  lemma {:induction false} FeedLines(log: seq<seq<byte>>, lines: seq<seq<byte>>)
    requires Plain(lines)
    ensures Feed(Rx([], log), Join(lines)) == Rx([], log + Commands(Residues(lines)))
    decreases |lines|
  {
    if lines == [] {
      assert log + Commands(Residues(lines)) == log;
    } else {
      var n := |lines| - 1;
      var init, last := lines[..n], lines[n];
      FeedLines(log, init);
      FeedOneLine(Rx([], log + Commands(Residues(init))), last);
      assert Join(lines) == Join(init) + (last + [NEWLINE]);
      FeedConcat(Rx([], log), Join(init), last + [NEWLINE]);
      CommandsSnoc(log, lines);
    }
  }

  lemma CommandsSnoc(log: seq<seq<byte>>, lines: seq<seq<byte>>)
    requires lines != []
    ensures var n := |lines| - 1;
      log + Commands(Residues(lines[..n])) + Emit(Residue(lines[n])) == log + Commands(Residues(lines))
  {
    var n := |lines| - 1;
    assert Residues(lines)[..n] == Residues(lines[..n]);
  }

  lemma FeedStream(log: seq<seq<byte>>, lines: seq<seq<byte>>, tail: seq<byte>)
    requires Plain(lines) && NEWLINE !in tail
    ensures Feed(Rx([], log), Join(lines) + tail) == Rx(Residue(tail), log + Commands(Residues(lines)))
  {
    FeedLines(log, lines);
    FeedConcat(Rx([], log), Join(lines), tail);
    FeedLine(log + Commands(Residues(lines)), tail);
  }

  lemma FeedHeld(r: Rx, s: seq<byte>)
    requires NEWLINE !in r.buf && |r.buf| < ROOM
    ensures Feed(r, s) == Feed(Rx([], r.log), r.buf + s)
  {
    FeedShort(Rx([], r.log), r.buf);
    assert [] + r.buf == r.buf;
    FeedConcat(Rx([], r.log), r.buf, s);
  }

  /** Every stream is a list of finished lines and an unfinished one. */
  lemma {:induction false} Splits(s: seq<byte>) returns (lines: seq<seq<byte>>, tail: seq<byte>)
    ensures Plain(lines) && NEWLINE !in tail && s == Join(lines) + tail
    decreases |s|
  {
    if s == [] { return [], []; }
    var n := |s| - 1;
    lines, tail := Splits(s[..n]);
    assert s == Join(lines) + tail + [s[n]];
    if s[n] == NEWLINE {
      assert (lines + [tail])[..|lines|] == lines;
      lines, tail := lines + [tail], [];
    } else {
      tail := tail + [s[n]];
    }
  }

  /** A line without NUL bytes is dispatched whole, less one carriage return at its end,
      exactly when it has at most 4094 bytes. */
  lemma DispatchedWholeIff(line: seq<byte>)
    requires NUL !in line
    ensures var whole := if line != [] && line[|line| - 1] == 13 then line[..|line| - 1] else line;
      Command(line) == whole && (Command(Residue(line)) == whole <==> |line| <= 4094)
  {
    assert line[..|line|] == line;
    FirstNul(line, |line|);
  }

  lemma FitsResidues(lines: seq<seq<byte>>)
    requires Fits(lines)
    ensures Residues(lines) == lines
  {
    assert forall i | 0 <= i < |lines| :: Residues(lines)[i] == lines[i];
  }

  // ---------------------------------------------------------------- by reads

  /** How one read of the client socket can go; `Got([])` is the end of the stream.  Bytes
      beyond what the buffer can take stay for the next read. */
  datatype Outcome = Got(bytes: seq<byte>) | Again | Interrupted | Failed

  datatype Client = Client(open: bool, rx: Rx)

  predicate Ends(o: Outcome) { o.Failed? || o == Got([]) }

  predicate Alive(arrivals: seq<Outcome>)
    decreases |arrivals|
  { arrivals == [] || (!Ends(arrivals[|arrivals| - 1]) && Alive(arrivals[..|arrivals| - 1])) }

  /** The bytes received before the connection ends. */
  function Received(arrivals: seq<Outcome>): seq<byte>
    decreases |arrivals|
  {
    if arrivals == [] then []
    else
      var n := |arrivals| - 1;
      if Alive(arrivals[..n]) && arrivals[n].Got? then Received(arrivals[..n]) + arrivals[n].bytes
      else Received(arrivals[..n])
  }

  function After(c: Client, o: Outcome): Client {
    if !c.open then c
    else if Ends(o) then c.(open := false)
    else if o.Got? then c.(rx := Feed(c.rx, o.bytes))
    else c
  }

  function Session(c: Client, arrivals: seq<Outcome>): Client
    decreases |arrivals|
  { if arrivals == [] then c else After(Session(c, arrivals[..|arrivals| - 1]), arrivals[|arrivals| - 1]) }

  lemma {:induction false} SessionReceives(c: Client, arrivals: seq<Outcome>)
    requires c.open
    ensures Session(c, arrivals) == Client(Alive(arrivals), Feed(c.rx, Received(arrivals)))
    decreases |arrivals|
  {
    if arrivals != [] {
      var n := |arrivals| - 1;
      SessionReceives(c, arrivals[..n]);
      if arrivals[n].Got? {
        FeedConcat(c.rx, Received(arrivals[..n]), arrivals[n].bytes);
        if arrivals[n].bytes == [] { assert Received(arrivals[..n]) + [] == Received(arrivals[..n]); }
      }
    }
  }

  /** However a stream is cut into reads, what is dispatched are its finished lines in order,
      and what is held is its unfinished one, each less the whole buffers dropped from it. */
  lemma AnyChunking(c: Client, arrivals: seq<Outcome>, lines: seq<seq<byte>>, tail: seq<byte>)
    requires c.open && NEWLINE !in c.rx.buf && |c.rx.buf| < ROOM
    requires c.rx.buf + Received(arrivals) == Join(lines) + tail && Plain(lines) && NEWLINE !in tail
    ensures Session(c, arrivals).rx == Rx(Residue(tail), c.rx.log + Commands(Residues(lines)))
    ensures Fits(lines) && |tail| <= 4094 ==> Session(c, arrivals).rx == Rx(tail, c.rx.log + Commands(lines))
  {
    SessionReceives(c, arrivals);
    FeedHeld(c.rx, Received(arrivals));
    FeedStream(c.rx.log, lines, tail);
    if Fits(lines) { FitsResidues(lines); }
  }

  // ---------------------------------------------------------------- in plain bytes

  function Marked(text: seq<byte>, cr: bool): seq<byte> { if cr then text + [13] else text }

  lemma EmitExact(text: seq<byte>, cr: bool, rest: seq<byte>)
    requires 0 !in text && (rest == [] || rest[0] == 0) && (cr || text == [] || text[|text| - 1] != 13)
    ensures Emit(Marked(text, cr) + rest) == if text == [] then [] else [text]
  {
    var shown := Marked(text, cr);
    assert (shown + rest)[..|shown|] == shown;
    FirstNul(shown + rest, |shown|);
    assert cr ==> shown[..|shown| - 1] == text;
  }

  /** A line of at most 4094 bytes dispatches what stands before its first NUL, less one
      carriage return at the end of that, unless nothing is left. */
  lemma DispatchExact(log: seq<seq<byte>>, text: seq<byte>, cr: bool, rest: seq<byte>)
    requires 0 !in text && 10 !in text && 10 !in rest && (rest == [] || rest[0] == 0)
    requires cr || text == [] || text[|text| - 1] != 13
    requires |text| + |rest| + (if cr then 1 else 0) <= 4094
    ensures Feed(Rx([], log), Marked(text, cr) + rest + [10]) == Rx([], if text == [] then log else log + [text])
  {
    EmitExact(text, cr, rest);
    FeedEmits(log, Marked(text, cr) + rest, text);
  }

  lemma FeedEmits(log: seq<seq<byte>>, line: seq<byte>, text: seq<byte>)
    requires 10 !in line && |line| <= 4094 && Emit(line) == if text == [] then [] else [text]
    ensures Feed(Rx([], log), line + [10]) == Rx([], if text == [] then log else log + [text])
  {
    FeedOneLine(Rx([], log), line);
    assert log + [] == log;
  }

  /** What a command can be. */
  ghost predicate Sane(c: seq<byte>) { c != [] && 0 !in c && 10 !in c && |c| <= 4094 }

  ghost predicate SaneLog(r: Rx) { 10 !in r.buf && |r.buf| < 4095 && forall c | c in r.log :: Sane(c) }

  lemma {:induction false} FeedSane(r: Rx, s: seq<byte>)
    requires SaneLog(r)
    ensures SaneLog(Feed(r, s))
    decreases |s|
  {
    if s != [] {
      var q := Feed(r, s[..|s| - 1]);
      FeedSane(r, s[..|s| - 1]);
      var t := UpToNul(q.buf);
      assert forall b | b in t :: b in q.buf;
    }
  }

  /** No session ever dispatches an empty command, or one with a NUL or a newline in it. */
  lemma NeverEmpty(c: Client, arrivals: seq<Outcome>)
    requires c.open && SaneLog(c.rx)
    ensures SaneLog(Session(c, arrivals).rx)
  {
    SessionReceives(c, arrivals);
    FeedSane(c.rx, Received(arrivals));
  }

  /** The bytes of a client that ends each command with a carriage return and a newline. */
  function Sent(texts: seq<seq<byte>>): seq<byte>
    decreases |texts|
  { if texts == [] then [] else Sent(texts[..|texts| - 1]) + (texts[|texts| - 1] + [13] + [10]) }

  function NonEmpty(texts: seq<seq<byte>>): seq<seq<byte>>
    decreases |texts|
  {
    if texts == [] then []
    else if texts[|texts| - 1] == [] then NonEmpty(texts[..|texts| - 1])
    else NonEmpty(texts[..|texts| - 1]) + [texts[|texts| - 1]]
  }

  lemma {:induction false} FeedSent(log: seq<seq<byte>>, texts: seq<seq<byte>>)
    requires forall t | t in texts :: 0 !in t && 10 !in t && |t| <= 4093
    ensures Feed(Rx([], log), Sent(texts)) == Rx([], log + NonEmpty(texts))
    decreases |texts|
  {
    if texts == [] {
      assert log + [] == log;
    } else {
      var init, last := texts[..|texts| - 1], texts[|texts| - 1];
      assert last in texts && forall t | t in init :: t in texts;
      FeedSent(log, init);
      FeedConcat(Rx([], log), Sent(init), last + [13] + [10]);
      FeedLast(log + NonEmpty(init), last);
      LogSnoc(log, texts);
    }
  }

  lemma FeedLast(log: seq<seq<byte>>, text: seq<byte>)
    requires 0 !in text && 10 !in text && |text| <= 4093
    ensures Feed(Rx([], log), text + [13] + [10]) == Rx([], if text == [] then log else log + [text])
  {
    EmitCr(text);
    FeedEmits(log, text + [13], text);
  }

  lemma EmitCr(text: seq<byte>)
    requires 0 !in text
    ensures Emit(text + [13]) == if text == [] then [] else [text]
  {
    EmitExact(text, true, []);
    assert text + [13] + [] == text + [13];
  }

  lemma LogSnoc(log: seq<seq<byte>>, texts: seq<seq<byte>>)
    requires texts != []
    ensures var (init, last) := (texts[..|texts| - 1], texts[|texts| - 1]);
      log + NonEmpty(texts) == if last == [] then log + NonEmpty(init) else log + NonEmpty(init) + [last]
  {
    Reassociate(log, NonEmpty(texts[..|texts| - 1]), [texts[|texts| - 1]]);
  }

  lemma Reassociate(a: seq<seq<byte>>, b: seq<seq<byte>>, c: seq<seq<byte>>)
    ensures a + (b + c) == a + b + c
  {}

  function Gots(chunks: seq<seq<byte>>): seq<Outcome> { seq(|chunks|, i requires 0 <= i < |chunks| => Got(chunks[i])) }

  function Concat(chunks: seq<seq<byte>>): seq<byte>
    decreases |chunks|
  { if chunks == [] then [] else Concat(chunks[..|chunks| - 1]) + chunks[|chunks| - 1] }

  /** Every byte of every read counts, in order. */
  lemma {:induction false} ChunksReceived(chunks: seq<seq<byte>>)
    requires forall i | 0 <= i < |chunks| :: chunks[i] != []
    ensures Received(Gots(chunks)) == Concat(chunks) && Alive(Gots(chunks))
    decreases |chunks|
  {
    if chunks != [] {
      var n := |chunks| - 1;
      ChunksReceived(chunks[..n]);
      assert Gots(chunks)[..n] == Gots(chunks[..n]);
    }
  }

  /** A read that would block or was interrupted changes nothing; an end or an error closes the
      client, and nothing is received after that. */
  lemma OtherOutcomes(c: Client, arrivals: seq<Outcome>, o: Outcome)
    requires o.Again? || o.Interrupted? || o.Failed? || o == Got([])
    ensures var d := Session(c, arrivals);
      Session(c, arrivals + [o]) == if o.Again? || o.Interrupted? then d else d.(open := false)
    ensures !Session(c, arrivals).open ==> forall a :: Session(c, arrivals + [a]) == Session(c, arrivals)
  {
    assert (arrivals + [o])[..|arrivals|] == arrivals;
    assert forall a :: (arrivals + [a])[..|arrivals|] == arrivals;
  }

  /** What such a client sends is what is dispatched, in order and however it is cut into
      reads, less the empty commands. */
  lemma SentIsDispatched(log: seq<seq<byte>>, arrivals: seq<Outcome>, texts: seq<seq<byte>>)
    requires Received(arrivals) == Sent(texts)
    requires forall t | t in texts :: 0 !in t && 10 !in t && |t| <= 4093
    ensures Session(Client(true, Rx([], log)), arrivals).rx == Rx([], log + NonEmpty(texts))
  {
    SessionReceives(Client(true, Rx([], log)), arrivals);
    FeedSent(log, texts);
  }
}

/** The channel itself: a fixed buffer filled by reads and emptied line by line. */
module DevControl {
  import opened LineFraming

  class Channel {
    const rx: array<byte>
    var rxLen: nat
    var client: bool
    var log: seq<seq<byte>>

    ghost predicate Valid()
      reads this
    { rx.Length == 4096 && rxLen <= ROOM }

    ghost function Held(): (s: seq<byte>)
      reads this, rx
      requires Valid()
    { rx[..rxLen] }

    ghost function View(): Client
      reads this, rx
      requires Valid()
    { Client(client, Settle(Rx(Held(), log))) }

    constructor ()
      ensures Valid() && fresh(rx) && View() == Client(false, Rx([], []))
    {
      rx := new byte[4096](_ => 0);
      rxLen, client, log := 0, false, [];
    }

    /** Length of the C string at `start`, found before the terminator at `end`. */
    method Strlen(start: nat, end: nat) returns (n: nat)
      requires start <= end < rx.Length && rx[end] == NUL
      ensures start + n <= end && rx[start + n] == NUL && rx[start..start + n] == UpToNul(rx[start..end])
    {
      n := 0;
      while rx[start + n] != NUL
        invariant start + n <= end && NUL !in rx[start..start + n]
        decreases end - start - n
      {
        n := n + 1;
      }
      assert rx[start..end][..n] == rx[start..start + n];
      FirstNul(rx[start..end], n);
    }

    /** Cut one carriage return off the C string of length `n` at `start`. */
    method StripReturn(start: nat, n: nat) returns (m: nat)
      requires start + n < rx.Length && rx[start + n] == NUL && NUL !in rx[start..start + n]
      modifies rx
      ensures m <= n && rx[start + m] == NUL && rx[start..start + m] == StripCr(old(rx[start..start + n]))
      ensures m > 0 ==> rx[start] != NUL
      ensures forall k | start + n <= k < rx.Length :: rx[k] == old(rx[k])
    {
      ghost var text := rx[start..start + n];
      assert n > 0 ==> rx[start] == text[0] && rx[start + n - 1] == text[n - 1];
      m := n;
      if n > 0 && rx[start + n - 1] == CARRIAGE_RETURN {
        rx[start + n - 1] := NUL;
        m := n - 1;
        assert rx[start..start + m] == text[..m];
      }
    }

    /** Dispatch the line between `start` and the newline at `i`. */
    method FinishLine(start: nat, i: nat)
      requires Valid() && start <= i < rxLen
      modifies this`log, rx
      ensures log == old(log) + Emit(old(rx[start..i]))
      ensures rx[i + 1..rxLen] == old(rx[i + 1..rxLen])
    {
      rx[i] := NUL;
      assert rx[start..i] == old(rx[start..i]);
      var ll := Strlen(start, i);
      ll := StripReturn(start, ll);
      assert forall k | i < k < rxLen :: rx[k] == old(rx[k]);
      if rx[start] != NUL {
        log := log + [rx[start..start + ll]];
      }
    }

    /** Move what follows the first `start` bytes to the front. */
    method Discard(start: nat)
      requires Valid() && start <= rxLen
      modifies this`rxLen, rx
      ensures Valid() && Held() == old(rx[start..rxLen])
    {
      forall k | 0 <= k < rxLen - start { rx[k] := rx[start + k]; }
      rxLen := rxLen - start;
    }

    /** Look at byte `i`: it goes on the line under way, or ends it. */
    method ScanOne(start: nat, i: nat, ghost first: Rx, ghost stream: seq<byte>) returns (next: nat)
      requires Valid() && start <= i < rxLen == |stream| && rx[start..rxLen] == stream[start..]
      requires Scanned(first, stream, start, i, log)
      modifies this`log, rx
      ensures Valid() && start <= next <= i + 1 && rx[next..rxLen] == stream[next..]
      ensures Scanned(first, stream, next, i + 1, log)
    {
      SameWindows(rx[start..rxLen], stream, start, i);
      assert rx[start..i] == rx[start..rxLen][..i - start] && rx[i + 1..rxLen] == rx[start..rxLen][i + 1 - start..];
      assert rx[i] == rx[start..rxLen][i - start] == stream[i];
      ScanByte(first, stream, start, i, log);
      next := start;
      if rx[i] == NEWLINE {
        FinishLine(start, i);
        next := i + 1;
      }
    }

    method ProcessBuffer()
      requires Valid()
      modifies this`rxLen, this`log, rx
      ensures Valid()
      ensures Settle(Rx(Held(), log)) == Feed(Rx([], old(log)), old(Held()))
      ensures NEWLINE !in Held()
    {
      ghost var stream, first := Held(), Rx([], log);
      var start, i := 0, 0;
      while i < rxLen
        invariant start <= i <= rxLen == |stream| && Valid()
        invariant rx[start..rxLen] == stream[start..]
        invariant Scanned(first, stream, start, i, log)
      {
        start := ScanOne(start, i, first, stream);
        i := i + 1;
      }
      ScanDone(first, stream, start, log);
      if start > 0 { Discard(start); }
    }

    /** Take one read's bytes into the buffer. */
    method Receive(bytes: seq<byte>)
      requires Valid() && NEWLINE !in Held() && rxLen < ROOM && rxLen + |bytes| <= ROOM
      modifies this`rxLen, this`log, rx
      ensures Valid() && NEWLINE !in Held()
      ensures Settle(Rx(Held(), log)) == Feed(Rx(old(Held()), old(log)), bytes)
    {
      forall k | 0 <= k < |bytes| { rx[rxLen + k] := bytes[k]; }
      rxLen := rxLen + |bytes|;
      assert Held() == old(Held()) + bytes;
      FeedHeld(Rx(old(Held()), log), bytes);
      ProcessBuffer();
    }

    /** One read: as many of the waiting bytes as fit. */
    method ReadSome(bytes: seq<byte>) returns (n: nat)
      requires Valid() && NEWLINE !in Held() && bytes != []
      modifies this`rxLen, this`log, rx
      ensures Valid() && NEWLINE !in Held() && 0 < n <= |bytes|
      ensures View() == old(View()).(rx := Feed(old(View()).rx, bytes[..n]))
    {
      if rxLen >= ROOM { rxLen := 0; }
      n := if |bytes| <= ROOM - rxLen then |bytes| else ROOM - rxLen;
      Receive(bytes[..n]);
    }

    /** Read `bytes` off the socket, in as many reads as the buffer needs. */
    method ReadAll(bytes: seq<byte>)
      requires Valid() && NEWLINE !in Held()
      modifies this`rxLen, this`log, rx
      ensures Valid() && NEWLINE !in Held()
      ensures View() == old(View()).(rx := Feed(old(View()).rx, bytes))
    {
      ghost var first := View();
      var taken := 0;
      assert bytes[..0] == [];
      while taken < |bytes|
        invariant Valid() && NEWLINE !in Held() && taken <= |bytes|
        invariant View() == first.(rx := Feed(first.rx, bytes[..taken]))
      {
        var n := ReadSome(bytes[taken..]);
        FeedMore(first.rx, bytes, taken, n);
        taken := taken + n;
      }
      assert bytes[..taken] == bytes;
    }

    /** Read until the socket has no more, ends or fails; `used` arrivals are consumed. */
    method Drain(arrivals: seq<Outcome>) returns (used: nat)
      requires Valid() && NEWLINE !in Held() && client
      modifies this`rxLen, this`log, this`client, rx
      ensures Valid() && NEWLINE !in Held() && used <= |arrivals|
      ensures View() == Session(old(View()), arrivals[..used])
      ensures client && used < |arrivals| ==> used > 0 && arrivals[used - 1].Again?
    {
      ghost var first := View();
      used := 0;
      assert arrivals[..0] == [];
      while used < |arrivals|
        invariant Valid() && NEWLINE !in Held() && used <= |arrivals| && client
        invariant View() == Session(first, arrivals[..used])
      {
        if rxLen >= ROOM { rxLen := 0; }
        var next := arrivals[used];
        used := used + 1;
        assert arrivals[..used][..used - 1] == arrivals[..used - 1];
        if next.Got? && next.bytes != [] {
          ReadAll(next.bytes);
        } else if Ends(next) {
          client := false;
          return;
        } else if next.Again? {
          return;
        }
      }
    }

    /** One frame's service: take on a client if there is none and one is waiting, with an
        empty buffer, then serve it. */
    method Poll(accepted: bool, arrivals: seq<Outcome>) returns (used: nat)
      requires Valid() && NEWLINE !in Held()
      modifies this`rxLen, this`log, this`client, rx
      ensures Valid() && NEWLINE !in Held() && used <= |arrivals|
      ensures old(client) ==> View() == Session(old(View()), arrivals[..used])
      ensures !old(client) && accepted ==> View() == Session(Client(true, Rx([], old(log))), arrivals[..used])
      ensures !old(client) && !accepted ==> View() == old(View()) && used == 0
      ensures client && used < |arrivals| ==> used > 0 && arrivals[used - 1].Again?
    {
      if !client {
        if !accepted { return 0; }
        client, rxLen := true, 0;
      }
      used := Drain(arrivals);
    }
  }

  lemma FeedMore(r: Rx, bytes: seq<byte>, taken: nat, n: nat)
    requires taken + n <= |bytes|
    ensures Feed(Feed(r, bytes[..taken]), bytes[taken..][..n]) == Feed(r, bytes[..taken + n])
  {
    assert bytes[..taken] + bytes[taken..][..n] == bytes[..taken + n];
    FeedConcat(r, bytes[..taken], bytes[taken..][..n]);
  }

  /** The scan has reached `i`, the line under way starts at `start`, and `log` is what the
      bytes before it have dispatched. */
  ghost predicate Scanned(first: Rx, stream: seq<byte>, start: nat, i: nat, log: seq<seq<byte>>)
    requires start <= i <= |stream|
  {
    && NEWLINE !in stream[start..i]
    && Settle(Rx(stream[start..i], log)) == Feed(first, stream[..i])
  }

  lemma ScanByte(first: Rx, stream: seq<byte>, start: nat, i: nat, log: seq<seq<byte>>)
    requires start <= i < |stream| <= ROOM && Scanned(first, stream, start, i, log)
    ensures stream[i] != NEWLINE ==> Scanned(first, stream, start, i + 1, log)
    ensures stream[i] == NEWLINE ==> Scanned(first, stream, i + 1, i + 1, log + Emit(stream[start..i]))
  {
    FedByte(first, stream, i);
    LineSnoc(stream, start, i);
  }

  lemma FedByte(first: Rx, stream: seq<byte>, i: nat)
    requires i < |stream|
    ensures Feed(first, stream[..i + 1]) == Byte(Feed(first, stream[..i]), stream[i])
  {
    assert stream[..i + 1][..i] == stream[..i];
  }

  lemma LineSnoc(stream: seq<byte>, start: nat, i: nat)
    requires start <= i < |stream|
    ensures stream[start..i + 1] == stream[start..i] + [stream[i]]
    ensures NEWLINE !in stream[start..i] && stream[i] != NEWLINE ==> NEWLINE !in stream[start..i + 1]
  {}

  lemma ScanDone(first: Rx, stream: seq<byte>, start: nat, log: seq<seq<byte>>)
    requires start <= |stream| && Scanned(first, stream, start, |stream|, log)
    ensures NEWLINE !in stream[start..] && Settle(Rx(stream[start..], log)) == Feed(first, stream)
  {
    assert stream[..|stream|] == stream && stream[start..|stream|] == stream[start..];
  }

  lemma SameWindows(x: seq<byte>, b: seq<byte>, start: nat, i: nat)
    requires start <= i < |b| && x == b[start..]
    ensures x[..i - start] == b[start..i] && x[i + 1 - start..] == b[i + 1..]
  {}
}
