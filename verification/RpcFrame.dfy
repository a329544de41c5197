// RPC frames on the serial line (rpc.c): rpcSendFrame builds them, rpcProcess rebuilds them from short reads.
module RpcFrame {
  import opened Bits

  const SOF: byte := 0xFE
  const RPC_MAX_LEN := 256
  const CMD_TYPE_MASK := 0xE0
  const SUBSYSTEM_MASK := 0x1F
  const SRSP := 0x60
  const RETRIES := 5

  // calcFcs
  method CalcFcs(msg: array<byte>, from: nat, size: nat) returns (result: byte)
    requires from + size <= msg.Length
    ensures result == XorAll(msg[from..from + size])
  {
    result := 0;
    var i := 0;
    while i < size
      invariant 0 <= i <= size && result == XorAll(msg[from..from + i])
    {
      assert msg[from..from + i + 1][..i] == msg[from..from + i];
      result := XorByte(result, msg[from + i]);
      i := i + 1;
    }
  }

  // Two strings of bytes that differ in one place have different sums.
  lemma {:induction false} FcsDetects(s: seq<byte>, i: nat, b: byte)
    requires i < |s| && b != s[i]
    ensures XorAll(s[i := b]) != XorAll(s)
  {
    var n := |s| - 1;
    if i == n {
      assert s[i := b][..n] == s[..n];
      XorInjective(XorAll(s[..n]), s[n], b);
    } else {
      assert s[i := b][..n] == s[..n][i := b];
      FcsDetects(s[..n], i, b);
      XorCancel(XorAll(s[..n]), s[n]);
      XorCancel(XorAll(s[..n][i := b]), s[n]);
    }
  }

  lemma XorInjective(a: nat, b: nat, c: nat)
    ensures Xor(a, b) == Xor(a, c) ==> b == c
  {
    XorSwap(a, b);
    XorSwap(a, c);
    XorCancel(b, a);
    XorCancel(c, a);
  }

  lemma {:induction false} XorSwap(a: nat, b: nat)
    ensures Xor(a, b) == Xor(b, a)
    decreases a + b
  {
    if a != 0 || b != 0 { XorSwap(a / 2, b / 2); }
  }

  // ---- sending ----

  function Covered(cmd0: byte, cmd1: byte, payload: seq<byte>): (s: seq<byte>)
    requires |payload| < 256
    ensures |s| == |payload| + 3
  { [|payload|, cmd0, cmd1] + payload }

  function Bytes(cmd0: byte, cmd1: byte, payload: seq<byte>): (s: seq<byte>)
    requires |payload| < 256
    ensures |s| == |payload| + 5
  { [SOF] + Covered(cmd0, cmd1, payload) + [XorAll(Covered(cmd0, cmd1, payload))] }

  // A frame byte for byte; those between start byte and end cancel out.
  lemma Layout(cmd0: byte, cmd1: byte, payload: seq<byte>)
    requires |payload| < 256
    ensures var f, n := Bytes(cmd0, cmd1, payload), |payload|;
      |f| == n + 5 && f[..4] == [0xFE, n, cmd0, cmd1] && f[4..n + 4] == payload && XorAll(f[1..]) == 0
  {
    var f, c := Bytes(cmd0, cmd1, payload), Covered(cmd0, cmd1, payload);
    assert f[1..] == c + [XorAll(c)];
    hide XorAll;
    XorAllSealed(c);
  }

  // The buffer part of rpcSendFrame: the frame that it hands to the transport.
  method BuildFrame(buf: array<byte>, cmd0: byte, cmd1: byte, payload: seq<byte>) returns (len: nat)
    requires buf.Length == RPC_MAX_LEN && |payload| + 5 <= RPC_MAX_LEN
    modifies buf
    ensures len == |payload| + 5 && buf[..len] == Bytes(cmd0, cmd1, payload)
  {
    hide XorAll;
    buf[0] := SOF;
    buf[1] := |payload|;
    buf[2] := cmd0;
    buf[3] := cmd1;
    forall i | 0 <= i < |payload| { buf[4 + i] := payload[i]; }
    ghost var covered := Covered(cmd0, cmd1, payload);
    assert buf[1..1 + (|payload| + 3)] == covered;
    hide Covered;
    var fcs := CalcFcs(buf, 1, |payload| + 3);
    buf[|payload| + 4] := fcs;
    assert buf[..|payload| + 5] == [SOF] + buf[1..|payload| + 4] + [fcs] && buf[1..|payload| + 4] == covered;
    len := |payload| + 5;
  }

  // ---- reading ----

  // What one read(2) does: it fails, or it offers at most so many of the bytes that are coming.
  datatype Turn = Fails | Offers(n: nat)

  class Transport {
    var wire: seq<byte>
    var turns: seq<Turn>

    constructor (wire: seq<byte>, turns: seq<Turn>)
      ensures this.wire == wire && this.turns == turns
    {
      this.wire, this.turns := wire, turns;
    }

    // rpcTransportRead: -1 becomes 255 in its unsigned result. The caller must have a turn left, or it waits for ever.
    method Read(buf: array<byte>, at: nat, len: nat) returns (r: nat)
      requires turns != [] && at + len <= buf.Length && len < 256
      modifies this, buf
      ensures turns == old(turns[1..])
      ensures old(turns[0]).Fails? ==> r == 255 && wire == old(wire) && buf[..] == old(buf[..])
      ensures old(turns[0]).Offers? ==> r == Min(Min(old(turns[0].n), len), |old(wire)|)
      ensures old(turns[0]).Offers? ==> wire == old(wire)[r..] && buf[at..at + r] == old(wire)[..r]
      ensures buf[..at] == old(buf[..at])
    {
      if turns[0].Fails? {
        r := 255;
      } else {
        r := Min(Min(turns[0].n, len), |wire|);
        forall i | 0 <= i < r { buf[at + i] := wire[i]; }
        wire := wire[r..];
      }
      turns := turns[1..];
    }
  }

  function Failures(ts: seq<Turn>): nat
  { if ts == [] then 0 else Failures(ts[..|ts| - 1]) + if ts[|ts| - 1].Fails? then 1 else 0 }

  function Supply(ts: seq<Turn>): nat
  { if ts == [] then 0 else Supply(ts[..|ts| - 1]) + if ts[|ts| - 1].Fails? then 0 else ts[|ts| - 1].n }

  // After used turns got bytes have come of the rest and of those in w: all that were offered, unless one of the two
  // has been used up.
  predicate Got(ts: seq<Turn>, w: seq<byte>, used: nat, got: nat, rest: nat) {
    used <= |ts| && got <= Min(rest, |w|) && got <= Supply(ts[..used]) &&
    (got == Min(rest, |w|) || got == Supply(ts[..used]))
  }

  lemma GotMore(ts: seq<Turn>, w: seq<byte>, used: nat, got: nat, rest: nat)
    requires used < |ts| && Got(ts, w, used, got, rest)
    ensures Got(ts, w, used + 1, got + if ts[used].Fails? then 0 else Min(Min(ts[used].n, rest - got), |w| - got), rest)
    ensures Failures(ts[..used + 1]) == Failures(ts[..used]) + if ts[used].Fails? then 1 else 0
    ensures got < rest <= |w| ==> Supply(ts[..used]) < rest
  {
    assert ts[..used + 1][..used] == ts[..used];
  }

  lemma GotAll(ts: seq<Turn>, w: seq<byte>, got: nat, rest: nat)
    requires got < rest && Got(ts, w, |ts|, got, rest)
    ensures Min(Supply(ts), |w|) < rest && ts[..|ts|] == ts
  { assert ts[..|ts|] == ts; }

  // The first n turns offer rest bytes, no fewer do, and at most five of them fail.
  predicate Enough(ts: seq<Turn>, n: nat, rest: nat) {
    n <= |ts| && Failures(ts[..n]) <= 5 && Supply(ts[..n]) >= rest &&
    forall m: nat :: m < n ==> Supply(ts[..m]) < rest
  }

  // If some first turns offer as much with at most five failures, so do just enough of them.
  lemma {:induction false} EnoughExists(ts: seq<Turn>, n: nat, rest: nat) returns (m: nat)
    requires n <= |ts| && Failures(ts[..n]) <= RETRIES && Supply(ts[..n]) >= rest
    ensures m <= n && Enough(ts, m, rest)
  {
    if m' :| 0 <= m' < n && Supply(ts[..m']) >= rest {
      FailuresGrow(ts[..n], m');
      assert ts[..n][..m'] == ts[..m'];
      m := EnoughExists(ts, m', rest);
    } else {
      m := n;
    }
  }

  // As long as the turns before did not offer enough, their number is not reached.
  lemma EnoughLater(ts: seq<Turn>, n: nat, used: nat, rest: nat)
    requires Enough(ts, n, rest) && used <= |ts| && forall m: nat :: m < used ==> Supply(ts[..m]) < rest
    ensures used <= n && Failures(ts[..used]) <= RETRIES && (Supply(ts[..used]) >= rest ==> used == n)
  {
    FailuresGrow(ts[..n], used);
    assert ts[..n][..used] == ts[..used];
  }

  // What that says of a reading that ended after used turns.
  lemma EnoughDecides(ts: seq<Turn>, w: seq<byte>, used: nat, got: nat, rest: nat, complete: bool)
    requires Got(ts, w, used, got, rest) && (rest <= |w| ==> forall m: nat :: m < used ==> Supply(ts[..m]) < rest)
    requires if complete then got == rest else Failures(ts[..used]) > RETRIES || (used == |ts| && got < rest)
    ensures forall n: nat :: rest <= |w| && Enough(ts, n, rest) ==> complete && used == n
  {
    forall n: nat | rest <= |w| && Enough(ts, n, rest) ensures complete && used == n {
      EnoughLater(ts, n, used, rest);
    }
  }

  // Where the reading of the rest of a frame stands, with buf as the buffer behind the length byte: used of the turns
  // ts are over, got bytes of w have come, and the turns before did not offer enough.
  predicate Underway(ts: seq<Turn>, w: seq<byte>, used: nat, got: nat, rest: nat,
                     turns: seq<Turn>, wire: seq<byte>, buf: seq<byte>) {
    used <= |ts| && turns == ts[used..] && got <= |w| && wire == w[got..] && got <= |buf| && buf[..got] == w[..got] &&
    Got(ts, w, used, got, rest) && (rest <= |w| ==> forall m: nat :: m < used ==> Supply(ts[..m]) < rest)
  }

  // One read behind the got bytes of w that have come.
  method ReadOn(t: Transport, rpcBuff: array<byte>, at: nat, len: nat,
                ghost ts: seq<Turn>, ghost w: seq<byte>, ghost used: nat, ghost got: nat, ghost rest: nat)
    returns (r: nat)
    requires t.turns != [] && at == 1 + got && 0 < len == rest - got && at + len <= rpcBuff.Length && rest < 255
    requires Underway(ts, w, used, got, rest, t.turns, t.wire, rpcBuff[1..])
    modifies t, rpcBuff
    ensures t.turns == old(t.turns)[1..] && rpcBuff[0] == old(rpcBuff[0]) && used < |ts|
    ensures r == 255 || r <= len
    ensures Failures(ts[..used + 1]) == Failures(ts[..used]) + if r == 255 then 1 else 0
    ensures Underway(ts, w, used + 1, got + if r == 255 then 0 else r, rest, t.turns, t.wire, rpcBuff[1..])
  {
    ghost var turns, wire, buf := t.turns, t.wire, rpcBuff[1..];
    assert used < |ts| && turns[0] == ts[used] && |buf| == rpcBuff.Length - 1;
    r := t.Read(rpcBuff, at, len);
    ghost var n := if r == 255 then 0 else r;
    assert rpcBuff[..at][1..] == buf[..got];
    TurnTaken(ts, w, used, got, rest, turns, wire, buf, t.wire, rpcBuff[1..], n);
  }

  lemma TurnTaken(ts: seq<Turn>, w: seq<byte>, used: nat, got: nat, rest: nat,
                  turns: seq<Turn>, wire: seq<byte>, buf: seq<byte>, wire': seq<byte>, buf': seq<byte>, n: nat)
    requires Underway(ts, w, used, got, rest, turns, wire, buf) && used < |ts| && got < rest
    requires n == if ts[used].Fails? then 0 else Min(Min(ts[used].n, rest - got), |wire|)
    requires wire' == wire[n..] && got + n <= |buf'| && buf'[..got] == buf[..got] && buf'[got..got + n] == wire[..n]
    ensures Underway(ts, w, used + 1, got + n, rest, turns[1..], wire', buf')
    ensures Failures(ts[..used + 1]) == Failures(ts[..used]) + if ts[used].Fails? then 1 else 0
  {
    GotMore(ts, w, used, got, rest);
    hide Got, Supply, Failures;
    assert w[..got + n] == w[..got] + w[got..][..n];
    assert buf'[..got + n] == buf'[..got] + buf'[got..got + n];
  }

  datatype Reading = Complete | Aborted | Waiting

  // The loop of rpcProcess that reads the rest of a frame: rest bytes to rpcBuff[1..].
  method ReadBody(t: Transport, rpcBuff: array<byte>, rest: nat) returns (how: Reading, ghost used: nat)
    requires rpcBuff.Length == RPC_MAX_LEN && rest <= 254
    modifies t, rpcBuff
    ensures used <= |old(t.turns)| && t.turns == old(t.turns)[used..] && rpcBuff[0] == old(rpcBuff[0])
    ensures how.Complete? ==> rest <= |old(t.wire)| && rpcBuff[1..1 + rest] == old(t.wire)[..rest]
    ensures how.Complete? ==> t.wire == old(t.wire)[rest..] && Failures(old(t.turns)[..used]) <= RETRIES
    ensures how.Aborted? ==> Failures(old(t.turns)[..used]) == RETRIES + 1
    ensures how.Waiting? ==>
      used == |old(t.turns)| && Failures(old(t.turns)) <= RETRIES && Min(Supply(old(t.turns)), |old(t.wire)|) < rest
    ensures forall n: nat :: rest <= |old(t.wire)| && Enough(old(t.turns), n, rest) ==> how.Complete? && used == n
  {
    ghost var ts, w := t.turns, t.wire;
    used := 0;
    var rpcTempLen: nat, rpcBuffIdx: nat, retryAttempts: nat := rest, 1, 0;
    ghost var got: nat := 0;
    assert Underway(ts, w, 0, 0, rest, t.turns, t.wire, rpcBuff[1..]) && Failures(ts[..0]) == 0;
    hide Underway, Got, Supply, Failures, Enough;
    while rpcTempLen > 0
      invariant rpcTempLen == rest - got && rpcBuffIdx == 1 + got && got <= rest && used <= |ts|
      invariant Underway(ts, w, used, got, rest, t.turns, t.wire, rpcBuff[1..]) && rpcBuff[0] == old(rpcBuff[0])
      invariant retryAttempts == Failures(ts[..used]) <= RETRIES
      decreases |t.turns|
    {
      if t.turns == [] {
        Ends(ts, w, used, got, rest, t.turns, t.wire, rpcBuff[1..], false);
        return Waiting, used;
      }
      var bytesRead := ReadOn(t, rpcBuff, rpcBuffIdx, rpcTempLen, ts, w, used, got, rest);
      used := used + 1;
      if bytesRead > rpcTempLen {
        if retryAttempts < RETRIES {
          bytesRead := 0;
        } else {
          Ends(ts, w, used, got, rest, t.turns, t.wire, rpcBuff[1..], false);
          return Aborted, used;
        }
        retryAttempts := retryAttempts + 1;
      }
      rpcTempLen := if rpcTempLen > bytesRead then rpcTempLen - bytesRead else 0;
      rpcBuffIdx := rpcBuffIdx + bytesRead;
      got := got + bytesRead;
    }
    Ends(ts, w, used, got, rest, t.turns, t.wire, rpcBuff[1..], true);
    how := Complete;
  }

  // How a reading stands when it is over.
  lemma Ends(ts: seq<Turn>, w: seq<byte>, used: nat, got: nat, rest: nat,
             turns: seq<Turn>, wire: seq<byte>, buf: seq<byte>, complete: bool)
    requires Underway(ts, w, used, got, rest, turns, wire, buf)
    requires if complete then got == rest else Failures(ts[..used]) > RETRIES || (turns == [] && got < rest)
    ensures used <= |ts| && turns == ts[used..] && (used == |ts| ==> ts[..used] == ts) && (turns == [] ==> used == |ts|)
    ensures complete ==> rest <= |w| && wire == w[rest..] && rest <= |buf| && buf[..rest] == w[..rest]
    ensures turns == [] && got < rest ==> Min(Supply(ts), |w|) < rest
    ensures forall n: nat :: rest <= |w| && Enough(ts, n, rest) ==> complete && used == n
  {
    assert used == |ts| ==> ts[..used] == ts;
    if turns == [] && got < rest { GotAll(ts, w, got, rest); }
    EnoughDecides(ts, w, used, got, rest, complete);
  }

  // ---- judging a frame ----

  // What rpcProcess does with its input: it passes the command, payload and checksum on at the head or the tail
  // of the queue, drops an SRSP that nobody expects, rejects, or is still waiting for bytes.
  datatype Delivery = Urgent(msg: seq<byte>) | Normal(msg: seq<byte>) | Discarded | Rejected | Blocked | Overrun

  // f is a frame from its length byte to its checksum.
  function Classify(expected: byte, f: seq<byte>): Delivery
    requires |f| >= 4 && |f| - 4 == f[0]
  {
    var n := |f| - 1;
    if XorAll(f[..n]) != f[n] then Rejected
    else if And(f[1], CMD_TYPE_MASK) == SRSP then
      if expected == And(f[1], SUBSYSTEM_MASK) then Urgent(f[1..]) else Discarded
    else Normal(f[1..])
  }

  // What a frame that was sent comes to: command, payload and checksum, as they were.
  function Arrival(cmd0: byte, cmd1: byte, payload: seq<byte>, expected: byte): Delivery
    requires |payload| < 256
  {
    var msg := [cmd0, cmd1] + payload + [XorAll(Covered(cmd0, cmd1, payload))];
    if And(cmd0, CMD_TYPE_MASK) != SRSP then Normal(msg)
    else if expected == And(cmd0, SUBSYSTEM_MASK) then Urgent(msg)
    else Discarded
  }

  // An SRSP is a command of type 3 in the upper three bits; its subsystem is in the lower five.
  lemma ArrivalMeans(cmd0: byte, cmd1: byte, payload: seq<byte>, expected: byte)
    requires |payload| < 256
    ensures var d, msg := Arrival(cmd0, cmd1, payload, expected), Bytes(cmd0, cmd1, payload)[2..];
      d == if cmd0 / 32 != 3 then Normal(msg) else if expected == cmd0 % 32 then Urgent(msg) else Discarded
  {
    var msg := Bytes(cmd0, cmd1, payload)[2..];
    assert msg == [cmd0, cmd1] + payload + [XorAll(Covered(cmd0, cmd1, payload))];
    hide And, XorAll;
    TypeBits(cmd0);
    assert Pow2(5) == 32 by { assert Pow2(3) == 8; }
    AndMask(cmd0, 5);
  }

  lemma TypeBits(b: byte)
    ensures And(b, 0xE0) == 32 * (b / 32)
  {
    assert Pow2(3) == 8;
    AndMask(b / 32, 3);
    ShiftedMask(b);
  }

  lemma ShiftedMask(b: byte)
    ensures And(b, 0xE0) == 32 * And(b / 32, 7)
  {
    hide And;
    AndEven(b, 0x70);
    AndEven(b / 2, 0x38);
    AndEven(b / 4, 0x1C);
    AndEven(b / 8, 0x0E);
    AndEven(b / 16, 0x07);
  }

  // A frame as it is sent passes the check, and arrives byte for byte.
  lemma SentIsJudged(cmd0: byte, cmd1: byte, payload: seq<byte>, expected: byte)
    requires |payload| < 256
    ensures Classify(expected, Bytes(cmd0, cmd1, payload)[1..]) == Arrival(cmd0, cmd1, payload, expected)
  {
    var f := Bytes(cmd0, cmd1, payload)[1..];
    assert f[..|f| - 1] == Covered(cmd0, cmd1, payload);
    assert f[1..] == [cmd0, cmd1] + payload + [XorAll(Covered(cmd0, cmd1, payload))];
  }

  // A frame is rejected exactly if its bytes from the length to the checksum do not cancel out. Another one is handed
  // on as it came, by its first command byte.
  lemma JudgedExactly(expected: byte, f: seq<byte>)
    requires |f| >= 4 && |f| - 4 == f[0]
    ensures Classify(expected, f) == Rejected <==> XorAll(f) != 0
    ensures XorAll(f) == 0 ==>
      Classify(expected, f) ==
        if f[1] / 32 != 3 then Normal(f[1..]) else if expected == f[1] % 32 then Urgent(f[1..]) else Discarded
  {
    hide And;
    var n := |f| - 1;
    XorCancel(XorAll(f[..n]), f[n]);
    XorZero(f[n]);
    XorSelf(f[n]);
    TypeBits(f[1]);
    assert Pow2(5) == 32 by { assert Pow2(3) == 8; }
    AndMask(f[1], 5);
  }

  // A frame with one byte changed after its length byte is rejected.
  lemma CorruptionIsRejected(cmd0: byte, cmd1: byte, payload: seq<byte>, expected: byte, i: nat, b: byte)
    requires |payload| < 256 && 1 <= i < |payload| + 4 && b != Bytes(cmd0, cmd1, payload)[1..][i]
    ensures Classify(expected, Bytes(cmd0, cmd1, payload)[1..][i := b]) == Rejected
  {
    var f := Bytes(cmd0, cmd1, payload)[1..];
    var n := |f| - 1;
    assert f[..n] == Covered(cmd0, cmd1, payload);
    if i < n {
      assert f[i := b][..n] == f[..n][i := b];
      FcsDetects(f[..n], i, b);
    } else {
      assert f[i := b][..n] == f[..n];
    }
  }

  lemma {:induction false} FailuresGrow(ts: seq<Turn>, k: nat)
    requires k <= |ts|
    ensures Failures(ts[..k]) <= Failures(ts)
  {
    if k < |ts| {
      FailuresGrow(ts[..|ts| - 1], k);
      assert ts[..|ts| - 1][..k] == ts[..k];
    } else {
      assert ts[..k] == ts;
    }
  }

  // The first k turns serve a frame with rest bytes after its length byte: both single-byte reads succeed, and the
  // others offer just enough, with at most five failures.
  predicate ServedBy(ts: seq<Turn>, k: nat, rest: nat) {
    2 <= k <= |ts| && ts[0].Offers? && ts[0].n >= 1 && ts[1].Offers? && ts[1].n >= 1 && Enough(ts[2..], k - 2, rest)
  }

  // The input starts with a start byte, a length in range, and as many bytes as that announces.
  predicate Announced(w: seq<byte>) { |w| >= 2 && w[0] == SOF && w[1] <= 251 && |w| - 5 >= w[1] }

  // The first k turns serve the frame that w announces.
  predicate Serves(ts: seq<Turn>, k: nat, w: seq<byte>) { Announced(w) && ServedBy(ts, k, w[1] + 3) }

  method Process(t: Transport, expected: byte, rpcBuff: array<byte>) returns (d: Delivery)
    requires rpcBuff.Length == RPC_MAX_LEN
    modifies t, rpcBuff
    ensures d.Urgent? || d.Normal? || d.Discarded? ==>
      Announced(old(t.wire)) && d == Classify(expected, old(t.wire)[1..old(t.wire)[1] + 5])
    ensures forall k: nat :: Serves(old(t.turns), k, old(t.wire)) ==>
              d == Classify(expected, old(t.wire)[1..old(t.wire)[1] + 5]) &&
              t.wire == old(t.wire)[old(t.wire)[1] + 5..] && t.turns == old(t.turns)[k..]
    ensures old(t.wire) != [] && old(t.wire)[0] != SOF && old(t.turns) != [] ==> d == Rejected
  {
    hide Classify;
    ghost var w, ts := t.wire, t.turns;
    if t.turns == [] { return Blocked; }
    var bytesRead := t.Read(rpcBuff, 0, 1);
    if bytesRead != 1 || rpcBuff[0..1] != [SOF] { return Rejected; }
    assert w[0] == w[..1][0] == SOF;
    if t.turns == [] { return Blocked; }
    bytesRead := t.Read(rpcBuff, 0, 1);
    if bytesRead != 1 { return Rejected; }
    var len: nat := rpcBuff[0];
    assert rpcBuff[0..1] == w[1..][..1];
    assert len == rpcBuff[0..1][0] == w[1];
    if len > 251 { return Overrun; }
    assert t.wire == w[2..] && t.turns == ts[2..];
    hide Enough, Failures, Supply;
    var how, used := ReadBody(t, rpcBuff, len + 3);
    if how.Waiting? { return Blocked; }
    if how.Aborted? { return Rejected; }
    assert rpcBuff[..len + 4] == [rpcBuff[0]] + rpcBuff[1..len + 4];
    Gathered(w, len);
    d := Judge(rpcBuff, len, expected);
  }

  lemma Gathered(w: seq<byte>, len: byte)
    requires |w| >= len + 5 && w[1] == len
    ensures [len] + w[2..][..len + 3] == w[1..len + 5]
  {}

  method Judge(rpcBuff: array<byte>, len: nat, expected: byte) returns (d: Delivery)
    requires rpcBuff.Length == RPC_MAX_LEN && len == rpcBuff[0] <= 251
    ensures d == Classify(expected, rpcBuff[..len + 4])
  {
    var fcs := CalcFcs(rpcBuff, 0, len + 3);
    ghost var f := rpcBuff[..len + 4];
    assert f[..len + 3] == rpcBuff[0..0 + (len + 3)] && f[1..] == rpcBuff[1..len + 4];
    if rpcBuff[len + 3] != fcs {
      d := Rejected;
    } else if And(rpcBuff[1], CMD_TYPE_MASK) == SRSP {
      if expected == And(rpcBuff[1], SUBSYSTEM_MASK) {
        d := Urgent(rpcBuff[1..len + 4]);
      } else {
        d := Discarded;
      }
    } else {
      d := Normal(rpcBuff[1..len + 4]);
    }
  }

  // ---- from end to end ----

  // A command to send.
  datatype Command = Command(cmd0: byte, cmd1: byte, payload: seq<byte>) {
    predicate Fits() { |payload| + 5 <= RPC_MAX_LEN }

    function Frame(): (f: seq<byte>)
      requires Fits()
      ensures |f| == |payload| + 5
    { Bytes(cmd0, cmd1, payload) }

    function Delivered(expected: byte): Delivery
      requires Fits()
    { Arrival(cmd0, cmd1, payload, expected) }
  }

  predicate AllFit(cs: seq<Command>) { forall i :: 0 <= i < |cs| ==> cs[i].Fits() }

  // Their frames, one after the other.
  function Line(cs: seq<Command>): seq<byte>
    requires AllFit(cs)
  { if cs == [] then [] else cs[0].Frame() + Line(cs[1..]) }

  // The turns serve one frame after the other.
  ghost predicate LineServed(ts: seq<Turn>, cs: seq<Command>)
    decreases |cs|
  {
    cs == [] || exists k: nat :: ServedBy(ts, k, |cs[0].payload| + 3) && LineServed(ts[k..], cs[1..])
  }

  lemma FrameInFront(c: Command, rest: seq<byte>, expected: byte)
    requires c.Fits()
    ensures var w := c.Frame() + rest;
      Announced(w) && w[1] == |c.payload| && w[w[1] + 5..] == rest &&
      Classify(expected, w[1..w[1] + 5]) == c.Delivered(expected)
  {
    var f := c.Frame();
    var w := f + rest;
    SentIsJudged(c.cmd0, c.cmd1, c.payload, expected);
    assert w[1] == f[1] == |c.payload| && w[0] == f[0];
    assert w[1..|c.payload| + 5] == f[1..] && w[|c.payload| + 5..] == rest;
  }

  // The same with one byte behind the length byte changed.
  lemma CorruptedInFront(c: Command, rest: seq<byte>, expected: byte, i: nat, b: byte)
    requires c.Fits() && 2 <= i < |c.payload| + 5 && b != c.Frame()[i]
    ensures var w := c.Frame()[i := b] + rest;
      Announced(w) && w[1] == |c.payload| && w[w[1] + 5..] == rest && Classify(expected, w[1..w[1] + 5]) == Rejected
  {
    var f := c.Frame()[i := b];
    var w := f + rest;
    CorruptionIsRejected(c.cmd0, c.cmd1, c.payload, expected, i - 1, b);
    assert f[1..] == c.Frame()[1..][i - 1 := b];
    assert w[1] == f[1] == c.Frame()[1] == |c.payload| && w[0] == f[0];
    assert w[1..|c.payload| + 5] == f[1..] && w[|c.payload| + 5..] == rest;
  }

  // The frames from i on are on the line, with rest behind them, and the turns serve them.
  ghost predicate ToCome(ts: seq<Turn>, wire: seq<byte>, cs: seq<Command>, i: nat, rest: seq<byte>) {
    i <= |cs| && AllFit(cs) && wire == Line(cs[i..]) + rest && LineServed(ts, cs[i..])
  }

  lemma AllToCome(ts: seq<Turn>, cs: seq<Command>, rest: seq<byte>)
    requires AllFit(cs) && LineServed(ts, cs)
    ensures ToCome(ts, Line(cs) + rest, cs, 0, rest)
  { assert cs[0..] == cs; }

  lemma NextToCome(ts: seq<Turn>, wire: seq<byte>, cs: seq<Command>, i: nat, rest: seq<byte>)
    returns (k: nat, later: seq<byte>)
    requires ToCome(ts, wire, cs, i, rest) && i < |cs|
    ensures cs[i].Fits() && wire == cs[i].Frame() + later && ServedBy(ts, k, |cs[i].payload| + 3)
    ensures ToCome(ts[k..], later, cs, i + 1, rest)
  {
    hide Enough, Command.Frame;
    var tail := cs[i..];
    assert tail[0] == cs[i] && tail[1..] == cs[i + 1..];
    k :| ServedBy(ts, k, |tail[0].payload| + 3) && LineServed(ts[k..], tail[1..]);
    later := Line(cs[i + 1..]) + rest;
  }

  lemma NothingToCome(ts: seq<Turn>, wire: seq<byte>, cs: seq<Command>, rest: seq<byte>)
    requires ToCome(ts, wire, cs, |cs|, rest)
    ensures wire == rest
  {}

  predicate AllDelivered(ds: seq<Delivery>, cs: seq<Command>, expected: seq<byte>)
    requires AllFit(cs) && |ds| <= |cs| == |expected|
  { forall i :: 0 <= i < |ds| ==> ds[i] == cs[i].Delivered(expected[i]) }

  lemma NoneDelivered(cs: seq<Command>, expected: seq<byte>)
    requires AllFit(cs) && |cs| == |expected|
    ensures AllDelivered([], cs, expected)
  {}

  lemma DeliveredMore(ds: seq<Delivery>, cs: seq<Command>, expected: seq<byte>, d: Delivery)
    requires AllFit(cs) && |ds| < |cs| == |expected| && AllDelivered(ds, cs, expected)
    requires d == cs[|ds|].Delivered(expected[|ds|])
    ensures AllDelivered(ds + [d], cs, expected)
  {}

  // rpcSendFrame, once for each command
  method SendAll(cs: seq<Command>) returns (w: seq<byte>)
    requires AllFit(cs)
    ensures w == Line(cs)
  {
    w := [];
    var buf := new byte[RPC_MAX_LEN];
    var i := |cs|;
    while i > 0
      invariant 0 <= i <= |cs| && w == Line(cs[i..])
    {
      i := i - 1;
      var len := BuildFrame(buf, cs[i].cmd0, cs[i].cmd1, cs[i].payload);
      w := buf[..len] + w;
      assert cs[i..][0] == cs[i] && cs[i..][1..] == cs[i + 1..];
    }
  }

  // One frame, whatever follows it on the line.
  method ProcessOne(t: Transport, c: Command, ghost rest: seq<byte>, expected: byte, rpcBuff: array<byte>, ghost k: nat)
    returns (d: Delivery)
    requires c.Fits() && t.wire == c.Frame() + rest && ServedBy(t.turns, k, |c.payload| + 3)
    requires rpcBuff.Length == RPC_MAX_LEN
    modifies t, rpcBuff
    ensures d == c.Delivered(expected) && t.wire == rest && t.turns == old(t.turns)[k..]
  {
    FrameInFront(c, rest, expected);
    assert Serves(t.turns, k, t.wire);
    hide ServedBy, Classify;
    d := Process(t, expected, rpcBuff);
  }

  // All the frames that rpcSendFrame builds, whatever follows them and however they are split into reads, are delivered
  // by rpcProcess in their order, and what follows is left.
  method SendAndProcess(cs: seq<Command>, rest: seq<byte>, turns: seq<Turn>, expected: seq<byte>)
    returns (ds: seq<Delivery>, left: seq<byte>)
    requires AllFit(cs) && |expected| == |cs| && LineServed(turns, cs)
    ensures |ds| == |cs| && AllDelivered(ds, cs, expected) && left == rest
  {
    hide AllFit, LineServed, ServedBy, Command.Frame, Command.Delivered, ToCome, AllDelivered;
    var w := SendAll(cs);
    var t := new Transport(w + rest, turns);
    var rpcBuff := new byte[RPC_MAX_LEN];
    AllToCome(turns, cs, rest);
    ds := [];
    NoneDelivered(cs, expected);
    while |ds| < |cs|
      invariant |ds| <= |cs| && ToCome(t.turns, t.wire, cs, |ds|, rest) && AllDelivered(ds, cs, expected)
    {
      var i := |ds|;
      ghost var k, later := NextToCome(t.turns, t.wire, cs, i, rest);
      var d := ProcessOne(t, cs[i], later, expected[i], rpcBuff, k);
      DeliveredMore(ds, cs, expected, d);
      ds := ds + [d];
    }
    NothingToCome(t.turns, t.wire, cs, rest);
    left := t.wire;
  }

  // A frame with one byte changed behind its length byte is taken off the line and rejected.
  method ProcessCorrupted(c: Command, i: nat, b: byte, rest: seq<byte>, turns: seq<Turn>, expected: byte, ghost k: nat)
    returns (d: Delivery, left: seq<byte>)
    requires c.Fits() && 2 <= i < |c.payload| + 5 && b != c.Frame()[i] && ServedBy(turns, k, |c.payload| + 3)
    ensures d == Rejected && left == rest
  {
    var t := new Transport(c.Frame()[i := b] + rest, turns);
    var rpcBuff := new byte[RPC_MAX_LEN];
    CorruptedInFront(c, rest, expected, i, b);
    assert Serves(t.turns, k, t.wire);
    hide ServedBy, Classify;
    d := Process(t, expected, rpcBuff);
    left := t.wire;
  }
}
