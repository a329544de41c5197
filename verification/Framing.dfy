// Frames on a byte stream (protocol.c): the check on one frame and the resynchronising scan.
module Framing {
  import opened Bits
  import opened Kfifo

  const SOF: byte := 0xCE
  const BUFLEN := 1024
  const HALFPACK := 255

  // bytebuffer_getword: most significant byte first
  function Word(hi: byte, lo: byte): (w: nat)
    ensures w < 65536
  { 256 * hi + lo }

  // protocol_checksum; a length of 0 is treated like 1
  method Checksum(buf: seq<byte>, buflen: nat) returns (temp: byte)
    requires buf != [] && buflen <= |buf|
    ensures temp == XorAll(if buflen == 0 then buf[..1] else buf[..buflen])
  {
    temp := buf[0];
    assert buf[..1] == [buf[0]];
    XorAllOne(buf[0]);
    var i := 1;
    while i < buflen
      invariant 1 <= i <= |buf| && (i <= buflen || i == 1)
      invariant temp == XorAll(buf[..i])
    {
      assert buf[..i + 1][..i] == buf[..i];
      temp := XorByte(temp, buf[i]);
      i := i + 1;
    }
  }

  // A frame: start byte, total length, message id, payload, checksum, end byte.
  predicate IsFrame(f: seq<byte>) {
    8 <= |f| <= 1024 && f[0] == 0xCE && Word(f[1], f[2]) == |f| &&
    XorAll(f[..|f| - 2]) == f[|f| - 2] && f[|f| - 1] == 0xCE
  }

  // The byte string s begins with the frame of length n.
  predicate FrameAt(s: seq<byte>, n: nat) { n <= |s| && IsFrame(s[..n]) }

  datatype Verdict = Nothing | Half | Frame(id: nat, len: nat) | Drop

  function Window(s: seq<byte>): seq<byte> { if |s| > BUFLEN then s[..BUFLEN] else s }

  // What protocol_check finds at the head of the FIFO.
  function Look(s: seq<byte>): Verdict {
    var b := Window(s);
    if b == [] then Nothing
    else if b[0] != SOF then Drop
    else if |b| > 2 then
      var m := Word(b[1], b[2]);
      if m < 8 || m > 2048 then Drop
      else if m > |b| then Half
      else if XorAll(b[..m - 2]) == b[m - 2] && b[m - 1] == SOF then Frame(Word(b[3], b[4]), m)
      else Drop
    else Half
  }

  // The scan: bytes are dropped until the head is a frame, or may become one, or nothing is left.
  function Scan(s: seq<byte>): (r: (seq<byte>, Verdict))
    ensures !r.1.Drop? && |r.0| <= |s|
    ensures r.1.Frame? ==> r.1.len >= 8
  { if Look(s).Drop? then Scan(s[1..]) else (s, Look(s)) }

  // A byte can be dropped, or need not be.
  ghost predicate MovesOn(fifo: Kfifo)
    requires fifo.Valid()
    reads fifo, fifo.buffer
  { fifo.inn >= fifo.out || !Look(fifo.Contents()).Drop? }

  // The scan on the ring buffer, with the result of each recursive call passed on.
  method ScanFifo(fifo: Kfifo) returns (v: Verdict)
    requires fifo.Valid() && MovesOn(fifo)
    modifies fifo`out
    ensures fifo.Valid() && (fifo.Contents(), v) == Scan(old(fifo.Contents()))
    ensures fifo.inn >= fifo.out <==> old(fifo.inn >= fifo.out)
    decreases fifo.Len()
  {
    ghost var s := fifo.Contents();
    var buf, len := fifo.GetAhead(BUFLEN);
    assert buf == Window(s);
    v := LookAt(buf);
    if v.Drop? {
      hide Look, XorAll;
      PopOne(fifo);
      v := ScanFifo(fifo);
    }
  }

  function Popped(s: seq<byte>): seq<byte> { if s == [] then [] else s[1..] }

  method PopOne(fifo: Kfifo)
    requires fifo.Valid() && fifo.inn >= fifo.out
    modifies fifo`out
    ensures fifo.Valid() && fifo.inn >= fifo.out && fifo.Contents() == Popped(old(fifo.Contents()))
    ensures fifo.Len() <= old(fifo.Len()) && (old(fifo.Len()) > 0 ==> fifo.Len() < old(fifo.Len()))
  {
    fifo.Pop();
  }

  // Otherwise the call to drop a byte changes nothing, so that the recursive call finds what this one found.
  method PopStuck(fifo: Kfifo)
    requires fifo.Valid() && !MovesOn(fifo)
    modifies fifo`out
    ensures fifo.out == old(fifo.out) && fifo.Valid() && fifo.Contents() == old(fifo.Contents()) && !MovesOn(fifo)
  {
    fifo.Pop();
  }

  // The judgement on the bytes that were got ahead.
  method LookAt(buf: seq<byte>) returns (v: Verdict)
    requires |buf| <= BUFLEN
    ensures v == Look(buf)
  {
    if buf == [] { return Nothing; }
    if buf[0] != SOF { return Drop; }
    if |buf| <= 2 { return Half; }
    var messagelen := Word(buf[1], buf[2]);
    if messagelen < 8 || messagelen > 2048 { return Drop; }
    if messagelen > |buf| { return Half; }
    var checksum := Checksum(buf, messagelen - 2);
    if checksum == buf[messagelen - 2] && buf[messagelen - 1] == SOF {
      return Frame(Word(buf[3], buf[4]), messagelen);
    }
    return Drop;
  }

  lemma LookFrame(s: seq<byte>, n: nat)
    ensures FrameAt(s, n) <==> Look(s).Frame? && Look(s).len == n
    ensures FrameAt(s, n) ==> Look(s).id == Word(s[3], s[4])
  {
    if FrameAt(s, n) {
      assert Window(s)[..n] == s[..n];
      assert s[..n][..n - 2] == Window(s)[..n - 2];
    }
    if Look(s).Frame? {
      var m := Look(s).len;
      assert Window(s)[..m] == s[..m];
      assert s[..m][..m - 2] == Window(s)[..m - 2];
    }
  }

  // The verdicts in terms of the bytes: a half frame is a start byte without a whole length behind it, or with a length
  // that is in range and not there yet.
  lemma LookExactly(s: seq<byte>)
    ensures Look(s) == Nothing <==> s == []
    ensures Look(s) == Half <==>
      s != [] && s[0] == 0xCE &&
      (|s| <= 2 || (8 <= 256 * s[1] as int + s[2] as int <= 2048 && 256 * s[1] as int + s[2] as int > Min(|s|, 1024)))
    ensures Look(s).Frame? <==> exists n :: FrameAt(s, n)
  {
    if Look(s).Frame? { LookFrame(s, Look(s).len); }
    forall n | FrameAt(s, n) ensures Look(s).Frame? { LookFrame(s, n); }
  }

  // A byte is dropped only when no frame can start there, whatever follows.
  lemma DropSound(s: seq<byte>, t: seq<byte>, n: nat)
    requires Look(s).Drop?
    ensures !FrameAt(s + t, n)
  {
    LookMore(s, t);
    LookFrame(s + t, n);
  }

  // More input does not change a verdict, except that a half frame may be completed.
  lemma LookMore(s: seq<byte>, t: seq<byte>)
    requires Look(s).Drop? || Look(s).Frame?
    ensures Look(s + t) == Look(s)
  {
    var b, c := Window(s), Window(s + t);
    assert c[..|b|] == b;
    if |b| > 2 && b[0] == SOF {
      var m := Word(b[1], b[2]);
      if 8 <= m <= |b| { assert c[..m - 2] == b[..m - 2]; }
    }
  }

  // The scan does not depend on how the stream was cut into pieces.
  lemma {:induction false} ScanChunks(s: seq<byte>, t: seq<byte>)
    ensures Scan(s + t) == (if Scan(s).1.Frame? then (Scan(s).0 + t, Scan(s).1) else Scan(Scan(s).0 + t))
  {
    if Look(s).Drop? {
      LookMore(s, t);
      assert (s + t)[1..] == s[1..] + t;
      ScanChunks(s[1..], t);
    } else if Look(s).Frame? {
      LookMore(s, t);
    }
  }

  // The scan keeps a suffix of its input and passes over no frame.
  lemma {:induction false} ScanSkips(s: seq<byte>) returns (k: nat)
    ensures k <= |s| && Scan(s).0 == s[k..] && Scan(s).1 == Look(s[k..])
    ensures forall i, n, t: seq<byte> :: 0 <= i < k ==> !FrameAt(s[i..] + t, n)
  {
    if Look(s).Drop? {
      var k' := ScanSkips(s[1..]);
      k := k' + 1;
      assert s[1..][k'..] == s[k..];
      forall i, n, t: seq<byte> | 0 <= i < k ensures !FrameAt(s[i..] + t, n) {
        if i == 0 {
          DropSound(s, t, n);
          assert s[0..] == s;
        } else {
          assert s[i..] == s[1..][i - 1..];
        }
      }
    } else {
      k := 0;
    }
  }

  // Junk without a start byte in front of a frame is skipped, and the frame is returned with its id and length.
  lemma {:induction false} ScanFinds(junk: seq<byte>, f: seq<byte>, t: seq<byte>)
    requires SOF !in junk && IsFrame(f)
    ensures Scan(junk + f + t) == (f + t, Frame(Word(f[3], f[4]), |f|))
  {
    if junk == [] {
      assert junk + f + t == f + t && (f + t)[..|f|] == f;
      LookFrame(f + t, |f|);
    } else {
      assert (junk + f + t)[1..] == junk[1..] + f + t;
      ScanFinds(junk[1..], f, t);
    }
  }

  // A half frame that declares more than the scan window holds stalls the scan whatever follows.
  lemma HalfStalls(s: seq<byte>, t: seq<byte>)
    requires Look(s) == Half && |s| > 2 && Word(s[1], s[2]) > BUFLEN
    ensures Scan(s + t) == (s + t, Half)
  {
  }

  // The half frames that some continuation completes: the declared length is in reach,
  // and the checksum is right if it has already arrived.
  predicate Completable(s: seq<byte>)
    requires Look(s) == Half
  {
    if |s| < 2 then true
    else if |s| == 2 then s[1] <= 4
    else
      var m := Word(s[1], s[2]);
      m <= BUFLEN && (|s| == m - 1 ==> XorAll(s[..m - 2]) == s[m - 2])
  }

  lemma HalfCompletes(s: seq<byte>)
    requires Look(s) == Half
    ensures Completable(s) <==> exists t: seq<byte> :: FrameAt(s + t, |s + t|)
  {
    if Completable(s) { var t := Complete(s); }
    forall t: seq<byte> | FrameAt(s + t, |s + t|) ensures Completable(s) { CompletedWas(s, t); }
  }

  lemma Complete(s: seq<byte>) returns (t: seq<byte>)
    requires Look(s) == Half && Completable(s)
    ensures FrameAt(s + t, |s + t|)
  {
    hide XorAll, IsFrame, FrameAt;
    var more := if |s| == 1 then [0, 8] else if |s| == 2 then [if s[1] == 4 then 0 else 8] else [];
    if |s| > 2 { assert s + more == s; }
    var u := Finish(s + more);
    t := more + u;
    assert s + t == s + more + u;
  }

  lemma CompletedWas(s: seq<byte>, t: seq<byte>)
    requires Look(s) == Half && FrameAt(s + t, |s + t|)
    ensures Completable(s)
  {
    var f := s + t;
    assert f[..|f|] == f;
    if |s| > 2 && |s| == Word(s[1], s[2]) - 1 { assert f[..|f| - 2] == s[..|f| - 2]; }
  }

  // Padding, checksum and end byte for a header with some of its payload.
  lemma Finish(h: seq<byte>) returns (t: seq<byte>)
    requires |h| >= 3 && h[0] == SOF
    requires var m := Word(h[1], h[2]); 8 <= m <= BUFLEN && |h| < m && (|h| == m - 1 ==> XorAll(h[..m - 2]) == h[m - 2])
    ensures FrameAt(h + t, |h + t|)
  {
    var m := Word(h[1], h[2]);
    if |h| == m - 1 {
      t := [SOF];
      assert (h + t)[..m - 2] == h[..m - 2];
    } else {
      var pad: seq<byte> := seq(m - 2 - |h|, _ => 0);
      t := pad + [XorAll(h + pad), SOF];
      assert (h + t)[..m - 2] == h + pad;
    }
    assert (h + t)[..|h + t|] == h + t;
  }

  // ---- protocol_check as it is written ----

  // The checksum and the end byte of a frame of length m at the head of b; a length of 0 is summed like 1.
  predicate Sealed(b: seq<byte>, m: nat)
    requires 2 <= m <= |b|
  { XorAll(if m == 2 then b[..1] else b[..m - 2]) == b[m - 2] && b[m - 1] == SOF }

  // The recursive calls do not pass their result on: a call that drops a byte falls off its end and leaves
  // *messageid alone. An empty FIFO returns 0 without setting *messageid either. Below 2, the declared
  // length sends the checksum outside the buffer.

  datatype Outcome = Empty | Returned(n: nat, id: nat) | FellOff | OutOfBounds

  function Coded(s: seq<byte>): (r: (seq<byte>, Outcome))
    ensures |r.0| <= |s|
    decreases |s|
  {
    var b := Window(s);
    if b == [] then (s, Empty)
    else if b[0] != SOF then CodedDrop(Coded(s[1..]))
    else if |b| > 2 then
      var m := Word(b[1], b[2]);
      var r := if m < 8 || m > 2048 then Coded(s[1..]) else (s, Empty);
      if r.1.OutOfBounds? then r
      else if m > |b| then (r.0, Returned(0, HALFPACK))
      else if m < 2 then (r.0, OutOfBounds)
      else if Sealed(b, m) then (r.0, Returned(m, CodedId(b)))
      else CodedDrop(Coded(Popped(r.0)))
    else (s, Returned(0, HALFPACK))
  }

  function CodedDrop(r: (seq<byte>, Outcome)): (seq<byte>, Outcome) {
    (r.0, if r.1.OutOfBounds? then OutOfBounds else FellOff)
  }

  // buf was zeroed before the FIFO was copied into it
  function CodedId(b: seq<byte>): nat
  { Word(if |b| > 3 then b[3] else 0, if |b| > 4 then b[4] else 0) }

  // The nested calls as a single pass over the bytes: pending counts the calls that still have to pop a byte once the
  // call below them is done.
  datatype Pass = Strayed | Left(rest: seq<byte>)

  function OnePass(s: seq<byte>, pending: nat): Pass
    decreases |s|
  {
    if s == [] then Left([])
    else if Look(s).Drop? then
      if Outside(s) then Strayed else OnePass(s[1..], pending + if Trips(s) then 1 else 0)
    else if pending > 0 then OnePass(s[1..], pending - 1)
    else Left(s)
  }

  lemma {:induction false} OnePassNested(s: seq<byte>, pending: nat)
    ensures var (rest, r) := Coded(s);
      OnePass(s, pending) ==
        if r.OutOfBounds? then Strayed
        else if pending == 0 || rest == [] then Left(rest)
        else OnePass(rest[1..], pending - 1)
    decreases |s|
  {
    hide Coded, Look, Outside, Trips;
    if Look(s).Drop? {
      CodedStep(s);
      if Outside(s) {
      } else if Trips(s) {
        var next := Coded(s[1..]).0;
        OnePassNested(s[1..], pending + 1);
        if next != [] { OnePassNested(next[1..], pending); }
      } else {
        OnePassNested(s[1..], pending);
      }
    } else {
      CodedStays(s);
    }
  }

  // What the code leaves, and whether it stays inside its buffer, for every input.
  lemma CodedIsOnePass(s: seq<byte>)
    ensures OnePass(s, 0) == if Coded(s).1.OutOfBounds? then Strayed else Left(Coded(s).0)
  { OnePassNested(s, 0); }

  // A start byte with a declared length below 8 that passes the checksum all the same.
  predicate ShortSealed(s: seq<byte>, n: nat) {
    var b := Window(s);
    |b| > 2 && b[0] == SOF && n == Word(b[1], b[2]) && 2 <= n < 8 && n <= |b| && Sealed(b, n)
  }

  // The code returns a length exactly for a frame at the head and for such a short one, unless it strays on its way.
  // The bytes that a short one leaves are not those that the length was read from.
  lemma CodedReturns(s: seq<byte>, n: nat, id: nat)
    requires n > 0
    ensures Coded(s).1 == Returned(n, id) <==>
      id == CodedId(Window(s)) && (FrameAt(s, n) || (ShortSealed(s, n) && !OnePass(s[1..], 0).Strayed?))
    ensures ShortSealed(s, n) && !OnePass(s[1..], 0).Strayed? ==> OnePass(s[1..], 0) == Left(Coded(s).0)
  {
    hide XorAll, Outside;
    LookFrame(s, n);
    if s != [] { CodedIsOnePass(s[1..]); }
  }

  // Such a length is 5, 6 or 7.
  lemma ShortLengths(s: seq<byte>, n: nat)
    requires ShortSealed(s, n)
    ensures 5 <= n < 8
  {
    var b := Window(s);
    XorAllOne(SOF);
    assert b[..1] == [SOF];
    assert b[..2] == [SOF, 0] && [SOF, 0][..1] == [SOF];
    XorZero(SOF);
  }

  // The code says that a message is not complete yet exactly for a half frame, and for a declared length out of range
  // and longer than what is there, unless it strays on its way.
  lemma CodedHalf(s: seq<byte>)
    ensures Coded(s).1 == Returned(0, HALFPACK) <==>
      Look(s).Half? || (OutOfRange(s) && !OnePass(s[1..], 0).Strayed?)
  {
    if s != [] { CodedIsOnePass(s[1..]); }
  }

  predicate OutOfRange(s: seq<byte>) {
    var b := Window(s);
    |b| > 2 && b[0] == SOF && var m := Word(b[1], b[2]); !(8 <= m <= 2048) && m > |b|
  }

  // Five bytes that are returned as a message of length 5 with all but one popped already. No frame begins there.
  lemma FalseReport()
    ensures var s := [SOF, 0, 5, 0xCB, SOF];
      Coded(s) == ([SOF], Returned(5, Word(0xCB, SOF))) && forall n :: !FrameAt(s, n)
  {
    hide XorAll, OnePass;
    var s: seq<byte> := [SOF, 0, 5, 0xCB, SOF];
    XorFive(s);
    JunkIsCoded(0xCB, [SOF]);
    JunkIsCoded(5, [0xCB, SOF]);
    JunkIsCoded(0, [5, 0xCB, SOF]);
    assert [0xCB] + [SOF] == [0xCB, SOF] && [5] + [0xCB, SOF] == [5, 0xCB, SOF];
    assert [0] + [5, 0xCB, SOF] == s[1..];
    CodedIsOnePass(s[1..]);
    CodedReturns(s, 5, Word(0xCB, SOF));
  }

  lemma XorFive(s: seq<byte>)
    requires s == [SOF, 0, 5, 0xCB, SOF]
    ensures XorAll(s[..3]) == 0xCB
  {
    XorAllOne(SOF);
    XorZero(SOF);
    assert s[..3][..2] == [SOF, 0] && [SOF, 0][..1] == [SOF];
    SofXorFive();
    hide Xor;
  }

  lemma SofXorFive()
    ensures Xor(0xCE, 5) == 0xCB
  {
    XorZero(25);
    assert Xor(51, 1) == 50;
    assert Xor(103, 2) == 101;
  }

  // The scan finds a frame and the code reports it exactly when it is at the head already.
  lemma CodedReports(s: seq<byte>)
    ensures Scan(s).1.Frame? && Coded(s) == (Scan(s).0, Returned(Scan(s).1.len, Scan(s).1.id)) <==>
            exists n :: FrameAt(s, n)
  {
    if exists n :: FrameAt(s, n) {
      var n :| FrameAt(s, n);
      LookFrame(s, n);
    } else {
      if Look(s).Frame? { LookFrame(s, Look(s).len); }
      hide XorAll, CodedId;
    }
  }

  // A start byte with a declared length below 8 whose checksum, taken all the same, fails: a second byte is popped.
  predicate Trips(s: seq<byte>) {
    var b := Window(s);
    |b| > 2 && b[0] == SOF &&
    var m := Word(b[1], b[2]);
    2 <= m < 8 && m <= |b| && !Sealed(b, m)
  }

  // A start byte with a declared length whose checksum lies in front of the buffer.
  predicate Outside(s: seq<byte>) {
    var b := Window(s);
    |b| > 2 && b[0] == SOF && Word(b[1], b[2]) < 2
  }

  // The first n bytes that the scan drops begin no such thing.
  predicate Inside(s: seq<byte>, n: nat)
    requires n <= |s|
  { forall i :: 0 <= i < n ==> !Outside(s[i..]) }

  predicate NoTrip(s: seq<byte>, n: nat)
    requires n <= |s|
  { forall i :: 0 <= i < n ==> !Trips(s[i..]) }

  // The code stays inside its buffer and leaves the bytes that the scan leaves exactly when no byte that the scan drops
  // begins a length below 2, and it never pops twice or nothing is left. Such a length always takes it outside.
  lemma {:induction false} CodedKeeps(s: seq<byte>)
    ensures |Coded(s).0| <= |Scan(s).0|
    ensures var n := |s| - |Scan(s).0|;
      (!Coded(s).1.OutOfBounds? && Coded(s).0 == Scan(s).0 <==> Inside(s, n) && (Scan(s).0 == [] || NoTrip(s, n))) &&
      (!Inside(s, n) ==> Coded(s).1.OutOfBounds?)
  {
    hide Coded, Look, Scan, Outside, Trips, Inside, NoTrip;
    if Look(s).Drop? {
      CodedStep(s);
      CodedKeeps(s[1..]);
      Onward(s, |s| - |Scan(s).0|);
    } else {
      CodedStays(s);
    }
  }

  // Where the scan stops, the code leaves everything as it is.
  lemma CodedStays(s: seq<byte>)
    requires !Look(s).Drop?
    ensures Scan(s).0 == s && Coded(s).0 == s && !Coded(s).1.OutOfBounds? && Inside(s, 0) && NoTrip(s, 0)
  {
    hide XorAll, CodedId;
  }

  // What the code does where the scan drops a byte.
  lemma CodedStep(s: seq<byte>)
    requires Look(s).Drop?
    ensures s != [] && Scan(s) == Scan(s[1..]) && Coded([]) == ([], Empty)
    ensures var next := Coded(s[1..]);
      if Outside(s) || next.1.OutOfBounds? then Coded(s).1.OutOfBounds? && Coded(s).0 == next.0
      else if Trips(s) then
        Coded(s).0 == Coded(Popped(next.0)).0 && (Coded(s).1.OutOfBounds? <==> Coded(Popped(next.0)).1.OutOfBounds?)
      else Coded(s).0 == next.0 && !Coded(s).1.OutOfBounds?
  {
    hide XorAll, CodedId;
  }

  lemma Onward(s: seq<byte>, n: nat)
    requires 0 < n <= |s|
    ensures Inside(s, n) <==> !Outside(s) && Inside(s[1..], n - 1)
    ensures NoTrip(s, n) <==> !Trips(s) && NoTrip(s[1..], n - 1)
  {
    hide Outside, Trips;
    assert s[0..] == s;
    assert forall i :: 1 <= i < n ==> s[1..][i - 1..] == s[i..];
    assert forall j :: 0 <= j < n - 1 ==> s[1..][j..] == s[j + 1..];
  }

  // A declared length of 0 and nothing else.
  lemma GoesOutside()
    ensures Coded([SOF, 0, 0]).1 == OutOfBounds
  {
    var s: seq<byte> := [SOF, 0, 0];
    assert s[1..] == [0, 0] && [0, 0][1..] == [0] && [0][1..] == [];
    assert Coded([]) == ([], Empty);
    assert Coded([0]) == ([], FellOff);
    assert Coded([0, 0]) == ([], FellOff);
  }

  // One byte of junk in front of any frame: the scan finds the frame, and the code does not report it.
  lemma LosesReport(b: byte, f: seq<byte>, t: seq<byte>)
    requires b != SOF && IsFrame(f)
    ensures Scan([b] + f + t) == (f + t, Frame(Word(f[3], f[4]), |f|)) && Coded([b] + f + t) == (f + t, FellOff)
  {
    ScanFinds([b], f, t);
    HeadIsCoded(f, t);
    JunkIsCoded(b, f + t);
    assert [b] + f + t == [b] + (f + t);
  }

  // A start byte with a declared length of 3 in front of any frame: the code pops the first byte of the frame as well.
  lemma LosesByte(f: seq<byte>, t: seq<byte>)
    requires IsFrame(f)
    ensures Scan([SOF, 0, 3] + f + t) == (f + t, Frame(Word(f[3], f[4]), |f|))
    ensures |Coded([SOF, 0, 3] + f + t).0| < |f + t|
  {
    hide Scan, Coded, IsFrame;
    var junk: seq<byte> := [0, 3];
    var s := junk + f + t;
    ScanFinds(junk, f, t);
    HeadIsCoded(f, t);
    JunkIsCoded(3, f + t);
    JunkIsCoded(0, [3] + (f + t));
    assert s == [0] + ([3] + (f + t)) && s[..2] == junk;
    ShortIsCoded(s);
    assert [SOF] + s == [SOF, 0, 3] + f + t;
  }

  lemma JunkIsCoded(b: byte, s: seq<byte>)
    requires b != SOF
    ensures Coded([b] + s) == CodedDrop(Coded(s))
  { assert ([b] + s)[1..] == s; }

  // With a declared length of 3 and nothing to sum up but the start byte, one byte is popped and then another.
  lemma ShortIsCoded(s: seq<byte>)
    requires |s| >= 2 && s[..2] == [0, 3] && !Coded(s).1.OutOfBounds?
    ensures Scan([SOF] + s) == Scan(s) && Coded([SOF] + s) == CodedDrop(Coded(Popped(Coded(s).0)))
  {
    var all := [SOF] + s;
    assert s[0] == s[..2][0] && s[1] == s[..2][1];
    ShortHead(all);
    assert all[1..] == s;
    hide Sealed, Window, CodedId;
  }

  lemma ShortHead(s: seq<byte>)
    requires |s| >= 3 && s[0] == SOF && s[1] == 0 && s[2] == 3
    ensures var b := Window(s); |b| >= 3 && b[0] == SOF && b[1] == 0 && b[2] == 3 && !Sealed(b, 3) && Look(s) == Drop
  {
    assert Window(s)[..1] == [SOF];
    XorAllOne(SOF);
  }

  lemma HeadIsCoded(f: seq<byte>, t: seq<byte>)
    requires IsFrame(f)
    ensures Coded(f + t) == (f + t, Returned(|f|, Word(f[3], f[4])))
  {
    assert (f + t)[..|f|] == f;
    LookFrame(f + t, |f|);
    CodedReports(f + t);
  }

  method ProtocolCheck(fifo: Kfifo) returns (r: Outcome)
    requires fifo.Valid() && MovesOn(fifo)
    modifies fifo`out
    ensures fifo.Valid() && (fifo.Contents(), r) == Coded(old(fifo.Contents()))
    ensures fifo.inn >= fifo.out <==> old(fifo.inn >= fifo.out)
    decreases 2 * fifo.Len()
  {
    var buf, len := fifo.GetAhead(BUFLEN);
    ghost var s := fifo.Contents();
    assert buf == Window(s);
    if len == 0 { return Empty; }
    if buf[0] != SOF {
      r := PopAndCheck(fifo);
    } else if len > 2 {
      var messagelen := Word(buf[1], buf[2]);
      if messagelen < 8 || messagelen > 2048 {
        r := Again(fifo);
        if r.OutOfBounds? { return; }
      }
      r := CheckMessage(fifo, buf, messagelen);
    } else {
      r := Returned(0, HALFPACK);
    }
  }

  // The part after the length has been judged; by now the FIFO may have moved past buf.
  method CheckMessage(fifo: Kfifo, buf: seq<byte>, messagelen: nat) returns (r: Outcome)
    requires fifo.Valid()
    requires fifo.inn >= fifo.out || messagelen > |buf| || (messagelen >= 2 && Sealed(buf, messagelen))
    modifies fifo`out
    ensures fifo.Valid() && (fifo.inn >= fifo.out <==> old(fifo.inn >= fifo.out))
    ensures (fifo.Contents(), r) ==
      (var s := old(fifo.Contents());
       if messagelen > |buf| then (s, Returned(0, HALFPACK))
       else if messagelen < 2 then (s, OutOfBounds)
       else if Sealed(buf, messagelen) then (s, Returned(messagelen, CodedId(buf)))
       else CodedDrop(Coded(Popped(s))))
    decreases if fifo.Len() == 0 then 1 else 2 * fifo.Len() - 1, 2
  {
    if messagelen > |buf| { return Returned(0, HALFPACK); }
    if messagelen < 2 { return OutOfBounds; }
    var sealed := CheckSeal(buf, messagelen);
    if sealed {
      r := Returned(messagelen, CodedId(buf));
    } else {
      r := PopAndCheck(fifo);
    }
  }

  method CheckSeal(buf: seq<byte>, messagelen: nat) returns (sealed: bool)
    requires 2 <= messagelen <= |buf|
    ensures sealed <==> Sealed(buf, messagelen)
  {
    var checksum := Checksum(buf, messagelen - 2);
    sealed := checksum == buf[messagelen - 2] && buf[messagelen - 1] == SOF;
  }

  // Pop a byte and scan again.
  method Again(fifo: Kfifo) returns (r: Outcome)
    requires fifo.Valid() && fifo.inn >= fifo.out
    modifies fifo`out
    ensures fifo.Valid() && fifo.inn >= fifo.out && (fifo.Contents(), r) == Coded(Popped(old(fifo.Contents())))
    ensures fifo.Len() <= old(fifo.Len()) && (old(fifo.Len()) > 0 ==> fifo.Len() < old(fifo.Len()))
    decreases if fifo.Len() == 0 then 1 else 2 * fifo.Len() - 1, 0
  {
    PopOne(fifo);
    r := ProtocolCheck(fifo);
  }

  // The result of the recursive call is not returned.
  method PopAndCheck(fifo: Kfifo) returns (r: Outcome)
    requires fifo.Valid() && fifo.inn >= fifo.out
    modifies fifo`out
    ensures fifo.Valid() && fifo.inn >= fifo.out &&
      (fifo.Contents(), r) == CodedDrop(Coded(Popped(old(fifo.Contents()))))
    decreases if fifo.Len() == 0 then 1 else 2 * fifo.Len() - 1, 1
  {
    r := Again(fifo);
    if !r.OutOfBounds? { r := FellOff; }
  }
}
