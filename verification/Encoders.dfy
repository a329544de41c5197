// The frames that the gateway sends to its server (parseserver.c), written through the cursors of bytebuffer.h.
module Encoders {
  import opened Bits
  import opened Kfifo
  import opened Framing

  const HEART := 2
  const LOGIN := 3
  const OPERBACK := 4
  const ALARM := 6

  // The low n bytes of v, most significant first.
  function BigEndian(v: nat, n: nat): (s: seq<byte>)
    ensures |s| == n
  { if n == 0 then [] else BigEndian(v / 256, n - 1) + [v % 256] }

  function Value(s: seq<byte>): nat
  { if s == [] then 0 else 256 * Value(s[..|s| - 1]) + s[|s| - 1] }

  function Pow256(n: nat): (p: nat)
    ensures p > 0
  { if n == 0 then 1 else 256 * Pow256(n - 1) }

  // Reading back gives the value, truncated to the width written.
  lemma {:induction false} ValueOfBigEndian(v: nat, n: nat)
    ensures Value(BigEndian(v, n)) == v % Pow256(n)
  {
    if n == 0 {
      assert Pow256(0) == 1;
    } else {
      var s := BigEndian(v, n);
      assert s[..n - 1] == BigEndian(v / 256, n - 1);
      ValueOfBigEndian(v / 256, n - 1);
      Truncated(v, Pow256(n - 1));
    }
  }

  lemma Truncated(v: nat, m: nat)
    requires m > 0
    ensures v % (256 * m) == 256 * (v / 256 % m) + v % 256
  {
    var q, r := v / 256 / m, v / 256 % m;
    assert v / 256 == m * q + r;
    assert 256 * (m * q) == (256 * m) * q;
    ModUnique(v, 256 * m, q, 256 * r + v % 256);
  }

  // Two bytes written as a word are read back by Word.
  lemma WordOfBigEndian(v: nat)
    ensures |BigEndian(v, 2)| == 2 && Word(BigEndian(v, 2)[0], BigEndian(v, 2)[1]) == v % 65536
  {
    assert BigEndian(v, 2) == BigEndian(v / 256, 1) + [v % 256];
    assert BigEndian(v / 256, 1) == BigEndian(v / 256 / 256, 0) + [v / 256 % 256];
    Truncated(v, 256);
  }

  // ---- frames ----

  function Seal(body: seq<byte>): seq<byte>
    requires body != []
  { body + [XorAll(body), SOF] }

  // Start byte, total length, message id and payload.
  function Body(id: nat, payload: seq<byte>): (b: seq<byte>)
    ensures |b| == 5 + |payload|
  { [SOF] + BigEndian(7 + |payload|, 2) + BigEndian(id, 2) + payload }

  function Message(id: nat, payload: seq<byte>): (f: seq<byte>)
    ensures |f| == 7 + |payload|
  { Seal(Body(id, payload)) }

  // A message is a frame with its own id exactly when it has a payload and fits the scan window.
  lemma MessageIsFrame(id: nat, payload: seq<byte>)
    requires id < 65536 && 7 + |payload| < 65536
    ensures IsFrame(Message(id, payload)) <==> 1 <= |payload| <= BUFLEN - 7
    ensures Word(Message(id, payload)[3], Message(id, payload)[4]) == id
  {
    hide XorAll, BigEndian, Word;
    var f := Message(id, payload);
    WordOfBigEndian(7 + |payload|);
    WordOfBigEndian(id);
    assert f[1] == BigEndian(7 + |payload|, 2)[0] && f[2] == BigEndian(7 + |payload|, 2)[1];
    assert f[3] == BigEndian(id, 2)[0] && f[4] == BigEndian(id, 2)[1];
    assert f[..|f| - 2] == Body(id, payload);
  }

  // The length and the id, most significant byte first, between start byte and payload; the bytes up to the checksum
  // cancel out.
  lemma MessageLayout(id: nat, payload: seq<byte>)
    requires id < 65536 && 7 + |payload| < 65536
    ensures var f, n := Message(id, payload), 7 + |payload|;
      |f| == n && f[..5] == [0xCE, n / 256, n % 256, id / 256, id % 256] && f[5..n - 2] == payload &&
      f[n - 1] == 0xCE && XorAll(f[..n - 1]) == 0
  {
    var f, n := Message(id, payload), 7 + |payload|;
    hide XorAll;
    TwoBytes(n);
    TwoBytes(id);
    assert f[..5] == [0xCE] + BigEndian(n, 2) + BigEndian(id, 2);
    assert f[..n - 1] == Body(id, payload) + [XorAll(Body(id, payload))];
    XorAllSealed(Body(id, payload));
  }

  lemma TwoBytes(v: nat)
    requires v < 65536
    ensures BigEndian(v, 2) == [v / 256, v % 256]
  {
    assert BigEndian(v / 256, 1) == BigEndian(v / 256 / 256, 0) + [v / 256 % 256];
  }

  // The scan accepts every such message, after junk without a start byte and before any bytes.
  lemma Accepted(id: nat, payload: seq<byte>, junk: seq<byte>, t: seq<byte>)
    requires id < 65536 && 1 <= |payload| <= BUFLEN - 7 && SOF !in junk
    ensures var f := Message(id, payload);
      Scan(junk + f + t) == (f + t, Frame(id, |f|)) && Coded(f + t) == (f + t, Returned(|f|, id))
  {
    var f := Message(id, payload);
    MessageIsFrame(id, payload);
    ScanFinds(junk, f, t);
    ScanFinds([], f, t);
    assert [] + f + t == f + t;
    assert (f + t)[..|f|] == f;
    LookFrame(f + t, |f|);
    CodedReports(f + t);
  }

  // ---- the cursor writes of bytebuffer.h ----

  // Writes bytes at p and moves the cursor on.
  method Write(buf: array<byte>, p: nat, bytes: seq<byte>) returns (p': nat)
    requires p + |bytes| <= buf.Length
    modifies buf
    ensures p' == p + |bytes|
    ensures buf[..] == Stored(old(buf[..]), p, bytes)
    ensures buf[..p'] == old(buf[..p]) + bytes
  {
    forall i | 0 <= i < |bytes| { buf[p + i] := bytes[i]; }
    p' := p + |bytes|;
  }

  method WriteByte(buf: array<byte>, p: nat, d: nat) returns (p': nat)
    requires p < buf.Length
    modifies buf
    ensures p' == p + 1 && buf[..p'] == old(buf[..p]) + [d % 256]
  {
    buf[p] := d % 256;
    p' := p + 1;
  }

  method WriteWord(buf: array<byte>, p: nat, d: nat) returns (p': nat)
    requires p + 2 <= buf.Length
    modifies buf
    ensures p' == p + 2 && buf[..p'] == old(buf[..p]) + BigEndian(d, 2)
    ensures buf[..] == Stored(old(buf[..]), p, BigEndian(d, 2))
  {
    p' := Write(buf, p, BigEndian(d, 2));
  }

  method WriteDword(buf: array<byte>, p: nat, d: nat) returns (p': nat)
    requires p + 4 <= buf.Length
    modifies buf
    ensures p' == p + 4 && buf[..p'] == old(buf[..p]) + BigEndian(d, 4)
  {
    p' := Write(buf, p, BigEndian(d, 4));
  }

  method WriteMac(buf: array<byte>, p: nat, d: nat) returns (p': nat)
    requires p + 6 <= buf.Length
    modifies buf
    ensures p' == p + 6 && buf[..p'] == old(buf[..p]) + BigEndian(d, 6)
  {
    p' := Write(buf, p, BigEndian(d, 6));
  }

  method WriteQuadword(buf: array<byte>, p: nat, d: nat) returns (p': nat)
    requires p + 8 <= buf.Length
    modifies buf
    ensures p' == p + 8 && buf[..p'] == old(buf[..p]) + BigEndian(d, 8)
  {
    p' := Write(buf, p, BigEndian(d, 8));
  }

  // encode_checksum
  method EncodeChecksum(buf: array<byte>, buflen: nat) returns (temp: byte)
    requires 1 <= buflen <= buf.Length
    ensures temp == XorAll(buf[..buflen])
  {
    temp := buf[0];
    assert buf[..1] == [buf[0]];
    XorAllOne(buf[0]);
    var i := 1;
    while i < buflen
      invariant 1 <= i <= buflen && temp == XorAll(buf[..i])
    {
      assert buf[..i + 1][..i] == buf[..i];
      temp := XorByte(temp, buf[i]);
      i := i + 1;
    }
  }

  // The checksum and the end byte that close every message.
  method WriteSeal(buf: array<byte>, p: nat) returns (p': nat)
    requires 1 <= p && p + 2 <= buf.Length
    modifies buf
    ensures p' == p + 2 && buf[..p'] == Seal(old(buf[..p]))
  {
    var checksum := EncodeChecksum(buf, p);
    p' := WriteByte(buf, p, checksum);
    p' := WriteByte(buf, p', SOF);
  }

  method WriteHeader(buf: array<byte>, len: nat, id: nat) returns (p: nat)
    requires buf.Length >= 5
    modifies buf
    ensures p == 5 && buf[..p] == [SOF] + BigEndian(len, 2) + BigEndian(id, 2)
  {
    p := WriteByte(buf, 0, SOF);
    p := WriteWord(buf, p, len);
    p := WriteWord(buf, p, id);
  }

  // ---- the encoders ----

  function HeartPayload(gatewayId: nat): (s: seq<byte>)
    ensures |s| == 6
  { BigEndian(gatewayId, 6) }

  method EncodeHeart(gatewayId: nat, buf: array<byte>) returns (buflen: nat)
    requires buf.Length >= 13
    modifies buf
    ensures buflen <= buf.Length && buf[..buflen] == Message(HEART, HeartPayload(gatewayId))
  {
    var p := WriteHeader(buf, 0x0D, HEART);
    p := WriteMac(buf, p, gatewayId);
    assert buf[..p] == Body(HEART, HeartPayload(gatewayId));
    buflen := WriteSeal(buf, p);
  }

  function OperbackPayload(gatewayId: nat, serialId: nat, result: byte): (s: seq<byte>)
    ensures |s| == 11
  { BigEndian(gatewayId, 6) + BigEndian(serialId, 4) + [result] }

  method EncodeOperback(gatewayId: nat, buf: array<byte>, serialId: nat, result: byte) returns (buflen: nat)
    requires buf.Length >= 18
    modifies buf
    ensures buflen <= buf.Length && buf[..buflen] == Message(OPERBACK, OperbackPayload(gatewayId, serialId, result))
  {
    var p := WriteHeader(buf, 0x12, OPERBACK);
    p := WriteMac(buf, p, gatewayId);
    p := WriteDword(buf, p, serialId);
    p := WriteByte(buf, p, result);
    assert buf[..p] == Body(OPERBACK, OperbackPayload(gatewayId, serialId, result));
    p := WriteSeal(buf, p);
    buflen := 0x12;
  }

  // The zone type is cut to a byte; the device address is the constant 1.
  function AlarmPayload(gatewayId: nat, zoneType: nat, time: nat, alarm: byte): (s: seq<byte>)
    ensures |s| == 23
  { BigEndian(gatewayId, 6) + [zoneType % 256, 0x06] + BigEndian(1, 6) + BigEndian(time, 8) + [alarm] }

  method WriteZone(buf: array<byte>, p: nat, zoneType: nat) returns (p': nat)
    requires p + 8 <= buf.Length
    modifies buf
    ensures p' == p + 8 && buf[..p'] == old(buf[..p]) + ([zoneType % 256, 0x06] + BigEndian(1, 6))
  {
    p' := WriteByte(buf, p, zoneType);
    p' := WriteByte(buf, p', 0x06);
    p' := WriteMac(buf, p', 1);
    assert buf[..p'] == old(buf[..p]) + ([zoneType % 256, 0x06] + BigEndian(1, 6));
  }

  method EncodeAlarm(gatewayId: nat, buf: array<byte>, zoneType: nat, time: nat, alarm: byte) returns (buflen: nat)
    requires buf.Length >= 30
    modifies buf
    ensures buflen <= buf.Length && buf[..buflen] == Message(ALARM, AlarmPayload(gatewayId, zoneType, time, alarm))
  {
    var p := WriteHeader(buf, 0x1E, ALARM);
    p := WriteMac(buf, p, gatewayId);
    p := WriteZone(buf, p, zoneType);
    p := WriteQuadword(buf, p, time);
    p := WriteByte(buf, p, alarm);
    assert buf[..p] == Body(ALARM, AlarmPayload(gatewayId, zoneType, time, alarm));
    p := WriteSeal(buf, p);
    buflen := 0x1E;
  }

  datatype Device = Device(id: nat, company: nat, status: byte, name: seq<byte>)

  function DeviceBytes(d: Device): (s: seq<byte>)
    ensures |s| == 11 + |d.name| % 256
  { [0x06] + BigEndian(d.id, 6) + BigEndian(d.company, 2) + [d.status, |d.name| % 256] + d.name[..|d.name| % 256] }

  function DevicesBytes(ds: seq<Device>): seq<byte>
  { if ds == [] then [] else DevicesBytes(ds[..|ds| - 1]) + DeviceBytes(ds[|ds| - 1]) }

  function LoginPayload(gatewayId: nat, count: nat, ds: seq<Device>): (s: seq<byte>)
    ensures |s| == 8 + |DevicesBytes(ds)|
  { BigEndian(gatewayId, 6) + BigEndian(count, 2) + DevicesBytes(ds) }

  method WriteDevice(buf: array<byte>, p: nat, d: Device) returns (p': nat)
    requires p + |DeviceBytes(d)| <= buf.Length
    modifies buf
    ensures p' == p + |DeviceBytes(d)| && buf[..p'] == old(buf[..p]) + DeviceBytes(d)
  {
    hide BigEndian, Stored;
    p' := WriteDeviceHead(buf, p, d);
    var namelen := |d.name| % 256;
    p' := WriteByte(buf, p', namelen);
    p' := Write(buf, p', d.name[..namelen]);
    assert buf[..p'] == old(buf[..p]) + DeviceBytes(d);
  }

  method WriteDeviceHead(buf: array<byte>, p: nat, d: Device) returns (p': nat)
    requires p + 10 <= buf.Length
    modifies buf
    ensures p' == p + 10 &&
      buf[..p'] == old(buf[..p]) + ([0x06] + BigEndian(d.id, 6) + BigEndian(d.company, 2) + [d.status])
  {
    p' := WriteByte(buf, p, 0x06);
    p' := WriteMac(buf, p', d.id);
    p' := WriteWord(buf, p', d.company);
    p' := WriteByte(buf, p', d.status);
    assert buf[..p'] == old(buf[..p]) + ([0x06] + BigEndian(d.id, 6) + BigEndian(d.company, 2) + [d.status]);
  }

  lemma {:induction false} DevicesPrefix(ds: seq<Device>, n: nat)
    requires n <= |ds|
    ensures |DevicesBytes(ds[..n])| <= |DevicesBytes(ds)|
    decreases |ds| - n
  {
    if n < |ds| {
      DevicesPrefix(ds, n + 1);
      assert ds[..n + 1][..n] == ds[..n];
    } else {
      assert ds[..n] == ds;
    }
  }

  method WriteDevices(buf: array<byte>, p: nat, ds: seq<Device>) returns (p': nat)
    requires p + |DevicesBytes(ds)| <= buf.Length
    modifies buf
    ensures p' == p + |DevicesBytes(ds)| && buf[..p'] == old(buf[..p]) + DevicesBytes(ds)
  {
    p' := p;
    var i := 0;
    while i < |ds|
      invariant 0 <= i <= |ds| && p' == p + |DevicesBytes(ds[..i])| <= buf.Length
      invariant buf[..p'] == old(buf[..p]) + DevicesBytes(ds[..i])
    {
      DevicesPrefix(ds, i + 1);
      assert ds[..i + 1][..i] == ds[..i];
      p' := WriteDevice(buf, p', ds[i]);
      i := i + 1;
    }
    assert ds[..i] == ds;
  }

  method WriteLoginPayload(buf: array<byte>, p: nat, gatewayId: nat, count: nat, ds: seq<Device>) returns (p': nat)
    requires p + 8 + |DevicesBytes(ds)| <= buf.Length
    modifies buf
    ensures p' == p + 8 + |DevicesBytes(ds)| && buf[..p'] == old(buf[..p]) + LoginPayload(gatewayId, count, ds)
  {
    p' := WriteMac(buf, p, gatewayId);
    p' := WriteWord(buf, p', count);
    p' := WriteDevices(buf, p', ds);
  }

  // Writes over the two length bytes of a message body.
  lemma Patched(before: seq<byte>, now: seq<byte>, id: nat, payload: seq<byte>)
    requires |before| <= |now| && |before| == 5 + |payload|
    requires before == [SOF] + BigEndian(0, 2) + BigEndian(id, 2) + payload
    requires forall i :: 0 <= i < |before| ==>
      now[i] == if 1 <= i < 3 then BigEndian(7 + |payload|, 2)[i - 1] else before[i]
    ensures now[..|before|] == Body(id, payload)
  {}

  // The length is written as 0 first and patched when the devices have been written.
  method EncodeLogin(gatewayId: nat, count: nat, ds: seq<Device>, buf: array<byte>) returns (buflen: nat)
    requires buf.Length >= 15 + |DevicesBytes(ds)|
    modifies buf
    ensures buflen <= buf.Length && buf[..buflen] == Message(LOGIN, LoginPayload(gatewayId, count, ds))
  {
    var p := WriteHeader(buf, 0, LOGIN);
    p := WriteLoginPayload(buf, p, gatewayId, count, ds);
    ghost var unpatched := buf[..p];
    hide LoginPayload, DevicesBytes, BigEndian, Body, XorAll;
    var p1 := WriteWord(buf, 1, p + 2);
    Patched(unpatched, buf[..], LOGIN, LoginPayload(gatewayId, count, ds));
    buflen := WriteSeal(buf, p);
  }

  // The payloads, field by field: a gateway id of 48 bits in each, and
  // in a result message a serial id of 32 bits and the result,
  lemma OperbackLayout(gatewayId: nat, serialId: nat, result: byte)
    ensures var s := OperbackPayload(gatewayId, serialId, result);
      |s| == 11 && Value(s[..6]) == gatewayId % Pow256(6) && Value(s[6..10]) == serialId % Pow256(4) && s[10] == result
  {
    var s := OperbackPayload(gatewayId, serialId, result);
    assert s[..6] == BigEndian(gatewayId, 6) && s[6..10] == BigEndian(serialId, 4);
    ValueOfBigEndian(gatewayId, 6);
    ValueOfBigEndian(serialId, 4);
  }

  // in a heart message nothing else,
  lemma HeartLayout(gatewayId: nat)
    ensures var s := HeartPayload(gatewayId); |s| == 6 && Value(s) == gatewayId % Pow256(6)
  { ValueOfBigEndian(gatewayId, 6); }

  // in an alarm message the zone type cut to a byte, the address mode 6, the device 1, the time and the alarm,
  lemma AlarmLayout(gatewayId: nat, zoneType: nat, time: nat, alarm: byte)
    ensures var s := AlarmPayload(gatewayId, zoneType, time, alarm);
      |s| == 23 && Value(s[..6]) == gatewayId % Pow256(6) && s[6] == zoneType % 256 && s[7] == 6 &&
      Value(s[8..14]) == 1 && Value(s[14..22]) == time % Pow256(8) && s[22] == alarm
  {
    var s := AlarmPayload(gatewayId, zoneType, time, alarm);
    assert s[..6] == BigEndian(gatewayId, 6) && s[8..14] == BigEndian(1, 6) && s[14..22] == BigEndian(time, 8);
    ValueOfBigEndian(gatewayId, 6);
    ValueOfBigEndian(1, 6);
    OneIsSmall();
    ValueOfBigEndian(time, 8);
  }

  lemma OneIsSmall()
    ensures 1 % Pow256(6) == 1
  {
    assert Pow256(6) == 256 * Pow256(5);
  }

  // and in a login message the number of devices and the devices in their order:
  lemma LoginLayout(gatewayId: nat, count: nat, ds: seq<Device>)
    ensures var s := LoginPayload(gatewayId, count, ds);
      |s| >= 8 && Value(s[..6]) == gatewayId % Pow256(6) && Value(s[6..8]) == count % Pow256(2) &&
      s[8..] == DevicesBytes(ds)
  {
    var s := LoginPayload(gatewayId, count, ds);
    assert s[..6] == BigEndian(gatewayId, 6) && s[6..8] == BigEndian(count, 2);
    ValueOfBigEndian(gatewayId, 6);
    ValueOfBigEndian(count, 2);
  }

  lemma NoDevices()
    ensures DevicesBytes([]) == []
  {}

  lemma OneDeviceMore(ds: seq<Device>, d: Device)
    ensures DevicesBytes(ds + [d]) == DevicesBytes(ds) + DeviceBytes(d)
  { assert (ds + [d])[..|ds|] == ds; }

  lemma {:induction false} DevicesInOrder(a: seq<Device>, b: seq<Device>)
    ensures DevicesBytes(a + b) == DevicesBytes(a) + DevicesBytes(b)
  {
    hide DeviceBytes, DevicesBytes;
    if b == [] {
      assert a + b == a;
      NoDevices();
    } else {
      var init, last := b[..|b| - 1], b[|b| - 1];
      DevicesInOrder(a, init);
      OneDeviceMore(init, last);
      OneDeviceMore(a + init, last);
      assert b == init + [last] && a + b == (a + init) + [last];
    }
  }

  // the address mode 6, an id of 48 bits, the company, the status, and the name with its length cut to a byte.
  lemma DeviceLayout(d: Device)
    ensures var s, n := DevicesBytes([d]), |d.name| % 256;
      |s| == 11 + n && s[0] == 6 && Value(s[1..7]) == d.id % Pow256(6) && Value(s[7..9]) == d.company % Pow256(2) &&
      s[9] == d.status && s[10] == n && s[11..] == d.name[..n]
  {
    assert [d][..0] == [] && DevicesBytes([]) == [];
    var s := DevicesBytes([d]);
    assert s == DeviceBytes(d);
    assert s[1..7] == BigEndian(d.id, 6) && s[7..9] == BigEndian(d.company, 2);
    ValueOfBigEndian(d.id, 6);
    ValueOfBigEndian(d.company, 2);
  }

  // Heart, operback and alarm messages are always frames; a login message is one as long as it has at most 1024 bytes.
  lemma EncodersAccepted(gatewayId: nat, serialId: nat, result: byte, zoneType: nat, time: nat, count: nat,
                         ds: seq<Device>, junk: seq<byte>, t: seq<byte>)
    requires SOF !in junk && 15 + |DevicesBytes(ds)| < 65536
    ensures var f := Message(HEART, HeartPayload(gatewayId)); Scan(junk + f + t) == (f + t, Frame(2, 13))
    ensures var f := Message(OPERBACK, OperbackPayload(gatewayId, serialId, result));
      Scan(junk + f + t) == (f + t, Frame(4, 18))
    ensures var f := Message(ALARM, AlarmPayload(gatewayId, zoneType, time, result));
      Scan(junk + f + t) == (f + t, Frame(6, 30))
    ensures var f := Message(LOGIN, LoginPayload(gatewayId, count, ds));
      Scan(junk + f + t) == (f + t, Frame(3, |f|)) <==> |f| <= 1024
  {
    Accepted(HEART, HeartPayload(gatewayId), junk, t);
    Accepted(OPERBACK, OperbackPayload(gatewayId, serialId, result), junk, t);
    Accepted(ALARM, AlarmPayload(gatewayId, zoneType, time, result), junk, t);
    var payload := LoginPayload(gatewayId, count, ds);
    var f := Message(LOGIN, payload);
    if |f| <= BUFLEN {
      Accepted(LOGIN, payload, junk, t);
    } else if Scan(junk + f + t) == (f + t, Frame(LOGIN, |f|)) {
      var k := ScanSkips(junk + f + t);
      LookFrame(f + t, |f|);
    }
  }
}
