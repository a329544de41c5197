// Lists of attribute records on the air (zcl.c): the senders write them with a length pass and a writing pass,
// the parsers read them with a counting pass and a copying pass.
module ZclCodec {
  import opened Bits
  import opened ZclData

  const SUCCESS: byte := 0
  const ZCL_SEND_ATTR_REPORTS: byte := 0

  // Write commands and reports have the same records. Reporting configurations come in commands and in responses.
  datatype Format = Values | ReadRsp | ConfigReport | ReportCfgRsp

  // The fields of a record in front of its data.
  datatype Head =
    | Value(attrId: nat, dataType: byte)
    | NoValue(attrId: nat, status: byte)
    | Sent(attrId: nat, dataType: byte, min: nat, max: nat)
    | Received(attrId: nat, direction: byte, timeout: nat)
    | NoConfig(attrId: nat, direction: byte, status: byte)

  datatype Record = Record(head: Head, data: seq<byte>)

  // The heads that a format has.
  predicate Proper(format: Format, h: Head) {
    h.attrId < 65536 &&
    match h
    case Value(_, _) => format.Values? || format.ReadRsp?
    case NoValue(_, status) => format.ReadRsp? && status != SUCCESS
    case Sent(_, _, min, max) => (format.ConfigReport? || format.ReportCfgRsp?) && min < 65536 && max < 65536
    case Received(_, direction, timeout) =>
      (format.ConfigReport? || format.ReportCfgRsp?) && direction != ZCL_SEND_ATTR_REPORTS && timeout < 65536
    case NoConfig(_, _, status) => format.ReportCfgRsp? && status != SUCCESS
  }

  // A record with as much data as its head says.
  predicate Tidy(format: Format, r: Record) {
    Proper(format, r.head) &&
    match r.head
    case Value(_, dataType) => Whole(dataType, r.data)
    case Sent(_, dataType, _, _) => |r.data| == if Analog(dataType) then DataTypeLength(dataType) else 0
    case _ => r.data == []
  }

  predicate AllTidy(format: Format, recs: seq<Record>) { forall i :: 0 <= i < |recs| ==> Tidy(format, recs[i]) }

  function HeadBytes(format: Format, h: Head): (s: seq<byte>)
    requires Proper(format, h)
    ensures |s| == HeadLength(format, h)
  {
    var id := LittleEndian(h.attrId);
    match h
    case Value(_, dataType) => if format.ReadRsp? then id + [SUCCESS, dataType] else id + [dataType]
    case NoValue(_, status) => id + [status]
    case Sent(_, dataType, min, max) =>
      (if format.ReportCfgRsp? then [SUCCESS, ZCL_SEND_ATTR_REPORTS] else [ZCL_SEND_ATTR_REPORTS]) +
      id + [dataType] + LittleEndian(min) + LittleEndian(max)
    case Received(_, direction, timeout) =>
      (if format.ReportCfgRsp? then [SUCCESS, direction] else [direction]) + id + LittleEndian(timeout)
    case NoConfig(_, direction, status) => [status, direction] + id
  }

  function HeadLength(format: Format, h: Head): nat {
    match h
    case Value(_, _) => if format.ReadRsp? then 4 else 3
    case NoValue(_, _) => 3
    case Sent(_, _, _, _) => if format.ReportCfgRsp? then 9 else 8
    case Received(_, _, _) => if format.ReportCfgRsp? then 6 else 5
    case NoConfig(_, _, _) => 4
  }

  function WordAt(s: seq<byte>, i: nat): (w: nat)
    ensures w < 65536
  { Word(At(s, i), At(s, i + 1)) }

  // The fields that a parser reads at the front of s.
  function ReadHead(format: Format, s: seq<byte>): Head {
    match format
    case Values => Value(WordAt(s, 0), At(s, 2))
    case ReadRsp => if At(s, 2) == SUCCESS then Value(WordAt(s, 0), At(s, 3)) else NoValue(WordAt(s, 0), At(s, 2))
    case ConfigReport =>
      if At(s, 0) == ZCL_SEND_ATTR_REPORTS then Sent(WordAt(s, 1), At(s, 3), WordAt(s, 4), WordAt(s, 6))
      else Received(WordAt(s, 1), At(s, 0), WordAt(s, 3))
    case ReportCfgRsp =>
      if At(s, 0) != SUCCESS then NoConfig(WordAt(s, 2), At(s, 1), At(s, 0))
      else if At(s, 1) == ZCL_SEND_ATTR_REPORTS then Sent(WordAt(s, 2), At(s, 4), WordAt(s, 5), WordAt(s, 7))
      else Received(WordAt(s, 2), At(s, 1), WordAt(s, 4))
  }

  // How much data follows a head in s.
  function DataSize(h: Head, s: seq<byte>): (n: nat)
    ensures n < 65536
  {
    match h
    case Value(_, dataType) => DataLength(dataType, s)
    case Sent(_, dataType, _, _) => if Analog(dataType) then DataTypeLength(dataType) else 0
    case _ => 0
  }

  function Bytes(format: Format, r: Record): (s: seq<byte>)
    requires Tidy(format, r)
    ensures |s| == HeadLength(format, r.head) + |r.data|
  { HeadBytes(format, r.head) + r.data }

  // The records on the air, byte for byte: identifiers, intervals and timeouts go out low byte first.
  lemma Layout(format: Format, r: Record)
    requires Tidy(format, r)
    ensures var s, id := Bytes(format, r), r.head.attrId;
      match r.head
      case Value(_, dataType) =>
        if format.Values? then s == [id % 256, id / 256, dataType] + r.data
        else s == [id % 256, id / 256, 0, dataType] + r.data
      case NoValue(_, status) => s == [id % 256, id / 256, status]
      case Sent(_, dataType, min, max) =>
        s == (if format.ConfigReport? then [0] else [0, 0]) +
          [id % 256, id / 256, dataType, min % 256, min / 256, max % 256, max / 256] + r.data
      case Received(_, direction, timeout) =>
        s == (if format.ConfigReport? then [direction] else [0, direction]) +
          [id % 256, id / 256, timeout % 256, timeout / 256]
      case NoConfig(_, direction, status) => s == [status, direction, id % 256, id / 256]
  {
    match r.head {
      case Sent(_, dataType, min, max) => SentLayout(format, r);
      case Received(_, direction, timeout) => ReceivedLayout(format, r);
      case _ =>
    }
  }

  lemma SentLayout(format: Format, r: Record)
    requires Tidy(format, r) && r.head.Sent?
    ensures var id, min, max := r.head.attrId, r.head.min, r.head.max;
      Bytes(format, r) == (if format.ConfigReport? then [0] else [0, 0]) +
        [id % 256, id / 256, r.head.dataType, min % 256, min / 256, max % 256, max / 256] + r.data
  {}

  lemma ReceivedLayout(format: Format, r: Record)
    requires Tidy(format, r) && r.head.Received?
    ensures var id, timeout := r.head.attrId, r.head.timeout;
      Bytes(format, r) == (if format.ConfigReport? then [r.head.direction] else [0, r.head.direction]) +
        [id % 256, id / 256, timeout % 256, timeout / 256]
  {}

  // The records from i on, one after the other.
  function WireFrom(format: Format, recs: seq<Record>, i: nat): seq<byte>
    requires AllTidy(format, recs) && i <= |recs|
    decreases |recs| - i
  { if i == |recs| then [] else Bytes(format, recs[i]) + WireFrom(format, recs, i + 1) }

  // The payload of a command with these records.
  function Wire(format: Format, recs: seq<Record>): seq<byte>
    requires AllTidy(format, recs)
  { WireFrom(format, recs, 0) }

  // The records of a payload follow one another in their order.
  lemma {:induction false} WireConcat(format: Format, a: seq<Record>, b: seq<Record>)
    requires AllTidy(format, a) && AllTidy(format, b)
    ensures AllTidy(format, a + b) && Wire(format, a + b) == Wire(format, a) + Wire(format, b)
  {
    hide Tidy, Bytes;
    WireConcatFrom(format, a, b, 0);
  }

  lemma {:induction false} WireConcatFrom(format: Format, a: seq<Record>, b: seq<Record>, i: nat)
    requires AllTidy(format, a) && AllTidy(format, b) && AllTidy(format, a + b) && i <= |a|
    ensures WireFrom(format, a + b, i) == WireFrom(format, a, i) + WireFrom(format, b, 0)
    decreases |a| - i
  {
    hide Tidy, Bytes;
    if i < |a| {
      WireConcatFrom(format, a, b, i + 1);
      Regroup(Bytes(format, a[i]), WireFrom(format, a, i + 1), WireFrom(format, b, 0));
    } else {
      WireShift(format, a, b, 0);
    }
  }

  lemma {:induction false} WireShift(format: Format, a: seq<Record>, b: seq<Record>, j: nat)
    requires AllTidy(format, b) && AllTidy(format, a + b) && j <= |b|
    ensures WireFrom(format, a + b, |a| + j) == WireFrom(format, b, j)
    decreases |b| - j
  {
    hide Tidy, Bytes;
    if j < |b| { WireShift(format, a, b, j + 1); }
  }

  lemma WireOne(format: Format, r: Record)
    requires Tidy(format, r)
    ensures Wire(format, [r]) == Bytes(format, r)
  {
    assert WireFrom(format, [r], 1) == [];
  }

  // A head that was written is read back.
  lemma HeadRoundTrip(format: Format, h: Head, rest: seq<byte>)
    requires Proper(format, h)
    ensures ReadHead(format, HeadBytes(format, h) + rest) == h
  {
    var s := HeadBytes(format, h) + rest;
    var id := LittleEndian(h.attrId);
    match h {
      case Value(_, dataType) => assert s[0] == id[0] && s[1] == id[1];
      case NoValue(_, status) => assert s[0] == id[0] && s[1] == id[1];
      case Sent(_, dataType, min, max) => SentRoundTrip(format, h, rest);
      case Received(_, direction, timeout) => ReceivedRoundTrip(format, h, rest);
      case NoConfig(_, _, _) => assert s[2] == id[0] && s[3] == id[1];
    }
  }

  lemma SentRoundTrip(format: Format, h: Head, rest: seq<byte>)
    requires Proper(format, h) && h.Sent?
    ensures ReadHead(format, HeadBytes(format, h) + rest) == h
  {
    var s := HeadBytes(format, h) + rest;
    var id, min, max := LittleEndian(h.attrId), LittleEndian(h.min), LittleEndian(h.max);
    if format.ReportCfgRsp? {
      assert s == [SUCCESS, ZCL_SEND_ATTR_REPORTS, id[0], id[1], h.dataType, min[0], min[1], max[0], max[1]] + rest;
    } else {
      assert s == [ZCL_SEND_ATTR_REPORTS, id[0], id[1], h.dataType, min[0], min[1], max[0], max[1]] + rest;
    }
  }

  lemma ReceivedRoundTrip(format: Format, h: Head, rest: seq<byte>)
    requires Proper(format, h) && h.Received?
    ensures ReadHead(format, HeadBytes(format, h) + rest) == h
  {
    var s := HeadBytes(format, h) + rest;
    var id, timeout := LittleEndian(h.attrId), LittleEndian(h.timeout);
    if format.ReportCfgRsp? {
      assert s == [SUCCESS, h.direction, id[0], id[1], timeout[0], timeout[1]] + rest;
    } else {
      assert s == [h.direction, id[0], id[1], timeout[0], timeout[1]] + rest;
    }
  }

  function Dropped(s: seq<byte>, n: nat): seq<byte> { if n <= |s| then s[n..] else [] }

  // s begins with a record of this head and so much data, and goes on with rest.
  predicate Front(format: Format, s: seq<byte>, h: Head, data: seq<byte>, rest: seq<byte>) {
    ReadHead(format, s) == h && s != [] &&
    var body := Dropped(s, HeadLength(format, h));
    |data| <= |body| && DataSize(h, body) == |data| && body[..|data|] == data && body[|data|..] == rest
  }

  // A record at the front of a payload is recognised.
  lemma FrontRecord(format: Format, r: Record, rest: seq<byte>)
    requires Tidy(format, r)
    ensures Front(format, Bytes(format, r) + rest, r.head, r.data, rest)
  {
    var s := Bytes(format, r) + rest;
    var n := HeadLength(format, r.head);
    HeadRoundTrip(format, r.head, r.data + rest);
    assert s == HeadBytes(format, r.head) + (r.data + rest);
    assert s[n..] == r.data + rest;
    if r.head.Value? { LengthOfPrefix(r.head.dataType, r.data, rest); }
  }

  // Data is padded to an even length.
  function Padded(n: nat): (p: nat)
    ensures p % 2 == 0 && n <= p <= n + 1
  { n + n % 2 }

  // Where the data of record i begins among the padded data.
  function DataStart(recs: seq<Record>, i: nat): nat
    requires i <= |recs|
  { if i == 0 then 0 else DataStart(recs, i - 1) + Padded(|recs[i - 1].data|) }

  // ---- the counting pass ----

  // The parser of Configure Reporting steps over a reportable change field in its counting pass even when the data
  // type has none.
  function Skipped(format: Format, h: Head): nat {
    if format.ConfigReport? && h.Sent? && !Analog(h.dataType) then 1 else 0
  }

  // One turn of the counting pass: the bytes stepped over, and the padded size of the data.
  function Turn(format: Format, s: seq<byte>): (t: (nat, nat))
    ensures t.0 >= 1
  {
    var h := ReadHead(format, s);
    var d := DataSize(h, Dropped(s, HeadLength(format, h)));
    (HeadLength(format, h) + d + Skipped(format, h), Padded(d))
  }

  // The number of records and the size of their padded data, as the counting pass finds them.
  function Count(format: Format, s: seq<byte>): (nat, nat)
    decreases |s|
  {
    if s == [] then (0, 0)
    else
      var t := Turn(format, s);
      var rest := Count(format, Dropped(s, t.0));
      (rest.0 + 1, rest.1 + t.1)
  }

  // Configure Reporting is counted right if only its last record may lack the reportable change field.
  predicate Countable(format: Format, recs: seq<Record>) {
    forall i :: 0 <= i < |recs| - 1 ==> Skipped(format, recs[i].head) == 0
  }

  // A turn on a record steps exactly over it, unless a byte too many is skipped that belongs to the next one.
  lemma TurnFront(format: Format, s: seq<byte>, h: Head, data: seq<byte>, rest: seq<byte>)
    requires Front(format, s, h, data, rest)
    ensures var t := Turn(format, s);
      t.1 == Padded(|data|) && (Dropped(s, t.0) == rest <==> Skipped(format, h) == 0 || rest == [])
  {
    var n := HeadLength(format, h);
    assert Dropped(s, n + |data|) == rest;
  }

  // The counting pass, which stands at s, stands at the beginning of record i and of every later one.
  predicate InStep(format: Format, recs: seq<Record>, i: nat, s: seq<byte>)
    requires AllTidy(format, recs) && i <= |recs|
    decreases |recs| - i
  {
    s == WireFrom(format, recs, i) && (i < |recs| ==> InStep(format, recs, i + 1, Dropped(s, Turn(format, s).0)))
  }

  // No record from i on, except the last, lacks the reportable change field.
  predicate CountableFrom(format: Format, recs: seq<Record>, i: nat) {
    forall j :: i <= j < |recs| - 1 ==> Skipped(format, recs[j].head) == 0
  }

  lemma {:induction false} InStepFrom(format: Format, recs: seq<Record>, i: nat)
    requires AllTidy(format, recs) && i <= |recs|
    ensures InStep(format, recs, i, WireFrom(format, recs, i)) <==> CountableFrom(format, recs, i)
    decreases |recs| - i
  {
    hide Turn, Tidy, AllTidy, Bytes, Skipped, Front, Dropped, WireFrom;
    if i < |recs| {
      var s, rest := WireFrom(format, recs, i), WireFrom(format, recs, i + 1);
      TurnFrom(format, recs, i);
      InStepFrom(format, recs, i + 1);
      if Dropped(s, Turn(format, s).0) != rest { assert !InStep(format, recs, i + 1, Dropped(s, Turn(format, s).0)); }
    }
  }

  // A turn at the beginning of record i leads to that of the next one.
  lemma TurnFrom(format: Format, recs: seq<Record>, i: nat)
    requires AllTidy(format, recs) && i < |recs|
    ensures var s := WireFrom(format, recs, i);
      Dropped(s, Turn(format, s).0) == WireFrom(format, recs, i + 1) <==>
      Skipped(format, recs[i].head) == 0 || i + 1 == |recs|
  {
    hide Turn, Tidy, AllTidy, Bytes, Skipped, Front, Dropped;
    TidyAt(format, recs, i);
    var s, rest := WireFrom(format, recs, i), WireFrom(format, recs, i + 1);
    FrontRecord(format, recs[i], rest);
    TurnFront(format, s, recs[i].head, recs[i].data, rest);
    RestEmpty(format, recs, i + 1);
  }

  lemma RestEmpty(format: Format, recs: seq<Record>, i: nat)
    requires AllTidy(format, recs) && i <= |recs|
    ensures WireFrom(format, recs, i) == [] <==> i == |recs|
  {
    if i < |recs| { TidyAt(format, recs, i); }
  }

  // The counting pass stays in step with the records exactly if only the last of them may lack the field.
  lemma InStepExact(format: Format, recs: seq<Record>)
    requires AllTidy(format, recs)
    ensures InStep(format, recs, 0, Wire(format, recs)) <==> Countable(format, recs)
  {
    InStepFrom(format, recs, 0);
  }

  lemma CountTurn(format: Format, s: seq<byte>, rest: seq<byte>)
    requires s != [] && rest == Dropped(s, Turn(format, s).0)
    ensures var c := Count(format, rest); Count(format, s) == (c.0 + 1, c.1 + Turn(format, s).1)
  {
    hide Turn;
  }

  lemma CountFront(format: Format, r: Record, rest: seq<byte>)
    requires Tidy(format, r) && (Skipped(format, r.head) == 0 || rest == [])
    ensures var c := Count(format, rest); Count(format, Bytes(format, r) + rest) == (c.0 + 1, c.1 + Padded(|r.data|))
  {
    FrontRecord(format, r, rest);
    var s := Bytes(format, r) + rest;
    TurnFront(format, s, r.head, r.data, rest);
    hide Turn, Tidy, Front, Bytes, Skipped;
    CountTurn(format, s, rest);
  }

  lemma TidyAt(format: Format, recs: seq<Record>, i: nat)
    requires AllTidy(format, recs) && i < |recs|
    ensures Tidy(format, recs[i])
  {}

  lemma CountableAt(format: Format, recs: seq<Record>, i: nat)
    requires Countable(format, recs) && i < |recs|
    ensures Skipped(format, recs[i].head) == 0 || i + 1 == |recs|
  {}

  lemma {:induction false} CountFrom(format: Format, recs: seq<Record>, i: nat)
    requires AllTidy(format, recs) && Countable(format, recs) && i <= |recs|
    ensures DataStart(recs, i) <= DataStart(recs, |recs|)
    ensures Count(format, WireFrom(format, recs, i)) == (|recs| - i, DataStart(recs, |recs|) - DataStart(recs, i))
    decreases |recs| - i
  {
    hide Turn, Tidy, AllTidy, Bytes, Skipped, Countable, Padded, Count;
    if i < |recs| {
      TidyAt(format, recs, i);
      CountableAt(format, recs, i);
      CountFront(format, recs[i], WireFrom(format, recs, i + 1));
      CountFrom(format, recs, i + 1);
    } else {
      CountNone(format);
    }
  }

  lemma CountNone(format: Format)
    ensures Count(format, []) == (0, 0)
  {}

  // The counting pass finds the number of records and the size of their padded data.
  predicate CountedRight(format: Format, recs: seq<Record>)
    requires AllTidy(format, recs)
  { Count(format, Wire(format, recs)) == (|recs|, DataStart(recs, |recs|)) }

  // It does when it stays in step.
  lemma CountWire(format: Format, recs: seq<Record>)
    requires AllTidy(format, recs) && Countable(format, recs)
    ensures CountedRight(format, recs)
  {
    hide WireFrom, Count, AllTidy, Countable;
    CountFrom(format, recs, 0);
  }

  // A boolean attribute and then an 8-bit integer: two records are counted as three.
  lemma Miscounted() returns (a: Record, b: Record)
    ensures AllTidy(ConfigReport, [a, b]) && Skipped(ConfigReport, a.head) == 1
    ensures Count(ConfigReport, Wire(ConfigReport, [a, b])).0 == 3
  {
    a := ABoolean();
    b := AnInteger();
    hide Count, Tidy, Bytes;
    WireOfTwo(ConfigReport, a, b);
    var s := Bytes(ConfigReport, a) + Bytes(ConfigReport, b);
    assert s[..8] == Bytes(ConfigReport, a) && s[9..] == Bytes(ConfigReport, b)[1..];
    MiscountedBytes(s);
  }

  lemma ABoolean() returns (a: Record)
    ensures Tidy(ConfigReport, a) && Skipped(ConfigReport, a.head) == 1 && a.data == []
    ensures Bytes(ConfigReport, a) == [0, 5, 0, 0x10, 1, 0, 2, 0]
  {
    a := Record(Sent(5, 0x10, 1, 2), []);
    SentBytes(a.head);
  }

  lemma AnInteger() returns (b: Record)
    ensures Tidy(ConfigReport, b) && Bytes(ConfigReport, b) == [0, 6, 0, 0x20, 3, 0, 4, 0, 9]
  {
    b := Record(Sent(6, 0x20, 3, 4), [9]);
    SentBytes(b.head);
  }

  // Out of step, the pass can still come to the right numbers: here a boolean attribute is followed by a record for the
  // receiving side.
  lemma CountedByChance() returns (a: Record, b: Record)
    ensures AllTidy(ConfigReport, [a, b]) && !Countable(ConfigReport, [a, b])
    ensures Count(ConfigReport, Wire(ConfigReport, [a, b])) == (2, DataStart([a, b], 2))
  {
    a := ABoolean();
    b := AReceived();
    NoData(a, b);
    hide Count, Tidy, Bytes, Skipped, DataStart;
    WireOfTwo(ConfigReport, a, b);
    assert !Countable(ConfigReport, [a, b]) by { assert Skipped(ConfigReport, [a, b][0].head) == 1; }
    var s := Bytes(ConfigReport, a) + Bytes(ConfigReport, b);
    assert s[..8] == Bytes(ConfigReport, a) && s[9..] == Bytes(ConfigReport, b)[1..];
    ChanceBytes(s);
  }

  lemma AReceived() returns (b: Record)
    ensures Tidy(ConfigReport, b) && b.data == [] && Bytes(ConfigReport, b) == [1, 0, 0, 0, 0]
  {
    b := Record(Received(0, 1, 0), []);
    ReceivedBytes(b.head);
  }

  lemma ReceivedBytes(h: Head)
    requires Proper(ConfigReport, h) && h.Received? && h.attrId < 256 && h.timeout < 256
    ensures HeadBytes(ConfigReport, h) == [h.direction, h.attrId, 0, h.timeout, 0]
  {
    var id, timeout := LittleEndian(h.attrId), LittleEndian(h.timeout);
    assert id[0] == h.attrId && id[1] == 0 && timeout[0] == h.timeout && timeout[1] == 0;
    var s := HeadBytes(ConfigReport, h);
    assert s[0] == h.direction && s[1] == id[0] && s[2] == id[1] && s[3] == timeout[0] && s[4] == timeout[1];
  }

  lemma NoData(a: Record, b: Record)
    requires a.data == [] && b.data == []
    ensures DataStart([a, b], 2) == 0
  {
    assert DataStart([a, b], 1) == 0;
  }

  lemma ChanceBytes(s: seq<byte>)
    requires |s| == 13 && s[..8] == [0, 5, 0, 0x10, 1, 0, 2, 0] && s[9..] == [0, 0, 0, 0]
    ensures Count(ConfigReport, s) == (2, 0)
  {
    ReadSent(s, 5, 0x10, 1, 2);
    var t := s[9..];
    CountOnce(t, ReadHead(ConfigReport, t), []);
    CountOnce(s, ReadHead(ConfigReport, s), t);
  }

  lemma MiscountedBytes(s: seq<byte>)
    requires |s| == 17 && s[..8] == [0, 5, 0, 0x10, 1, 0, 2, 0] && s[9..] == [6, 0, 0x20, 3, 0, 4, 0, 9]
    ensures Count(ConfigReport, s).0 == 3
  {
    ReadSent(s, 5, 0x10, 1, 2);
    MiscountedTail(s[9..]);
    CountOnce(s, ReadHead(ConfigReport, s), s[9..]);
  }

  lemma ReadSent(s: seq<byte>, id: byte, dataType: byte, min: byte, max: byte)
    requires |s| >= 8 && s[..8] == [0, id, 0, dataType, min, 0, max, 0]
    ensures ReadHead(ConfigReport, s) == Sent(id, dataType, min, max)
  {
    assert forall i :: 0 <= i < 8 ==> At(s, i) == s[..8][i];
  }

  lemma MiscountedTail(t: seq<byte>)
    requires t == [6, 0, 0x20, 3, 0, 4, 0, 9]
    ensures Count(ConfigReport, t).0 == 2
  {
    MiscountedEnd(t[5..]);
    CountOnce(t, ReadHead(ConfigReport, t), t[5..]);
  }

  lemma MiscountedEnd(u: seq<byte>)
    requires u == [4, 0, 9]
    ensures Count(ConfigReport, u).0 == 1
  {
    CountOnce(u, ReadHead(ConfigReport, u), []);
  }

  lemma WireOfTwo(format: Format, a: Record, b: Record)
    requires Tidy(format, a) && Tidy(format, b)
    ensures Wire(format, [a, b]) == Bytes(format, a) + Bytes(format, b)
  {
    var recs := [a, b];
    assert WireFrom(format, recs, 1) == Bytes(format, b) + WireFrom(format, recs, 2);
  }

  lemma SentBytes(h: Head)
    requires Proper(ConfigReport, h) && h.Sent? && h.attrId < 256 && h.min < 256 && h.max < 256
    ensures HeadBytes(ConfigReport, h) == [0, h.attrId, 0, h.dataType, h.min, 0, h.max, 0]
  {
    var id, min, max := LittleEndian(h.attrId), LittleEndian(h.min), LittleEndian(h.max);
    assert id[0] == h.attrId && id[1] == 0 && min[0] == h.min && min[1] == 0 && max[0] == h.max && max[1] == 0;
    var s := HeadBytes(ConfigReport, h);
    assert s[0] == ZCL_SEND_ATTR_REPORTS && s[1] == id[0] && s[2] == id[1] && s[3] == h.dataType;
    assert s[4] == min[0] && s[5] == min[1] && s[6] == max[0] && s[7] == max[1];
  }

  // One turn of the counting pass over records without data.
  lemma CountOnce(s: seq<byte>, h: Head, rest: seq<byte>)
    requires s != [] && ReadHead(ConfigReport, s) == h && (h.Sent? ==> !Analog(h.dataType))
    requires rest == Dropped(s, HeadLength(ConfigReport, h) + Skipped(ConfigReport, h))
    ensures var c := Count(ConfigReport, rest); Count(ConfigReport, s) == (c.0 + 1, c.1)
  {
    hide Count;
    assert Turn(ConfigReport, s) == (HeadLength(ConfigReport, h) + Skipped(ConfigReport, h), 0);
    CountTurn(ConfigReport, s, rest);
  }

  // ---- the copying pass ----

  // n bytes of memory from s on.
  function Stretch(s: seq<byte>, n: nat): (t: seq<byte>)
    ensures |t| == n && forall i :: 0 <= i < n ==> t[i] == At(s, i)
  { seq(n, i requires 0 <= i < n => At(s, i)) }

  // The first n records in s, with their data.
  function Records(format: Format, s: seq<byte>, n: nat): (recs: seq<Record>)
    ensures |recs| == n
    decreases n
  {
    if n == 0 then []
    else
      var h := ReadHead(format, s);
      var body := Dropped(s, HeadLength(format, h));
      var d := DataSize(h, body);
      [Record(h, Stretch(body, d))] + Records(format, Dropped(body, d), n - 1)
  }

  lemma RecordsFront(format: Format, s: seq<byte>, h: Head, data: seq<byte>, rest: seq<byte>, n: nat)
    requires Front(format, s, h, data, rest)
    ensures Records(format, s, n + 1) == [Record(h, data)] + Records(format, rest, n)
  {
    var body := Dropped(s, HeadLength(format, h));
    assert Stretch(body, |data|) == data;
    assert Dropped(body, |data|) == rest;
  }

  lemma {:induction false} RecordsFrom(format: Format, recs: seq<Record>, i: nat)
    requires AllTidy(format, recs) && i <= |recs|
    ensures Records(format, WireFrom(format, recs, i), |recs| - i) == recs[i..]
    decreases |recs| - i
  {
    hide Tidy, AllTidy, Bytes, Front, Records;
    if i < |recs| {
      TidyAt(format, recs, i);
      var r, rest := recs[i], WireFrom(format, recs, i + 1);
      FrontRecord(format, r, rest);
      RecordsFront(format, Bytes(format, r) + rest, r.head, r.data, rest, |recs| - i - 1);
      RecordsFrom(format, recs, i + 1);
    }
  }

  // Parsing what was serialized gives back the records.
  lemma RecordsWire(format: Format, recs: seq<Record>)
    requires AllTidy(format, recs)
    ensures Records(format, Wire(format, recs), |recs|) == recs
  {
    hide WireFrom, Records, AllTidy;
    RecordsFrom(format, recs, 0);
  }

  // ---- the senders ----

  // The length of the payload with these records, as the length pass of the senders adds it up: 16 bits.
  method LengthPass(format: Format, recs: seq<Record>) returns (dataLen: nat)
    requires AllTidy(format, recs)
    ensures dataLen == |Wire(format, recs)| % 65536
  {
    hide Tidy, AllTidy, Bytes, RecordLength;
    dataLen := 0;
    ghost var total: nat := 0;
    var i := 0;
    while i < |recs|
      invariant i <= |recs| && total + |WireFrom(format, recs, i)| == |Wire(format, recs)| && dataLen == total % 65536
    {
      WireStep(format, recs, i);
      var n := RecordLength(format, recs[i]);
      AddMod(total, n);
      dataLen := (dataLen + n) % 65536;
      total := total + n;
      i := i + 1;
    }
  }

  function RecordLength(format: Format, r: Record): nat { HeadLength(format, r.head) + DataSize(r.head, r.data) }

  lemma AddMod(a: nat, b: nat)
    ensures (a % 65536 + b) % 65536 == (a + b) % 65536
  {}

  lemma WireStep(format: Format, recs: seq<Record>, i: nat)
    requires AllTidy(format, recs) && i < |recs|
    ensures Tidy(format, recs[i]) && |Bytes(format, recs[i])| == RecordLength(format, recs[i])
  {
  }

  lemma Regroup(a: seq<byte>, b: seq<byte>, c: seq<byte>)
    ensures a + (b + c) == (a + b) + c
  {}

  method WriteRecord(format: Format, r: Record, buf: array<byte>, p: nat) returns (p': nat)
    requires Tidy(format, r) && p + |Bytes(format, r)| <= buf.Length
    modifies buf
    ensures p' == p + |Bytes(format, r)| && buf[..p'] == old(buf[..p]) + Bytes(format, r)
  {
    p' := Copy(buf, p, HeadBytes(format, r.head), HeadLength(format, r.head));
    ghost var head := buf[..p'];
    assert head == old(buf[..p]) + HeadBytes(format, r.head);
    if r.head.Value? || (r.head.Sent? && Analog(r.head.dataType)) {
      AnalogLength(format, r);
      p' := SerializeData(r.head.dataType, r.data, buf, p');
    }
    assert buf[..p'] == head + r.data;
  }

  // Analog data is no string, so its size is that of its type.
  lemma AnalogLength(format: Format, r: Record)
    requires Tidy(format, r) && (r.head.Value? || (r.head.Sent? && Analog(r.head.dataType)))
    ensures SerializedLength(r.head.dataType, r.data) == |r.data|
  {}

  // zcl_SendWriteRequest, zcl_SendReportCmd, zcl_SendReadRsp, zcl_SendConfigReportCmd and
  // zcl_SendReadReportCfgRspCmd up to handing over the buffer: it is as long as what is written.
  method Serialize(format: Format, recs: seq<Record>) returns (buf: array<byte>)
    requires AllTidy(format, recs) && |Wire(format, recs)| < 65536
    ensures fresh(buf) && buf[..] == Wire(format, recs)
  {
    hide Tidy, AllTidy, Bytes, RecordLength;
    var dataLen := LengthPass(format, recs);
    buf := new byte[dataLen];
    var p: nat := 0;
    var i := 0;
    while i < |recs|
      invariant i <= |recs| && p + |WireFrom(format, recs, i)| == buf.Length && p <= buf.Length
      invariant buf[..p] + WireFrom(format, recs, i) == Wire(format, recs)
      invariant fresh(buf)
    {
      WireStep(format, recs, i);
      Regroup(buf[..p], Bytes(format, recs[i]), WireFrom(format, recs, i + 1));
      p := WriteRecord(format, recs[i], buf, p);
      i := i + 1;
    }
    assert buf[..p] + [] == buf[..];
  }

  // ---- the parsers ----

  // The counting pass. Its counters have 8 and 16 bits, so they end up with the remainders.
  method CountPass(format: Format, pData: seq<byte>) returns (numAttr: nat, dataLen: nat)
    ensures numAttr == Count(format, pData).0 % 256 && dataLen == Count(format, pData).1 % 65536
  {
    hide Turn;
    numAttr, dataLen := 0, 0;
    ghost var rest := pData;
    var pBuf := 0;
    while pBuf < |pData|
      invariant rest == Dropped(pData, pBuf)
      invariant var c := Count(format, rest); Count(format, pData) == (numAttr + c.0, dataLen + c.1)
      decreases |pData| - pBuf
    {
      var t := Turn(format, pData[pBuf..]);
      DroppedTwice(pData, pBuf, t.0);
      rest := Dropped(rest, t.0);
      pBuf, numAttr, dataLen := pBuf + t.0, numAttr + 1, dataLen + t.1;
    }
    numAttr, dataLen := numAttr % 256, dataLen % 65536;
  }

  lemma DroppedTwice(s: seq<byte>, a: nat, b: nat)
    ensures Dropped(Dropped(s, a), b) == Dropped(s, a + b)
  {}

  // A parsed record: its fields, and the place of its data in the block.
  datatype Parsed = Parsed(head: Head, at: nat)

  // The records found in a block, with data slices that are apart from one another and within the block.
  predicate Holds(list: seq<Parsed>, block: seq<byte>, start: nat, recs: seq<Record>, n: nat)
    requires n <= |recs|
  {
    |list| == n && start + DataStart(recs, n) <= |block| &&
    forall i :: 0 <= i < n ==> list[i].head == recs[i].head && Slice(list[i].at, block, start, recs, i)
  }

  // The data of record i is in the block, in the slice that begins at a given place; it ends before the next one
  // begins.
  predicate Slice(at: nat, block: seq<byte>, start: nat, recs: seq<Record>, i: nat)
    requires i < |recs|
  {
    at == start + DataStart(recs, i) && at + |recs[i].data| <= start + DataStart(recs, i + 1) <= |block| &&
    block[at..at + |recs[i].data|] == recs[i].data
  }

  // One turn of the copying pass, on a payload that goes on with record r.
  method CopyRecord(format: Format, pData: seq<byte>, pBuf: nat, block: array<byte>, dataPtr: nat, ghost r: Record,
                    ghost rest: seq<byte>)
    returns (head: Head, attrDataLen: nat, pBuf': nat)
    requires pBuf <= |pData| && Tidy(format, r) && pData[pBuf..] == Bytes(format, r) + rest &&
      dataPtr + |r.data| <= block.Length
    modifies block
    ensures head == r.head && attrDataLen == |r.data| && pBuf' <= |pData| && pData[pBuf'..] == rest
    ensures block[..dataPtr] == old(block[..dataPtr]) && block[dataPtr..dataPtr + |r.data|] == r.data
  {
    FrontRecord(format, r, rest);
    ghost var s := pData[pBuf..];
    head := ReadHead(format, pData[pBuf..]);
    var n := HeadLength(format, head);
    assert pData[pBuf + n..] == s[n..];
    attrDataLen := DataSize(head, pData[pBuf + n..]);
    var end := Copy(block, dataPtr, pData[pBuf + n..], attrDataLen);
    assert block[..dataPtr] == block[..end][..dataPtr] && block[dataPtr..end] == block[..end][dataPtr..];
    pBuf' := pBuf + n + attrDataLen;
    assert pData[pBuf'..] == s[n..][attrDataLen..];
  }

  method CopyTurn(format: Format, pData: seq<byte>, pBuf: nat, block: array<byte>, dataPtr: nat, list: seq<Parsed>,
                  ghost start: nat, ghost recs: seq<Record>, ghost i: nat, ghost rest: seq<byte>)
    returns (list': seq<Parsed>, pBuf': nat, dataPtr': nat)
    requires i < |recs| && pBuf <= |pData| && Tidy(format, recs[i]) && pData[pBuf..] == Bytes(format, recs[i]) + rest
    requires dataPtr == start + DataStart(recs, i) && Holds(list, block[..], start, recs, i)
    requires start + DataStart(recs, |recs|) <= block.Length
    modifies block
    ensures pBuf' <= |pData| && pData[pBuf'..] == rest
    ensures dataPtr' == start + DataStart(recs, i + 1) && Holds(list', block[..], start, recs, i + 1)
  {
    hide Tidy, Bytes, Holds;
    DataStartGrows(recs, i + 1, |recs|);
    ghost var before := block[..];
    var head, attrDataLen;
    head, attrDataLen, pBuf' := CopyRecord(format, pData, pBuf, block, dataPtr, recs[i], rest);
    HoldsMore(list, before, block[..], start, recs, i, head);
    list' := list + [Parsed(head, dataPtr)];
    dataPtr' := dataPtr + Padded(attrDataLen);
  }

  // The copying pass on a payload that was serialized from recs. Start is the length of the header.
  method CopyPass(format: Format, pData: seq<byte>, numAttr: nat, start: nat, block: array<byte>,
                  ghost recs: seq<Record>)
    returns (list: seq<Parsed>)
    requires AllTidy(format, recs) && pData == Wire(format, recs) && numAttr == |recs| &&
      start + DataStart(recs, numAttr) <= block.Length
    modifies block
    ensures Holds(list, block[..], start, recs, numAttr)
  {
    list := [];
    var pBuf: nat, dataPtr := 0, start;
    var i := 0;
    HoldsNone(block[..], start, recs);
    hide Tidy, AllTidy, Wire, Holds, Bytes, DataStart, RecordLength;
    while i < numAttr
      invariant i <= numAttr && pBuf <= |pData| && pData[pBuf..] == WireFrom(format, recs, i)
      invariant dataPtr == start + DataStart(recs, i) && Holds(list, block[..], start, recs, i)
    {
      WireStep(format, recs, i);
      list, pBuf, dataPtr := CopyTurn(format, pData, pBuf, block, dataPtr, list, start, recs, i, WireFrom(format, recs,
        i + 1));
      i := i + 1;
    }
  }

  lemma HoldsNone(block: seq<byte>, start: nat, recs: seq<Record>)
    requires start + DataStart(recs, |recs|) <= |block|
    ensures DataStart(recs, 0) == 0 && Holds([], block, start, recs, 0)
  {
    DataStartGrows(recs, 0, |recs|);
  }

  // Data written behind that of the first n records.
  lemma HoldsMore(list: seq<Parsed>, before: seq<byte>, now: seq<byte>, start: nat, recs: seq<Record>, n: nat,
                  head: Head)
    requires n < |recs| && Holds(list, before, start, recs, n) && head == recs[n].head && |now| == |before|
    requires start + DataStart(recs, n + 1) <= |now|
    requires var at := start + DataStart(recs, n);
      now[..at] == before[..at] && now[at..at + |recs[n].data|] == recs[n].data
    ensures Holds(list + [Parsed(head, start + DataStart(recs, n))], now, start, recs, n + 1)
  {
    hide Padded, DataStart;
    var at := start + DataStart(recs, n);
    var list' := list + [Parsed(head, at)];
    SliceNew(now, start, recs, n);
    hide Slice, DataStart;
    forall i | 0 <= i < n + 1 ensures list'[i].head == recs[i].head && Slice(list'[i].at, now, start, recs, i) {
      if i < n { SliceStays(list[i].at, before, now, start, recs, i, n); }
    }
  }

  lemma SliceNew(now: seq<byte>, start: nat, recs: seq<Record>, n: nat)
    requires n < |recs| && start + DataStart(recs, n + 1) <= |now|
    requires var at := start + DataStart(recs, n); now[at..at + |recs[n].data|] == recs[n].data
    ensures Slice(start + DataStart(recs, n), now, start, recs, n)
  {}

  lemma SliceStays(from: nat, before: seq<byte>, now: seq<byte>, start: nat, recs: seq<Record>, i: nat, n: nat)
    requires i < n <= |recs| && Slice(from, before, start, recs, i) && |now| == |before| &&
      start + DataStart(recs, n) <= |now|
    requires var at := start + DataStart(recs, n); now[..at] == before[..at]
    ensures Slice(from, now, start, recs, i)
  {
    DataStartGrows(recs, i + 1, n);
    var at, to := start + DataStart(recs, n), from + |recs[i].data|;
    SliceOfPrefix(now, at, from, to);
    SliceOfPrefix(before, at, from, to);
  }

  lemma SliceOfPrefix(s: seq<byte>, at: nat, from: nat, to: nat)
    requires from <= to <= at <= |s|
    ensures s[..at][from..to] == s[from..to]
  {}

  lemma {:induction false} DataStartGrows(recs: seq<Record>, i: nat, n: nat)
    requires i <= n <= |recs|
    ensures DataStart(recs, i) <= DataStart(recs, n)
    decreases n
  {
    if i < n { DataStartGrows(recs, i, n - 1); }
  }

  // zclParseInWriteCmd, zclParseInReportCmd, zclParseInReadRspCmd, zclParseInConfigReportCmd and
  // zclParseInReadReportCfgRspCmd on what the senders write: as long as the header, fixed plus one recordSize for each
  // record, has a length of less than 256, the records come back with their data in slices of the block that lie apart
  // from one another and behind the header.
  method Parse(format: Format, pData: seq<byte>, fixed: nat, recordSize: nat, ghost recs: seq<Record>)
    returns (list: seq<Parsed>, block: array<byte>, ghost start: nat)
    requires AllTidy(format, recs) && CountedRight(format, recs) && pData == Wire(format, recs)
    requires |recs| < 256 && DataStart(recs, |recs|) < 65536
    ensures start == (fixed + |recs| * recordSize) % 256 && block.Length == start + DataStart(recs, |recs|)
    ensures Holds(list, block[..], start, recs, |recs|)
    ensures |recs| > 0 ==> (fixed + |recs| * recordSize < 256 <==> list[0].at >= fixed + |recs| * recordSize)
    ensures fixed + |recs| * recordSize < 256 ==> forall i :: 0 <= i < |list| ==>
      list[i].at >= fixed + |recs| * recordSize
  {
    hide Tidy, Wire, Count, Holds;
    var numAttr, dataLen := CountPass(format, pData);
    var hdrLen := (fixed + numAttr * recordSize) % 256;
    start := hdrLen;
    block := new byte[hdrLen + dataLen];
    list := CopyPass(format, pData, numAttr, hdrLen, block, recs);
    SlicesBehind(list, block[..], start, recs);
  }

  lemma SlicesBehind(list: seq<Parsed>, block: seq<byte>, start: nat, recs: seq<Record>)
    requires Holds(list, block, start, recs, |recs|)
    ensures |list| == |recs| && (list != [] ==> list[0].at == start) && forall i :: 0 <= i < |list| ==>
      list[i].at >= start
  {}
}
