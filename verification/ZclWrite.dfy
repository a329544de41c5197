// The two write commands of the ZCL foundation layer (zcl.c): the plain one writes what it can, Write Attributes
// Undivided either every attribute or none.
module ZclWrite {
  import opened Bits
  import opened ZclData

  const SUCCESS := 0x00
  const NOT_AUTHORIZED := 0x7E
  const UNSUPPORTED_ATTRIBUTE := 0x86
  const INVALID_VALUE := 0x87
  const READ_ONLY := 0x88
  const INVALID_DATA_TYPE := 0x8d

  // An attribute of the cluster. Its value is kept in store: by the stack when it is local, otherwise by the
  // application, which the stack then asks through a callback.
  class Attribute {
    const id: nat
    const dataType: byte
    const access: byte
    const local: bool
    const store: array<byte>

    constructor (id: nat, dataType: byte, access: byte, local: bool, store: array<byte>)
      ensures this.id == id && this.dataType == dataType && this.access == access && this.local == local &&
        this.store == store
    {
      this.id, this.dataType, this.access, this.local, this.store := id, dataType, access, local, store;
    }

    // The value: as many bytes at the front of the store as its type or its length field says.
    ghost predicate Holds()
      reads store
    { DataLength(dataType, store[..]) <= store.Length && Whole(dataType, store[..DataLength(dataType, store[..])]) }

    function Value(): seq<byte>
      requires Holds()
      reads store
    { store[..DataLength(dataType, store[..])] }

    // zcl_memcpy of a value over the store
    method Set(data: seq<byte>)
      requires Whole(dataType, data) && |data| <= store.Length
      modifies store
      ensures Holds() && Value() == data
    {
      ghost var before := store[..];
      forall i | 0 <= i < |data| { store[i] := data[i]; }
      OverwriteIsWhole(dataType, data, before);
      assert store[..] == data + before[|data|..];
    }
  }

  // access & ACCESS_CONTROL_WRITE and access & ACCESS_CONTROL_AUTH_WRITE: the bits of value 0x02 and 0x20
  predicate Writable(access: byte) { access / 0x02 % 2 == 1 }

  predicate NeedsAuthorization(access: byte) { access / 0x20 % 2 == 1 }

  datatype WriteRec = WriteRec(id: nat, dataType: byte, data: seq<byte>)

  // The response carries one SUCCESS, or the status and the id of the record at one place: refused by the check,
  // or failed when it was written.
  datatype Response = AllWritten | Refused(place: nat, status: nat) | Failed(place: nat, status: nat)

  // ---- what the command does, on values ----

  predicate FirstPlace(attrs: seq<Attribute>, id: nat, k: nat) {
    k <= |attrs| && (k < |attrs| ==> attrs[k].id == id) && forall i :: 0 <= i < k ==> attrs[i].id != id
  }

  lemma {:induction false} PlaceFrom(attrs: seq<Attribute>, id: nat, from: nat) returns (k: nat)
    requires from <= |attrs| && forall i :: 0 <= i < from ==> attrs[i].id != id
    ensures FirstPlace(attrs, id, k)
    decreases |attrs| - from
  {
    if from == |attrs| || attrs[from].id == id { k := from; } else { k := PlaceFrom(attrs, id, from + 1); }
  }

  lemma PlaceExists(attrs: seq<Attribute>, id: nat)
    ensures exists k :: FirstPlace(attrs, id, k)
  {
    var k := PlaceFrom(attrs, id, 0);
  }

  // The place of the first attribute with this id, or the number of attributes.
  ghost function Find(attrs: seq<Attribute>, id: nat): (k: nat)
    ensures FirstPlace(attrs, id, k)
  {
    PlaceExists(attrs, id);
    var k :| FirstPlace(attrs, id, k);
    k
  }

  // Why a record is refused before anything is written.
  ghost function Check(attrs: seq<Attribute>, r: WriteRec): nat {
    var k := Find(attrs, r.id);
    if k == |attrs| then UNSUPPORTED_ATTRIBUTE
    else if r.dataType != attrs[k].dataType then INVALID_DATA_TYPE
    else if !Writable(attrs[k].access) then READ_ONLY
    else if NeedsAuthorization(attrs[k].access) then NOT_AUTHORIZED
    else SUCCESS
  }

  // The first n records are acceptable.
  ghost predicate Checked(attrs: seq<Attribute>, recs: seq<WriteRec>, n: nat)
    requires n <= |recs|
  { forall i :: 0 <= i < n ==> Check(attrs, recs[i]) == SUCCESS }

  // The status of a write, from the application's answer: its validation of a local value, or its callback's status.
  function Verdict(a: Attribute, answer: nat): nat {
    if !a.local then answer else if answer == SUCCESS then SUCCESS else INVALID_VALUE
  }

  // Where the records go, what they write, and whether the application would take each old value back.
  ghost function Targets(attrs: seq<Attribute>, recs: seq<WriteRec>): (to: seq<nat>)
    ensures |to| == |recs| && forall i :: 0 <= i < |recs| ==> to[i] == Find(attrs, recs[i].id)
  { seq(|recs|, i requires 0 <= i < |recs| => Find(attrs, recs[i].id)) }

  function NewValues(recs: seq<WriteRec>): (news: seq<seq<byte>>)
    ensures |news| == |recs| && forall i :: 0 <= i < |recs| ==> news[i] == recs[i].data
  { seq(|recs|, i requires 0 <= i < |recs| => recs[i].data) }

  // The application takes an old value back; the stack itself always does.
  predicate TakesBack(a: Attribute, answer: nat) { a.local || answer == SUCCESS }

  ghost function TakenBack(attrs: seq<Attribute>, recs: seq<WriteRec>, backs: seq<nat>): (back: seq<bool>)
    requires Checked(attrs, recs, |recs|) && |recs| <= |backs|
    ensures |back| == |recs|
    ensures forall i :: 0 <= i < |recs| ==> back[i] == TakesBack(attrs[Find(attrs, recs[i].id)], backs[i])
  { seq(|recs|, i requires 0 <= i < |recs| => TakesBack(attrs[Find(attrs, recs[i].id)], backs[i])) }

  ghost predicate Accepted(attrs: seq<Attribute>, recs: seq<WriteRec>, answers: seq<nat>, n: nat)
    requires n <= |recs| <= |answers| && Checked(attrs, recs, |recs|)
  { forall i :: 0 <= i < n ==> Verdict(attrs[Find(attrs, recs[i].id)], answers[i]) == SUCCESS }

  // ---- writing and restoring, by place ----

  // Write i puts news[i] at place to[i].
  predicate Writes(vals: seq<seq<byte>>, to: seq<nat>, news: seq<seq<byte>>) {
    |to| == |news| && forall i :: 0 <= i < |to| ==> to[i] < |vals|
  }

  // The values after the first n writes.
  function Written(vals: seq<seq<byte>>, to: seq<nat>, news: seq<seq<byte>>, n: nat): (r: seq<seq<byte>>)
    requires Writes(vals, to, news) && n <= |to|
    ensures |r| == |vals|
  { if n == 0 then vals else Written(vals, to, news, n - 1)[to[n - 1] := news[n - 1]] }

  // The value that was saved before write i.
  function Saved(vals: seq<seq<byte>>, to: seq<nat>, news: seq<seq<byte>>, i: nat): seq<byte>
    requires Writes(vals, to, news) && i < |to|
  { Written(vals, to, news, i)[to[i]] }

  // The values after f writes and the first n restores, in the order of the writes; back says which take effect.
  function Restored(vals: seq<seq<byte>>, to: seq<nat>, news: seq<seq<byte>>, f: nat, back: seq<bool>,
                    n: nat): (r: seq<seq<byte>>)
    requires Writes(vals, to, news) && n <= f <= |to| == |back|
    ensures |r| == |vals|
  {
    if n == 0 then Written(vals, to, news, f)
    else
      var r := Restored(vals, to, news, f, back, n - 1);
      if back[n - 1] then r[to[n - 1] := Saved(vals, to, news, n - 1)] else r
  }

  // The last of the first n writes to place k, or -1.
  function LastTo(to: seq<nat>, k: nat, n: nat): (l: int)
    requires n <= |to|
    ensures -1 <= l < n && (l != -1 ==> to[l] == k) && forall i :: l < i < n ==> to[i] != k
  { if n == 0 then -1 else if to[n - 1] == k then n - 1 else LastTo(to, k, n - 1) }

  // The last of the first n writes to place k whose restore takes effect, or -1.
  function LastBack(to: seq<nat>, back: seq<bool>, k: nat, n: nat): (l: int)
    requires n <= |to| == |back|
    ensures -1 <= l < n && (l != -1 ==> to[l] == k && back[l]) && forall i :: l < i < n ==> !(to[i] == k && back[i])
  { if n == 0 then -1 else if to[n - 1] == k && back[n - 1] then n - 1 else LastBack(to, back, k, n - 1) }

  lemma {:induction false} WrittenAt(vals: seq<seq<byte>>, to: seq<nat>, news: seq<seq<byte>>, n: nat, k: nat)
    requires Writes(vals, to, news) && n <= |to| && k < |vals|
    ensures Written(vals, to, news, n)[k] == var l := LastTo(to, k, n); if l == -1 then vals[k] else news[l]
  {
    if n > 0 { WrittenAt(vals, to, news, n - 1, k); }
  }

  lemma {:induction false} RestoredAt(vals: seq<seq<byte>>, to: seq<nat>, news: seq<seq<byte>>, f: nat,
                                      back: seq<bool>, n: nat, k: nat)
    requires Writes(vals, to, news) && n <= f <= |to| == |back| && k < |vals|
    ensures Restored(vals, to, news, f, back, n)[k] ==
      var l := LastBack(to, back, k, n); Written(vals, to, news, if l == -1 then f else l)[k]
  {
    if n > 0 { RestoredAt(vals, to, news, f, back, n - 1, k); }
  }

  // The write whose value place k holds in the end, or -1 if it holds its old value.
  function Survivor(to: seq<nat>, back: seq<bool>, f: nat, k: nat): (p: int)
    requires f <= |to| == |back|
    ensures -1 <= p < f && (p != -1 ==> to[p] == k)
  {
    var l := LastBack(to, back, k, f);
    LastTo(to, k, if l == -1 then f else l)
  }

  // Restoring after f writes gives back every value exactly when each surviving write wrote the value that was there.
  lemma RestoresAll(vals: seq<seq<byte>>, to: seq<nat>, news: seq<seq<byte>>, f: nat, back: seq<bool>)
    requires Writes(vals, to, news) && f <= |to| == |back|
    ensures Restored(vals, to, news, f, back, f) == vals <==>
            forall k :: 0 <= k < |vals| ==> var p := Survivor(to, back, f, k); p == -1 || news[p] == vals[k]
  {
    forall k | 0 <= k < |vals|
      ensures var p := Survivor(to, back, f, k);
        Restored(vals, to, news, f, back, f)[k] == if p == -1 then vals[k] else news[p]
    {
      RestoredAt(vals, to, news, f, back, f, k);
      var l := LastBack(to, back, k, f);
      WrittenAt(vals, to, news, if l == -1 then f else l, k);
    }
  }

  predicate Distinct(to: seq<nat>) { forall i, j :: 0 <= i < j < |to| ==> to[i] != to[j] }

  // Writes to distinct places whose restores all take effect leave no survivor.
  lemma NoSurvivor(to: seq<nat>, back: seq<bool>, f: nat, k: nat)
    requires f <= |to| == |back| && Distinct(to) && forall i :: 0 <= i < f ==> back[i]
    ensures Survivor(to, back, f, k) == -1
  {
    var l := LastBack(to, back, k, f);
    var p := Survivor(to, back, f, k);
  }

  // ---- the command ----

  // No two records name the same attribute.
  predicate DistinctIds(recs: seq<WriteRec>) { forall i, j :: 0 <= i < j < |recs| ==> recs[i].id != recs[j].id }

  lemma DistinctTargets(attrs: seq<Attribute>, recs: seq<WriteRec>)
    requires Checked(attrs, recs, |recs|) && DistinctIds(recs)
    ensures Distinct(Targets(attrs, recs))
  {
    var to := Targets(attrs, recs);
    forall i, j | 0 <= i < j < |to| ensures to[i] != to[j] {
      assert attrs[to[i]].id == recs[i].id && attrs[to[j]].id == recs[j].id;
    }
  }

  lemma TargetsWithin(attrs: seq<Attribute>, vals: seq<seq<byte>>, recs: seq<WriteRec>)
    requires |vals| == |attrs| && Checked(attrs, recs, |recs|)
    ensures Writes(vals, Targets(attrs, recs), NewValues(recs))
  {
    forall i | 0 <= i < |recs| ensures Targets(attrs, recs)[i] < |vals| {
      assert Check(attrs, recs[i]) == SUCCESS;
    }
  }

  // The place of the first record that fails the check.
  ghost predicate Refuses(attrs: seq<Attribute>, recs: seq<WriteRec>, b: nat) {
    b < |recs| && Checked(attrs, recs, b) && Check(attrs, recs[b]) != SUCCESS
  }

  // The place of the first record that the application does not accept, all having passed the check.
  ghost predicate Fails(attrs: seq<Attribute>, recs: seq<WriteRec>, answers: seq<nat>, f: nat)
    requires |recs| <= |answers|
  {
    f < |recs| && Checked(attrs, recs, |recs|) && Accepted(attrs, recs, answers, f) &&
    Verdict(attrs[Find(attrs, recs[f].id)], answers[f]) != SUCCESS
  }

  lemma AcceptedMore(attrs: seq<Attribute>, recs: seq<WriteRec>, answers: seq<nat>, i: nat)
    requires i < |recs| <= |answers| && Checked(attrs, recs, |recs|) && Accepted(attrs, recs, answers, i)
    requires Verdict(attrs[Find(attrs, recs[i].id)], answers[i]) == SUCCESS
    ensures Accepted(attrs, recs, answers, i + 1)
  {}

  // The values saved before the first n writes.
  predicate Saves(vals: seq<seq<byte>>, to: seq<nat>, news: seq<seq<byte>>, saved: seq<seq<byte>>, n: nat)
    requires Writes(vals, to, news) && n <= |to| && n <= |saved|
  { forall j :: 0 <= j < n ==> saved[j] == Saved(vals, to, news, j) }

  lemma SavedMore(vals: seq<seq<byte>>, to: seq<nat>, news: seq<seq<byte>>, saved: seq<seq<byte>>, was: seq<byte>,
                  n: nat)
    requires Writes(vals, to, news) && n < |to| && n == |saved| && Saves(vals, to, news, saved, n)
    requires was == Saved(vals, to, news, n)
    ensures Saves(vals, to, news, saved + [was], n + 1)
  {}

  // What the command answers, and what it makes of the values.
  ghost predicate Outcome(attrs: seq<Attribute>, vals: seq<seq<byte>>, recs: seq<WriteRec>, answers: seq<nat>,
                          backs: seq<nat>,
                          now: seq<seq<byte>>, rsp: Response)
    requires |vals| == |attrs| && |recs| <= |answers| && |recs| <= |backs|
  {
    var to, news := Targets(attrs, recs), NewValues(recs);
    match rsp
    case AllWritten =>
      Checked(attrs, recs, |recs|) && Accepted(attrs, recs, answers, |recs|) && Writes(vals, to, news) &&
      now == Written(vals, to, news, |recs|)
    case Refused(b, status) => Refuses(attrs, recs, b) && status == Check(attrs, recs[b]) && now == vals
    case Failed(f, status) =>
      Fails(attrs, recs, answers, f) && status == Verdict(attrs[to[f]], answers[f]) && Writes(vals, to, news) &&
      now == Restored(vals, to, news, f, TakenBack(attrs, recs, backs), f)
  }

  // All or nothing, for distinct ids and an application that takes old values back: on success each attribute named
  // has its new value and the others are as before; otherwise every value is as before.
  lemma AllOrNothing(attrs: seq<Attribute>, vals: seq<seq<byte>>, recs: seq<WriteRec>, answers: seq<nat>,
                     backs: seq<nat>,
                     now: seq<seq<byte>>, rsp: Response)
    requires |vals| == |attrs| && |recs| <= |answers| && |recs| <= |backs| && DistinctIds(recs)
    requires forall i, k :: 0 <= i < |recs| && k == Find(attrs, recs[i].id) && k < |attrs| ==>
      TakesBack(attrs[k], backs[i])
    requires Outcome(attrs, vals, recs, answers, backs, now, rsp)
    ensures !rsp.AllWritten? ==> now == vals
    ensures rsp.AllWritten? ==> |now| == |vals| && forall k :: 0 <= k < |vals| ==>
      var l := LastTo(Targets(attrs, recs), k, |recs|); now[k] == if l == -1 then vals[k] else recs[l].data
  {
    var to, news := Targets(attrs, recs), NewValues(recs);
    match rsp {
      case Refused(_, _) =>
      case AllWritten =>
        forall k | 0 <= k < |vals| ensures var l := LastTo(to, k, |recs|);
          now[k] == if l == -1 then vals[k] else recs[l].data
        {
          WrittenAt(vals, to, news, |recs|, k);
        }
      case Failed(f, _) =>
        var back := TakenBack(attrs, recs, backs);
        DistinctTargets(attrs, recs);
        RestoresAll(vals, to, news, f, back);
        forall k | 0 <= k < |vals| ensures Survivor(to, back, f, k) == -1 {
          NoSurvivor(to, back, f, k);
        }
    }
  }

  // The access bits that the two commands look at.
  lemma AccessBits(access: byte)
    ensures Writable(access) <==> And(access, 0x02) != 0
    ensures NeedsAuthorization(access) <==> And(access, 0x20) != 0
  {
    assert Pow2(1) == 2 && Pow2(3) == 8 && Pow2(5) == 32;
    AndBit(access, 1);
    AndBit(access, 5);
  }

  // A record that Write Attributes Undivided may write: its attribute exists, has its type, may be written, and by
  // anyone.
  ghost predicate Acceptable(attrs: seq<Attribute>, r: WriteRec) {
    var k := Find(attrs, r.id);
    k < |attrs| && r.dataType == attrs[k].dataType && And(attrs[k].access, 0x02) != 0 && And(attrs[k].access, 0x20) == 0
  }

  // The status of a record that it may not write: no such attribute, another type, read only, not authorized.
  ghost predicate Reason(attrs: seq<Attribute>, r: WriteRec, status: nat) {
    var k := Find(attrs, r.id);
    if forall a :: a in attrs ==> a.id != r.id then status == 0x86
    else
      k < |attrs| &&
      if r.dataType != attrs[k].dataType then status == 0x8d
      else if And(attrs[k].access, 0x02) == 0 then status == 0x88
      else And(attrs[k].access, 0x20) != 0 && status == 0x7E
  }

  lemma CheckMeans(attrs: seq<Attribute>, r: WriteRec)
    ensures Check(attrs, r) == 0 <==> Acceptable(attrs, r)
    ensures Check(attrs, r) != 0 ==> Reason(attrs, r, Check(attrs, r))
  {
    var k := Find(attrs, r.id);
    if k < |attrs| {
      AccessBits(attrs[k].access);
      assert attrs[k] in attrs;
    }
  }

  // Nothing is written unless every record is acceptable; then it depends on the answers. The response names the first
  // record that is not, with its reason, or the first that is not accepted.
  lemma UndividedExact(attrs: seq<Attribute>, vals: seq<seq<byte>>, recs: seq<WriteRec>, answers: seq<nat>,
                       backs: seq<nat>, now: seq<seq<byte>>, rsp: Response)
    requires |vals| == |attrs| && |recs| <= |answers| && |recs| <= |backs|
    requires Outcome(attrs, vals, recs, answers, backs, now, rsp)
    ensures rsp.AllWritten? <==> forall i :: 0 <= i < |recs| ==> Acceptable(attrs, recs[i]) && answers[i] == 0
    ensures rsp.Refused? <==> exists i :: 0 <= i < |recs| && !Acceptable(attrs, recs[i])
    ensures rsp.Refused? ==>
      rsp.place < |recs| && (forall i :: 0 <= i < rsp.place ==> Acceptable(attrs, recs[i])) &&
      !Acceptable(attrs, recs[rsp.place]) && Reason(attrs, recs[rsp.place], rsp.status)
    ensures rsp.Failed? ==>
      rsp.place < |recs| && (forall i :: 0 <= i < rsp.place ==> answers[i] == 0) && answers[rsp.place] != 0 &&
      var k := Find(attrs, recs[rsp.place].id);
      k < |attrs| && rsp.status == if attrs[k].local then 0x87 else answers[rsp.place]
  {
    forall i | 0 <= i < |recs|
      ensures Check(attrs, recs[i]) == 0 <==> Acceptable(attrs, recs[i])
      ensures Check(attrs, recs[i]) != 0 ==> Reason(attrs, recs[i], Check(attrs, recs[i]))
    {
      CheckMeans(attrs, recs[i]);
    }
    hide Check, Acceptable, Reason;
  }

  // A read-only attribute, or one that needs an authorization, keeps its value, and so does one that no record names.
  lemma UndividedRespects(attrs: seq<Attribute>, vals: seq<seq<byte>>, recs: seq<WriteRec>, answers: seq<nat>,
                          backs: seq<nat>, now: seq<seq<byte>>, rsp: Response, k: nat)
    requires |vals| == |attrs| && |recs| <= |answers| && |recs| <= |backs| && k < |attrs|
    requires Outcome(attrs, vals, recs, answers, backs, now, rsp)
    requires And(attrs[k].access, 0x02) == 0 || And(attrs[k].access, 0x20) != 0 ||
      forall i :: 0 <= i < |recs| ==> Find(attrs, recs[i].id) != k
    ensures |now| == |vals| && now[k] == vals[k]
  {
    if !rsp.Refused? {
      var to, news := Targets(attrs, recs), NewValues(recs);
      forall i | 0 <= i < |recs| ensures to[i] != k {
        CheckMeans(attrs, recs[i]);
        assert Check(attrs, recs[i]) == SUCCESS;
      }
      WrittenAt(vals, to, news, |recs|, k);
      if rsp.Failed? {
        RestoredAt(vals, to, news, rsp.place, TakenBack(attrs, recs, backs), rsp.place, k);
        WrittenAt(vals, to, news, rsp.place, k);
      }
    }
  }

  // Restoring in the order of writing needs the distinct ids: an attribute that is written more than once before the
  // failure ends up with the value of the last write but one, here write i before write j.
  lemma TwiceWritten(vals: seq<seq<byte>>, to: seq<nat>, news: seq<seq<byte>>, f: nat, back: seq<bool>, i: nat, j: nat)
    requires Writes(vals, to, news) && i < j < f <= |to| == |back| && to[i] == to[j]
    requires (forall n :: i < n < f && n != j ==> to[n] != to[j]) && forall n :: 0 <= n < f ==> back[n]
    ensures Restored(vals, to, news, f, back, f)[to[j]] == news[i]
  {
    RestoredAt(vals, to, news, f, back, f, to[j]);
    WrittenAt(vals, to, news, j, to[j]);
  }

  // ---- the plain command ----

  // The status of a record of a plain Write: auth is the answer of the authorization callback, if it is asked.
  ghost function Status(attrs: seq<Attribute>, r: WriteRec, auth: nat, answer: nat): nat {
    var k := Find(attrs, r.id);
    if k == |attrs| then UNSUPPORTED_ATTRIBUTE
    else if r.dataType != attrs[k].dataType then INVALID_DATA_TYPE
    else if !Writable(attrs[k].access) then READ_ONLY
    else if NeedsAuthorization(attrs[k].access) && auth != SUCCESS then auth
    else Verdict(attrs[k], answer)
  }

  // No such attribute, another type, read only, refused by the authorization callback with its own status, an invalid
  // local value, or the status of the application's own write.
  lemma StatusMeans(attrs: seq<Attribute>, r: WriteRec, auth: nat, answer: nat)
    ensures Status(attrs, r, auth, answer) ==
      var k := Find(attrs, r.id);
      if forall a :: a in attrs ==> a.id != r.id then 0x86
      else if k < |attrs| && r.dataType != attrs[k].dataType then 0x8d
      else if k < |attrs| && And(attrs[k].access, 0x02) == 0 then 0x88
      else if k < |attrs| && And(attrs[k].access, 0x20) != 0 && auth != 0 then auth
      else if answer == 0 then 0
      else if k < |attrs| && attrs[k].local then 0x87 else answer
  {
    var k := Find(attrs, r.id);
    if k < |attrs| {
      AccessBits(attrs[k].access);
      assert attrs[k] in attrs;
    }
  }

  // The statuses of all records.
  ghost function Statuses(attrs: seq<Attribute>, recs: seq<WriteRec>, auths: seq<nat>,
                          answers: seq<nat>): (st: seq<nat>)
    requires |recs| <= |auths| && |recs| <= |answers|
    ensures |st| == |recs| && forall i :: 0 <= i < |recs| ==> st[i] == Status(attrs, recs[i], auths[i], answers[i])
  { seq(|recs|, i requires 0 <= i < |recs| => Status(attrs, recs[i], auths[i], answers[i])) }

  // Write i takes effect only if its status is SUCCESS.
  predicate Placed(vals: seq<seq<byte>>, to: seq<nat>, st: seq<nat>) {
    |to| == |st| && forall i :: 0 <= i < |to| && st[i] == SUCCESS ==> to[i] < |vals|
  }

  function Applied(vals: seq<seq<byte>>, to: seq<nat>, news: seq<seq<byte>>, st: seq<nat>, n: nat): (r: seq<seq<byte>>)
    requires Placed(vals, to, st) && n <= |to| == |news|
    ensures |r| == |vals|
  {
    if n == 0 then vals
    else
      var r := Applied(vals, to, news, st, n - 1);
      if st[n - 1] == SUCCESS then r[to[n - 1] := news[n - 1]] else r
  }

  // The last of the first n writes that takes effect at place k, or -1.
  function LastApplied(to: seq<nat>, st: seq<nat>, k: nat, n: nat): (l: int)
    requires n <= |to| == |st|
    ensures -1 <= l < n && (l != -1 ==> to[l] == k && st[l] == SUCCESS)
    ensures forall i :: l < i < n ==> !(to[i] == k && st[i] == SUCCESS)
  { if n == 0 then -1 else if to[n - 1] == k && st[n - 1] == SUCCESS then n - 1 else LastApplied(to, st, k, n - 1) }

  // Afterwards an attribute has the value of the last successful record to it, and its old value if there is none.
  lemma {:induction false} AppliedAt(vals: seq<seq<byte>>, to: seq<nat>, news: seq<seq<byte>>, st: seq<nat>, n: nat,
                                     k: nat)
    requires Placed(vals, to, st) && n <= |to| == |news| && k < |vals|
    ensures var l := LastApplied(to, st, k, n);
      Applied(vals, to, news, st, n)[k] == if l == -1 then vals[k] else news[l]
  {
    if n > 0 { AppliedAt(vals, to, news, st, n - 1, k); }
  }

  // A read-only attribute keeps its value, and so does one that nobody is authorized to write.
  lemma WriteRespects(attrs: seq<Attribute>, vals: seq<seq<byte>>, recs: seq<WriteRec>, auths: seq<nat>,
                      answers: seq<nat>, k: nat)
    requires |vals| == |attrs| && |recs| <= |auths| && |recs| <= |answers| && k < |attrs|
    requires Placed(vals, Targets(attrs, recs), Statuses(attrs, recs, auths, answers))
    requires And(attrs[k].access, 0x02) == 0 ||
      (And(attrs[k].access, 0x20) != 0 && forall i :: 0 <= i < |recs| ==> auths[i] != 0)
    ensures var to, st := Targets(attrs, recs), Statuses(attrs, recs, auths, answers);
      Applied(vals, to, NewValues(recs), st, |recs|)[k] == vals[k]
  {
    var to, st := Targets(attrs, recs), Statuses(attrs, recs, auths, answers);
    forall i | 0 <= i < |recs| && to[i] == k ensures st[i] != SUCCESS {
      StatusMeans(attrs, recs[i], auths[i], answers[i]);
      assert attrs[k] in attrs;
    }
    AppliedAt(vals, to, NewValues(recs), st, |recs|, k);
  }

  datatype StatusRec = StatusRec(status: nat, id: nat)

  // One status without an id, or a status record for each failure.
  datatype WriteResponse = AllSucceeded | Failing(failures: seq<StatusRec>)

  // The failures among the first n records, in order.
  function Failures(recs: seq<WriteRec>, st: seq<nat>, n: nat): (fs: seq<StatusRec>)
    requires n <= |recs| == |st|
    ensures |fs| <= n
  {
    if n == 0 then []
    else Failures(recs, st, n - 1) + if st[n - 1] == SUCCESS then [] else [StatusRec(st[n - 1], recs[n - 1].id)]
  }

  lemma {:induction false} NoFailures(recs: seq<WriteRec>, st: seq<nat>, n: nat)
    requires n <= |recs| == |st|
    ensures Failures(recs, st, n) == [] <==> forall i :: 0 <= i < n ==> st[i] == SUCCESS
  {
    if n > 0 { NoFailures(recs, st, n - 1); }
  }

  // With distinct ids the response names each failed record with its status, and no other.
  lemma {:induction false} FailuresExact(recs: seq<WriteRec>, st: seq<nat>, n: nat, i: nat)
    requires n <= |recs| == |st| && i < n && DistinctIds(recs)
    ensures StatusRec(st[i], recs[i].id) in Failures(recs, st, n) <==> st[i] != SUCCESS
    ensures forall status :: StatusRec(status, recs[i].id) in Failures(recs, st, n) ==> status == st[i]
  {
    if i < n - 1 {
      FailuresExact(recs, st, n - 1, i);
    } else {
      FailuresEarlier(recs, st, n - 1, n - 1);
    }
  }

  lemma {:induction false} FailuresEarlier(recs: seq<WriteRec>, st: seq<nat>, n: nat, i: nat)
    requires n <= i < |recs| == |st| && DistinctIds(recs)
    ensures forall status :: StatusRec(status, recs[i].id) !in Failures(recs, st, n)
  {
    if n > 0 { FailuresEarlier(recs, st, n - 1, i); }
  }

  // ---- the saved values ----

  // The block that keeps the old values starts with a header of n records. Its length is computed from the number
  // of failures, still 0, as an 8-bit number; so the first saved value lies on the first record.
  function HeaderLength(n: nat, recordSize: nat): nat { n * recordSize % 256 }

  lemma HeaderAsComputed(n: nat, recordSize: nat, saved: nat)
    requires recordSize > 0
    ensures Overlap(0, n * recordSize, HeaderLength(0, recordSize), saved) <==> n > 0 && saved > 0
    ensures n * recordSize < 256 ==> !Overlap(0, n * recordSize, HeaderLength(n, recordSize), saved)
  {
    if n > 0 { Scale(recordSize, n); }
  }

  // The stretches of len0 bytes from p0 and len1 bytes from p1 have a byte in common.
  predicate Overlap(p0: nat, len0: nat, p1: nat, len1: nat) { p0 < p1 + len1 && p1 < p0 + len0 && len0 > 0 && len1 > 0 }

  class Cluster {
    const attrs: seq<Attribute>

    constructor (attrs: seq<Attribute>)
      ensures this.attrs == attrs
    {
      this.attrs := attrs;
    }

    ghost function Stores(): set<object> { set a | a in attrs :: a.store }

    // Every attribute holds a value, and no two share storage.
    ghost predicate Valid()
      reads Stores()
    {
      (forall k :: 0 <= k < |attrs| ==> attrs[k].Holds()) &&
      forall j, k :: 0 <= j < k < |attrs| ==> attrs[j].store != attrs[k].store
    }

    ghost function Values(): (vals: seq<seq<byte>>)
      requires Valid()
      reads Stores()
      ensures |vals| == |attrs| && forall k :: 0 <= k < |attrs| ==> vals[k] == attrs[k].Value()
    { seq(|attrs|, k requires 0 <= k < |attrs| && Valid() reads Stores() => attrs[k].Value()) }

    // The records that pass the check carry one whole value of their type that fits the storage.
    ghost predicate Fit(recs: seq<WriteRec>) {
      forall i :: 0 <= i < |recs| && Check(attrs, recs[i]) == SUCCESS ==>
        Whole(recs[i].dataType, recs[i].data) && |recs[i].data| <= attrs[Find(attrs, recs[i].id)].store.Length
    }

    // zclFindAttrRec
    method FindAttrRec(id: nat) returns (k: nat)
      ensures k == Find(attrs, id)
    {
      k := 0;
      while k < |attrs|
        invariant k <= |attrs| && forall i :: 0 <= i < k ==> attrs[i].id != id
      {
        if attrs[k].id == id { return; }
        k := k + 1;
      }
    }

    method SetValue(k: nat, data: seq<byte>)
      requires Valid() && k < |attrs| && Whole(attrs[k].dataType, data) && |data| <= attrs[k].store.Length
      modifies attrs[k].store
      ensures Valid() && Values() == old(Values())[k := data]
    {
      attrs[k].Set(data);
    }

    method CheckRecord(r: WriteRec) returns (status: nat)
      ensures status == Check(attrs, r)
    {
      var k := FindAttrRec(r.id);
      if k == |attrs| { return UNSUPPORTED_ATTRIBUTE; }
      if r.dataType != attrs[k].dataType { return INVALID_DATA_TYPE; }
      if !Writable(attrs[k].access) { return READ_ONLY; }
      if NeedsAuthorization(attrs[k].access) { return NOT_AUTHORIZED; }
      return SUCCESS;
    }

    // What the first n writes leave, with everything that the restores rely on.
    ghost predicate Underway(recs: seq<WriteRec>, vals: seq<seq<byte>>, saved: seq<seq<byte>>, n: nat) {
      n <= |recs| && n <= |saved| && Checked(attrs, recs, |recs|) && Fit(recs) && |vals| == |attrs| &&
      Writes(vals, Targets(attrs, recs), NewValues(recs)) &&
        Saves(vals, Targets(attrs, recs), NewValues(recs), saved, n) &&
      forall k :: 0 <= k < |attrs| ==> FitsAt(k, vals[k])
    }

    // zclProcessInWriteCmd: every record that can be written is; the response names the others
    method ProcessInWriteCmd(recs: seq<WriteRec>, auths: seq<nat>, answers: seq<nat>) returns (rsp: WriteResponse)
      requires Valid() && FitAll(recs) && |recs| <= |auths| && |recs| <= |answers|
      modifies Stores()
      ensures Valid() && WriteOutcome(old(Values()), recs, auths, answers, Values(), rsp)
    {
      ghost var vals := Values();
      PlacedAll(vals, recs, auths, answers);
      var failures: seq<StatusRec> := [];
      var i := 0;
      hide Valid, Values, FitAll, Targets, NewValues, Statuses, WriteOutcome;
      while i < |recs|
        invariant i <= |recs| && Valid() && WrittenSoFar(vals, recs, auths, answers, i, Values(), failures)
      {
        failures := WriteTurn(recs, auths, answers, i, failures, vals);
        i := i + 1;
      }
      rsp := Respond(recs, auths, answers, failures, vals, Values());
    }

    // The response carries a single status if there are no failures.
    method Respond(ghost recs: seq<WriteRec>, ghost auths: seq<nat>, ghost answers: seq<nat>, failures: seq<StatusRec>,
                   ghost vals: seq<seq<byte>>, ghost now: seq<seq<byte>>) returns (rsp: WriteResponse)
      requires |recs| <= |auths| && |recs| <= |answers| &&
        WrittenSoFar(vals, recs, auths, answers, |recs|, now, failures)
      ensures WriteOutcome(vals, recs, auths, answers, now, rsp)
    {
      NoFailures(recs, Statuses(attrs, recs, auths, answers), |recs|);
      rsp := if |failures| == 0 then AllSucceeded else Failing(failures);
    }

    // The new values and the response of a plain Write.
    ghost predicate WriteOutcome(vals: seq<seq<byte>>, recs: seq<WriteRec>, auths: seq<nat>, answers: seq<nat>,
                                 now: seq<seq<byte>>, rsp: WriteResponse)
      requires |recs| <= |auths| && |recs| <= |answers|
    {
      var to, st := Targets(attrs, recs), Statuses(attrs, recs, auths, answers);
      Placed(vals, to, st) && now == Applied(vals, to, NewValues(recs), st, |recs|) &&
      (rsp.AllSucceeded? <==> forall i :: 0 <= i < |recs| ==> st[i] == SUCCESS) &&
      (rsp.Failing? ==> rsp.failures == Failures(recs, st, |recs|))
    }

    // The values and the failures after the first n records.
    ghost predicate WrittenSoFar(vals: seq<seq<byte>>, recs: seq<WriteRec>, auths: seq<nat>, answers: seq<nat>, n: nat,
                                 now: seq<seq<byte>>, failures: seq<StatusRec>)
      requires n <= |recs| && |recs| <= |auths| && |recs| <= |answers|
    {
      var to, st := Targets(attrs, recs), Statuses(attrs, recs, auths, answers);
      Placed(vals, to, st) && now == Applied(vals, to, NewValues(recs), st, n) && failures == Failures(recs, st, n)
    }

    method WriteTurn(recs: seq<WriteRec>, auths: seq<nat>, answers: seq<nat>, i: nat, failures: seq<StatusRec>,
                     ghost vals: seq<seq<byte>>) returns (next: seq<StatusRec>)
      requires Valid() && FitAll(recs) && i < |recs| && |recs| <= |auths| && |recs| <= |answers|
      requires WrittenSoFar(vals, recs, auths, answers, i, Values(), failures)
      modifies Stores()
      ensures Valid() && WrittenSoFar(vals, recs, auths, answers, i + 1, Values(), next)
    {
      hide Valid, Values, FitAll, Status;
      var status := WriteOne(recs[i], auths[i], answers[i], recs, i);
      next := if status == SUCCESS then failures else failures + [StatusRec(status, recs[i].id)];
    }

    lemma PlacedAll(vals: seq<seq<byte>>, recs: seq<WriteRec>, auths: seq<nat>, answers: seq<nat>)
      requires |vals| == |attrs| && |recs| <= |auths| && |recs| <= |answers|
      ensures Placed(vals, Targets(attrs, recs), Statuses(attrs, recs, auths, answers))
    {
      var to, st := Targets(attrs, recs), Statuses(attrs, recs, auths, answers);
      forall i | 0 <= i < |to| && st[i] == SUCCESS ensures to[i] < |vals| {
        assert st[i] == Status(attrs, recs[i], auths[i], answers[i]);
      }
    }

    // The records of a supported attribute and its type carry one whole value that fits the storage.
    ghost predicate FitAll(recs: seq<WriteRec>) {
      forall i :: 0 <= i < |recs| ==> var k := Find(attrs, recs[i].id);
        k < |attrs| && recs[i].dataType == attrs[k].dataType ==>
          Whole(recs[i].dataType, recs[i].data) && |recs[i].data| <= attrs[k].store.Length
    }

    // zclWriteAttrData and zclWriteAttrDataUsingCB, with the look-up before them
    method WriteOne(r: WriteRec, auth: nat, answer: nat, ghost recs: seq<WriteRec>, ghost i: nat) returns (status: nat)
      requires Valid() && FitAll(recs) && i < |recs| && r == recs[i]
      modifies Stores()
      ensures Valid() && status == Status(attrs, r, auth, answer)
      ensures status == SUCCESS ==> Find(attrs, r.id) < |attrs|
      ensures Values() == if status == SUCCESS then old(Values())[Find(attrs, r.id) := r.data] else old(Values())
    {
      var k := FindAttrRec(r.id);
      if k == |attrs| { return UNSUPPORTED_ATTRIBUTE; }
      if r.dataType != attrs[k].dataType { return INVALID_DATA_TYPE; }
      if !Writable(attrs[k].access) { return READ_ONLY; }
      if NeedsAuthorization(attrs[k].access) && auth != SUCCESS { return auth; }
      status := Verdict(attrs[k], answer);
      if status == SUCCESS { SetValue(k, r.data); }
    }

    // zclRevertWriteUndividedCmd: the old values go back in the order in which they were saved
    method Revert(recs: seq<WriteRec>, saved: seq<seq<byte>>, numAttr: nat, backs: seq<nat>, ghost vals: seq<seq<byte>>)
      requires Valid() && Underway(recs, vals, saved, numAttr) && |recs| <= |backs|
      requires Values() == Written(vals, Targets(attrs, recs), NewValues(recs), numAttr)
      modifies Stores()
      ensures Valid() &&
        Values() == Restored(vals, Targets(attrs, recs), NewValues(recs), numAttr, TakenBack(attrs, recs, backs),
          numAttr)
    {
      var i := 0;
      while i < numAttr
        invariant i <= numAttr && Valid()
        invariant Values() == Restored(vals, Targets(attrs, recs), NewValues(recs), numAttr,
          TakenBack(attrs, recs, backs), i)
      {
        RevertOne(recs, saved, numAttr, backs, vals, i);
        i := i + 1;
      }
    }

    method RevertOne(recs: seq<WriteRec>, saved: seq<seq<byte>>, ghost numAttr: nat, backs: seq<nat>,
                     ghost vals: seq<seq<byte>>, i: nat)
      requires Valid() && Underway(recs, vals, saved, numAttr) && i < numAttr && |recs| <= |backs|
      requires Values() == Restored(vals, Targets(attrs, recs), NewValues(recs), numAttr,
        TakenBack(attrs, recs, backs), i)
      modifies Stores()
      ensures Valid()
      ensures Values() == Restored(vals, Targets(attrs, recs), NewValues(recs), numAttr, TakenBack(attrs, recs, backs),
        i + 1)
    {
      SavedFits(vals, recs, i);
      GiveBack(recs[i], saved[i], backs[i]);
    }

    method GiveBack(r: WriteRec, saved: seq<byte>, answer: nat)
      requires Valid() && Find(attrs, r.id) < |attrs| && FitsAt(Find(attrs, r.id), saved)
      modifies Stores()
      ensures Valid()
      ensures var k := Find(attrs, r.id);
        Values() == if TakesBack(attrs[k], answer) then old(Values())[k := saved] else old(Values())
    {
      var k := FindAttrRec(r.id);
      if TakesBack(attrs[k], answer) { SetValue(k, saved); }
    }

    // A value of the type of attribute k that fits its storage.
    predicate FitsAt(k: nat, data: seq<byte>)
      requires k < |attrs|
    { Whole(attrs[k].dataType, data) && |data| <= attrs[k].store.Length }

    // Saved values fit where they came from.
    lemma SavedFits(vals: seq<seq<byte>>, recs: seq<WriteRec>, i: nat)
      requires Checked(attrs, recs, |recs|) && Fit(recs) && i < |recs| && |vals| == |attrs|
      requires Writes(vals, Targets(attrs, recs), NewValues(recs)) && forall k :: 0 <= k < |attrs| ==>
        FitsAt(k, vals[k])
      ensures Find(attrs, recs[i].id) == Targets(attrs, recs)[i] < |attrs|
      ensures FitsAt(Targets(attrs, recs)[i], Saved(vals, Targets(attrs, recs), NewValues(recs), i))
    {
      var to, news := Targets(attrs, recs), NewValues(recs);
      WrittenAt(vals, to, news, i, to[i]);
      var l := LastTo(to, to[i], i);
      if l != -1 { assert Check(attrs, recs[l]) == SUCCESS; }
    }

    lemma ValuesFit()
      requires Valid()
      ensures forall k :: 0 <= k < |attrs| ==> FitsAt(k, Values()[k])
    {}

    // zclProcessInWriteUndividedCmd: answers are the application's answers to the writes, backs to the restores
    method ProcessInWriteUndividedCmd(recs: seq<WriteRec>, answers: seq<nat>, backs: seq<nat>) returns (rsp: Response)
      requires Valid() && Fit(recs) && |recs| <= |answers| && |recs| <= |backs|
      modifies Stores()
      ensures Valid() && Outcome(attrs, old(Values()), recs, answers, backs, Values(), rsp)
    {
      var b, status := FindRefused(recs);
      if b < |recs| { return Refused(b, status); }
      rsp := WriteAll(recs, answers, backs);
    }

    // The first pass: nothing is written before every record has been checked.
    method FindRefused(recs: seq<WriteRec>) returns (i: nat, status: nat)
      ensures i <= |recs| && Checked(attrs, recs, i) && (i < |recs| ==> status == Check(attrs, recs[i]) != SUCCESS)
    {
      i, status := 0, SUCCESS;
      while i < |recs|
        invariant i <= |recs| && Checked(attrs, recs, i)
      {
        status := CheckRecord(recs[i]);
        if status != SUCCESS { return; }
        i := i + 1;
      }
    }

    // One turn of the second pass: the old value is saved before the new one is written.
    method SaveAndWrite(r: WriteRec, answer: nat) returns (was: seq<byte>, status: nat)
      requires Valid() && Check(attrs, r) == SUCCESS
      requires Whole(r.dataType, r.data) && |r.data| <= attrs[Find(attrs, r.id)].store.Length
      modifies Stores()
      ensures Valid()
      ensures var k := Find(attrs, r.id);
        status == Verdict(attrs[k], answer) && was == old(Values())[k] &&
        Values() == if status == SUCCESS then old(Values())[k := r.data] else old(Values())
    {
      var k := FindAttrRec(r.id);
      was := attrs[k].Value();
      assert was == Values()[k];
      status := Verdict(attrs[k], answer);
      if status == SUCCESS { SetValue(k, r.data); }
    }

    // What the first n records of the second pass have done.
    ghost predicate Progress(recs: seq<WriteRec>, answers: seq<nat>, vals: seq<seq<byte>>, saved: seq<seq<byte>>,
                             n: nat, now: seq<seq<byte>>)
      requires |recs| <= |answers|
    {
      |saved| == n && Underway(recs, vals, saved, n) && Accepted(attrs, recs, answers, n) &&
      now == Written(vals, Targets(attrs, recs), NewValues(recs), n)
    }

    method WriteAll(recs: seq<WriteRec>, answers: seq<nat>, backs: seq<nat>) returns (rsp: Response)
      requires Valid() && Fit(recs) && |recs| <= |answers| && |recs| <= |backs| && Checked(attrs, recs, |recs|)
      modifies Stores()
      ensures Valid() && Outcome(attrs, old(Values()), recs, answers, backs, Values(), rsp)
    {
      ghost var vals := Values();
      TargetsWithin(attrs, vals, recs);
      ValuesFit();
      var saved: seq<seq<byte>> := [];
      var i := 0;
      assert Progress(recs, answers, vals, saved, 0, vals);
      hide Valid, Values, Fit, Checked, Saves, Targets, NewValues;
      while i < |recs|
        invariant i <= |recs| && Valid() && Progress(recs, answers, vals, saved, i, Values())
      {
        var was, status := SaveTurn(recs, answers, i, vals, saved);
        if status != SUCCESS {
          rsp := Fail(recs, answers, backs, i, status, vals, saved);
          return;
        }
        saved := saved + [was];
        i := i + 1;
      }
      rsp := AllWritten;
    }

    method SaveTurn(recs: seq<WriteRec>, answers: seq<nat>, i: nat, ghost vals: seq<seq<byte>>,
                    ghost saved: seq<seq<byte>>)
      returns (was: seq<byte>, status: nat)
      requires Valid() && i < |recs| <= |answers| && Progress(recs, answers, vals, saved, i, Values())
      modifies Stores()
      ensures Valid()
      ensures if status == SUCCESS then Progress(recs, answers, vals, saved + [was], i + 1, Values())
              else Progress(recs, answers, vals, saved, i, Values()) && Fails(attrs, recs, answers, i) &&
                   status == Verdict(attrs[Find(attrs, recs[i].id)], answers[i])
    {
      ghost var to, news := Targets(attrs, recs), NewValues(recs);
      assert Check(attrs, recs[i]) == SUCCESS;
      hide Valid, Values, Find, Targets, NewValues, Saves, Accepted, Whole;
      was, status := SaveAndWrite(recs[i], answers[i]);
      if status == SUCCESS {
        AcceptedMore(attrs, recs, answers, i);
        SavedMore(vals, to, news, saved, was, i);
      }
    }

    method Fail(recs: seq<WriteRec>, ghost answers: seq<nat>, backs: seq<nat>, i: nat, status: nat,
                ghost vals: seq<seq<byte>>,
                saved: seq<seq<byte>>) returns (rsp: Response)
      requires Valid() && i < |recs| && |recs| <= |answers| && |recs| <= |backs| && |vals| == |attrs|
      requires Progress(recs, answers, vals, saved, i, Values()) && Fails(attrs, recs, answers, i)
      requires status == Verdict(attrs[Find(attrs, recs[i].id)], answers[i])
      modifies Stores()
      ensures Valid() && Outcome(attrs, vals, recs, answers, backs, Values(), rsp)
    {
      Revert(recs, saved, i, backs, vals);
      rsp := Failed(i, status);
    }
  }
}
