// The synchronous request handshake of rpc.c, as steps of its threads: any number of senders in
// rpcSendFrame, one receiver in rpcProcess, and a peer that answers requests.
module RpcHandshake {
  const NOTHING := 0xFF

  // A message to send: sync for an SREQ, with the subsystem that its SRSP must carry.
  datatype Request = Request(id: nat, sync: bool, sub: nat)

  // Where a sender is in rpcSendFrame. Clean tells whether it entered with no answer left over.
  datatype Sender =
    | Idle
    | Entered(r: Request, clean: bool)
    | Armed(r: Request, clean: bool)
    | Waiting(r: Request, clean: bool)
    | TimedOut(r: Request, clean: bool)
    | Succeeded(r: Request, clean: bool, token: nat)
    | Leaving

  // Where the receiver is in rpcProcess with an SRSP: compared equal, or posted but not queued yet.
  datatype Receiver = Free | Matched(r: Request) | Posted(r: Request)

  // tokens names the answers whose posts of srspSem are not spent, oldest first.
  datatype State = State(rpcSem: nat, srspSem: nat, expected: nat, senders: seq<Sender>, receiver: Receiver,
                         issued: nat, sent: set<Request>, answered: set<Request>, tokens: seq<nat>,
                           queued: seq<Request>)

  datatype Action =
    | Enter(i: nat, sync: bool, sub: nat)
    | Arm(i: nat)
    | Write(i: nat)
    | Take(i: nat)
    | Timeout(i: nat)
    | Reset(i: nat)
    | Leave(i: nat)
    | Compare(r: Request)
    | Post
    | Queue

  ghost function Init(n: nat): State {
    State(1, 0, 0, seq(n, _ => Idle), Free, 0, {}, {}, [], [])
  }

  // The action is possible in s: the thread is there, and a semaphore that it waits for is up.
  predicate Can(s: State, a: Action) {
    match a
    case Enter(i, _, sub) => i < |s.senders| && s.senders[i].Idle? && s.rpcSem > 0 && sub < 32
    case Arm(i) => i < |s.senders| && s.senders[i].Entered? && s.senders[i].r.sync
    case Write(i) => i < |s.senders| && (s.senders[i].Armed? || (s.senders[i].Entered? && !s.senders[i].r.sync))
    case Take(i) => i < |s.senders| && s.senders[i].Waiting? && s.srspSem > 0
    case Timeout(i) => i < |s.senders| && s.senders[i].Waiting? && s.srspSem == 0
    case Reset(i) => i < |s.senders| && (s.senders[i].TimedOut? || s.senders[i].Succeeded?)
    case Leave(i) => i < |s.senders| && s.senders[i].Leaving?
    case Compare(r) => s.receiver.Free? && r in s.sent && r !in s.answered
    case Post => s.receiver.Matched?
    case Queue => s.receiver.Posted?
  }

  // Answers accepted by the receiver and not yet taken by a sender, oldest first.
  ghost function Unspent(s: State): seq<nat> {
    s.tokens + if s.receiver.Matched? then [s.receiver.r.id] else []
  }

  function First(ts: seq<nat>): nat { if ts == [] then 0 else ts[0] }

  function Rest(ts: seq<nat>): seq<nat> { if ts == [] then [] else ts[1..] }

  ghost function Do(s: State, a: Action): State
    requires Can(s, a)
  {
    match a
    case Enter(i, sync, sub) =>
      s.(rpcSem := s.rpcSem - 1, issued := s.issued + 1,
         senders := s.senders[i := Entered(Request(s.issued, sync, sub), Unspent(s) == [])])
    case Arm(i) =>
      var c := s.senders[i];
      s.(expected := c.r.sub, senders := s.senders[i := Armed(c.r, c.clean)])
    case Write(i) =>
      var c := s.senders[i];
      if c.r.sync then s.(sent := s.sent + {c.r}, senders := s.senders[i := Waiting(c.r, c.clean)])
      else s.(senders := s.senders[i := Leaving])
    case Take(i) =>
      var c := s.senders[i];
      s.(srspSem := s.srspSem - 1, tokens := Rest(s.tokens),
        senders := s.senders[i := Succeeded(c.r, c.clean, First(s.tokens))])
    case Timeout(i) =>
      var c := s.senders[i];
      s.(senders := s.senders[i := TimedOut(c.r, c.clean)])
    case Reset(i) => s.(expected := NOTHING, senders := s.senders[i := Leaving])
    case Leave(i) => s.(rpcSem := s.rpcSem + 1, senders := s.senders[i := Idle])
    case Compare(r) =>
      s.(answered := s.answered + {r}, receiver := if s.expected == r.sub then Matched(r) else Free)
    case Post => s.(srspSem := s.srspSem + 1, tokens := s.tokens + [s.receiver.r.id], receiver := Posted(s.receiver.r))
    case Queue => s.(queued := s.queued + [s.receiver.r], receiver := Free)
  }

  // A run from the initial state with n senders.
  ghost predicate Run(n: nat, acts: seq<Action>, ss: seq<State>) {
    |ss| == |acts| + 1 && ss[0] == Init(n) &&
    forall k :: 0 <= k < |acts| ==> Can(ss[k], acts[k]) && ss[k + 1] == Do(ss[k], acts[k])
  }

  // ---- what every run keeps ----

  predicate InFlight(c: Sender) { c.Armed? || c.Waiting? || c.TimedOut? || c.Succeeded? }

  // The sender inside the critical section, if any; senders elsewhere are idle.
  predicate Alone(s: State, h: int) {
    -1 <= h < |s.senders| && (forall i :: 0 <= i < |s.senders| && i != h ==> s.senders[i].Idle?) &&
    if h == -1 then s.rpcSem == 1 else s.rpcSem == 0 && !s.senders[h].Idle?
  }

  ghost predicate Counted(s: State) {
    |s.tokens| == s.srspSem &&
    (forall r :: r in s.sent ==> r.id < s.issued && r.sub < 32 && r.sync) && s.answered <= s.sent
  }

  // The expected id is set exactly by the request in flight.
  predicate Expecting(s: State, h: int)
    requires -1 <= h < |s.senders|
  {
    if h != -1 && InFlight(s.senders[h]) then s.expected == s.senders[h].r.sub
    else s.expected == NOTHING || s.sent == {}
  }

  predicate Current(s: State, h: int)
    requires -1 <= h < |s.senders|
  {
    h != -1 && !s.senders[h].Idle? && !s.senders[h].Leaving? ==>
      var r := s.senders[h].r;
      r.id < s.issued && r.sub < 32 && (InFlight(s.senders[h]) ==> r.sync) &&
      (s.senders[h].Entered? || s.senders[h].Armed? ==> forall q :: q in s.sent ==> q.id < r.id) &&
      (forall q :: q in s.sent && q.id == r.id ==> q == r)
  }

  ghost predicate Inv(s: State, h: int) {
    Alone(s, h) && Counted(s) && Expecting(s, h) && Current(s, h)
  }

  function Holder(h: int, a: Action): int {
    if a.Enter? then a.i else if a.Leave? then -1 else h
  }

  lemma StepKeeps(s: State, a: Action, h: int)
    requires Inv(s, h) && Can(s, a)
    ensures Inv(Do(s, a), Holder(h, a))
  {
    var t := Do(s, a);
    assert Alone(t, Holder(h, a));
    assert Counted(t);
  }

  // In every run at most one sender is past sem_wait(&rpcSem), and srspSem counts the accepted answers not taken.
  lemma {:induction false} RunKeeps(n: nat, acts: seq<Action>, ss: seq<State>, m: nat) returns (h: int)
    requires Run(n, acts, ss) && m <= |acts|
    ensures Inv(ss[m], h)
  {
    if m == 0 {
      h := -1;
    } else {
      var g := RunKeeps(n, acts, ss, m - 1);
      StepKeeps(ss[m - 1], acts[m - 1], g);
      h := Holder(g, acts[m - 1]);
    }
  }

  lemma MutualExclusion(n: nat, acts: seq<Action>, ss: seq<State>, m: nat, i: nat, j: nat)
    requires Run(n, acts, ss) && m <= |acts| && i < |ss[m].senders| && j < |ss[m].senders|
    ensures !ss[m].senders[i].Idle? && !ss[m].senders[j].Idle? ==> i == j
    ensures ss[m].rpcSem <= 1 && (ss[m].rpcSem == 1 ==> ss[m].senders[i].Idle?)
  {
    var h := RunKeeps(n, acts, ss, m);
  }

  // An SRSP reaches the queue only if its subsystem was the expected one when it was compared.
  lemma {:induction false} OnlyExpectedQueued(n: nat, acts: seq<Action>, ss: seq<State>, m: nat, r: Request)
    requires Run(n, acts, ss) && m <= |acts|
    requires r in ss[m].queued || ss[m].receiver == Matched(r) || ss[m].receiver == Posted(r)
    ensures exists k :: 0 <= k < m && acts[k] == Compare(r) && ss[k].expected == r.sub
  {
    if m > 0 {
      var s, a := ss[m - 1], acts[m - 1];
      if r in s.queued || s.receiver == Matched(r) || s.receiver == Posted(r) {
        OnlyExpectedQueued(n, acts, ss, m - 1, r);
      } else {
        assert a == Compare(r) && s.expected == r.sub;
      }
    }
  }

  // An SRSP whose post has been made reaches the queue: in every later state it is there, or is about to be put there.
  lemma {:induction false} AcceptedIsQueued(n: nat, acts: seq<Action>, ss: seq<State>, k: nat, m: nat)
    requires Run(n, acts, ss) && k < m <= |acts| && acts[k].Post? && ss[k].receiver.Matched?
    ensures var r := ss[k].receiver.r; r in ss[m].queued || ss[m].receiver == Posted(r)
  {
    var s, a := ss[m - 1], acts[m - 1];
    assert Can(s, a) && ss[m] == Do(s, a);
    if k < m - 1 { AcceptedIsQueued(n, acts, ss, k, m - 1); }
  }

  // ---- whose answer a success rests on ----

  // The peer does not answer an old request while a later one to the same subsystem is in flight.
  predicate Timely(s: State, a: Action) {
    a.Compare? ==> forall i :: 0 <= i < |s.senders| && InFlight(s.senders[i]) && s.senders[i].r.sub == a.r.sub ==>
      s.senders[i].r == a.r
  }

  ghost predicate TimelyRun(n: nat, acts: seq<Action>, ss: seq<State>) {
    Run(n, acts, ss) && forall k :: 0 <= k < |acts| ==> Timely(ss[k], acts[k])
  }

  // A sender that entered clean has only answers of its own before it; the others have an older one first.
  ghost predicate Told(s: State, c: Sender) {
    match c
    case Idle => true
    case Leaving => true
    case Succeeded(r, clean, token) => token == r.id <==> clean
    case _ =>
      var u := Unspent(s);
      if c.clean then forall i :: 0 <= i < |u| ==> u[i] == c.r.id else u != [] && u[0] != c.r.id
  }

  ghost predicate Old(s: State) {
    forall i :: 0 <= i < |Unspent(s)| ==> Unspent(s)[i] < s.issued
  }

  lemma TellKeeps(s: State, a: Action, h: int)
    requires Inv(s, h) && Can(s, a) && Timely(s, a) && Old(s) && (h != -1 ==> Told(s, s.senders[h]))
    ensures Old(Do(s, a)) && (Holder(h, a) != -1 ==> Told(Do(s, a), Do(s, a).senders[Holder(h, a)]))
  {
    var t := Do(s, a);
    match a {
      case Take(_) => TellTake(s, a, h);
      case Compare(_) => TellCompare(s, a, h);
      case _ => assert Unspent(t) == Unspent(s);
    }
  }

  lemma TellTake(s: State, a: Action, h: int)
    requires a.Take? && Inv(s, h) && Can(s, a) && Old(s) && h != -1 && Told(s, s.senders[h])
    ensures Old(Do(s, a)) && Told(Do(s, a), Do(s, a).senders[h])
  {
    var u, v := Unspent(s), Unspent(Do(s, a));
    assert u[0] == First(s.tokens) && v == u[1..];
    assert forall j :: 0 <= j < |v| ==> v[j] == u[j + 1];
  }

  lemma TellCompare(s: State, a: Action, h: int)
    requires a.Compare? && Inv(s, h) && Can(s, a) && Timely(s, a) && Old(s) && (h != -1 ==> Told(s, s.senders[h]))
    ensures Old(Do(s, a)) && (h != -1 ==> Told(Do(s, a), Do(s, a).senders[h]))
  {
    var u, v := Unspent(s), Unspent(Do(s, a));
    if s.expected == a.r.sub {
      assert h != -1 && s.senders[h].r == a.r;
      assert v == u + [a.r.id];
    } else {
      assert v == u;
    }
  }

  lemma {:induction false} RunTells(n: nat, acts: seq<Action>, ss: seq<State>, m: nat) returns (h: int)
    requires TimelyRun(n, acts, ss) && m <= |acts|
    ensures Inv(ss[m], h) && Old(ss[m]) && (h != -1 ==> Told(ss[m], ss[m].senders[h]))
  {
    if m == 0 {
      h := -1;
    } else {
      var g := RunTells(n, acts, ss, m - 1);
      StepKeeps(ss[m - 1], acts[m - 1], g);
      TellKeeps(ss[m - 1], acts[m - 1], g);
      h := Holder(g, acts[m - 1]);
    }
  }

  // The request that entered in step k keeps the mark that it got there.
  lemma {:induction false} MarkStays(n: nat, acts: seq<Action>, ss: seq<State>, k: nat, m: nat, i: nat)
    requires Run(n, acts, ss) && k < m <= |acts| && acts[k].Enter? && i < |ss[m].senders|
    requires !ss[m].senders[i].Idle? && !ss[m].senders[i].Leaving? && ss[m].senders[i].r.id == ss[k].issued
    ensures ss[m].senders[i].clean <==> Unspent(ss[k]) == []
    ensures ss[m].issued > ss[k].issued
  {
    IssuedGrows(n, acts, ss, k, m);
    var s, a := ss[m - 1], acts[m - 1];
    MarkStep(s, a, i);
    if k < m - 1 {
      IssuedGrows(n, acts, ss, k, m - 1);
      MarkStays(n, acts, ss, k, m - 1, i);
    } else {
      var g := RunKeeps(n, acts, ss, k);
    }
  }

  // A step leaves a request and its mark alone, or it is the step in which the request entered.
  lemma MarkStep(s: State, a: Action, i: nat)
    requires Can(s, a) && i < |s.senders| == |Do(s, a).senders|
    requires !Do(s, a).senders[i].Idle? && !Do(s, a).senders[i].Leaving?
    ensures var c := Do(s, a).senders[i];
      if a.Enter? && a.i == i then c.r.id == s.issued && (c.clean <==> Unspent(s) == [])
      else !s.senders[i].Idle? && !s.senders[i].Leaving? && c.r == s.senders[i].r && c.clean == s.senders[i].clean
  {}

  lemma {:induction false} IssuedGrows(n: nat, acts: seq<Action>, ss: seq<State>, k: nat, m: nat)
    requires Run(n, acts, ss) && k < m <= |acts| && acts[k].Enter?
    ensures ss[m].issued > ss[k].issued
  {
    if k < m - 1 { IssuedGrows(n, acts, ss, k, m - 1); }
    var s, a := ss[m - 1], acts[m - 1];
    assert ss[m] == Do(s, a);
  }

  // With a timely peer, a request succeeds on its own answer exactly when it took rpcSem while srspSem was 0
  // and the receiver was not between comparing and posting.
  lemma SuccessIsOwn(n: nat, acts: seq<Action>, ss: seq<State>, k: nat, m: nat, i: nat)
    requires TimelyRun(n, acts, ss) && k < m <= |acts| && acts[k].Enter? && i < |ss[m].senders|
    requires ss[m].senders[i].Succeeded? && ss[m].senders[i].r.id == ss[k].issued
    ensures ss[m].senders[i].token == ss[m].senders[i].r.id <==> ss[k].srspSem == 0 && !ss[k].receiver.Matched?
  {
    var h := RunTells(n, acts, ss, m);
    var g := RunKeeps(n, acts, ss, k);
    MarkStays(n, acts, ss, k, m, i);
  }

  // ---- comparing and posting in one step, timing out and resetting in one step ----

  ghost predicate AtomicRun(n: nat, acts: seq<Action>, ss: seq<State>) {
    TimelyRun(n, acts, ss) &&
    forall k :: 0 <= k < |acts| ==> Undivided(ss[k], acts[k])
  }

  // A receiver that has compared equal posts at once; a sender that has timed out resets at once.
  predicate Undivided(s: State, a: Action) {
    (s.receiver.Matched? ==> a.Post?) && forall i :: 0 <= i < |s.senders| && s.senders[i].TimedOut? ==> a == Reset(i)
  }

  // The only answer not taken is the one that the waiting sender is about to take.
  ghost predicate Settled(s: State, h: int)
    requires -1 <= h < |s.senders|
  {
    (Unspent(s) != [] ==>
      h != -1 && s.senders[h].Waiting? && Unspent(s) == [s.senders[h].r.id] && s.senders[h].r in s.answered) &&
    (h != -1 && s.senders[h].Succeeded? ==> s.senders[h].r in s.answered)
  }

  lemma SettledKeeps(s: State, a: Action, h: int)
    requires Inv(s, h) && Can(s, a) && Timely(s, a) && Undivided(s, a) && Settled(s, h) && Inv(Do(s, a), Holder(h, a))
    ensures Settled(Do(s, a), Holder(h, a))
  {
    var t := Do(s, a);
    match a {
      case Post => assert Unspent(t) == Unspent(s);
      case Take(i) => assert Unspent(s) == [s.tokens[0]] + Unspent(t);
      case Compare(r) => assert t.receiver.Matched? ==> Unspent(t) == Unspent(s) + [r.id];
      case _ => assert Unspent(t) == Unspent(s);
    }
  }

  lemma {:induction false} AtomicRunSettled(n: nat, acts: seq<Action>, ss: seq<State>, m: nat) returns (h: int)
    requires AtomicRun(n, acts, ss) && m <= |acts|
    ensures Inv(ss[m], h) && Settled(ss[m], h)
  {
    if m == 0 {
      h := -1;
    } else {
      var g := AtomicRunSettled(n, acts, ss, m - 1);
      StepKeeps(ss[m - 1], acts[m - 1], g);
      SettledKeeps(ss[m - 1], acts[m - 1], g);
      h := Holder(g, acts[m - 1]);
    }
  }

  // Then srspSem is 0 whenever rpcSem is free.
  lemma NothingLeftOver(n: nat, acts: seq<Action>, ss: seq<State>, m: nat)
    requires AtomicRun(n, acts, ss) && m <= |acts| && ss[m].rpcSem > 0
    ensures ss[m].srspSem == 0 && !ss[m].receiver.Matched?
  {
    var h := AtomicRunSettled(n, acts, ss, m);
  }

  lemma {:induction false} EnteredAt(n: nat, acts: seq<Action>, ss: seq<State>, m: nat, i: nat) returns (k: nat)
    requires Run(n, acts, ss) && m <= |acts| && i < |ss[m].senders| && !ss[m].senders[i].Idle? &&
      !ss[m].senders[i].Leaving?
    ensures k < m && acts[k].Enter? && ss[k].issued == ss[m].senders[i].r.id
  {
    assert m > 0;
    var s, a := ss[m - 1], acts[m - 1];
    if s.senders[i].Idle? { k := m - 1; } else { k := EnteredAt(n, acts, ss, m - 1, i); }
  }

  // And every success rests on the request's own answer.
  lemma EverySuccessIsOwn(n: nat, acts: seq<Action>, ss: seq<State>, m: nat, i: nat)
    requires AtomicRun(n, acts, ss) && m <= |acts| && i < |ss[m].senders| && ss[m].senders[i].Succeeded?
    ensures ss[m].senders[i].token == ss[m].senders[i].r.id
  {
    var k := EnteredAt(n, acts, ss, m, i);
    NothingLeftOver(n, acts, ss, k);
    SuccessIsOwn(n, acts, ss, k, m, i);
  }

  lemma AnsweredLate(r: Request) returns (acts: seq<Action>, ss: seq<State>)
    requires r == Request(0, true, 1)
    ensures TimelyRun(1, acts, ss) && ss[|acts|] == State(0, 0, NOTHING, [Leaving], Matched(r), 1, {r}, {r}, [], [])
  {
    acts, ss := [], [Init(1)];
    assert Init(1).senders == [Idle];
    acts, ss := Extend(1, acts, ss, Enter(0, true, 1), State(0, 0, 0, [Entered(r, true)], Free, 1, {}, {}, [], []));
    acts, ss := Extend(1, acts, ss, Arm(0), State(0, 0, 1, [Armed(r, true)], Free, 1, {}, {}, [], []));
    acts, ss := Extend(1, acts, ss, Write(0), State(0, 0, 1, [Waiting(r, true)], Free, 1, {r}, {}, [], []));
    acts, ss := Extend(1, acts, ss, Timeout(0), State(0, 0, 1, [TimedOut(r, true)], Free, 1, {r}, {}, [], []));
    acts, ss := Extend(1, acts, ss, Compare(r), State(0, 0, 1, [TimedOut(r, true)], Matched(r), 1, {r}, {r}, [], []));
    acts, ss := Extend(1, acts, ss, Reset(0), State(0, 0, NOTHING, [Leaving], Matched(r), 1, {r}, {r}, [], []));
  }

  // Without that atomicity: an answer that comes between the time-out of its request and the reset of the
  // expected id makes the next request succeed, whose own answer has not come.
  lemma LateAnswer() returns (acts: seq<Action>, ss: seq<State>)
    ensures TimelyRun(1, acts, ss)
    ensures ss[|acts|].senders == [Succeeded(Request(1, true, 2), false, 0)] &&
      Request(1, true, 2) !in ss[|acts|].answered
  {
    var r, q := Request(0, true, 1), Request(1, true, 2);
    acts, ss := AnsweredLate(r);
    acts, ss := Extend(1, acts, ss, Post, State(0, 1, NOTHING, [Leaving], Posted(r), 1, {r}, {r}, [0], []));
    acts, ss := Extend(1, acts, ss, Leave(0), State(1, 1, NOTHING, [Idle], Posted(r), 1, {r}, {r}, [0], []));
    acts, ss := Extend(1, acts, ss, Enter(0, true, 2),
      State(0, 1, NOTHING, [Entered(q, false)], Posted(r), 2, {r}, {r}, [0], []));
    acts, ss := Extend(1, acts, ss, Arm(0), State(0, 1, 2, [Armed(q, false)], Posted(r), 2, {r}, {r}, [0], []));
    acts, ss := Extend(1, acts, ss, Write(0), State(0, 1, 2, [Waiting(q, false)], Posted(r), 2, {r, q}, {r}, [0], []));
    acts, ss := Extend(1, acts, ss, Take(0),
      State(0, 0, 2, [Succeeded(q, false, 0)], Posted(r), 2, {r, q}, {r}, [], []));
  }

  lemma Extend(n: nat, acts: seq<Action>, ss: seq<State>, a: Action, t: State)
    returns (acts': seq<Action>, ss': seq<State>)
    requires TimelyRun(n, acts, ss)
    requires var s := ss[|acts|]; Can(s, a) && Timely(s, a) && Do(s, a) == t
    ensures TimelyRun(n, acts', ss') && ss'[|acts'|] == t
  {
    acts', ss' := acts + [a], ss + [t];
  }
}
