// The semaphore protocol around that list, for any number of threads (llq_add, llq_timedreceive).
module QueueProtocol {
  import opened MessageQueue

  datatype Msg = Msg(id: nat, urgent: bool)

  // Where a thread stands in llq_add or llq_timedreceive.
  datatype Pc =
    | Idle
    | AddLock(m: Msg)       // before sem_wait on the access semaphore
    | AddInside(m: Msg)     // has access, has not changed the list
    | AddUnlock             // has access, has linked its message in
    | AddPost               // gave access back, has not posted the count
    | TakeWait(timed: bool) // before sem_wait, or sem_timedwait when timed, on the count
    | TakeTest              // took a count, has not looked at head
    | TakeLock              // saw head, before sem_wait on the access semaphore
    | TakeInside            // has access, has not changed the list
    | TakeUnlock(m: Msg)    // has access, has unlinked m

  // added and taken record, in order, what was linked in and unlinked; lost counts spent for no message.
  datatype State = State(queue: seq<Msg>, access: nat, count: nat, pcs: seq<Pc>, added: seq<Msg>, taken: seq<Msg>,
    lost: nat)

  ghost predicate Init(s: State) {
    s.queue == [] && s.access == 1 && s.count == 0 && s.added == [] && s.taken == [] && s.lost == 0 &&
    forall i :: 0 <= i < |s.pcs| ==> s.pcs[i] == Idle
  }

  function Linked(q: seq<Msg>, m: Msg): seq<Msg> { if m.urgent then [m] + q else q + [m] }

  // The critical section of llq_add on the list, as called with its last argument for an urgent message.
  method Add(q: Llq<Msg>, m: Msg)
    requires q.Valid()
    modifies q, q.tail
    ensures q.Valid() && q.Contents() == Linked(old(q.Contents()), m)
  {
    if m.urgent { q.AddToHead(m); } else { q.AddToTail(m); }
  }

  // The critical section of llq_timedreceive.
  method Take(q: Llq<Msg>) returns (m: Msg)
    requires q.Valid() && q.head != null
    modifies q
    ensures q.Valid() && old(q.Contents()) != [] && m == old(q.Contents())[0] && q.Contents() == old(q.Contents())[1..]
  {
    m := q.TakeHead();
  }

  // One step of thread i.
  ghost predicate Step(s: State, t: State, i: nat) {
    i < |s.pcs| &&
    match s.pcs[i]
    case Idle => (exists m :: t == s.(pcs := s.pcs[i := AddLock(m)])) ||
      (exists timed :: t == s.(pcs := s.pcs[i := TakeWait(timed)]))
    case AddLock(m) => s.access > 0 && t == s.(access := s.access - 1, pcs := s.pcs[i := AddInside(m)])
    case AddInside(m) => t == s.(queue := Linked(s.queue, m), added := s.added + [m], pcs := s.pcs[i := AddUnlock])
    case AddUnlock => t == s.(access := s.access + 1, pcs := s.pcs[i := AddPost])
    case AddPost => t == s.(count := s.count + 1, pcs := s.pcs[i := Idle])
    case TakeWait(timed) =>
      (s.count > 0 && t == s.(count := s.count - 1, pcs := s.pcs[i := TakeTest])) ||
        t == s.(pcs := s.pcs[i := Idle]) // timed out, or interrupted
    case TakeTest =>
      if s.queue == [] then t == s.(lost := s.lost + 1, pcs := s.pcs[i := Idle])
        else t == s.(pcs := s.pcs[i := TakeLock])
    case TakeLock => s.access > 0 && t == s.(access := s.access - 1, pcs := s.pcs[i := TakeInside])
    case TakeInside =>
      s.queue != [] &&
        t == s.(queue := s.queue[1..], taken := s.taken + [s.queue[0]], pcs := s.pcs[i := TakeUnlock(s.queue[0])])
    case TakeUnlock(_) => t == s.(access := s.access + 1, pcs := s.pcs[i := Idle])
  }

  // A run in which thread who[k] makes step k.
  ghost predicate Run(ss: seq<State>, who: seq<nat>) {
    |ss| == |who| + 1 && Init(ss[0]) && forall k {:trigger who[k]} :: 0 <= k < |who| ==> Step(ss[k], ss[k + 1], who[k])
  }

  predicate Inside(p: Pc) { p.AddInside? || p.AddUnlock? || p.TakeInside? || p.TakeUnlock? }

  predicate Unposted(p: Pc) { p.AddUnlock? || p.AddPost? }

  predicate Owed(p: Pc) { p.TakeTest? || p.TakeLock? || p.TakeInside? }

  function Count(pcs: seq<Pc>, f: Pc -> bool): nat {
    if pcs == [] then 0 else Count(pcs[..|pcs| - 1], f) + (if f(pcs[|pcs| - 1]) then 1 else 0)
  }

  lemma {:induction false} CountUpdate(pcs: seq<Pc>, i: nat, p: Pc, f: Pc -> bool)
    requires i < |pcs|
    ensures Count(pcs[i := p], f) == Count(pcs, f) - (if f(pcs[i]) then 1 else 0) + (if f(p) then 1 else 0)
    ensures f(pcs[i]) ==> Count(pcs, f) >= 1
  {
    var n := |pcs| - 1;
    if i == n {
      assert pcs[i := p][..n] == pcs[..n];
    } else {
      CountUpdate(pcs[..n], i, p, f);
      assert pcs[i := p][..n] == pcs[..n][i := p];
    }
  }

  // The messages of one urgency, in order.
  function Of(s: seq<Msg>, urgent: bool): seq<Msg> {
    if s == [] then [] else Of(s[..|s| - 1], urgent) + (if s[|s| - 1].urgent == urgent then [s[|s| - 1]] else [])
  }

  lemma {:induction false} OfConcat(a: seq<Msg>, b: seq<Msg>, urgent: bool)
    ensures Of(a + b, urgent) == Of(a, urgent) + Of(b, urgent)
  {
    if b == [] {
      assert a + b == a;
    } else {
      OfConcat(a, b[..|b| - 1], urgent);
      assert (a + b)[..|a + b| - 1] == a + b[..|b| - 1];
    }
  }

  ghost predicate UrgentFirst(q: seq<Msg>) { forall j, k :: 0 <= j < k < |q| && q[k].urgent ==> q[j].urgent }

  // What was added is what was taken and what is still queued; the ordinary messages keep their order throughout.
  ghost predicate Conserved(added: seq<Msg>, taken: seq<Msg>, queue: seq<Msg>) {
    multiset(added) == multiset(taken) + multiset(queue) &&
    Of(added, false) == Of(taken, false) + Of(queue, false) &&
    UrgentFirst(queue)
  }

  ghost predicate Inv(s: State) {
    s.access + Count(s.pcs, Inside) == 1 &&
    |s.queue| == s.count + Count(s.pcs, Unposted) + Count(s.pcs, Owed) &&
    s.lost == 0 &&
    Conserved(s.added, s.taken, s.queue)
  }

  lemma LinkedBag(added: seq<Msg>, taken: seq<Msg>, queue: seq<Msg>, m: Msg)
    requires multiset(added) == multiset(taken) + multiset(queue)
    ensures multiset(added + [m]) == multiset(taken) + multiset(Linked(queue, m))
  {}

  lemma OfOne(m: Msg, urgent: bool)
    ensures Of([m], urgent) == if m.urgent == urgent then [m] else []
  {
    assert [m][..0] == [];
  }

  lemma LinkedOf(added: seq<Msg>, taken: seq<Msg>, queue: seq<Msg>, m: Msg)
    requires Of(added, false) == Of(taken, false) + Of(queue, false)
    ensures Of(added + [m], false) == Of(taken, false) + Of(Linked(queue, m), false)
  {
    OfConcat(added, [m], false);
    OfConcat([m], queue, false);
    OfConcat(queue, [m], false);
    OfOne(m, false);
    Regroup(Of(taken, false), Of(queue, false), Of([m], false));
  }

  lemma Regroup(a: seq<Msg>, b: seq<Msg>, c: seq<Msg>)
    ensures (a + b) + c == a + (b + c) && [] + b == b && a + [] == a && (a + b) + [] == a + b
  {}

  lemma LinkedUrgent(queue: seq<Msg>, m: Msg)
    requires UrgentFirst(queue)
    ensures UrgentFirst(Linked(queue, m))
  {}

  lemma AddConserves(added: seq<Msg>, taken: seq<Msg>, queue: seq<Msg>, m: Msg)
    requires Conserved(added, taken, queue)
    ensures Conserved(added + [m], taken, Linked(queue, m))
  {
    LinkedBag(added, taken, queue, m);
    LinkedOf(added, taken, queue, m);
    LinkedUrgent(queue, m);
  }

  lemma TakenBag(taken: seq<Msg>, queue: seq<Msg>)
    requires queue != []
    ensures multiset(taken) + multiset(queue) == multiset(taken + [queue[0]]) + multiset(queue[1..])
  {
    assert queue == [queue[0]] + queue[1..];
  }

  lemma TakenOf(taken: seq<Msg>, queue: seq<Msg>)
    requires queue != []
    ensures Of(taken, false) + Of(queue, false) == Of(taken + [queue[0]], false) + Of(queue[1..], false)
  {
    hide Of;
    var first, rest := [queue[0]], queue[1..];
    assert queue == first + rest;
    OfConcat(taken, first, false);
    OfConcat(first, rest, false);
    Regroup(Of(taken, false), Of(first, false), Of(rest, false));
  }

  lemma TakeConserves(added: seq<Msg>, taken: seq<Msg>, queue: seq<Msg>)
    requires Conserved(added, taken, queue) && queue != []
    ensures Conserved(added, taken + [queue[0]], queue[1..])
  {
    TakenBag(taken, queue);
    TakenOf(taken, queue);
  }

  lemma {:induction false} CountIdle(pcs: seq<Pc>, f: Pc -> bool)
    requires forall i :: 0 <= i < |pcs| ==> pcs[i] == Idle
    requires !f(Idle)
    ensures Count(pcs, f) == 0
  {
    if pcs != [] { CountIdle(pcs[..|pcs| - 1], f); }
  }

  lemma StepCounts(s: State, t: State, i: nat)
    requires Inv(s) && Step(s, t, i)
    ensures t.access + Count(t.pcs, Inside) == 1
    ensures |t.queue| == t.count + Count(t.pcs, Unposted) + Count(t.pcs, Owed)
    ensures t.lost == 0
  {
    var p := t.pcs[i];
    CountUpdate(s.pcs, i, p, Inside);
    CountUpdate(s.pcs, i, p, Unposted);
    CountUpdate(s.pcs, i, p, Owed);
  }

  lemma StepConserves(s: State, t: State, i: nat)
    requires Conserved(s.added, s.taken, s.queue) && Step(s, t, i)
    ensures Conserved(t.added, t.taken, t.queue)
  {
    match s.pcs[i] {
      case AddInside(m) => AddConserves(s.added, s.taken, s.queue, m);
      case TakeInside => TakeConserves(s.added, s.taken, s.queue);
      case _ =>
    }
  }

  // The counting law of the protocol, in every state of every run.
  lemma {:induction false} RunKeepsInv(ss: seq<State>, who: seq<nat>)
    requires Run(ss, who)
    ensures Inv(ss[|who|])
  {
    if who == [] {
      CountIdle(ss[0].pcs, Inside);
      CountIdle(ss[0].pcs, Unposted);
      CountIdle(ss[0].pcs, Owed);
    } else {
      var n := |who| - 1;
      assert who[..n][..] == who[..n];
      RunKeepsInv(ss[..n + 1], who[..n]);
      assert Step(ss[n], ss[n + 1], who[n]);
      StepCounts(ss[n], ss[n + 1], who[n]);
      StepConserves(ss[n], ss[n + 1], who[n]);
    }
  }

  lemma {:induction false} CountsOne(pcs: seq<Pc>, f: Pc -> bool, i: nat)
    requires i < |pcs| && f(pcs[i])
    ensures Count(pcs, f) >= 1
  { CountUpdate(pcs, i, pcs[i], f); }

  lemma {:induction false} CountsTwo(pcs: seq<Pc>, f: Pc -> bool, i: nat, j: nat)
    requires i < j < |pcs| && f(pcs[i]) && f(pcs[j])
    ensures Count(pcs, f) >= 2
  {
    var n := |pcs| - 1;
    if j == n {
      CountsOne(pcs[..n], f, i);
    } else {
      CountsTwo(pcs[..n], f, i, j);
    }
  }

  // At most one thread is in a critical section.
  lemma MutualExclusion(s: State, i: nat, j: nat)
    requires Inv(s) && i < j < |s.pcs|
    ensures !(Inside(s.pcs[i]) && Inside(s.pcs[j]))
  {
    if Inside(s.pcs[i]) && Inside(s.pcs[j]) { CountsTwo(s.pcs, Inside, i, j); }
  }

  // Whoever has spent a count finds a message: the unlocked test of head succeeds, and so does the removal after it.
  lemma HeadNeverNull(s: State, i: nat)
    requires Inv(s) && i < |s.pcs| && Owed(s.pcs[i])
    ensures s.queue != []
  { CountsOne(s.pcs, Owed, i); }

  // With all threads idle the count is the number of queued messages, and nothing has been lost or duplicated.
  lemma Quiescent(s: State)
    requires Inv(s) && forall i :: 0 <= i < |s.pcs| ==> s.pcs[i] == Idle
    ensures s.access == 1 && s.count == |s.queue| && multiset(s.added) == multiset(s.taken) + multiset(s.queue)
  {
    CountIdle(s.pcs, Inside);
    CountIdle(s.pcs, Unposted);
    CountIdle(s.pcs, Owed);
  }

  // In every state that a run reaches: one thread at a time works on the list, whoever has spent a count finds a
  // message, no count is spent for nothing, and what was added is what was taken and what is queued.
  lemma RunIsSafe(ss: seq<State>, who: seq<nat>)
    requires Run(ss, who)
    ensures var s := ss[|who|];
      (forall i, j :: 0 <= i < j < |s.pcs| ==> !(Inside(s.pcs[i]) && Inside(s.pcs[j]))) &&
      (forall i :: 0 <= i < |s.pcs| && Owed(s.pcs[i]) ==> s.queue != []) && s.lost == 0 &&
      multiset(s.added) == multiset(s.taken) + multiset(s.queue) && UrgentFirst(s.queue) &&
      Of(s.added, false) == Of(s.taken, false) + Of(s.queue, false)
  {
    RunKeepsInv(ss, who);
    var s := ss[|who|];
    forall i, j | 0 <= i < j < |s.pcs| ensures !(Inside(s.pcs[i]) && Inside(s.pcs[j])) {
      MutualExclusion(s, i, j);
    }
    forall i | 0 <= i < |s.pcs| && Owed(s.pcs[i]) ensures s.queue != [] {
      HeadNeverNull(s, i);
    }
  }

  // What a step does to the queue and to its two records.
  lemma StepMoves(s: State, t: State, i: nat)
    requires Step(s, t, i)
    ensures i < |s.pcs|
    ensures s.pcs[i].AddInside? ==>
      var m := s.pcs[i].m;
      t.added == s.added + [m] && t.taken == s.taken && t.queue == if m.urgent then [m] + s.queue else s.queue + [m]
    ensures s.pcs[i].TakeInside? ==>
      t.added == s.added && s.queue != [] && t.taken == s.taken + s.queue[..1] && t.queue == s.queue[1..]
    ensures !s.pcs[i].AddInside? && !s.pcs[i].TakeInside? ==>
      t.added == s.added && t.taken == s.taken && t.queue == s.queue
  {}

  // m waits in front of everything that base holds.
  ghost predicate InFront(q: seq<Msg>, m: Msg, base: seq<Msg>) {
    exists before, behind :: q == before + [m] + base + behind
  }

  // m is at the head, with all of base behind it.
  ghost predicate AtFront(q: seq<Msg>, m: Msg, base: seq<Msg>) { exists behind :: q == [m] + base + behind }

  // From state s to the next one, m is taken while all of base is still queued behind it.
  ghost predicate TakenFirst(s: State, t: State, m: Msg, base: seq<Msg>) {
    t.taken == s.taken + [m] && AtFront(s.queue, m, base)
  }

  // An urgent message overtakes everything that was queued when it was linked, urgent or not: in every later state it
  // is still in front of all that, or it was taken when it was.
  lemma {:induction false} UrgentOvertakes(ss: seq<State>, who: seq<nat>, k: nat, n: nat)
    requires Run(ss, who) && k < n <= |who| && who[k] < |ss[k].pcs|
    requires ss[k].pcs[who[k]].AddInside? && ss[k].pcs[who[k]].m.urgent
    ensures var m, base := ss[k].pcs[who[k]].m, ss[k].queue;
      InFront(ss[n].queue, m, base) || exists j :: k < j < n && TakenFirst(ss[j], ss[j + 1], m, base)
  {
    var m, base := ss[k].pcs[who[k]].m, ss[k].queue;
    assert Step(ss[n - 1], ss[n], who[n - 1]);
    StepMoves(ss[n - 1], ss[n], who[n - 1]);
    if n == k + 1 {
      assert ss[n].queue == [] + [m] + base + [];
    } else {
      UrgentOvertakes(ss, who, k, n - 1);
      if InFront(ss[n - 1].queue, m, base) { FrontStays(ss[n - 1], ss[n], who[n - 1], m, base); }
    }
  }

  lemma FrontStays(s: State, t: State, i: nat, m: Msg, base: seq<Msg>)
    requires Step(s, t, i) && InFront(s.queue, m, base)
    ensures InFront(t.queue, m, base) || TakenFirst(s, t, m, base)
  {
    hide Step, InFront, AtFront;
    StepMoves(s, t, i);
    if s.pcs[i].AddInside? {
      FrontAddHead(s.queue, m, base, s.pcs[i].m);
      FrontAddTail(s.queue, m, base, s.pcs[i].m);
    } else if s.pcs[i].TakeInside? {
      FrontTake(s.queue, m, base);
    }
  }

  lemma FrontAddHead(q: seq<Msg>, m: Msg, base: seq<Msg>, x: Msg)
    requires InFront(q, m, base)
    ensures InFront([x] + q, m, base)
  {
    var before, behind :| q == before + [m] + base + behind;
    assert [x] + q == ([x] + before) + [m] + base + behind;
  }

  lemma FrontAddTail(q: seq<Msg>, m: Msg, base: seq<Msg>, x: Msg)
    requires InFront(q, m, base)
    ensures InFront(q + [x], m, base)
  {
    var before, behind :| q == before + [m] + base + behind;
    assert q + [x] == before + [m] + base + (behind + [x]);
  }

  lemma FrontTake(q: seq<Msg>, m: Msg, base: seq<Msg>)
    requires InFront(q, m, base) && q != []
    ensures InFront(q[1..], m, base) || (q[..1] == [m] && AtFront(q, m, base))
  {
    var before, behind :| q == before + [m] + base + behind;
    if before == [] {
      assert q == [m] + base + behind;
    } else {
      assert q[1..] == before[1..] + [m] + base + behind;
    }
  }

  lemma {:induction false} SomeInside(pcs: seq<Pc>, f: Pc -> bool) returns (j: nat)
    requires Count(pcs, f) >= 1
    ensures j < |pcs| && f(pcs[j])
  {
    var n := |pcs| - 1;
    if f(pcs[n]) { j := n; } else { j := SomeInside(pcs[..n], f); }
  }

  // No deadlock: a thread inside a call can move on without being interrupted, unless it waits without limit on a zero
  // count or waits for the access semaphore, whose holder can move on then.
  lemma NoDeadlock(s: State, i: nat) returns (j: nat, t: State)
    requires Inv(s) && i < |s.pcs| && s.pcs[i] != Idle && (s.pcs[i] == TakeWait(false) ==> s.count > 0)
    ensures Step(s, t, j) && (j == i || Inside(s.pcs[j]))
  {
    j := i;
    if (s.pcs[i].AddLock? || s.pcs[i].TakeLock?) && s.access == 0 {
      j := SomeInside(s.pcs, Inside);
    }
    if s.pcs[j].TakeInside? { HeadNeverNull(s, j); }
    match s.pcs[j] {
      case AddLock(m) => t := s.(access := s.access - 1, pcs := s.pcs[j := AddInside(m)]);
      case AddInside(m) => t := s.(queue := Linked(s.queue, m), added := s.added + [m], pcs := s.pcs[j := AddUnlock]);
      case AddUnlock => t := s.(access := s.access + 1, pcs := s.pcs[j := AddPost]);
      case AddPost => t := s.(count := s.count + 1, pcs := s.pcs[j := Idle]);
      case TakeWait(timed) => t := if timed then s.(pcs := s.pcs[j := Idle])
        else s.(count := s.count - 1, pcs := s.pcs[j := TakeTest]);
      case TakeTest => t := if s.queue == [] then s.(lost := s.lost + 1, pcs := s.pcs[j := Idle])
        else s.(pcs := s.pcs[j := TakeLock]);
      case TakeLock => t := s.(access := s.access - 1, pcs := s.pcs[j := TakeInside]);
      case TakeInside =>
        t := s.(queue := s.queue[1..], taken := s.taken + [s.queue[0]], pcs := s.pcs[j := TakeUnlock(s.queue[0])]);
      case TakeUnlock(_) => t := s.(access := s.access + 1, pcs := s.pcs[j := Idle]);
    }
  }
}
