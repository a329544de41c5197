// When a message of the ZCL foundation layer is answered (zcl.c): the rules of zcl_ProcessMessageMSG.
module ZclReplies {
  import opened Bits

  const READ := 0x00
  const READ_RSP := 0x01
  const WRITE := 0x02
  const WRITE_UNDIVIDED := 0x03
  const WRITE_RSP := 0x04
  const CONFIG_REPORT := 0x06
  const READ_REPORT_CFG := 0x08
  const DEFAULT_RSP := 0x0b
  const DISCOVER_ATTRS := 0x0c
  const DISCOVER_CMDS_RECEIVED := 0x11
  const DISCOVER_CMDS_GEN := 0x13
  const DISCOVER_ATTRS_EXT := 0x15
  const CMD_MAX := 0x16

  const SUCCESS := 0x00
  const FAILURE := 0x01
  const UNSUP_CLUSTER_COMMAND := 0x81
  const UNSUP_GENERAL_COMMAND := 0x82
  const UNSUP_MANU_CLUSTER_COMMAND := 0x83
  const UNSUP_MANU_GENERAL_COMMAND := 0x84
  const CMD_HAS_RSP := 0xFF

  const AF_EN_SECURITY := 0x40

  // A message: profile for a foundation command, manu for the manufacturer code of a manufacturer-specific one, quiet
  // when its frame control disables the default response, secure when it uses application link key security, interPan
  // when it comes from or goes to another network. The payload is given for default responses only.
  datatype Msg = Msg(profile: bool, manu: Option<nat>, direction: bool, quiet: bool, command: nat, cluster: nat,
                     unicast: bool, secure: bool, interPan: bool, payload: seq<nat>)

  datatype Option<T> = None | Some(value: T)

  datatype Result =
    | Invalid
    | EpNotFound
    | NotOperational
    | InterPanFoundation
    | NotSecure
    | Success
    | Manufacturer(answered: bool)
    | NotHandled(answered: bool)

  // What the stack and the application around the processing answer: whether the endpoint exists and is operational,
  // has a plugin for the cluster, and what its handler returns; whether a command can be parsed, its processor gets as
  // far as sending, and a message can be sent.
  datatype World = World(found: bool, operational: bool, plugin: bool, handler: Option<nat>, parsed: bool,
    processed: bool, sends: bool)

  // CMD_HAS_RSP: commands that are never answered with a default response
  predicate HasRsp(command: nat) {
    command == READ || command == WRITE || command == WRITE_UNDIVIDED || command == CONFIG_REPORT ||
      command == READ_REPORT_CFG ||
    command == DISCOVER_ATTRS || command == DISCOVER_CMDS_RECEIVED || command == DISCOVER_CMDS_GEN ||
      command == DISCOVER_ATTRS_EXT ||
    command == DEFAULT_RSP
  }

  // The commands with a parser in zclCmdTable: the structured reads and writes have none.
  predicate Parsable(command: nat) { command <= CMD_MAX && !(0x0e <= command <= 0x10) }

  // The response that the processor of a command sends; the other commands go to the application.
  function ResponseTo(command: nat): Option<nat> {
    if command == READ then Some(READ_RSP)
    else if command == WRITE || command == WRITE_UNDIVIDED then Some(WRITE_RSP)
    else if command == DISCOVER_ATTRS || command == DISCOVER_CMDS_RECEIVED || command == DISCOVER_CMDS_GEN ||
      command == DISCOVER_ATTRS_EXT
      then Some(command + 1)
    else None
  }

  // ---- the cluster options ----

  datatype OptionRec = OptionRec(cluster: nat, option: nat)

  predicate Secured(option: nat) { option / AF_EN_SECURITY % 2 == 1 }

  // option |= AF_EN_SECURITY and option &= AF_EN_SECURITY ^ 0xFF
  function WithSecurity(option: nat, enable: bool): nat {
    if Secured(option) == enable then option
    else if enable then option + AF_EN_SECURITY
    else option - AF_EN_SECURITY
  }

  // The place of the cluster's option record, or the number of records.
  function FindOption(options: seq<OptionRec>, cluster: nat): (k: nat)
    ensures k <= |options| && (k < |options| ==> options[k].cluster == cluster) && forall i :: 0 <= i < k ==>
      options[i].cluster != cluster
  { if options == [] || options[0].cluster == cluster then 0 else 1 + FindOption(options[1..], cluster) }

  // A change of an option leaves the records in their places.
  lemma OptionStays(options: seq<OptionRec>, k: nat, rec: OptionRec, cluster: nat)
    requires k < |options| && rec.cluster == options[k].cluster
    ensures FindOption(options[k := rec], cluster) == FindOption(options, cluster)
  {
    var i, j := FindOption(options, cluster), FindOption(options[k := rec], cluster);
    assert forall x :: 0 <= x < |options| ==> options[k := rec][x].cluster == options[x].cluster;
  }

  // The cluster is defined to use security.
  predicate ClusterSecured(options: seq<OptionRec>, cluster: nat) {
    var k := FindOption(options, cluster);
    k < |options| && Secured(options[k].option)
  }

  // ---- the rules ----

  // The header of a message that is sent is manufacturer-specific only if the code is not 0.
  function ManuHeader(code: nat): Option<nat> { if code != 0 then Some(code) else None }

  // The manufacturer code in a parsed header, 0 if there is none.
  function ManuCode(m: Msg): nat { if m.manu.Some? then m.manu.value else 0 }

  function DefaultRsp(m: Msg, status: nat, secure: bool): Msg {
    Msg(true, ManuHeader(ManuCode(m)), !m.direction, true, DEFAULT_RSP, m.cluster, true, secure, m.interPan,
        [m.command, status])
  }

  predicate IsDefaultRsp(m: Msg) { m.profile && m.manu.None? && m.command == DEFAULT_RSP }

  // The status that a message comes to when it has not been dealt with on the way.
  function FinalStatus(w: World, m: Msg): nat {
    if m.profile then
      if m.manu.Some? then UNSUP_MANU_GENERAL_COMMAND
      else if Parsable(m.command) then SUCCESS else UNSUP_GENERAL_COMMAND
    else
      var status := if w.plugin && w.handler.Some? then w.handler.value else FAILURE;
      if status != FAILURE then status else if m.manu.Some? then UNSUP_MANU_CLUSTER_COMMAND else UNSUP_CLUSTER_COMMAND
  }

  // A message to another network goes unsecured. Another one is secured if its cluster is defined to use security, or
  // if it answers a message that was.
  predicate SendsSecured(secured: bool, m: Msg) { !m.interPan && (secured || m.secure) }

  // What answers m at a node where its cluster is or is not defined to use security, and the result.
  function Answer(w: World, secured: bool, m: Msg): (Option<Msg>, Result)
  {
    if !w.found then (None, EpNotFound)
    else if !w.operational then (None, NotOperational)
    else if m.interPan && m.profile then (None, InterPanFoundation)
    else if w.plugin && !IsDefaultRsp(m) && !m.interPan && secured && !m.secure then
      (if m.unicast && w.sends then Some(DefaultRsp(m, FAILURE, false)) else None, NotSecure)
    else if m.profile && m.manu.None? && Parsable(m.command) && HasRsp(m.command) then
      var rsp := ResponseTo(m.command);
      (if w.parsed && w.processed && w.sends && rsp.Some?
       then Some(Msg(true, None, !m.direction, true, rsp.value, m.cluster, true, secured || m.secure, false, []))
       else None, Success)
    else if !m.profile && w.plugin &&
      (w.handler == Some(CMD_HAS_RSP) || (m.interPan && w.handler == Some(SUCCESS))) then
      (None, Success)
    else
      var status := FinalStatus(w, m);
      var answered := m.unicast && !m.quiet;
      (if answered && w.sends then Some(DefaultRsp(m, status, SendsSecured(secured, m))) else None,
       if status == SUCCESS then Success
       else if status == UNSUP_MANU_GENERAL_COMMAND then Manufacturer(answered)
       else NotHandled(answered))
  }

  // ---- what is answered, and with what ----

  // The cluster demands security, which the message does not have. A default response is exempt, and so is another
  // network.
  predicate Insecure(w: World, secured: bool, m: Msg) {
    w.plugin && secured && !m.secure && !m.interPan && !(m.profile && m.manu.None? && m.command == 0x0b)
  }

  // Requests of the foundation, by number: Read, Write, Write Undivided and the four discoveries; and what responds.
  predicate Request(m: Msg) {
    m.profile && m.manu.None? && !m.interPan &&
    (m.command == 0x00 || m.command == 0x02 || m.command == 0x03 || m.command == 0x0c || m.command == 0x11 ||
     m.command == 0x13 || m.command == 0x15)
  }

  function Responding(command: nat): nat {
    if command == 0x00 then 0x01 else if command == 0x02 || command == 0x03 then 0x04 else command + 1
  }

  // What is answered with a default response unless that is disabled, and with what status: manufacturer-specific and
  // unknown foundation commands, those that report or respond, and what the handler of a cluster does not call
  // answered.
  predicate Due(w: World, m: Msg, status: nat) {
    if m.profile then
      !m.interPan &&
      (if m.manu.Some? then status == 0x84
       else if m.command > 0x16 || 0x0e <= m.command <= 0x10 then status == 0x82
       else
         status == 0x00 &&
         (m.command == 0x01 || m.command == 0x04 || m.command == 0x05 || m.command == 0x07 || m.command == 0x09 ||
          m.command == 0x0a || m.command == 0x0d || m.command == 0x12 || m.command == 0x14 || m.command == 0x16))
    else if !w.plugin || w.handler.None? || w.handler.value == 0x01 then status == if m.manu.Some? then 0x83 else 0x81
    else w.handler.value != 0xFF && !(m.interPan && w.handler.value == 0x00) && status == w.handler.value
  }

  // The default response to m: to the same cluster, in the other direction, naming the command and the status.
  predicate RespondsBy(a: Msg, m: Msg, status: nat) {
    a.profile && a.command == 0x0b && a.cluster == m.cluster && a.direction == !m.direction && a.quiet && a.unicast &&
    a.interPan == m.interPan && a.payload == [m.command, status]
  }

  // Exactly when a message is answered: an insecure one and a due one to a single node by a default response, a request
  // by its response.
  lemma AnsweredExactly(w: World, secured: bool, m: Msg)
    ensures Answer(w, secured, m).0.Some? <==>
      w.found && w.operational && w.sends &&
      if Insecure(w, secured, m) && !(m.interPan && m.profile) then m.unicast
      else if Request(m) then w.parsed && w.processed
      else m.unicast && !m.quiet && exists status :: Due(w, m, status)
  {
    assert Due(w, m, FinalStatus(w, m)) || !exists status :: Due(w, m, status);
  }

  // With what: an insecure message is told FAILURE without security; the other answers are secured if the cluster or
  // the message is, except to another network.
  lemma AnsweredWith(w: World, secured: bool, m: Msg)
    requires Answer(w, secured, m).0.Some?
    ensures var a := Answer(w, secured, m).0.value;
      if Insecure(w, secured, m) then RespondsBy(a, m, 0x01) && !a.secure
      else
        a.secure == (!m.interPan && (secured || m.secure)) &&
        if Request(m) then
          a.profile && a.manu.None? && a.command == Responding(m.command) && a.cluster == m.cluster &&
          a.direction == !m.direction && a.quiet && !a.interPan
        else exists status :: Due(w, m, status) && RespondsBy(a, m, status)
  {
    if !Insecure(w, secured, m) && !Request(m) { assert Due(w, m, FinalStatus(w, m)); }
  }

  // The manufacturer code of the message, unless it is 0, is that of a default response.
  lemma AnsweredFor(w: World, secured: bool, m: Msg)
    requires Answer(w, secured, m).0.Some? && !Request(m)
    ensures Answer(w, secured, m).0.value.manu == if m.manu == Some(0) then None else m.manu
  {}

  // The result: whether the message was let in, dealt with, or answered by a default response for want of that.
  lemma ResultMeans(w: World, secured: bool, m: Msg)
    ensures var r := Answer(w, secured, m).1;
      if !w.found then r == EpNotFound
      else if !w.operational then r == NotOperational
      else if m.interPan && m.profile then r == InterPanFoundation
      else if Insecure(w, secured, m) then r == NotSecure
      else if exists status :: Due(w, m, status) then
        var status :| Due(w, m, status);
        r == if status == 0x00 then Success
             else if status == 0x84 then Manufacturer(m.unicast && !m.quiet) else NotHandled(m.unicast && !m.quiet)
      else r == Success
  {
    if exists status :: Due(w, m, status) {
      var status :| Due(w, m, status);
      assert status == FinalStatus(w, m);
    } else {
      assert !Due(w, m, FinalStatus(w, m));
    }
  }

  // Only the security bit of an option changes.
  lemma SecurityBit(option: nat, enable: bool)
    ensures var o := WithSecurity(option, enable);
      (And(o, 0x40) != 0 <==> enable) && o % 64 == option % 64 && o / 128 == option / 128
    ensures Secured(option) <==> And(option, 0x40) != 0
  {
    hide And;
    assert Pow2(3) == 8 && Pow2(6) == 64;
    AndBit(option, 6);
    AndBit(WithSecurity(option, enable), 6);
    OneBit(option, enable);
    hide WithSecurity;
  }

  lemma OneBit(option: nat, enable: bool)
    ensures var o := WithSecurity(option, enable);
      (o / 64 % 2 == 1 <==> enable) && o % 64 == option % 64 && o / 128 == option / 128
  {}

  // ---- no storm ----

  // A reply as it may arrive: which way it was carried is open.
  predicate Carried(r: Msg, m: Msg) {
    m.profile == r.profile && m.manu == r.manu && m.quiet == r.quiet && m.command == r.command &&
      m.cluster == r.cluster &&
    m.interPan == r.interPan
  }

  // Every reply disables the default response, and is itself answered only if it is no default response, comes
  // unsecured to a cluster with a plugin that demands security, and then with a default response.
  lemma RepliesAreQuiet(w: World, secured: bool, m: Msg, w1: World, secured1: bool, m1: Msg)
    requires m.manu.None? && Answer(w, secured, m).0.Some? && Carried(Answer(w, secured, m).0.value, m1)
    ensures m1.quiet && m1.profile && m1.manu.None?
    ensures Answer(w1, secured1, m1).0.Some? <==>
      w1.found && w1.operational && w1.plugin && secured1 && !m1.secure && m1.unicast && w1.sends && !m1.interPan &&
      m1.command != DEFAULT_RSP
    ensures Answer(w1, secured1, m1).0.Some? ==> Answer(w1, secured1, m1).0.value.command == DEFAULT_RSP
  {}

  // A default response that is not manufacturer-specific is never answered.
  lemma DefaultRspUnanswered(w: World, secured: bool, m: Msg)
    requires IsDefaultRsp(m)
    ensures Answer(w, secured, m).0 == None
  {}

  // The replies that a message sets off, as it and they are received at nodes of these kinds, in any number of hops.
  function Chain(m: Msg, hops: seq<(World, bool)>, arrivals: seq<(bool, bool)>): (n: nat)
    requires |hops| == |arrivals| + 1
    decreases |hops|
  {
    var a := Answer(hops[0].0, hops[0].1, m).0;
    if a.None? then 0
    else if arrivals == [] then 1
    else 1 + Chain(a.value.(unicast := arrivals[0].0, secure := arrivals[0].1), hops[1..], arrivals[1..])
  }

  // Neither a default response nor a foundation command from another network is answered.
  lemma EndsChain(m: Msg, hops: seq<(World, bool)>, arrivals: seq<(bool, bool)>)
    requires (IsDefaultRsp(m) || (m.profile && m.interPan)) && |hops| == |arrivals| + 1
    ensures Chain(m, hops, arrivals) == 0
  {
    if IsDefaultRsp(m) { DefaultRspUnanswered(hops[0].0, hops[0].1, m); }
  }

  // A reply is answered at most once more.
  lemma ReplyChain(m: Msg, hops: seq<(World, bool)>, arrivals: seq<(bool, bool)>)
    requires m.profile && m.manu.None? && m.quiet && |hops| == |arrivals| + 1
    requires m.command == DEFAULT_RSP || !HasRsp(m.command)
    ensures Chain(m, hops, arrivals) <= 1
  {
    var a := Answer(hops[0].0, hops[0].1, m).0;
    if a.Some? && arrivals != [] {
      EndsChain(a.value.(unicast := arrivals[0].0, secure := arrivals[0].1), hops[1..], arrivals[1..]);
    }
  }

  // No message that is not manufacturer-specific sets off more than two replies.
  lemma NoStorm(m: Msg, hops: seq<(World, bool)>, arrivals: seq<(bool, bool)>)
    requires m.manu.None? && |hops| == |arrivals| + 1
    ensures Chain(m, hops, arrivals) <= 2
  {
    var a := Answer(hops[0].0, hops[0].1, m).0;
    if a.Some? && arrivals != [] {
      ReplyChain(a.value.(unicast := arrivals[0].0, secure := arrivals[0].1), hops[1..], arrivals[1..]);
    }
  }

  // The messages for which the bound fails: manufacturer-specific ones to a single node of the same network, unless
  // they are secured and ask for no default response.
  predicate Stormy(m: Msg) { ManuCode(m) != 0 && !m.interPan && m.unicast && (!m.secure || !m.quiet) }

  // Nodes of this kind have a plugin for the cluster, and demand security.
  const DEMANDING := World(true, true, true, None, true, true, true)

  // Between two such nodes, over a link that carries replies unsecured, default responses to such a message are
  // answered with default responses as long as one likes.
  lemma {:induction false} ManufacturerStorm(m: Msg, hops: seq<(World, bool)>, arrivals: seq<(bool, bool)>)
    requires Stormy(m) && |hops| == |arrivals| + 1
    requires (forall i :: 0 <= i < |hops| ==> hops[i] == (DEMANDING, true)) && forall i :: 0 <= i < |arrivals| ==>
      arrivals[i] == (true, false)
    ensures Chain(m, hops, arrivals) == |hops|
    decreases |hops|
  {
    if arrivals != [] {
      var a := Answer(hops[0].0, hops[0].1, m).0;
      ManufacturerStorm(a.value.(unicast := arrivals[0].0, secure := arrivals[0].1), hops[1..], arrivals[1..]);
    }
  }

  // Other messages set off no more than two, so the bound holds for exactly those.
  lemma NoStormExact(m: Msg)
    ensures (forall hops: seq<(World, bool)>, arrivals: seq<(bool, bool)> ::
              |hops| == |arrivals| + 1 ==> Chain(m, hops, arrivals) <= 2) <==> !Stormy(m)
  {
    if Stormy(m) {
      var hops, arrivals := seq(3, i => (DEMANDING, true)), seq(2, i => (true, false));
      ManufacturerStorm(m, hops, arrivals);
    } else {
      forall hops: seq<(World, bool)>, arrivals: seq<(bool, bool)> | |hops| == |arrivals| + 1
        ensures Chain(m, hops, arrivals) <= 2
      {
        Calm(m, hops, arrivals);
      }
    }
  }

  // Of the other manufacturer-specific messages, a broadcast is not answered, and neither is one that is secured and
  // asks for no default response; the answer to another network ends the chain there, and so does that to the
  // manufacturer code 0, which is no longer manufacturer-specific.
  lemma Calm(m: Msg, hops: seq<(World, bool)>, arrivals: seq<(bool, bool)>)
    requires !Stormy(m) && |hops| == |arrivals| + 1
    ensures Chain(m, hops, arrivals) <= 2
  {
    if m.manu.None? {
      NoStorm(m, hops, arrivals);
    } else {
      var a := Answer(hops[0].0, hops[0].1, m).0;
      if a.Some? && arrivals != [] {
        EndsChain(a.value.(unicast := arrivals[0].0, secure := arrivals[0].1), hops[1..], arrivals[1..]);
      }
    }
  }

  // ---- the processing ----

  class Endpoint {
    const options: array<OptionRec>
    var rawAfMsg: Option<Msg>
    var sent: seq<Msg>

    constructor (options: array<OptionRec>)
      ensures this.options == options && rawAfMsg == None && sent == []
    {
      this.options, rawAfMsg, sent := options, None, [];
    }

    method FindClusterOption(cluster: nat) returns (k: nat)
      ensures k == FindOption(options[..], cluster)
    {
      k := 0;
      while k < options.Length
        invariant k <= options.Length && forall i :: 0 <= i < k ==> options[i].cluster != cluster
      {
        if options[k].cluster == cluster { return; }
        k := k + 1;
      }
    }

    method GetClusterOption(cluster: nat) returns (option: nat)
      ensures Secured(option) <==> ClusterSecured(options[..], cluster)
    {
      var k := FindClusterOption(cluster);
      option := if k < options.Length then options[k].option else 0;
    }

    // zclSetSecurityOption
    method SetSecurityOption(cluster: nat, enable: bool)
      modifies options
      ensures var k := FindOption(old(options[..]), cluster);
        options[..] == if k < options.Length then old(options[..])[k := OptionRec(cluster,
          WithSecurity(old(options[k].option), enable))]
                       else old(options[..])
    {
      var k := FindClusterOption(cluster);
      if k < options.Length {
        options[k] := OptionRec(cluster, WithSecurity(options[k].option, enable));
      }
    }

    // zcl_SendCommand of a foundation command: within the network it goes secured if the cluster is, or the message
    // that it answers was.
    method SendCommand(w: World, cluster: nat, command: nat, direction: bool, quiet: bool, manuCode: nat,
                       interPan: bool, payload: seq<nat>)
      modifies this`sent
      ensures var secure := !interPan &&
        (ClusterSecured(options[..], cluster) || (rawAfMsg.Some? && rawAfMsg.value.secure));
        sent == old(sent) + if w.sends
                            then [Msg(true, ManuHeader(manuCode), direction, quiet, command, cluster, true, secure,
                              interPan, payload)]
                            else []
    {
      var secure := false;
      if !interPan {
        var option := GetClusterOption(cluster);
        secure := Secured(option) || (rawAfMsg.Some? && rawAfMsg.value.secure);
      }
      if w.sends {
        sent := sent + [Msg(true, ManuHeader(manuCode), direction, quiet, command, cluster, true, secure, interPan,
          payload)];
      }
    }

    // The answer to an unsecured message for a secured cluster goes out with the cluster's security turned off.
    method RejectUnsecured(w: World, m: Msg)
      requires rawAfMsg == Some(m) && ClusterSecured(options[..], m.cluster) && !m.secure && !m.interPan
      modifies this`sent, options
      ensures options[..] == old(options[..])
      ensures sent == old(sent) + if m.unicast && w.sends then [DefaultRsp(m, FAILURE, false)] else []
    {
      if m.unicast {
        ghost var before := options[..];
        var k := FindClusterOption(m.cluster);
        SetSecurityOption(m.cluster, false);
        OptionStays(before, k, options[k], m.cluster);
        SendCommand(w, m.cluster, DEFAULT_RSP, !m.direction, true, ManuCode(m), m.interPan, [m.command, FAILURE]);
        SetSecurityOption(m.cluster, true);
        assert options[..] == before;
      }
    }

    // zcl_ProcessMessageMSG of a packet, which is ignored if it is empty: afterwards no message is kept and the options
    // are as before
    method ProcessMessage(w: World, packet: Option<Msg>) returns (result: Result)
      modifies this, options
      ensures options[..] == old(options[..])
      ensures packet.None? ==> result == Invalid && sent == old(sent) && rawAfMsg == old(rawAfMsg)
      ensures packet.Some? ==> rawAfMsg == None
      ensures packet.Some? ==>
        var (answer, r) := Answer(w, ClusterSecured(old(options[..]), packet.value.cluster), packet.value);
        result == r && sent == old(sent) + if answer.Some? then [answer.value] else []
    {
      if packet.None? { return Invalid; }
      rawAfMsg := packet;
      result := Dispatch(w, packet.value);
      rawAfMsg := None;
    }

    method Dispatch(w: World, m: Msg) returns (result: Result)
      requires rawAfMsg == Some(m)
      modifies this`sent, options
      ensures options[..] == old(options[..])
      ensures var (answer, r) := Answer(w, ClusterSecured(old(options[..]), m.cluster), m);
        result == r && sent == old(sent) + if answer.Some? then [answer.value] else []
    {
      if !w.found { return EpNotFound; }
      if !w.operational { return NotOperational; }
      if m.interPan {
        if m.profile { return InterPanFoundation; }
      } else {
        var option := GetClusterOption(m.cluster);
        if w.plugin && !IsDefaultRsp(m) && Secured(option) && !m.secure {
          RejectUnsecured(w, m);
          return NotSecure;
        }
      }
      result := DispatchAccepted(w, m);
    }

    // The part after the security options have been compared.
    method DispatchAccepted(w: World, m: Msg) returns (result: Result)
      requires rawAfMsg == Some(m) && w.found && w.operational && !(m.interPan && m.profile)
      requires !(w.plugin && !IsDefaultRsp(m) && !m.interPan && ClusterSecured(options[..], m.cluster) && !m.secure)
      modifies this`sent
      ensures var (answer, r) := Answer(w, ClusterSecured(options[..], m.cluster), m);
        result == r && sent == old(sent) + if answer.Some? then [answer.value] else []
    {
      var status := FAILURE;
      if m.profile {
        if m.manu.Some? {
          status := UNSUP_MANU_GENERAL_COMMAND;
        } else if Parsable(m.command) {
          var rsp := ResponseTo(m.command);
          if w.parsed && w.processed && rsp.Some? {
            SendCommand(w, m.cluster, rsp.value, !m.direction, true, 0, false, []);
          }
          if HasRsp(m.command) { return Success; }
          status := SUCCESS;
        } else {
          status := UNSUP_GENERAL_COMMAND;
        }
      } else {
        if w.plugin && w.handler.Some? {
          status := w.handler.value;
          if status == CMD_HAS_RSP || (m.interPan && status == SUCCESS) { return Success; }
        }
        if status == FAILURE { status := if m.manu.Some? then UNSUP_MANU_CLUSTER_COMMAND else UNSUP_CLUSTER_COMMAND; }
      }
      var answered := m.unicast && !m.quiet;
      if answered {
        SendCommand(w, m.cluster, DEFAULT_RSP, !m.direction, true, ManuCode(m), m.interPan, [m.command, status]);
      }
      result := if status == SUCCESS then Success
                else if status == UNSUP_MANU_GENERAL_COMMAND then Manufacturer(answered)
                else NotHandled(answered);
    }
  }
}
