// Discover Attributes of the ZCL foundation layer (zcl.c): a client pages through the attributes of a cluster.
module ZclDiscovery {
  import opened Bits

  datatype AttrRec = AttrRec(clusterId: nat, id: nat, dataType: nat, access: nat)

  const ACCESS_CLIENT := 0x80

  // The attribute belongs to the cluster, and to the side that the direction asks for: access & ACCESS_CLIENT.
  predicate Asked(a: AttrRec, cluster: nat, direction: nat) {
    a.clusterId == cluster && (if a.access / ACCESS_CLIENT % 2 == 1 then 1 else 0) == direction
  }

  // What there is to discover: the records asked for with an id of at least from, in list order.
  function Matching(attrs: seq<AttrRec>, cluster: nat, direction: nat, from: nat): seq<AttrRec> {
    if attrs == [] then []
    else (if Asked(attrs[0], cluster, direction) && attrs[0].id >= from then [attrs[0]] else []) +
         Matching(attrs[1..], cluster, direction, from)
  }

  // The ids asked for are in ascending order, as the registration of a list demands of each cluster.
  predicate Ascending(attrs: seq<AttrRec>, cluster: nat, direction: nat) {
    forall i, j ::
      0 <= i < j < |attrs| && Asked(attrs[i], cluster, direction) && Asked(attrs[j], cluster, direction) ==>
        attrs[i].id < attrs[j].id
  }

  // The ids are 16-bit numbers.
  predicate Ids(attrs: seq<AttrRec>) { forall i :: 0 <= i < |attrs| ==> attrs[i].id <= 0xFFFF }

  datatype Found = None | Some(rec: AttrRec)

  // The first record in the list that is asked for and has an id of at least from.
  function Next(attrs: seq<AttrRec>, cluster: nat, direction: nat, from: nat): (f: Found)
    ensures f.Some? ==> f.rec in attrs && Asked(f.rec, cluster, direction) && f.rec.id >= from
  {
    if attrs == [] then None
    else if Asked(attrs[0], cluster, direction) && attrs[0].id >= from then Some(attrs[0])
    else Next(attrs[1..], cluster, direction, from)
  }

  // zclFindNextAttrRec
  method FindNextAttrRec(attrs: seq<AttrRec>, cluster: nat, direction: nat, attrId: nat) returns (f: Found)
    ensures f == Next(attrs, cluster, direction, attrId)
  {
    var x := 0;
    while x < |attrs|
      invariant x <= |attrs| && Next(attrs, cluster, direction, attrId) == Next(attrs[x..], cluster, direction, attrId)
    {
      if attrs[x].clusterId == cluster && attrs[x].id >= attrId {
        var attrDir := if attrs[x].access / ACCESS_CLIENT % 2 == 1 then 1 else 0;
        if attrDir == direction { return Some(attrs[x]); }
      }
      x := x + 1;
    }
    return None;
  }

  // A 16-bit increment.
  function Successor(id: nat): nat { (id + 1) % 65536 }

  // At most n records, each the next one from the id after the one before; and the id to go on from.
  function Collect(attrs: seq<AttrRec>, cluster: nat, direction: nat, from: nat, n: nat): (seq<AttrRec>, nat)
    decreases n
  {
    var f := Next(attrs, cluster, direction, from);
    if n == 0 || f.None? then ([], from)
    else
      var r := Collect(attrs, cluster, direction, Successor(f.rec.id), n - 1);
      ([f.rec] + r.0, r.1)
  }

  datatype Response = Response(discComplete: bool, attrList: seq<AttrRec>)

  function Discovery(attrs: seq<AttrRec>, cluster: nat, direction: nat, startAttr: nat, maxAttrIds: nat): Response {
    var c := Collect(attrs, cluster, direction, startAttr, maxAttrIds);
    Response(c.0 == [] || Next(attrs, cluster, direction, c.1).None?, c.0)
  }

  // The loop of zclProcessInDiscAttrs and that of zclProcessInDiscAttrsCmd; the first keeps only the count.
  method CollectAttrs(attrs: seq<AttrRec>, cluster: nat, direction: nat, startAttr: nat, max: nat)
    returns (list: seq<AttrRec>, attrId: nat)
    ensures (list, attrId) == Collect(attrs, cluster, direction, startAttr, max)
  {
    list, attrId := [], startAttr;
    ghost var all := Collect(attrs, cluster, direction, startAttr, max);
    assert [] + all.0 == all.0;
    var i := 0;
    while i < max
      invariant i <= max
      invariant var r := Collect(attrs, cluster, direction, attrId, max - i);
        all == (list + r.0, r.1)
    {
      var f := FindNextAttrRec(attrs, cluster, direction, attrId);
      if f.None? {
        assert list + [] == list;
        return;
      }
      ghost var rest := Collect(attrs, cluster, direction, Successor(f.rec.id), max - i - 1).0;
      assert list + ([f.rec] + rest) == (list + [f.rec]) + rest;
      list := list + [f.rec];
      attrId := Successor(f.rec.id);
      i := i + 1;
    }
    assert list + [] == list;
  }

  // zclProcessInDiscAttrs with zclProcessInDiscAttrsCmd: one pass counts, another collects
  method ProcessInDiscAttrs(attrs: seq<AttrRec>, cluster: nat, direction: nat, startAttr: nat, maxAttrIds: nat)
    returns (rsp: Response)
    ensures rsp == Discovery(attrs, cluster, direction, startAttr, maxAttrIds)
  {
    var counted, _ := CollectAttrs(attrs, cluster, direction, startAttr, maxAttrIds);
    var numAttrs := |counted|;
    CollectFewer(attrs, cluster, direction, startAttr, maxAttrIds);
    var discComplete := true;
    var list: seq<AttrRec> := [];
    if numAttrs != 0 {
      var attrId;
      list, attrId := CollectAttrs(attrs, cluster, direction, startAttr, numAttrs);
      var more := FindNextAttrRec(attrs, cluster, direction, attrId);
      if more.Some? { discComplete := false; }
    }
    rsp := Response(discComplete, list);
  }

  // Asking for as many as there were gives the same.
  lemma {:induction false} CollectFewer(attrs: seq<AttrRec>, cluster: nat, direction: nat, from: nat, n: nat)
    ensures var c := Collect(attrs, cluster, direction, from, n);
      |c.0| <= n && Collect(attrs, cluster, direction, from, |c.0|) == c
    decreases n
  {
    var f := Next(attrs, cluster, direction, from);
    if n > 0 && f.Some? { CollectFewer(attrs, cluster, direction, Successor(f.rec.id), n - 1); }
  }

  // ---- one response ----

  lemma {:induction false} MatchingLater(attrs: seq<AttrRec>, cluster: nat, direction: nat, from: nat, later: nat)
    requires from <= later && forall i :: 0 <= i < |attrs| && Asked(attrs[i], cluster, direction) ==>
      attrs[i].id >= later
    ensures Matching(attrs, cluster, direction, from) == Matching(attrs, cluster, direction, later)
  {
    if attrs != [] {
      assert forall i :: 0 <= i < |attrs[1..]| ==> attrs[1..][i] == attrs[i + 1];
      MatchingLater(attrs[1..], cluster, direction, from, later);
    }
  }

  // The next record is the head of what there is to discover, and the rest lies after its id.
  lemma {:induction false} NextIsHead(attrs: seq<AttrRec>, cluster: nat, direction: nat, from: nat)
    requires Ascending(attrs, cluster, direction)
    ensures var f := Next(attrs, cluster, direction, from);
      Matching(attrs, cluster, direction, from) ==
        if f.None? then [] else [f.rec] + Matching(attrs, cluster, direction, f.rec.id + 1)
  {
    if attrs != [] {
      Rest(attrs, cluster, direction);
      var f := Next(attrs, cluster, direction, from);
      if Asked(attrs[0], cluster, direction) && attrs[0].id >= from {
        MatchingLater(attrs[1..], cluster, direction, from, attrs[0].id + 1);
      } else {
        NextIsHead(attrs[1..], cluster, direction, from);
        if f.Some? {
          var on := f.rec.id + 1;
          assert Matching(attrs, cluster, direction, on) == Matching(attrs[1..], cluster, direction, on);
        }
      }
    }
  }

  // In an ascending list the later records asked for have larger ids than the first.
  lemma Rest(attrs: seq<AttrRec>, cluster: nat, direction: nat)
    requires Ascending(attrs, cluster, direction) && attrs != []
    ensures Ascending(attrs[1..], cluster, direction)
    ensures Asked(attrs[0], cluster, direction) ==>
      forall a :: a in attrs[1..] && Asked(a, cluster, direction) ==> a.id > attrs[0].id
  {
    assert forall i :: 0 <= i < |attrs[1..]| ==> attrs[1..][i] == attrs[i + 1];
  }

  // At most n records are collected, none of which has the id 0xFFFF.
  predicate Short(m: seq<AttrRec>, n: nat) { n < |m| || m == [] || m[|m| - 1].id < 0xFFFF }

  // A page of at most n records: the first of m, with the others left, and the id after its last one to go on from.
  predicate IsPage(m: seq<AttrRec>, n: nat, from: nat, list: seq<AttrRec>, on: nat, rest: seq<AttrRec>) {
    list == Prefix(m, n) && rest == m[|list|..] && on == if list == [] then from else list[|list| - 1].id + 1
  }

  lemma EmptyPage(m: seq<AttrRec>, n: nat, from: nat)
    requires n == 0 || m == []
    ensures IsPage(m, n, from, [], from, m)
  {}

  lemma {:induction false} CollectsPrefix(attrs: seq<AttrRec>, cluster: nat, direction: nat, from: nat, n: nat)
    requires Ascending(attrs, cluster, direction) && Ids(attrs) && Short(Matching(attrs, cluster, direction, from), n)
    ensures var (list, on) := Collect(attrs, cluster, direction, from, n);
      IsPage(Matching(attrs, cluster, direction, from), n, from, list, on, Matching(attrs, cluster, direction, on))
    decreases n
  {
    hide Ascending, Ids, Matching, Next, Short, IsPage, Successor, Asked;
    NextIsHead(attrs, cluster, direction, from);
    var m := Matching(attrs, cluster, direction, from);
    var f := Next(attrs, cluster, direction, from);
    if n == 0 || f.None? {
      EmptyPage(m, n, from);
    } else {
      BelowReserved(attrs, cluster, direction, from, n);
      var id := f.rec.id + 1;
      CollectsPrefix(attrs, cluster, direction, id, n - 1);
      var (list, on) := Collect(attrs, cluster, direction, id, n - 1);
      Longer(f.rec, Matching(attrs, cluster, direction, id), n - 1, list, on, Matching(attrs, cluster, direction, on),
        from);
    }
  }

  // Then neither the next record nor the rest of the page reaches that id.
  lemma BelowReserved(attrs: seq<AttrRec>, cluster: nat, direction: nat, from: nat, n: nat)
    requires Ascending(attrs, cluster, direction) && Ids(attrs) && n > 0
    requires Next(attrs, cluster, direction, from).Some? && Short(Matching(attrs, cluster, direction, from), n)
    ensures var id := Next(attrs, cluster, direction, from).rec.id;
      Successor(id) == id + 1 && Short(Matching(attrs, cluster, direction, id + 1), n - 1)
  {
    hide Ascending, Ids, Matching, Next, Short, Asked, ById;
    var rec := Next(attrs, cluster, direction, from).rec;
    NextIsHead(attrs, cluster, direction, from);
    MatchingIsExact(attrs, cluster, direction, from);
    ShortRest(rec, Matching(attrs, cluster, direction, rec.id + 1), n, attrs);
  }

  lemma ShortRest(a: AttrRec, m: seq<AttrRec>, n: nat, attrs: seq<AttrRec>)
    requires n > 0 && Short([a] + m, n) && Ids(attrs)
    requires forall x :: x in [a] + m ==> x in attrs
    requires ById([a] + m)
    ensures a.id < 0xFFFF && Short(m, n - 1)
  {
    var all := [a] + m;
    assert all[0] == a && all[|all| - 1] in all;
  }

  // What the recursive call found, with the next record in front.
  lemma Longer(a: AttrRec, m: seq<AttrRec>, n: nat, list: seq<AttrRec>, on: nat, rest: seq<AttrRec>, from: nat)
    requires IsPage(m, n, a.id + 1, list, on, rest)
    ensures IsPage([a] + m, n + 1, from, [a] + list, on, rest)
  {}

  function Prefix<T>(m: seq<T>, n: nat): (p: seq<T>)
    ensures |p| <= |m|
  { if n < |m| then m[..n] else m }

  // A response is right if it lists the first so many of the records to discover, and says that this is all exactly
  // when it is. A page that comes to an id of 0xFFFF is the only one that is not: the search goes on from 0.
  lemma OnePage(attrs: seq<AttrRec>, cluster: nat, direction: nat, startAttr: nat, maxAttrIds: nat)
    requires Ascending(attrs, cluster, direction) && Ids(attrs) && startAttr <= 0xFFFF && maxAttrIds >= 1
    ensures var m := Matching(attrs, cluster, direction, startAttr);
      Discovery(attrs, cluster, direction, startAttr, maxAttrIds) == Response(|m| <= maxAttrIds,
        Prefix(m, maxAttrIds)) <==>
      Short(m, maxAttrIds)
  {
    var m := Matching(attrs, cluster, direction, startAttr);
    if Short(m, maxAttrIds) {
      CollectsPrefix(attrs, cluster, direction, startAttr, maxAttrIds);
      NextIsHead(attrs, cluster, direction, Collect(attrs, cluster, direction, startAttr, maxAttrIds).1);
    } else {
      MatchingIsExact(attrs, cluster, direction, startAttr);
      assert m[|m| - 1] in attrs;
      NeverComplete(attrs, cluster, direction, startAttr, maxAttrIds, m[|m| - 1]);
    }
  }

  // A request for no records is told that there are none.
  lemma NoneAsked(attrs: seq<AttrRec>, cluster: nat, direction: nat, startAttr: nat)
    ensures Discovery(attrs, cluster, direction, startAttr, 0) == Response(true, [])
  {}

  // ---- all responses ----

  // No record asked for has the reserved id.
  predicate Unreserved(attrs: seq<AttrRec>, cluster: nat, direction: nat) {
    forall a :: a in attrs && Asked(a, cluster, direction) ==> a.id < 0xFFFF
  }

  // Then every response is right, and what is left lies behind the id of its last record.
  lemma PageOf(attrs: seq<AttrRec>, cluster: nat, direction: nat, startAttr: nat, maxAttrIds: nat)
    requires Ascending(attrs, cluster, direction) && Ids(attrs) && Unreserved(attrs, cluster, direction)
    requires startAttr <= 0xFFFF && maxAttrIds >= 1
    ensures var m := Matching(attrs, cluster, direction, startAttr);
      var rsp := Discovery(attrs, cluster, direction, startAttr, maxAttrIds);
      rsp == Response(|m| <= maxAttrIds, Prefix(m, maxAttrIds)) &&
      (|m| > maxAttrIds ==>
        m[maxAttrIds - 1].id < 0xFFFF &&
          Matching(attrs, cluster, direction, m[maxAttrIds - 1].id + 1) == m[maxAttrIds..])
  {
    BelowAll(attrs, cluster, direction, startAttr);
    OnePage(attrs, cluster, direction, startAttr, maxAttrIds);
    CollectsPrefix(attrs, cluster, direction, startAttr, maxAttrIds);
  }

  lemma BelowAll(attrs: seq<AttrRec>, cluster: nat, direction: nat, from: nat)
    requires Ascending(attrs, cluster, direction) && Unreserved(attrs, cluster, direction)
    ensures var m := Matching(attrs, cluster, direction, from); forall i :: 0 <= i < |m| ==> m[i].id < 0xFFFF
  {
    MatchingIsExact(attrs, cluster, direction, from);
    var m := Matching(attrs, cluster, direction, from);
    forall i | 0 <= i < |m| ensures m[i].id < 0xFFFF { assert m[i] in m; }
  }

  // A client that asks again from the id after the last one, until it is told that there is no more.
  function Pages(attrs: seq<AttrRec>, cluster: nat, direction: nat, startAttr: nat,
                 maxAttrIds: nat): (all: seq<AttrRec>)
    requires Ascending(attrs, cluster, direction) && Ids(attrs) && Unreserved(attrs, cluster, direction)
    requires startAttr <= 0xFFFF && maxAttrIds >= 1
    ensures all == Matching(attrs, cluster, direction, startAttr)
    decreases |Matching(attrs, cluster, direction, startAttr)|
  {
    PageOf(attrs, cluster, direction, startAttr, maxAttrIds);
    var rsp := Discovery(attrs, cluster, direction, startAttr, maxAttrIds);
    if rsp.discComplete then rsp.attrList
    else rsp.attrList + Pages(attrs, cluster, direction, rsp.attrList[|rsp.attrList| - 1].id + 1, maxAttrIds)
  }

  // With a record of that id the client is never told so, wherever it starts: every response is full, and there is
  // more.
  lemma NeverComplete(attrs: seq<AttrRec>, cluster: nat, direction: nat, startAttr: nat, maxAttrIds: nat, a: AttrRec)
    requires a in attrs && Asked(a, cluster, direction) && a.id == 0xFFFF && startAttr <= 0xFFFF && maxAttrIds >= 1
    ensures var rsp := Discovery(attrs, cluster, direction, startAttr, maxAttrIds);
      !rsp.discComplete && |rsp.attrList| == maxAttrIds
  {
    CollectsAll(attrs, cluster, direction, startAttr, maxAttrIds, a);
    AlwaysNext(attrs, cluster, direction, Collect(attrs, cluster, direction, startAttr, maxAttrIds).1, a);
  }

  lemma {:induction false} CollectsAll(attrs: seq<AttrRec>, cluster: nat, direction: nat, from: nat, n: nat, a: AttrRec)
    requires a in attrs && Asked(a, cluster, direction) && a.id == 0xFFFF && from <= 0xFFFF
    ensures var c := Collect(attrs, cluster, direction, from, n); |c.0| == n && c.1 <= 0xFFFF
    decreases n
  {
    AlwaysNext(attrs, cluster, direction, from, a);
    if n > 0 { CollectsAll(attrs, cluster, direction, Successor(Next(attrs, cluster, direction, from).rec.id), n - 1,
      a); }
  }

  lemma {:induction false} AlwaysNext(attrs: seq<AttrRec>, cluster: nat, direction: nat, from: nat, a: AttrRec)
    requires a in attrs && Asked(a, cluster, direction) && a.id >= from
    ensures Next(attrs, cluster, direction, from).Some?
  {
    if a != attrs[0] {
      assert attrs == [attrs[0]] + attrs[1..];
      AlwaysNext(attrs[1..], cluster, direction, from, a);
    }
  }

  lemma {:induction false} MatchingMembers(attrs: seq<AttrRec>, cluster: nat, direction: nat, from: nat, a: AttrRec)
    ensures a in Matching(attrs, cluster, direction, from) <==>
      a in attrs && Asked(a, cluster, direction) && a.id >= from
  {
    if attrs != [] {
      MatchingMembers(attrs[1..], cluster, direction, from, a);
      assert attrs == [attrs[0]] + attrs[1..];
      hide Asked;
    }
  }

  predicate ById(m: seq<AttrRec>) { forall i, j :: 0 <= i < j < |m| ==> m[i].id < m[j].id }

  // What there is to discover from id 0 is each record of the cluster and direction once, by ascending id.
  lemma {:induction false} MatchingIsExact(attrs: seq<AttrRec>, cluster: nat, direction: nat, from: nat)
    requires Ascending(attrs, cluster, direction)
    ensures var m := Matching(attrs, cluster, direction, from);
      (forall a :: a in m <==> a in attrs && Asked(a, cluster, direction) && a.id >= from) && ById(m)
    ensures forall a :: Asked(a, cluster, direction) <==>
      a.clusterId == cluster && direction == if And(a.access, 0x80) != 0 then 1 else 0
  {
    forall a: AttrRec ensures And(a.access, 0x80) != 0 <==> a.access / ACCESS_CLIENT % 2 == 1 {
      AndBit(a.access, 7);
      assert Pow2(4) == 16 && Pow2(7) == 128;
    }
    hide And;
    forall a
      ensures a in Matching(attrs, cluster, direction, from) <==>
        a in attrs && Asked(a, cluster, direction) && a.id >= from
    {
      MatchingMembers(attrs, cluster, direction, from, a);
    }
    MatchingAscends(attrs, cluster, direction, from);
  }

  lemma {:induction false} MatchingAscends(attrs: seq<AttrRec>, cluster: nat, direction: nat, from: nat)
    requires Ascending(attrs, cluster, direction)
    ensures ById(Matching(attrs, cluster, direction, from))
  {
    if attrs != [] {
      Rest(attrs, cluster, direction);
      MatchingAscends(attrs[1..], cluster, direction, from);
      var all, m := Matching(attrs, cluster, direction, from), Matching(attrs[1..], cluster, direction, from);
      if Asked(attrs[0], cluster, direction) && attrs[0].id >= from {
        forall i, j | 0 <= i < j < |all| ensures all[i].id < all[j].id {
          assert all[j] == m[j - 1] && m[j - 1] in m && (i > 0 ==> all[i] == m[i - 1]);
          MatchingMembers(attrs[1..], cluster, direction, from, m[j - 1]);
        }
      } else {
        assert all == m;
      }
    }
  }
}
