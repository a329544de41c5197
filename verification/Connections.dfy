// The connections of the gateway and their fd index (connection.c).
module Connections {
  import opened Bits
  import opened RbTree
  import opened IntrusiveList

  const CONNFREE := 0
  const CONNSOCKETCLIENT := 2
  const CONNSOCKETSERVER := 3

  class Connection {
    var fd: int
    var kind: int
    var timestamp: int
    const node: RbNode
    const list: ListHead

    // connection_create
    constructor (now: int)
      ensures fresh(node) && fresh(list) && node.entry == this && list.entry == this
      ensures list.next == list && list.prev == list
      ensures fd == 0 && kind == CONNFREE && timestamp == now
    {
      fd, kind, timestamp := 0, CONNFREE, now;
      node := new RbNode();
      list := new ListHead();
      new;
      node.entry := this;
      list.entry := this;
    }
  }

  ghost function Lists(cs: seq<Connection>): (r: seq<ListHead>)
    ensures |r| == |cs| && forall i :: 0 <= i < |cs| ==> r[i] == cs[i].list
  { seq(|cs|, i requires 0 <= i < |cs| => cs[i].list) }

  lemma ListsCut(cs: seq<Connection>, k: nat)
    requires k < |cs|
    ensures Lists(cs[..k] + cs[k + 1..]) == Lists(cs)[..k] + Lists(cs)[k + 1..]
  {}

  // The connections of cs outside `dead`, in order; and those in it.
  ghost function Without(cs: seq<Connection>, dead: set<Connection>): seq<Connection> {
    if cs == [] then [] else (if cs[0] in dead then [] else [cs[0]]) + Without(cs[1..], dead)
  }

  ghost function Only(cs: seq<Connection>, dead: set<Connection>): seq<Connection> {
    if cs == [] then [] else (if cs[0] in dead then [cs[0]] else []) + Only(cs[1..], dead)
  }

  // What a sweep that stands at element j will leave on the list, and what it will have put behind ss.
  ghost function Kept(cs: seq<Connection>, j: nat, dead: set<Connection>): seq<Connection>
    requires j <= |cs|
  { cs[..j] + Without(cs[j..], dead) }

  ghost function Freed(ss: seq<Connection>, cs: seq<Connection>, j: nat, dead: set<Connection>): seq<Connection>
    requires j <= |cs|
  { ss + Only(cs[j..], dead) }

  lemma SweepDrop(cs: seq<Connection>, ss: seq<Connection>, j: nat, dead: set<Connection>)
    requires j < |cs| && cs[j] in dead
    ensures Kept(cs[..j] + cs[j + 1..], j, dead) == Kept(cs, j, dead)
    ensures Freed(ss + [cs[j]], cs[..j] + cs[j + 1..], j, dead) == Freed(ss, cs, j, dead)
  {
    assert (cs[..j] + cs[j + 1..])[j..] == cs[j..][1..];
    assert (cs[..j] + cs[j + 1..])[..j] == cs[..j];
  }

  lemma SweepKeep(cs: seq<Connection>, ss: seq<Connection>, j: nat, dead: set<Connection>)
    requires j < |cs| && cs[j] !in dead
    ensures Kept(cs, j + 1, dead) == Kept(cs, j, dead)
    ensures Freed(ss, cs, j + 1, dead) == Freed(ss, cs, j, dead)
  {
    assert cs[j + 1..] == cs[j..][1..];
    assert cs[..j + 1] == cs[..j] + [cs[j]];
  }

  lemma SweepEnds(cs: seq<Connection>, ss: seq<Connection>, dead: set<Connection>)
    ensures Kept(cs, 0, dead) == Without(cs, dead) && Freed(ss, cs, 0, dead) == ss + Only(cs, dead)
    ensures Kept(cs, |cs|, dead) == cs && Freed(ss, cs, |cs|, dead) == ss
  {
    assert cs[0..] == cs;
  }

  // A sweep loses nothing and doubles nothing: each connection is kept or put on the free list.
  lemma {:induction false} SweepPartitions(cs: seq<Connection>, dead: set<Connection>)
    ensures multiset(Without(cs, dead)) + multiset(Only(cs, dead)) == multiset(cs)
    ensures forall c :: c in Without(cs, dead) <==> c in cs && c !in dead
    ensures forall c :: c in Only(cs, dead) <==> c in cs && c in dead
  {
    if cs != [] {
      SweepPartitions(cs[1..], dead);
      assert cs == [cs[0]] + cs[1..];
    }
  }

  // Two lists without repetition and a set, with nothing in common.
  ghost predicate Separate(cs: seq<Connection>, ss: seq<Connection>, h: set<Connection>) {
    (forall i, j :: 0 <= i < j < |cs| ==> cs[i] != cs[j]) && (forall i, j :: 0 <= i < j < |ss| ==> ss[i] != ss[j]) &&
    (forall c :: c in cs ==> c !in ss && c !in h) && (forall c :: c in ss ==> c !in h)
  }

  lemma SeparateCut(cs: seq<Connection>, ss: seq<Connection>, h: set<Connection>, k: nat)
    requires Separate(cs, ss, h) && k < |cs|
    ensures Separate(cs[..k] + cs[k + 1..], ss, h + {cs[k]})
  {}

  lemma CutExactly(cs: seq<Connection>, ss: seq<Connection>, h: set<Connection>, k: nat, cut: seq<Connection>)
    requires Separate(cs, ss, h) && k < |cs| && cut == cs[..k] + cs[k + 1..]
    ensures forall d :: d in cut <==> d in cs && d != cs[k]
  {}

  lemma SeparateList(cs: seq<Connection>, ss: seq<Connection>, h: set<Connection>, c: Connection)
    requires Separate(cs, ss, h) && c in h
    ensures Separate(cs + [c], ss, h - {c}) && Separate(cs, ss + [c], h - {c})
    ensures c !in cs && c !in ss
  {}

  lemma SeparateTake(cs: seq<Connection>, ss: seq<Connection>, h: set<Connection>)
    requires Separate(cs, ss, h) && ss != []
    ensures Separate(cs, ss[1..], h + {ss[0]})
  {}

  class Table {
    const tree: RbRoot
    const connHead: ListHead
    const freeHead: ListHead
    ghost var conns: seq<Connection>
    ghost var spare: seq<Connection>
    ghost var held: set<Connection>

    // Every connection that exists.
    ghost function All(): set<Connection>
      reads this
    { (set c | c in conns) + (set c | c in spare) + held }

    ghost function Nodes(): set<RbNode>
      reads this
    { set c | c in All() :: c.node }

    ghost function Links(): set<ListHead>
      reads this
    { {connHead, freeHead} + (set c | c in All() :: c.list) }

    // rb_entry and list_entry lead from the embedded members back to the connection.
    ghost predicate Embedded()
      reads this, Nodes()`entry, Links()`entry
    {
      connHead != freeHead && connHead.entry == null && freeHead.entry == null &&
      forall c {:trigger c.node} {:trigger c.list} :: c in All() ==> c.node.entry == c && c.list.entry == c
    }

    // Each connection is on the connection list, on the free list, or with a caller.
    ghost predicate Apart()
      reads this
    { Separate(conns, spare, held) }

    // The tree holds exactly the nodes of the connections cs ...
    ghost predicate Indexed(cs: seq<Connection>)
      reads tree`repr, tree.repr`entry
    {
      (forall c {:trigger c in cs} :: c in cs ==> c.node in tree.repr) &&
      (forall n {:trigger n in tree.repr} :: n in tree.repr ==>
        (n.entry is Connection && (n.entry as Connection) in cs && (n.entry as Connection).node == n))
    }

    // ... in the order of their descriptors.
    static ghost predicate ByFd(cs: seq<Connection>)
      reads cs`fd, (set c | c in cs :: c.node)`pos
    { forall c, d {:trigger c.node.pos, d.node.pos} :: c in cs && d in cs && c.node.pos < d.node.pos ==> c.fd < d.fd }

    ghost predicate Rings()
      reads this, Links()`next, Links()`prev
    { Ring(connHead, Lists(conns)) && Ring(freeHead, Lists(spare)) }

    ghost predicate Valid()
      reads this, tree, tree.repr, Nodes(), Links(), All()
    { tree.Valid() && Embedded() && Apart() && Indexed(conns) && ByFd(conns) && Rings() }

    constructor ()
      ensures Valid() && conns == [] && spare == [] && held == {} && fresh(tree) && fresh(connHead) && fresh(freeHead)
    {
      tree := new RbRoot();
      connHead := new ListHead();
      freeHead := new ListHead();
      conns, spare, held := [], [], {};
      new;
      assert Lists([]) == [];
    }

    // connrbtree_getconn, with the number of comparisons it makes
    method Lookup(fd: int) returns (r: Connection?, ghost steps: nat)
      requires Valid()
      ensures r != null <==> exists c :: c in conns && c.fd == fd
      ensures r != null ==> r in conns && r.fd == fd
      ensures Pow2((steps + 1) / 2) <= |conns| + 1
    {
      hide Apart, Rings, RbRoot.Balanced, RbRoot.NoRedRed, RbRoot.RootBlack;
      var n := tree.node;
      steps := 0;
      assert n != null ==> tree.ShapeAt(n);
      while n != null
        invariant n != null ==> n in tree.repr && tree.ShapeAt(n)
        invariant forall d {:trigger d.node} :: d in conns && d.fd == fd ==> n != null && n.lo <= d.node.pos < n.hi
        invariant steps + tree.Height(n) <= tree.Height(tree.node)
        decreases if n == null then 0 else n.hi - n.lo
      {
        var c := n.entry as Connection;
        steps := steps + 1;
        assert n.left != null ==> tree.ShapeAt(n.left);
        assert n.right != null ==> tree.ShapeAt(n.right);
        if fd > c.fd {
          n := n.right;
        } else if fd < c.fd {
          n := n.left;
        } else {
          r := c;
          break;
        }
      }
      if n == null {
        r := null;
      }
      StepBound(steps);
    }

    // The connections in front of position lo have smaller descriptors than fd, those from position hi on larger ones.
    ghost predicate Around(fd: int, lo: int, hi: int)
      reads this, conns, (set c | c in conns :: c.node)`pos
    {
      forall d {:trigger d.node} :: d in conns ==> (d.node.pos < lo ==> d.fd < fd) && (d.node.pos >= hi ==> d.fd > fd)
    }

    // The descriptor of a node tells on which side of it to go on.
    lemma Narrow(n: RbNode, fd: int)
      requires tree.Shape() && Embedded() && Indexed(conns) && ByFd(conns) && n in tree.repr && Around(fd, n.lo, n.hi)
      ensures n.entry is Connection && (n.entry as Connection) in conns
      ensures fd < (n.entry as Connection).fd ==> Around(fd, n.lo, n.pos)
      ensures fd > (n.entry as Connection).fd ==> Around(fd, n.pos + 1, n.hi)
    {
      hide RbRoot.ShapeAt;
      var c := n.entry as Connection;
      assert c.node == n;
      forall d | d in conns && d != c ensures d.node.pos != n.pos { assert d.node.entry == d; }
    }

    // The subtrees of a node cover the positions on its two sides.
    lemma Sides(n: RbNode)
      requires tree.Shape() && n in tree.repr
      ensures n.lo <= n.pos < n.hi
      ensures if n.left == null then n.lo == n.pos
              else n.left in tree.repr && n.left.lo == n.lo && n.left.hi == n.pos
      ensures if n.right == null then n.pos + 1 == n.hi
              else n.right in tree.repr && n.right.lo == n.pos + 1 && n.right.hi == n.hi
    {
      assert tree.ShapeAt(n);
      assert n.left != null ==> tree.ShapeAt(n.left);
      assert n.right != null ==> tree.ShapeAt(n.right);
    }

    lemma AllAround(fd: int)
      requires Valid()
      ensures tree.node == null ==> Around(fd, 0, 0)
      ensures tree.node != null ==> tree.node in tree.repr && Around(fd, tree.node.lo, tree.node.hi)
    {
      hide Apart, Rings, Embedded, ByFd;
      forall d | d in conns ensures d.node in tree.repr {}
      if tree.node != null { assert tree.ShapeAt(tree.node); }
    }

    // The search of _connrbtree_insert: a connection with that fd, or the vacant link below parent.
    method FindSlot(fd: int) returns (conn: Connection?, parent: RbNode?, link: Link)
      requires Valid()
      ensures conn != null ==> conn in conns && conn.fd == fd
      ensures conn == null ==> tree.Vacant(parent, link) && Around(fd, tree.Slot(link), tree.Slot(link))
    {
      AllAround(fd);
      assert tree.Shape() && Embedded() && Indexed(conns) && ByFd(conns);
      hide Valid, Embedded, ByFd, Indexed, Around, RbRoot.Shape, RbRoot.ShapeAt;
      link := AtRoot;
      var cur := tree.node;
      parent := null;
      while cur != null
        invariant cur != null ==> cur in tree.repr && Around(fd, cur.lo, cur.hi)
        invariant cur == null ==> tree.Vacant(parent, link) && Around(fd, tree.Slot(link), tree.Slot(link))
        decreases if cur == null then 0 else cur.hi - cur.lo
      {
        parent := cur;
        Narrow(parent, fd);
        Sides(parent);
        conn := parent.entry as Connection;
        if fd < conn.fd {
          link := LeftOf(parent);
          cur := parent.left;
        } else if fd > conn.fd {
          link := RightOf(parent);
          cur := parent.right;
        } else {
          return;
        }
      }
      conn := null;
    }

    // Every connection at position k or later moved up by one, and c took position k.
    twostate lemma LinkedByFd(new c: Connection, new k: int, new cs: seq<Connection>)
      requires old(allocated(c)) && old(allocated(cs)) && c !in cs && c.node.pos == k
      requires old(Indexed(cs)) && old(ByFd(cs))
      requires forall d :: d in cs ==> d.fd == old(d.fd)
      requires old(forall d {:trigger d.node} :: d in cs ==>
        (d.node.pos < k ==> d.fd < c.fd) && (d.node.pos >= k ==> d.fd > c.fd))
      requires c.fd == old(c.fd)
      requires forall n :: n in old(tree.repr) ==> n.pos == old(n.pos) + (if old(n.pos) >= k then 1 else 0)
      ensures ByFd(cs + [c])
    {
    }

    // c's node has joined the tree.
    twostate lemma LinkedIndexed(new c: Connection, new cs: seq<Connection>)
      requires old(allocated(cs)) && old(Indexed(cs)) && tree.repr == old(tree.repr) + {c.node} && c.node.entry == c
      requires forall n :: n in old(tree.repr) ==> n.entry == old(n.entry)
      ensures Indexed(cs + [c])
    {}

    // The tree has the same nodes, for the same connections ...
    twostate lemma StillIndexed(new cs: seq<Connection>)
      requires old(allocated(cs)) && old(Indexed(cs)) && tree.repr == old(tree.repr)
      requires forall n :: n in tree.repr ==> n.entry == old(n.entry)
      ensures Indexed(cs)
    {}

    // ... in the same positions.
    twostate lemma StillByFd(new cs: seq<Connection>)
      requires old(allocated(cs)) && old(ByFd(cs)) && forall c :: c in cs ==>
        c.fd == old(c.fd) && c.node.pos == old(c.node.pos)
      ensures ByFd(cs)
    {}

    // _connrbtree_insert: the connection that already has c's fd, or null once c's node hangs in the tree as a red
    // leaf.
    method TryInsert(c: Connection) returns (r: Connection?)
      requires Valid() && c in held
      modifies tree, tree.repr`left, tree.repr`right, tree.repr`parent, tree.repr`color, tree.repr`lo, tree.repr`pos
      modifies tree.repr`hi, tree.repr`bh
      modifies c.node`left, c.node`right, c.node`parent, c.node`color, c.node`lo, c.node`pos, c.node`hi, c.node`bh
      ensures r != null ==> r in conns && r.fd == c.fd && Valid()
      ensures r == null ==>
        (forall d :: d in conns ==> d.fd != c.fd) && tree.OneRed(c.node) && tree.repr == old(tree.repr) + {c.node}
      ensures r == null ==> Indexed(conns + [c]) && ByFd(conns + [c])
    {
      NotIndexed(c);
      hide Valid;
      var parent, link;
      r, parent, link := FindSlot(c.fd);
      if r == null { LinkAt(c, parent, link); }
    }

    // A held connection is not in the tree.
    lemma NotIndexed(c: Connection)
      requires Valid() && c in held
      ensures c !in conns && c.node !in tree.repr && c.node.entry == c
    {}

    // rb_link_node where the search ended
    method LinkAt(c: Connection, parent: RbNode?, link: Link)
      requires Valid() && c !in conns && c.node !in tree.repr && c.node.entry == c && tree.Vacant(parent, link)
      requires Around(c.fd, tree.Slot(link), tree.Slot(link))
      modifies tree, tree.repr`left, tree.repr`right, tree.repr`parent, tree.repr`color, tree.repr`lo, tree.repr`pos
      modifies tree.repr`hi, tree.repr`bh
      modifies c.node`left, c.node`right, c.node`parent, c.node`color, c.node`lo, c.node`pos, c.node`hi, c.node`bh
      ensures (forall d :: d in conns ==> d.fd != c.fd) && tree.OneRed(c.node) && tree.repr == old(tree.repr) + {c.node}
      ensures Indexed(conns + [c]) && ByFd(conns + [c])
    {
      hide RbRoot.Valid, RbRoot.OneRed, Rings, Apart, Embedded, Indexed, ByFd;
      ghost var k := tree.Slot(link);
      forall d | d in conns ensures d.fd != c.fd { assert d.node.pos < k || d.node.pos >= k; }
      tree.LinkNode(c.node, parent, link);
      LinkedIndexed(c, conns);
      LinkedByFd(c, k, conns);
    }

    // The index half of connrbtree_insert.
    method IndexInsert(c: Connection) returns (ok: bool)
      requires Valid() && c in held
      modifies tree, tree.repr`left, tree.repr`right, tree.repr`parent, tree.repr`color, tree.repr`lo, tree.repr`pos
      modifies tree.repr`hi, tree.repr`bh
      modifies c.node`left, c.node`right, c.node`parent, c.node`color, c.node`lo, c.node`pos, c.node`hi, c.node`bh
      ensures ok <==> forall d :: d in conns ==> d.fd != c.fd
      ensures ok ==> tree.Valid() && tree.repr == old(tree.repr) + {c.node} && Indexed(conns + [c]) && ByFd(conns + [c])
      ensures !ok ==> Valid()
    {
      var r := TryInsert(c);
      if r != null { return false; }
      hide RbRoot.Valid, RbRoot.OneRed, Rings, Apart, Embedded, Indexed, ByFd;
      ok := true;
      label L:
      tree.InsertColor(c.node);
      StillIndexed@L(conns + [c]);
      StillByFd@L(conns + [c]);
    }

    // The list half: c becomes the last connection.
    method ListInsert(c: Connection)
      requires Embedded() && Apart() && Rings() && c in held
      modifies this`conns, this`held, c.list`next, c.list`prev, connHead`prev, connHead.prev`next
      ensures Embedded() && Apart() && Rings() && conns == old(conns) + [c] && held == old(held) - {c}
    {
      hide Ring;
      ListsApart(c);
      SeparateList(conns, spare, held, c);
      hide Separate;
      AddTail(c.list, connHead, Lists(conns));
      conns, held := conns + [c], held - {c};
      assert Lists(conns) == Lists(old(conns)) + [c.list];
    }

    // A held connection is on neither ring, and the rings do not meet.
    lemma ListsApart(c: Connection)
      requires Embedded() && Apart() && Rings() && c in held
      ensures c.list !in Lists(conns) && c.list !in Lists(spare) && c.list != connHead && c.list != freeHead
      ensures connHead.prev == connHead || connHead.prev in Lists(conns)
      ensures forall l :: l in Lists(conns) ==> l !in Lists(spare) && l != freeHead
      ensures connHead !in Lists(spare)
    {
      assert Chained(connHead, Lists(conns), |conns|);
    }

    // connrbtree_insert; a descriptor that is already indexed fails an assertion there, before anything has changed
    method Insert(c: Connection) returns (ok: bool)
      requires Valid() && c in held
      modifies this`conns, this`held
      modifies tree, tree.repr`left, tree.repr`right, tree.repr`parent, tree.repr`color, tree.repr`lo, tree.repr`pos
      modifies tree.repr`hi, tree.repr`bh
      modifies c.node`left, c.node`right, c.node`parent, c.node`color, c.node`lo, c.node`pos, c.node`hi, c.node`bh
      modifies c.list`next, c.list`prev, connHead`prev, connHead.prev`next
      ensures Valid() && (ok <==> forall d :: d in old(conns) ==> d.fd != c.fd)
      ensures if ok then conns == old(conns) + [c] && held == old(held) - {c}
        else conns == old(conns) && held == old(held)
    {
      hide RbRoot.Valid, Indexed, ByFd, Ring, Separate;
      ok := IndexInsert(c);
      if ok { ListInsert(c); }
    }

    // connrbtree_del: off the tree and the connection list, to the end of the free list.
    method Del(c: Connection, ghost k: int)
      requires Valid() && 0 <= k < |conns| && conns[k] == c
      modifies this`conns, this`spare, this`held, Links()`next, Links()`prev
      modifies tree, tree.repr`left, tree.repr`right, tree.repr`parent, tree.repr`color, tree.repr`lo, tree.repr`pos
      modifies tree.repr`hi, tree.repr`bh
      ensures Valid() && conns == old(conns[..k] + conns[k + 1..]) && spare == old(spare) + [c] && held == old(held)
      ensures tree.repr <= old(tree.repr) && All() == old(All())
    {
      hide Valid, RbRoot.Valid, Rings, Apart, Embedded, Indexed, ByFd;
      RestOf(k);
      EraseAndFree(c, k, conns[..k] + conns[k + 1..]);
    }

    lemma RestOf(k: nat)
      requires Valid() && k < |conns|
      ensures forall d :: d in conns[..k] + conns[k + 1..] <==> d in conns && d != conns[k]
    {
      CutExactly(conns, spare, held, k, conns[..k] + conns[k + 1..]);
    }

    method EraseAndFree(c: Connection, ghost k: int, ghost rest: seq<Connection>)
      requires Valid() && 0 <= k < |conns| && conns[k] == c
      requires rest == conns[..k] + conns[k + 1..] && forall d :: d in rest <==> d in conns && d != c
      modifies this`conns, this`spare, this`held, Links()`next, Links()`prev
      modifies tree, tree.repr`left, tree.repr`right, tree.repr`parent, tree.repr`color, tree.repr`lo, tree.repr`pos
      modifies tree.repr`hi, tree.repr`bh
      ensures Valid() && conns == rest && spare == old(spare) + [c] && held == old(held)
      ensures tree.repr <= old(tree.repr) && All() == old(All())
    {
      hide RbRoot.Valid, Rings, Apart, Indexed, ByFd;
      IndexErase(c, rest);
      assert Rings();
      ListDel(c, k);
      assert tree.Valid();
      assert Indexed(rest);
      assert ByFd(rest);
    }

    // Moving element k from one list to the other keeps all elements.
    lemma Moved(cs: seq<Connection>, ss: seq<Connection>, k: nat, cs': seq<Connection>, ss': seq<Connection>)
      requires k < |cs| && cs' == cs[..k] + cs[k + 1..] && ss' == ss + [cs[k]]
      ensures forall c :: c in cs' || c in ss' <==> c in cs || c in ss
    {
      assert cs == cs[..k] + [cs[k]] + cs[k + 1..];
    }

    // The list half of connrbtree_del.
    method ListDel(c: Connection, ghost k: int)
      requires Embedded() && Apart() && Rings() && 0 <= k < |conns| && conns[k] == c
      modifies this`conns, this`spare, this`held, Links()`next, Links()`prev
      ensures Embedded() && Apart() && Rings()
      ensures conns == old(conns[..k] + conns[k + 1..]) && spare == old(spare) + [c] && held == old(held) &&
        All() == old(All())
    {
      LinksOf(c, k);
      Unhook(c, k);
      assert Chained(freeHead, Lists(spare), |spare|);
      FreeAdd(c);
      Moved(old(conns), old(spare), k, conns, spare);
    }

    lemma LinksOf(c: Connection, k: int)
      requires Rings() && 0 <= k < |conns| && conns[k] == c
      ensures c.list.next in Links() && c.list.prev in Links() && freeHead.prev in Links()
    {
      assert Chained(connHead, Lists(conns), k);
      assert Chained(connHead, Lists(conns), k + 1);
      assert Chained(freeHead, Lists(spare), |spare|);
    }

    // The index half of connrbtree_del; rest are the connections other than c.
    method IndexErase(c: Connection, ghost rest: seq<Connection>)
      requires Valid() && c in conns && forall d :: d in rest <==> d in conns && d != c
      modifies tree, tree.repr`left, tree.repr`right, tree.repr`parent, tree.repr`color, tree.repr`lo, tree.repr`pos
      modifies tree.repr`hi, tree.repr`bh
      ensures tree.Valid() && tree.repr == old(tree.repr) - {c.node}
      ensures Indexed(rest) && ByFd(rest)
    {
      hide RbRoot.Valid, Rings;
      tree.Erase(c.node);
    }

    // The free list is not touched when an entry of the connection list is unlinked.
    lemma ListsDistinct(k: nat)
      requires Embedded() && Apart() && Rings() && k < |conns|
      ensures conns[k].list.next != freeHead && conns[k].list.prev != freeHead && conns[k].list != freeHead
      ensures forall l :: l in Lists(spare) ==> l != conns[k].list && l != conns[k].list.next && l != conns[k].list.prev
    {
      assert Chained(connHead, Lists(conns), k);
      assert Chained(connHead, Lists(conns), k + 1);
    }

    // list_del_init: c leaves the connection list.
    method Unhook(c: Connection, ghost k: int)
      requires Embedded() && Apart() && Rings() && 0 <= k < |conns| && conns[k] == c
      modifies this`conns, this`held, c.list`next, c.list`prev, c.list.next`prev, c.list.prev`next
      ensures Embedded() && Apart() && Rings() && conns == old(conns[..k] + conns[k + 1..]) && held == old(held) + {c}
    {
      ListsDistinct(k);
      SeparateCut(conns, spare, held, k);
      Removed(conns, k);
      hide Separate, Ring;
      UnlinkListed(c, k);
      conns, held := conns[..k] + conns[k + 1..], held + {c};
      assert All() == old(All());
    }

    method UnlinkListed(c: Connection, ghost k: int)
      requires Rings() && 0 <= k < |conns| && conns[k] == c && c.list.next != freeHead && c.list.prev != freeHead &&
        c.list != freeHead
      requires forall l :: l in Lists(spare) ==> l != c.list && l != c.list.next && l != c.list.prev
      modifies c.list`next, c.list`prev, c.list.next`prev, c.list.prev`next
      ensures Ring(connHead, Lists(conns[..k] + conns[k + 1..])) && Ring(freeHead, Lists(spare))
    {
      hide Ring;
      DelInit(c.list, connHead, Lists(conns), k);
      ListsCut(conns, k);
      Undisturbed(freeHead, Lists(spare));
    }

    lemma Removed(cs: seq<Connection>, k: nat)
      requires k < |cs|
      ensures forall c :: c in cs <==> c == cs[k] || c in cs[..k] + cs[k + 1..]
    {}

    // freeconnlist_add
    method FreeAdd(c: Connection)
      requires Embedded() && Apart() && Rings() && c in held
      modifies this`spare, this`held, c.list`next, c.list`prev, freeHead`prev, freeHead.prev`next
      ensures Embedded() && Apart() && Rings() && spare == old(spare) + [c] && held == old(held) - {c}
    {
      FreeListsApart(c);
      SeparateList(conns, spare, held, c);
      hide Separate;
      AddTail(c.list, freeHead, Lists(spare));
      spare, held := spare + [c], held - {c};
      assert Lists(spare) == Lists(old(spare)) + [c.list];
    }

    lemma FreeListsApart(c: Connection)
      requires Embedded() && Apart() && Rings() && c in held
      ensures c.list !in Lists(conns) && c.list !in Lists(spare) && c.list != connHead && c.list != freeHead
      ensures freeHead.prev == freeHead || freeHead.prev in Lists(spare)
      ensures forall l :: l in Lists(conns) ==> l !in Lists(spare) && l != freeHead
      ensures connHead !in Lists(spare)
    {
      assert Chained(freeHead, Lists(spare), |spare|);
    }

    // freeconnlist_getconn: the first spare connection, wiped, or a new one
    method GetConn(now: int) returns (c: Connection)
      requires Valid()
      modifies this`spare, this`held, Links()`next, Links()`prev
      modifies set d | d in spare, set d | d in spare :: d.node
      ensures Valid() && c in held && held == old(held) + {c}
      ensures if old(spare) == [] then fresh(c) && spare == [] else c == old(spare)[0] && spare == old(spare)[1..]
      ensures c.fd == 0 && c.kind == CONNFREE && c.timestamp == now
    {
      hide RbRoot.Valid, Indexed, ByFd, Separate;
      var empty := IsEmpty(freeHead, Lists(spare));
      if empty {
        c := Create(now);
      } else {
        assert Chained(freeHead, Lists(spare), 0);
        c := freeHead.next.entry as Connection;
        SpareDistinct();
        Unspare(c);
        Wipe(c, now);
      }
    }

    method Create(now: int) returns (c: Connection)
      requires Valid()
      modifies this`held
      ensures Valid() && fresh(c) && held == old(held) + {c}
      ensures c.fd == 0 && c.kind == CONNFREE && c.timestamp == now
    {
      hide RbRoot.Valid, Indexed, ByFd, Ring;
      c := new Connection(now);
      held := held + {c};
    }

    method Wipe(c: Connection, now: int)
      requires Valid() && c in held
      modifies c`timestamp, c`kind, c`fd, c.node`left, c.node`right, c.node`parent, c.node`color
      ensures Valid() && c.fd == 0 && c.kind == CONNFREE && c.timestamp == now
    {
      hide RbRoot.Valid, Indexed, ByFd, Rings, Separate;
      Restart(c, now);
      ZeroNode(c);
    }

    method Restart(c: Connection, now: int)
      requires Valid() && c in held
      modifies c`timestamp, c`kind, c`fd
      ensures Valid() && c.fd == 0 && c.kind == CONNFREE && c.timestamp == now
    {
      hide RbRoot.Valid, Ring, Indexed;
      c.timestamp := now;
      c.kind := CONNFREE;
      c.fd := 0;
    }

    // memset of the embedded node: RB_RED is 0
    method ZeroNode(c: Connection)
      requires Valid() && c in held
      modifies c.node`left, c.node`right, c.node`parent, c.node`color
      ensures Valid()
    {
      hide RbRoot.Valid, ByFd, Ring;
      assert c.node !in tree.repr;
      var n := c.node;
      n.left, n.right, n.parent, n.color := null, null, null, Red;
    }

    method Unspare(c: Connection)
      requires Embedded() && Apart() && Rings() && spare != [] && spare[0] == c
      modifies this`spare, this`held, c.list`next, c.list`prev, c.list.next`prev, c.list.prev`next
      ensures Embedded() && Apart() && Rings() && spare == old(spare)[1..] && held == old(held) + {c}
    {
      SpareDistinct();
      SeparateTake(conns, spare, held);
      HeadTaken(spare);
      hide Separate, Ring;
      UnlinkSpare(c);
      spare, held := spare[1..], held + {c};
      assert All() == old(All());
    }

    // list_del_init on the first free entry
    method UnlinkSpare(c: Connection)
      requires Rings() && spare != [] && spare[0] == c && c.list.next != connHead && c.list.prev != connHead &&
        c.list != connHead
      requires forall l :: l in Lists(conns) ==> l != c.list && l != c.list.next && l != c.list.prev
      modifies c.list`next, c.list`prev, c.list.next`prev, c.list.prev`next
      ensures Ring(connHead, Lists(conns)) && Ring(freeHead, Lists(spare[1..]))
    {
      hide Ring;
      DelInit(c.list, freeHead, Lists(spare), 0);
      ListsCut(spare, 0);
      assert spare[1..] == spare[..0] + spare[0 + 1..];
      Undisturbed(connHead, Lists(conns));
    }

    lemma HeadTaken(ss: seq<Connection>)
      requires ss != []
      ensures forall c :: c in ss <==> c == ss[0] || c in ss[1..]
    {}

    // The connection list is not touched when the first free entry is unlinked.
    lemma SpareDistinct()
      requires Embedded() && Apart() && Rings() && spare != []
      ensures spare[0].list.next in Links() && spare[0].list.prev in Links()
      ensures spare[0].list.next != connHead && spare[0].list.prev != connHead && spare[0].list != connHead
      ensures forall l :: l in Lists(conns) ==> l != spare[0].list && l != spare[0].list.next && l != spare[0].list.prev
    {
      assert Chained(freeHead, Lists(spare), 0);
      assert Chained(freeHead, Lists(spare), 1);
    }

    // fd has the place of c's descriptor among those of the other connections on the list.
    ghost predicate KeepsPlace(c: Connection, fd: int)
      reads this, conns, c
    {
      forall d :: d in conns && d != c ==> (if d.fd < c.fd then d.fd < fd else d.fd > fd)
    }

    // Nodes that come in the order of their descriptors differ in position.
    lemma PlaceIsOrder(c: Connection, d: Connection)
      requires Valid() && c in conns && d in conns && c != d
      ensures c.node.pos < d.node.pos <==> c.fd < d.fd
      ensures d.node.pos < c.node.pos <==> d.fd < c.fd
    {
      hide Apart, Rings, RbRoot.ShapeAt, RbRoot.Balanced, RbRoot.NoRedRed, RbRoot.RootBlack;
      assert c.node.entry == c && d.node.entry == d;
    }

    // connection_init. On a connection that is listed it keeps the index in order exactly if the new descriptor has the
    // place of the old one.
    method Init(c: Connection, fd: int, kind: int)
      requires Valid() && c in All()
      modifies c`fd, c`kind
      ensures c.fd == fd && c.kind == kind && conns == old(conns)
      ensures Valid() <==> c !in conns || old(KeepsPlace(c, fd))
    {
      forall d | c in conns && d in conns && d != c
        ensures c.node.pos < d.node.pos <==> c.fd < d.fd
        ensures d.node.pos < c.node.pos <==> d.fd < c.fd
      {
        PlaceIsOrder(c, d);
      }
      hide Apart, Rings, RbRoot.Valid, Embedded, Indexed;
      c.fd := fd;
      c.kind := kind;
    }

    // connlist_check
    method HasKind(kind: int) returns (b: bool)
      requires Valid()
      ensures b <==> exists c :: c in conns && c.kind == kind
    {
      assert Chained(connHead, Lists(conns), 0);
      var pos := connHead.next;
      ghost var i := 0;
      while pos != connHead
        invariant 0 <= i <= |conns| && pos == At(connHead, Lists(conns), i)
        invariant forall k :: 0 <= k < i ==> conns[k].kind != kind
        decreases |conns| - i
      {
        assert Chained(connHead, Lists(conns), i + 1);
        var c := pos.entry as Connection;
        assert c == conns[i];
        if c.kind == kind {
          return true;
        }
        pos := pos.next;
        i := i + 1;
      }
      return false;
    }

    ghost predicate Stale(c: Connection, now: int, timeout: int)
      reads c
    { (c.kind == CONNSOCKETSERVER || c.kind == CONNSOCKETCLIENT) && now - c.timestamp > timeout }

    // The cursor of list_for_each_safe at element j, with the saved successor.
    ghost predicate Cursor(pos: ListHead, n: ListHead, j: int)
      reads this
    { 0 <= j <= |conns| && pos == At(connHead, Lists(conns), j) &&
      (j < |conns| ==> n == At(connHead, Lists(conns), j + 1)) }

    lemma AtEnd(n: ListHead, j: int)
      requires Valid() && Cursor(connHead, n, j)
      ensures j == |conns|
    {}

    lemma NextLink(pos: ListHead, j: int)
      requires Valid() && -1 <= j <= |conns| && pos == At(connHead, Lists(conns), j)
      ensures j < |conns| ==> pos.next == At(connHead, Lists(conns), j + 1)
    {
      if j < |conns| { assert Chained(connHead, Lists(conns), j + 1); }
    }

    ghost predicate Marked(now: int, timeout: int, dead: set<Connection>)
      reads this, All()
    { forall c {:trigger c in dead} :: c in conns ==> (c in dead <==> Stale(c, now, timeout)) }

    // connection_close, inside the sweep: the saved successor n takes c's position.
    method CloseAt(c: Connection, n: ListHead, ghost j: nat, ghost dead: set<Connection>, ghost now: int,
                   ghost timeout: int)
      requires Valid() && j < |conns| && conns[j] == c && c in dead && n == At(connHead, Lists(conns), j + 1)
      requires Marked(now, timeout, dead)
      modifies this`conns, this`spare, this`held, Links()`next, Links()`prev
      modifies tree, tree.repr`left, tree.repr`right, tree.repr`parent, tree.repr`color, tree.repr`lo, tree.repr`pos
      modifies tree.repr`hi, tree.repr`bh
      ensures Valid() && held == old(held) && tree.repr <= old(tree.repr) && Links() == old(Links())
      ensures Marked(now, timeout, dead)
      ensures conns == old(conns[..j] + conns[j + 1..]) && n == At(connHead, Lists(conns), j)
      ensures Kept(conns, j, dead) == Kept(old(conns), j, dead) &&
        Freed(spare, conns, j, dead) == Freed(old(spare), old(conns), j, dead)
    {
      hide RbRoot.Valid, Indexed, ByFd, Ring, Embedded, Kept, Freed, Separate;
      SweepDrop(conns, spare, j, dead);
      Successor(conns, j);
      Del(c, j);
    }

    // The entry behind element j takes its place when it goes.
    lemma Successor(cs: seq<Connection>, j: nat)
      requires j < |cs|
      ensures At(connHead, Lists(cs[..j] + cs[j + 1..]), j) == At(connHead, Lists(cs), j + 1)
    {}

    // The cursor stands at an element of the list.
    lemma AtCursor(pos: ListHead, n: ListHead, j: nat, now: int, timeout: int, dead: set<Connection>)
      requires Embedded() && Cursor(pos, n, j) && pos != connHead && Marked(now, timeout, dead)
      ensures j < |conns| && pos.entry is Connection && (pos.entry as Connection) == conns[j]
      ensures conns[j] in dead <==> Stale(conns[j], now, timeout)
      ensures n == At(connHead, Lists(conns), j + 1)
    {}

    // One round of the sweep; the entry that followed c is the next one to visit even when c is deleted.
    method Visit(pos: ListHead, n: ListHead, ghost j: nat, now: int, timeout: int, ghost dead: set<Connection>)
      returns (pos': ListHead, n': ListHead, ghost j': nat)
      requires Valid() && Cursor(pos, n, j) && pos != connHead && Marked(now, timeout, dead)
      modifies this`conns, this`spare, this`held, Links()`next, Links()`prev
      modifies tree, tree.repr`left, tree.repr`right, tree.repr`parent, tree.repr`color, tree.repr`lo, tree.repr`pos
      modifies tree.repr`hi, tree.repr`bh
      ensures Valid() && held == old(held) && tree.repr <= old(tree.repr) && Links() == old(Links()) &&
        Marked(now, timeout, dead)
      ensures Cursor(pos', n', j') && j < |old(conns)| && |conns| - j' < |old(conns)| - j
      ensures Kept(conns, j', dead) == Kept(old(conns), j, dead) &&
        Freed(spare, conns, j', dead) == Freed(old(spare), old(conns), j, dead)
    {
      AtCursor(pos, n, j, now, timeout, dead);
      hide Valid, Marked, Kept, Freed, At, Lists;
      var c := pos.entry as Connection;
      j' := j;
      if (c.kind == CONNSOCKETSERVER || c.kind == CONNSOCKETCLIENT) && now - c.timestamp > timeout {
        CloseAt(c, n, j, dead, now, timeout);
      } else {
        SweepKeep(conns, spare, j, dead);
        j' := j + 1;
      }
      pos' := n;
      NextLink(pos', j');
      n' := pos'.next;
    }

    // connlist_checkstatus: deletes while it walks
    method Sweep(now: int, timeout: int) returns (ghost dead: set<Connection>)
      requires Valid()
      modifies this`conns, this`spare, this`held, Links()`next, Links()`prev
      modifies tree, tree.repr`left, tree.repr`right, tree.repr`parent, tree.repr`color, tree.repr`lo, tree.repr`pos
      modifies tree.repr`hi, tree.repr`bh
      ensures Valid() && held == old(held)
      ensures dead == old(set c | c in conns &&
        (c.kind == 3 || c.kind == 2) && now - c.timestamp > timeout) // socket server or client
      ensures conns == Without(old(conns), dead) && spare == old(spare) + Only(old(conns), dead)
    {
      hide Valid, Kept, Freed, Links;
      dead := set c | c in conns && Stale(c, now, timeout);
      ghost var cs, ss, j := conns, spare, 0;
      NextLink(connHead, -1);
      var pos := connHead.next;
      NextLink(pos, 0);
      var n := pos.next;
      while pos != connHead
        invariant Valid() && held == old(held) && tree.repr <= old(tree.repr) && Links() == old(Links()) &&
          Marked(now, timeout, dead)
        invariant Cursor(pos, n, j)
        invariant Kept(conns, j, dead) == Kept(cs, 0, dead) && Freed(spare, conns, j, dead) == Freed(ss, cs, 0, dead)
        decreases |conns| - j
      {
        pos, n, j := Visit(pos, n, j, now, timeout, dead);
      }
      AtEnd(n, j);
      SweepEnds(cs, ss, dead);
      SweepEnds(conns, spare, dead);
    }

    lemma DescriptorsDistinct(i: nat, j: nat)
      requires Valid() && i < j < |conns|
      ensures conns[i].fd != conns[j].fd
    {
      var m, n := conns[i].node, conns[j].node;
      assert conns[i] in conns && conns[j] in conns;
      assert tree.order[m.pos] == m && tree.order[n.pos] == n;
    }

    lemma StepBound(steps: nat)
      requires Valid() && steps <= tree.Height(tree.node)
      ensures Pow2((steps + 1) / 2) <= |conns| + 1
    {
      tree.HeightLogarithmic();
      Pow2Monotone((steps + 1) / 2, (tree.Height(tree.node) + 1) / 2);
      var cs := conns;
      var nodes := seq(|cs|, i requires 0 <= i < |cs| => cs[i].node);
      assert forall i :: 0 <= i < |nodes| ==> nodes[i].entry == cs[i];
      assert (set n | n in tree.order) == tree.repr by {
        forall n ensures n in tree.repr <==> n in tree.order {
          if n in tree.repr { assert tree.order[n.pos] == n; }
        }
      }
      assert tree.repr == (set n | n in nodes) by {
        forall n ensures n in tree.repr <==> n in nodes {
          if n in tree.repr {
            var i :| 0 <= i < |cs| && cs[i] == n.entry as Connection;
            assert nodes[i] == n;
          }
        }
      }
      DistinctSize(tree.order);
      DistinctSize(nodes);
    }
  }

  lemma {:induction false} DistinctSize<T>(s: seq<T>)
    requires forall i, j :: 0 <= i < j < |s| ==> s[i] != s[j]
    ensures |set x | x in s| == |s|
  {
    if s != [] {
      var t := s[..|s| - 1];
      DistinctSize(t);
      assert (set x | x in s) == (set x | x in t) + {s[|s| - 1]};
    }
  }
}
