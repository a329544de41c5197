// The red-black tree of rbtree.c: nodes with parent pointers, rotated and recoloured in place.
//
// The shape of the tree is described without recursion. A ghost sequence, order, lists the nodes from left to right;
// each node carries its position in that sequence and the bounds of the stretch that its subtree covers. What holds at
// one node speaks of that node and its neighbours only, so a change of links is checked node by node. That order is
// what the child pointers spell out is a theorem, InOrderIsOrder, and so is the black height, WaysDown.
module RbTree {
  import opened Bits

  datatype Color = Red | Black

  // struct rb_node; entry stands for the enclosing object that rb_entry computes. The subtree of the node covers the
  // positions from lo to hi, the node itself sits at pos, and bh is its black height.
  class RbNode {
    var left: RbNode?
    var right: RbNode?
    var parent: RbNode?
    var color: Color
    var entry: object?
    ghost var lo: int
    ghost var pos: int
    ghost var hi: int
    ghost var bh: nat

    constructor ()
      ensures left == null && right == null && parent == null && entry == null
    {
      left, right, parent, color, entry := null, null, null, Red, null;
    }
  }

  // The address of a link that may be overwritten: the root pointer or a child pointer.
  datatype Link = AtRoot | LeftOf(p: RbNode) | RightOf(p: RbNode)

  // struct rb_root, with the set of its nodes and their order.
  class RbRoot {
    var node: RbNode?
    ghost var repr: set<RbNode>
    ghost var order: seq<RbNode>

    constructor ()
      ensures Valid() && repr == {} && order == [] && node == null
    {
      node, repr, order := null, {}, [];
    }

    // The left child covers the stretch before n and points back to it; the right one, the stretch after it.
    ghost predicate LeftAt(n: RbNode)
      reads this, repr, n
    {
      if n.left == null then n.lo == n.pos
      else n.left in repr && n.left.parent == n && n.left.lo == n.lo && n.left.hi == n.pos
    }

    ghost predicate RightAt(n: RbNode)
      reads this, repr, n
    {
      if n.right == null then n.hi == n.pos + 1
      else n.right in repr && n.right.parent == n && n.right.lo == n.pos + 1 && n.right.hi == n.hi
    }

    // The parent has n as a child, on the side that its position says; only the root has none, and it covers
    // everything.
    ghost predicate UpAt(n: RbNode)
      reads this, repr, n
    {
      0 <= n.lo <= n.pos < n.hi <= |order| &&
      (node == n ==> n.parent == null) &&
      (if n.parent == null then node == n && n.lo == 0 && n.hi == |order|
       else
         n.parent in repr && (n.pos < n.parent.pos ==> n.parent.left == n) &&
         (n.pos >= n.parent.pos ==> n.parent.right == n))
    }

    ghost predicate ShapeAt(n: RbNode)
      reads this, repr, n
    { LeftAt(n) && RightAt(n) && UpAt(n) }

    ghost predicate Links()
      reads this, repr
    { forall n {:trigger ShapeAt(n)} :: n in repr ==> ShapeAt(n) }

    // The nodes and their positions match one to one.
    ghost predicate Listed()
      reads this, repr
    {
      (forall n {:trigger n.pos} :: n in repr ==> 0 <= n.pos < |order| && order[n.pos] == n) &&
      (forall i {:trigger order[i]} :: 0 <= i < |order| ==> order[i] in repr && order[i].pos == i)
    }

    ghost predicate Shape()
      reads this, repr
    { Links() && Listed() && (node == null ==> repr == {} && order == []) && (node != null ==> node in repr) }

    ghost predicate IsRed(n: RbNode?)
      reads this, repr
    { n in repr && n.color == Red }

    // A missing child has black height 0.
    ghost function Bh(n: RbNode?): nat
      reads this, repr
    { if n in repr then n.bh else 0 }

    ghost predicate BalancedAt(n: RbNode)
      reads this, repr, n
    { Bh(n.left) == Bh(n.right) && n.bh == Bh(n.left) + (if n.color == Black then 1 else 0) }

    // No red child under a red node, the child e excepted.
    ghost predicate RedAt(n: RbNode, e: RbNode?)
      reads this, repr, n
    { n.color == Red ==> (n.left == e || !IsRed(n.left)) && (n.right == e || !IsRed(n.right)) }

    ghost predicate Balanced()
      reads this, repr
    { forall n {:trigger BalancedAt(n)} :: n in repr ==> BalancedAt(n) }

    ghost predicate NoRedRed(e: RbNode?)
      reads this, repr
    { forall n {:trigger RedAt(n, e)} :: n in repr ==> RedAt(n, e) }

    ghost predicate RootBlack()
      reads this, repr, node
    { node != null ==> node.color == Black }

    // A red-black tree.
    ghost predicate Valid()
      reads this, repr
    { Shape() && Balanced() && NoRedRed(null) && RootBlack() }

    // The nodes u and v are the two children of n, in some order.
    ghost predicate Kids(n: RbNode, u: RbNode?, v: RbNode?)
      reads n
    { (n.left == u && n.right == v) || (n.left == v && n.right == u) }

    // What either rotation does to the child links: `low` goes below `top`.
    twostate predicate Turned(low: RbNode, top: RbNode, a: RbNode?, b: RbNode?, c: RbNode?)
      reads this, repr, low, top
    {
      repr == old(repr) && low in repr && top in repr && low != top &&
      old(Kids(low, a, top)) && old(Kids(top, b, c)) && Kids(low, a, b) && Kids(top, low, c) &&
      (forall n :: n in repr && n != low && n != top ==>
        n.left == (if old(n.left) == low then top else old(n.left)) &&
          n.right == (if old(n.right) == low then top else old(n.right)))
    }

    static ghost function Opt(n: RbNode?): set<RbNode> { if n == null then {} else {n} }

    // The link that led from parent (or from the root) to x now leads to y.
    method Swing(parent: RbNode?, x: RbNode, y: RbNode?)
      modifies this`node, Opt(parent)`left, Opt(parent)`right
      ensures node == if parent == null then y else old(node)
      ensures parent != null && old(parent.left) == x ==> parent.left == y && parent.right == old(parent.right)
      ensures parent != null && old(parent.left) != x ==> parent.left == old(parent.left) && parent.right == y
    {
      if parent != null {
        if parent.left == x {
          parent.left := y;
        } else {
          parent.right := y;
        }
      } else {
        node := y;
      }
    }

    // ---- Left rotation ----

    ghost predicate CanRotateLeft(x: RbNode)
      reads this, repr, x
    {
      x in repr && x.right != null && x.right in repr && x.right != x &&
      (x.right.left != null ==>
        x.right.left in repr && x.right.left != x && x.right.left != x.right && x.right.left != x.parent) &&
      (x.parent != null ==> x.parent in repr && x.parent != x && x.parent != x.right)
    }

    twostate predicate RotatedLeft(x: RbNode, y: RbNode, b: RbNode?, p: RbNode?)
      reads this, repr, x, y, b, p
    {
      x in repr && y in repr && repr == old(repr) && order == old(order) &&
      y == old(x.right) && b == old(y.left) && p == old(x.parent) &&
      x.left == old(x.left) && x.right == b && x.parent == y && x.lo == old(x.lo) && x.hi == y.pos &&
      y.left == x && y.right == old(y.right) && y.parent == p && y.lo == old(x.lo) && y.hi == old(x.hi) &&
      (b != null ==> b in repr && b.parent == x) &&
      (p == null ==> node == y) && (p != null ==> p in repr && node == old(node)) &&
      (p != null && old(p.left) == x ==> p.left == y && p.right == old(p.right)) &&
      (p != null && old(p.left) != x ==> p.left == old(p.left) && p.right == y) &&
      (forall m :: m in repr ==> m.pos == old(m.pos)) &&
      (forall m :: m in repr && m != x && m != y && m != b ==> m.parent == old(m.parent)) &&
      (forall m :: m in repr && m != x && m != y && m != p ==> m.left == old(m.left) && m.right == old(m.right)) &&
      (forall m :: m in repr && m != x && m != y ==> m.lo == old(m.lo) && m.hi == old(m.hi))
    }

    lemma CanRotateLeftFacts(x: RbNode)
      requires Shape()
      requires x in repr && x.right != null
      ensures CanRotateLeft(x)
    {
      assert ShapeAt(x);
      assert ShapeAt(x.right);
      assert x.right.left != null ==> ShapeAt(x.right.left);
      assert x.parent != null ==> ShapeAt(x.parent);
    }

    // __rb_rotate_left itself, with the labels that change.
    method RelinkLeft(x: RbNode)
      requires CanRotateLeft(x)
      modifies this`node, repr`left, repr`right, repr`parent, repr`lo, repr`hi
      ensures RotatedLeft(x, old(x.right), old(x.right.left), old(x.parent))
    {
      var y := x.right;
      x.right := y.left;
      if y.left != null {
        y.left.parent := x;
      }
      y.left := x;
      y.parent := x.parent;
      Swing(x.parent, x, y);
      x.parent := y;
      y.lo, y.hi, x.hi := x.lo, x.hi, y.pos;
    }

    // A left rotation keeps the shape and the order; it moves three child links.
    method RotateLeft(x: RbNode)
      requires Shape()
      requires x in repr && x.right != null
      modifies this`node, repr`left, repr`right, repr`parent, repr`lo, repr`hi
      ensures Shape()
      ensures Turned(x, old(x.right), old(x.left), old(x.right.left), old(x.right.right))
      ensures x.left == old(x.left) && x.right == old(x.right.left) && old(x.right).left == x &&
        old(x.right).parent == old(x.parent)
      ensures node == if old(node) == x then old(x.right) else old(node)
    {
      CanRotateLeftFacts(x);
      assert ShapeAt(x);
      ghost var y, b, p := x.right, x.right.left, x.parent;
      RelinkLeft(x);
      RotateLeftShape(x, y, b, p);
      RotatedLeftTurned(x, y, b, p);
    }

    twostate lemma RotatedLeftTurned(new x: RbNode, new y: RbNode, new b: RbNode?, new p: RbNode?)
      requires old(allocated(x)) && old(allocated(y)) && old(allocated(b)) && old(allocated(p))
      requires old(Shape())
      requires RotatedLeft(x, y, b, p)
      ensures Turned(x, y, old(x.left), b, old(y.right))
    {
      assert old(ShapeAt(x));
      assert old(ShapeAt(y));
      assert p != null ==> old(ShapeAt(p));
      forall n | n in repr && n != x && n != y
        ensures n.left == (if old(n.left) == x then y else old(n.left)) &&
          n.right == (if old(n.right) == x then y else old(n.right))
      {
        assert old(ShapeAt(n));
      }
    }

    twostate lemma RotateLeftShape(new x: RbNode, new y: RbNode, new b: RbNode?, new p: RbNode?)
      requires old(allocated(x)) && old(allocated(y)) && old(allocated(b)) && old(allocated(p))
      requires old(Shape())
      requires RotatedLeft(x, y, b, p)
      ensures Shape()
    {
      forall n | n in repr ensures ShapeAt(n) {
        RotateLeftLeftAt(x, y, b, p, n);
        RotateLeftRightAt(x, y, b, p, n);
        RotateLeftUpAt(x, y, b, p, n);
      }
      assert old(ShapeAt(x));
    }

    twostate lemma RotateLeftLeftAt(new x: RbNode, new y: RbNode, new b: RbNode?, new p: RbNode?, new n: RbNode)
      requires old(allocated(x)) && old(allocated(y)) && old(allocated(b)) && old(allocated(p)) && old(allocated(n))
      requires old(Shape())
      requires RotatedLeft(x, y, b, p)
      requires n in repr
      ensures LeftAt(n)
    {
      assert old(ShapeAt(n));
      assert old(ShapeAt(x));
      assert old(ShapeAt(y));
      assert old(n.left) != null ==> old(ShapeAt(n.left));
    }

    twostate lemma RotateLeftRightAt(new x: RbNode, new y: RbNode, new b: RbNode?, new p: RbNode?, new n: RbNode)
      requires old(allocated(x)) && old(allocated(y)) && old(allocated(b)) && old(allocated(p)) && old(allocated(n))
      requires old(Shape())
      requires RotatedLeft(x, y, b, p)
      requires n in repr
      ensures RightAt(n)
    {
      assert old(ShapeAt(n));
      assert old(ShapeAt(x));
      assert old(ShapeAt(y));
      assert old(n.right) != null ==> old(ShapeAt(n.right));
    }

    twostate lemma RotateLeftUpAt(new x: RbNode, new y: RbNode, new b: RbNode?, new p: RbNode?, new n: RbNode)
      requires old(allocated(x)) && old(allocated(y)) && old(allocated(b)) && old(allocated(p)) && old(allocated(n))
      requires old(Shape())
      requires RotatedLeft(x, y, b, p)
      requires n in repr
      ensures UpAt(n)
    {
      assert old(ShapeAt(n));
      assert old(ShapeAt(x));
      assert old(ShapeAt(y));
      assert p != null ==> old(ShapeAt(p));
      assert old(n.parent) != null ==> old(ShapeAt(n.parent));
    }

    // ---- Right rotation ----

    ghost predicate CanRotateRight(x: RbNode)
      reads this, repr, x
    {
      x in repr && x.left != null && x.left in repr && x.left != x &&
      (x.left.right != null ==>
        x.left.right in repr && x.left.right != x && x.left.right != x.left && x.left.right != x.parent) &&
      (x.parent != null ==> x.parent in repr && x.parent != x && x.parent != x.left)
    }

    twostate predicate RotatedRight(x: RbNode, y: RbNode, b: RbNode?, p: RbNode?)
      reads this, repr, x, y, b, p
    {
      x in repr && y in repr && repr == old(repr) && order == old(order) &&
      y == old(x.left) && b == old(y.right) && p == old(x.parent) &&
      x.right == old(x.right) && x.left == b && x.parent == y && x.hi == old(x.hi) && x.lo == y.pos + 1 &&
      y.right == x && y.left == old(y.left) && y.parent == p && y.hi == old(x.hi) && y.lo == old(x.lo) &&
      (b != null ==> b in repr && b.parent == x) &&
      (p == null ==> node == y) && (p != null ==> p in repr && node == old(node)) &&
      (p != null && old(p.left) == x ==> p.left == y && p.right == old(p.right)) &&
      (p != null && old(p.left) != x ==> p.left == old(p.left) && p.right == y) &&
      (forall m :: m in repr ==> m.pos == old(m.pos)) &&
      (forall m :: m in repr && m != x && m != y && m != b ==> m.parent == old(m.parent)) &&
      (forall m :: m in repr && m != x && m != y && m != p ==> m.left == old(m.left) && m.right == old(m.right)) &&
      (forall m :: m in repr && m != x && m != y ==> m.lo == old(m.lo) && m.hi == old(m.hi))
    }

    lemma CanRotateRightFacts(x: RbNode)
      requires Shape()
      requires x in repr && x.left != null
      ensures CanRotateRight(x)
    {
      assert ShapeAt(x);
      assert ShapeAt(x.left);
      assert x.left.right != null ==> ShapeAt(x.left.right);
      assert x.parent != null ==> ShapeAt(x.parent);
    }

    // __rb_rotate_right itself, with the labels that change.
    method RelinkRight(x: RbNode)
      requires CanRotateRight(x)
      modifies this`node, repr`left, repr`right, repr`parent, repr`lo, repr`hi
      ensures RotatedRight(x, old(x.left), old(x.left.right), old(x.parent))
    {
      var y := x.left;
      x.left := y.right;
      if y.right != null {
        y.right.parent := x;
      }
      y.right := x;
      y.parent := x.parent;
      Swing(x.parent, x, y);
      x.parent := y;
      y.hi, y.lo, x.lo := x.hi, x.lo, y.pos + 1;
    }

    // A right rotation keeps the shape and the order; it moves three child links.
    method RotateRight(x: RbNode)
      requires Shape()
      requires x in repr && x.left != null
      modifies this`node, repr`left, repr`right, repr`parent, repr`lo, repr`hi
      ensures Shape()
      ensures Turned(x, old(x.left), old(x.right), old(x.left.right), old(x.left.left))
      ensures x.right == old(x.right) && x.left == old(x.left.right) && old(x.left).right == x &&
        old(x.left).parent == old(x.parent)
      ensures node == if old(node) == x then old(x.left) else old(node)
    {
      CanRotateRightFacts(x);
      assert ShapeAt(x);
      ghost var y, b, p := x.left, x.left.right, x.parent;
      RelinkRight(x);
      RotateRightShape(x, y, b, p);
      RotatedRightTurned(x, y, b, p);
    }

    twostate lemma RotatedRightTurned(new x: RbNode, new y: RbNode, new b: RbNode?, new p: RbNode?)
      requires old(allocated(x)) && old(allocated(y)) && old(allocated(b)) && old(allocated(p))
      requires old(Shape())
      requires RotatedRight(x, y, b, p)
      ensures Turned(x, y, old(x.right), b, old(y.left))
    {
      assert old(ShapeAt(x));
      assert old(ShapeAt(y));
      assert p != null ==> old(ShapeAt(p));
      forall n | n in repr && n != x && n != y
        ensures n.left == (if old(n.left) == x then y else old(n.left)) &&
          n.right == (if old(n.right) == x then y else old(n.right))
      {
        assert old(ShapeAt(n));
      }
    }

    twostate lemma RotateRightShape(new x: RbNode, new y: RbNode, new b: RbNode?, new p: RbNode?)
      requires old(allocated(x)) && old(allocated(y)) && old(allocated(b)) && old(allocated(p))
      requires old(Shape())
      requires RotatedRight(x, y, b, p)
      ensures Shape()
    {
      forall n | n in repr ensures ShapeAt(n) {
        RotateRightLeftAt(x, y, b, p, n);
        RotateRightRightAt(x, y, b, p, n);
        RotateRightUpAt(x, y, b, p, n);
      }
      assert old(ShapeAt(x));
    }

    twostate lemma RotateRightLeftAt(new x: RbNode, new y: RbNode, new b: RbNode?, new p: RbNode?, new n: RbNode)
      requires old(allocated(x)) && old(allocated(y)) && old(allocated(b)) && old(allocated(p)) && old(allocated(n))
      requires old(Shape())
      requires RotatedRight(x, y, b, p)
      requires n in repr
      ensures LeftAt(n)
    {
      assert old(ShapeAt(n));
      assert old(ShapeAt(x));
      assert old(ShapeAt(y));
      assert old(n.left) != null ==> old(ShapeAt(n.left));
    }

    twostate lemma RotateRightRightAt(new x: RbNode, new y: RbNode, new b: RbNode?, new p: RbNode?, new n: RbNode)
      requires old(allocated(x)) && old(allocated(y)) && old(allocated(b)) && old(allocated(p)) && old(allocated(n))
      requires old(Shape())
      requires RotatedRight(x, y, b, p)
      requires n in repr
      ensures RightAt(n)
    {
      assert old(ShapeAt(n));
      assert old(ShapeAt(x));
      assert old(ShapeAt(y));
      assert old(n.right) != null ==> old(ShapeAt(n.right));
    }

    twostate lemma RotateRightUpAt(new x: RbNode, new y: RbNode, new b: RbNode?, new p: RbNode?, new n: RbNode)
      requires old(allocated(x)) && old(allocated(y)) && old(allocated(b)) && old(allocated(p)) && old(allocated(n))
      requires old(Shape())
      requires RotatedRight(x, y, b, p)
      requires n in repr
      ensures UpAt(n)
    {
      assert old(ShapeAt(n));
      assert old(ShapeAt(x));
      assert old(ShapeAt(y));
      assert p != null ==> old(ShapeAt(p));
      assert old(n.parent) != null ==> old(ShapeAt(n.parent));
    }

    // ---- Insertion ----

    // n is red, and it is the only node that may be red below a red parent.
    ghost predicate OneRed(n: RbNode)
      reads this, repr, n
    { n in repr && n.color == Red && Shape() && Balanced() && NoRedRed(n) && (n == node || RootBlack()) }

    // Only colours and black heights have changed.
    twostate predicate SameTree()
      reads this, repr
    {
      node == old(node) && repr == old(repr) && order == old(order) &&
      (forall n :: n in repr ==>
        (n.left == old(n.left) && n.right == old(n.right) && n.parent == old(n.parent) &&
         n.lo == old(n.lo) && n.hi == old(n.hi) && n.pos == old(n.pos)))
    }

    twostate lemma SameShape()
      requires old(Shape())
      requires SameTree()
      ensures Shape()
    {
      forall n | n in repr ensures ShapeAt(n) { assert old(ShapeAt(n)); }
    }

    // The uncle case: p and u turn black, their parent g turns red.
    twostate predicate Pushed(p: RbNode, u: RbNode, g: RbNode)
      reads this, repr, p, u, g
    {
      SameTree() && p in repr && u in repr && g in repr && p != u && g != p && g != u && Kids(g, p, u) &&
      old(p.color) == Red && old(u.color) == Red && old(g.color) == Black &&
      g.color == Red && p.color == Black && u.color == Black && p.bh == old(p.bh) + 1 && u.bh == old(u.bh) + 1 &&
      (forall m :: m in repr && m != p && m != u ==> m.bh == old(m.bh)) &&
      (forall m :: m in repr && m != p && m != u && m != g ==> m.color == old(m.color))
    }

    twostate lemma PushedBalanced(new p: RbNode, new u: RbNode, new g: RbNode)
      requires old(allocated(p)) && old(allocated(u)) && old(allocated(g))
      requires old(Shape())
      requires old(Balanced())
      requires Pushed(p, u, g)
      ensures Balanced()
    {
      assert old(ShapeAt(g));
      forall m | m in repr ensures BalancedAt(m) {
        assert old(BalancedAt(m));
        assert old(ShapeAt(m));
      }
    }

    twostate lemma PushedReds(new p: RbNode, new u: RbNode, new g: RbNode, new n: RbNode)
      requires old(allocated(p)) && old(allocated(u)) && old(allocated(g)) && old(allocated(n))
      requires old(Shape())
      requires old(NoRedRed(n))
      requires n.parent == p && n in repr
      requires Pushed(p, u, g)
      ensures NoRedRed(g)
    {
      assert old(ShapeAt(g));
      forall m | m in repr ensures RedAt(m, g) {
        assert old(RedAt(m, n));
        assert old(ShapeAt(m));
      }
    }

    method PushBlackDown(p: RbNode, u: RbNode, g: RbNode, ghost n: RbNode)
      requires OneRed(n)
      requires p in repr && u in repr && g in repr && p != u && g != p && g != u
      requires n.parent == p && p.color == Red && u.color == Red && g.color == Black && Kids(g, p, u)
      modifies repr`color, repr`bh
      ensures OneRed(g)
    {
      u.color := Black;
      p.color := Black;
      g.color := Red;
      u.bh, p.bh := u.bh + 1, p.bh + 1;
      SameShape();
      PushedBalanced(p, u, g);
      PushedReds(p, u, g, n);
      assert ShapeAt(n);
      assert ShapeAt(g);
      assert node != null ==> ShapeAt(node);
    }

    // Black heights are right everywhere but at x, y and z.
    ghost predicate BalancedOff(x: RbNode?, y: RbNode?, z: RbNode?)
      reads this, repr
    { forall n {:trigger BalancedAt(n)} :: n in repr && n != x && n != y && n != z ==> BalancedAt(n) }

    // Colours and black heights may have changed at x, y and z only.
    twostate predicate PaintedOnly(x: RbNode, y: RbNode, z: RbNode?)
      reads this, repr
    {
      repr == old(repr) &&
      forall m :: m in repr && m != x && m != y && m != z ==> m.color == old(m.color) && m.bh == old(m.bh)
    }

    // No red child under a red node, the child e and the parents x and y excepted.
    ghost predicate RedsOff(e: RbNode?, x: RbNode, y: RbNode)
      reads this, repr
    { forall n {:trigger RedAt(n, e)} :: n in repr && n != x && n != y ==> RedAt(n, e) }

    twostate lemma TurnedBalanced(new low: RbNode, new top: RbNode, new a: RbNode?, new b: RbNode?, new c: RbNode?,
                                  new d: RbNode?, new f: RbNode?)
      requires old(allocated(low)) && old(allocated(top)) && old(allocated(a)) && old(allocated(b)) &&
        old(allocated(c)) && old(allocated(d)) && old(allocated(f))
      requires old(Shape())
      requires old(BalancedOff(low, top, d))
      requires Turned(low, top, a, b, c)
      requires PaintedOnly(low, top, f) && top.bh == old(low.bh)
      requires f != null ==> f == d && f in repr && old(f.parent) == top
      ensures BalancedOff(low, top, d)
    {
      assert old(ShapeAt(low));
      forall m | m in repr && m != low && m != top && m != d ensures BalancedAt(m) {
        assert old(BalancedAt(m));
        assert old(ShapeAt(m));
      }
    }

    twostate lemma TurnedReds(new low: RbNode, new top: RbNode, new a: RbNode?, new b: RbNode?, new c: RbNode?,
                              new e: RbNode?, new f: RbNode?)
      requires old(allocated(low)) && old(allocated(top)) && old(allocated(a)) && old(allocated(b)) &&
        old(allocated(c)) && old(allocated(e)) && old(allocated(f))
      requires old(Shape())
      requires old(RedsOff(e, low, top))
      requires Turned(low, top, a, b, c)
      requires PaintedOnly(low, top, f) && (top.color == Red ==> old(low.color) == Red) && e != low
      requires f != null ==> f in repr && f.color == Black
      ensures RedsOff(e, low, top)
    {
      assert old(ShapeAt(low));
      forall m | m in repr && m != low && m != top ensures RedAt(m, e) {
        assert old(RedAt(m, e));
        assert old(ShapeAt(m));
      }
    }

    // The inner rotation of an insertion: two red nodes change places.
    twostate lemma InnerTurned(new p: RbNode, new n: RbNode, new a: RbNode?, new b: RbNode?, new c: RbNode?)
      requires old(allocated(p)) && old(allocated(n)) && old(allocated(a)) && old(allocated(b)) && old(allocated(c))
      requires old(Shape())
      requires old(Balanced())
      requires old(NoRedRed(n))
      requires Turned(p, n, a, b, c)
      requires PaintedOnly(p, p, null) && p.color == old(p.color) && p.bh == old(p.bh)
      requires p.color == Red && n.color == Red
      ensures Balanced() && NoRedRed(p)
    {
      assert old(BalancedAt(p));
      assert old(BalancedAt(n));
      assert old(ShapeAt(p));
      TurnedBalanced(p, n, a, b, c, null, null);
      InnerReds(p, n, a, b, c);
    }

    twostate lemma InnerReds(new p: RbNode, new n: RbNode, new a: RbNode?, new b: RbNode?, new c: RbNode?)
      requires old(allocated(p)) && old(allocated(n)) && old(allocated(a)) && old(allocated(b)) && old(allocated(c))
      requires old(Shape())
      requires old(NoRedRed(n))
      requires Turned(p, n, a, b, c)
      requires PaintedOnly(p, p, null) && p.color == old(p.color) && p.color == Red && n.color == Red
      ensures NoRedRed(p)
    {
      assert old(ShapeAt(p));
      assert old(ShapeAt(n));
      assert old(RedAt(p, n));
      assert old(RedAt(n, n));
      forall m | m in repr ensures RedAt(m, p) {
        assert old(RedAt(m, n));
        assert old(ShapeAt(m));
      }
    }

    // A red right child of a black node goes above it, and the two swap colours.
    method TurnRedLeft(low: RbNode, ghost d: RbNode?, ghost e: RbNode?)
      requires Shape() && low in repr && low.right != null && e != low
      requires low.color == Black && low.right.color == Red && low.bh == low.right.bh + 1
      requires BalancedOff(low, low.right, d) && RedsOff(e, low, low.right)
      modifies this`node, repr`left, repr`right, repr`parent, repr`lo, repr`hi, repr`color, repr`bh
      ensures Shape()
      ensures var top := old(low.right);
        Turned(low, top, old(low.left), old(low.right.left), old(low.right.right)) && PaintedOnly(low, top, null) &&
        low.color == Red && top.color == Black && low.bh == old(low.bh) - 1 && top.bh == old(low.bh) &&
        BalancedOff(low, top, d) && RedsOff(e, low, top) &&
        low.left == old(low.left) && low.right == old(low.right.left) && top.left == low &&
          top.parent == old(low.parent)
      ensures node == if old(node) == low then old(low.right) else old(node)
    {
      assert ShapeAt(low);
      var top := low.right;
      ghost var a, b, c := low.left, top.left, top.right;
      Paint(top, low);
      RotateLeft(low);
      Reheight(top, low);
      TurnedBalanced(low, top, a, b, c, d, null);
      TurnedReds(low, top, a, b, c, e, null);
    }

    // A red left child of a black node goes above it, and the two swap colours.
    method TurnRedRight(low: RbNode, ghost d: RbNode?, ghost e: RbNode?)
      requires Shape() && low in repr && low.left != null && e != low
      requires low.color == Black && low.left.color == Red && low.bh == low.left.bh + 1
      requires BalancedOff(low, low.left, d) && RedsOff(e, low, low.left)
      modifies this`node, repr`left, repr`right, repr`parent, repr`lo, repr`hi, repr`color, repr`bh
      ensures Shape()
      ensures var top := old(low.left);
        Turned(low, top, old(low.right), old(low.left.right), old(low.left.left)) && PaintedOnly(low, top, null) &&
        low.color == Red && top.color == Black && low.bh == old(low.bh) - 1 && top.bh == old(low.bh) &&
        BalancedOff(low, top, d) && RedsOff(e, low, top) &&
        low.right == old(low.right) && low.left == old(low.left.right) && top.right == low &&
          top.parent == old(low.parent)
      ensures node == if old(node) == low then old(low.left) else old(node)
    {
      assert ShapeAt(low);
      var top := low.left;
      ghost var a, b, c := low.right, top.right, top.left;
      Paint(top, low);
      RotateRight(low);
      Reheight(top, low);
      TurnedBalanced(low, top, a, b, c, d, null);
      TurnedReds(low, top, a, b, c, e, null);
    }

    method Paint(top: RbNode, low: RbNode)
      requires top in repr && low in repr && top != low && Shape()
      modifies top`color, low`color
      ensures top.color == Black && low.color == Red && Shape()
    {
      top.color := Black;
      low.color := Red;
      SameShape();
    }

    ghost method Reheight(top: RbNode, low: RbNode)
      requires top in repr && low in repr && top != low && Shape() && low.bh > 0
      modifies top`bh, low`bh
      ensures top.bh == old(top.bh) + 1 && low.bh == old(low.bh) - 1 && Shape()
    {
      top.bh := top.bh + 1;
      low.bh := low.bh - 1;
      SameShape();
    }

    method StraightenRedLeft(p: RbNode, n: RbNode)
      requires OneRed(n)
      requires p in repr && p.color == Red && p.right == n
      modifies this`node, repr`left, repr`right, repr`parent, repr`lo, repr`hi
      ensures OneRed(p) && p.parent == n && n.color == Red && n.left == p && n.parent == old(p.parent)
      ensures n.parent != null ==> n.parent.left == (if old(p.parent.left) == p then n else old(p.parent.left))
      ensures n.parent != null ==> n.parent.right == (if old(p.parent.right) == p then n else old(p.parent.right))
    {
      assert ShapeAt(p);
      assert ShapeAt(n);
      assert p.parent != null ==> ShapeAt(p.parent);
      ghost var a, b, c := p.left, n.left, n.right;
      RotateLeft(p);
      InnerTurned(p, n, a, b, c);
      assert ShapeAt(n);
    }

    method StraightenRedRight(p: RbNode, n: RbNode)
      requires OneRed(n)
      requires p in repr && p.color == Red && p.left == n
      modifies this`node, repr`left, repr`right, repr`parent, repr`lo, repr`hi
      ensures OneRed(p) && p.parent == n && n.color == Red && n.right == p && n.parent == old(p.parent)
      ensures n.parent != null ==> n.parent.left == (if old(p.parent.left) == p then n else old(p.parent.left))
      ensures n.parent != null ==> n.parent.right == (if old(p.parent.right) == p then n else old(p.parent.right))
    {
      assert ShapeAt(p);
      assert ShapeAt(n);
      assert p.parent != null ==> ShapeAt(p.parent);
      ghost var a, b, c := p.right, n.right, n.left;
      RotateRight(p);
      InnerTurned(p, n, a, b, c);
      assert ShapeAt(n);
    }

    lemma OuterDone(low: RbNode, top: RbNode, u: RbNode?, b: RbNode?, n: RbNode)
      requires Shape() && BalancedOff(low, top, null) && RedsOff(n, low, top)
      requires low in repr && top in repr && Kids(low, u, b) && Kids(top, low, n)
      requires low.color == Red && top.color == Black && top.bh == low.bh + 1
      requires low.bh == Bh(u) && low.bh == Bh(b) && low.bh == Bh(n) && !IsRed(u) && !IsRed(b)
      ensures Balanced() && NoRedRed(null)
    {
      assert ShapeAt(top);
      forall m | m in repr ensures BalancedAt(m) { }
      forall m | m in repr ensures RedAt(m, null) {
        assert m != low && m != top ==> RedAt(m, n);
        assert ShapeAt(m);
      }
    }

    // The last step of rb_insert_color: parent above gparent.
    method LiftParentLeft(gparent: RbNode, ghost parent: RbNode, ghost n: RbNode)
      requires OneRed(n) && n.parent == parent && parent.right == n && parent.parent == gparent &&
        gparent.right == parent
      requires gparent in repr && parent in repr && parent.color == Red && gparent.color == Black &&
        !IsRed(gparent.left)
      modifies this`node, repr`left, repr`right, repr`parent, repr`lo, repr`hi, repr`color, repr`bh
      ensures OneRed(n) && n.parent == parent && parent.color == Black
    {
      assert ShapeAt(n);
      assert ShapeAt(parent);
      assert ShapeAt(gparent);
      assert BalancedAt(gparent);
      assert BalancedAt(parent);
      assert RedAt(parent, n);
      ghost var u, b := gparent.left, parent.left;
      TurnRedLeft(gparent, null, n);
      OuterDone(gparent, parent, u, b, n);
      assert ShapeAt(parent);
      assert node != null ==> ShapeAt(node);
    }

    // The last step of rb_insert_color: parent above gparent.
    method LiftParentRight(gparent: RbNode, ghost parent: RbNode, ghost n: RbNode)
      requires OneRed(n) && n.parent == parent && parent.left == n && parent.parent == gparent && gparent.left == parent
      requires gparent in repr && parent in repr && parent.color == Red && gparent.color == Black &&
        !IsRed(gparent.right)
      modifies this`node, repr`left, repr`right, repr`parent, repr`lo, repr`hi, repr`color, repr`bh
      ensures OneRed(n) && n.parent == parent && parent.color == Black
    {
      assert ShapeAt(n);
      assert ShapeAt(parent);
      assert ShapeAt(gparent);
      assert BalancedAt(gparent);
      assert BalancedAt(parent);
      assert RedAt(parent, n);
      ghost var u, b := gparent.right, parent.right;
      TurnRedRight(gparent, null, n);
      OuterDone(gparent, parent, u, b, n);
      assert ShapeAt(parent);
      assert node != null ==> ShapeAt(node);
    }

    // One round of the fix-up loop of an insertion, with the parent on the left: either two levels up, or done.
    method InsertStepLeft(n: RbNode, parent: RbNode, gparent: RbNode) returns (m: RbNode)
      requires OneRed(n) && n.parent == parent && parent in repr && parent.color == Red
      requires parent.parent == gparent && gparent in repr && gparent.left == parent
      modifies this`node, repr`left, repr`right, repr`parent, repr`lo, repr`hi, repr`color, repr`bh
      ensures OneRed(m)
      ensures !IsRed(m.parent) || (m == gparent && m.lo == old(gparent.lo) && m.hi == old(gparent.hi))
    {
      assert ShapeAt(n);
      assert ShapeAt(parent);
      assert ShapeAt(gparent);
      assert RedAt(gparent, n);
      var uncle := gparent.right;
      if uncle != null && uncle.color == Red {
        PushBlackDown(parent, uncle, gparent, n);
        return gparent;
      }
      m := n;
      var top := parent;
      if parent.right == n {
        StraightenRedLeft(parent, n);
        top, m := n, parent;
      }
      LiftParentRight(gparent, top, m);
      assert ShapeAt(m);
    }

    // One round of the fix-up loop of an insertion, with the parent on the right: either two levels up, or done.
    method InsertStepRight(n: RbNode, parent: RbNode, gparent: RbNode) returns (m: RbNode)
      requires OneRed(n) && n.parent == parent && parent in repr && parent.color == Red
      requires parent.parent == gparent && gparent in repr && gparent.right == parent
      modifies this`node, repr`left, repr`right, repr`parent, repr`lo, repr`hi, repr`color, repr`bh
      ensures OneRed(m)
      ensures !IsRed(m.parent) || (m == gparent && m.lo == old(gparent.lo) && m.hi == old(gparent.hi))
    {
      assert ShapeAt(n);
      assert ShapeAt(parent);
      assert ShapeAt(gparent);
      assert RedAt(gparent, n);
      var uncle := gparent.left;
      if uncle != null && uncle.color == Red {
        PushBlackDown(parent, uncle, gparent, n);
        return gparent;
      }
      m := n;
      var top := parent;
      if parent.left == n {
        StraightenRedRight(parent, n);
        top, m := n, parent;
      }
      LiftParentLeft(gparent, top, m);
      assert ShapeAt(m);
    }

    // rb_insert_color: after a red leaf has been linked
    method InsertColor(n0: RbNode)
      requires OneRed(n0)
      modifies this`node, repr`left, repr`right, repr`parent, repr`lo, repr`hi, repr`color, repr`bh
      ensures Valid()
    {
      var n: RbNode := n0;
      assert ShapeAt(n);
      while n.parent != null && n.parent.color == Red
        invariant OneRed(n) && ShapeAt(n)
        decreases n.parent != null && n.parent.color == Red, |order| - (n.hi - n.lo)
      {
        var parent := n.parent;
        assert ShapeAt(parent);
        var gparent := parent.parent;
        assert ShapeAt(gparent);
        assert RedAt(gparent, n);
        if parent == gparent.left {
          n := InsertStepLeft(n, parent, gparent);
        } else {
          n := InsertStepRight(n, parent, gparent);
        }
        assert ShapeAt(n);
      }
      Finish(n);
    }

    // The root is painted black.
    method Finish(ghost n: RbNode)
      requires OneRed(n) && !IsRed(n.parent)
      modifies node`color, node`bh
      ensures Valid()
    {
      assert ShapeAt(n);
      ghost var wasRed := node.color == Red;
      node.color := Black;
      if wasRed {
        node.bh := node.bh + 1;
      }
      FinishValid(n);
    }

    twostate lemma FinishValid(new n: RbNode)
      requires old(allocated(n))
      requires old(OneRed(n))
      requires old(!IsRed(n.parent))
      requires SameTree() && node != null && node.color == Black
      requires node.bh == old(node.bh) + (if old(node.color) == Red then 1 else 0)
      requires forall m :: m in repr && m != node ==> m.color == old(m.color) && m.bh == old(m.bh)
      ensures Valid()
    {
      SameShape();
      assert old(ShapeAt(n));
      assert old(ShapeAt(node));
      forall m | m in repr ensures BalancedAt(m) {
        assert old(BalancedAt(m));
        assert old(ShapeAt(m));
      }
      forall m | m in repr ensures RedAt(m, null) {
        assert old(RedAt(m, n));
        assert old(ShapeAt(m));
      }
    }

    // ---- Erasure ----

    ghost function Other(p: RbNode, n: RbNode?): RbNode?
      reads p
    { if p.left == n then p.right else p.left }

    // Below nodes other than n, no red child under a red node, the child n excepted.
    ghost predicate RedsBut(n: RbNode?)
      reads this, repr
    { forall m {:trigger RedAt(m, n)} :: m in repr && m != n ==> RedAt(m, n) }

    // Paths through the subtree n below p carry one black node too few.
    ghost predicate Short(n: RbNode?, p: RbNode?)
      reads this, repr
    {
      Shape() && BalancedOff(p, p, p) && RedsBut(n) && (n == node || RootBlack()) &&
      (n != null ==> n in repr && n.parent == p) &&
      (p == null ==> n == node) &&
      (p != null ==> p in repr && (p.left == n || p.right == n) && Bh(n) + 1 == Bh(Other(p, n)) &&
                     p.bh == Bh(n) + 1 + (if p.color == Black then 1 else 0))
    }

    // A red sibling goes above p.
    method LiftSiblingLeft(p: RbNode, n: RbNode?)
      requires Short(n, p) && !IsRed(n) && n != node && p.left == n && p.right != null && p.right.color == Red
      modifies this`node, repr`left, repr`right, repr`parent, repr`lo, repr`hi, repr`color, repr`bh
      ensures Short(n, p) && !IsRed(n) && n != node && p.color == Red && p.left == n && p.right != null &&
        p.right.color == Black
    {
      assert ShapeAt(p);
      var top := p.right;
      assert ShapeAt(top);
      assert BalancedAt(top);
      assert RedAt(p, n);
      assert RedAt(top, n);
      ghost var b, c := top.left, top.right;
      TurnRedLeft(p, p, n);
      assert ShapeAt(top);
      assert ShapeAt(p);
      LiftedSibling(p, top, n, b, c);
    }

    // A red sibling goes above p.
    method LiftSiblingRight(p: RbNode, n: RbNode?)
      requires Short(n, p) && !IsRed(n) && n != node && p.right == n && p.left != null && p.left.color == Red
      modifies this`node, repr`left, repr`right, repr`parent, repr`lo, repr`hi, repr`color, repr`bh
      ensures Short(n, p) && !IsRed(n) && n != node && p.color == Red && p.right == n && p.left != null &&
        p.left.color == Black
    {
      assert ShapeAt(p);
      var top := p.left;
      assert ShapeAt(top);
      assert BalancedAt(top);
      assert RedAt(p, n);
      assert RedAt(top, n);
      ghost var b, c := top.right, top.left;
      TurnRedRight(p, p, n);
      assert ShapeAt(top);
      assert ShapeAt(p);
      LiftedSibling(p, top, n, b, c);
    }

    lemma LiftedSibling(p: RbNode, top: RbNode, n: RbNode?, b: RbNode?, c: RbNode?)
      requires Shape() && BalancedOff(p, top, p) && RedsOff(n, p, top) && p in repr && top in repr
      requires Kids(p, n, b) && Kids(top, p, c) && !IsRed(n) && !IsRed(b) && p.color == Red && top.color == Black
      requires Bh(n) + 1 == Bh(b) && p.bh == Bh(b) && top.bh == Bh(b) + 1 && Bh(c) == Bh(b)
      requires n == null || n in repr
      requires p.parent == top && (node == top || RootBlack())
      ensures Short(n, p)
    {
      assert ShapeAt(p);
      forall m | m in repr && m != n ensures RedAt(m, n) { assert m != p && m != top ==> RedAt(m, n); }
      forall m | m in repr && m != p ensures BalancedAt(m) { }
    }

    // A black sibling with no red child turns red, and the missing node moves up to p.
    method Blame(p: RbNode, n: RbNode?, o: RbNode)
      requires Short(n, p) && !IsRed(n) && n != node && Kids(p, n, o) && o in repr && n != o && o.color == Black
      requires !IsRed(o.left) && !IsRed(o.right)
      modifies repr`color, repr`bh
      ensures Short(p, p.parent) && p.color == old(p.color)
    {
      assert ShapeAt(p);
      o.color := Red;
      o.bh, p.bh := o.bh - 1, p.bh - 1;
      BlamedShort(p, n, o);
    }

    twostate lemma BlamedShort(new p: RbNode, new n: RbNode?, new o: RbNode)
      requires old(allocated(p)) && old(allocated(n)) && old(allocated(o))
      requires old(Short(n, p))
      requires BlamePainted(p, n, o)
      requires old(!IsRed(n)) && n != node
      requires old(!IsRed(o.left) && !IsRed(o.right))
      ensures Short(p, p.parent)
    {
      SameShape();
      BlamedBalanced(p, n, o) by { assert old(ShapeAt(p)); }
      BlamedReds(p, n, o);
      BlamedParent(p, n, o);
    }

    // Above p, nothing but the black height of p has changed.
    twostate lemma BlamedParent(new p: RbNode, new n: RbNode?, new o: RbNode)
      requires old(allocated(p)) && old(allocated(n)) && old(allocated(o))
      requires old(Shape())
      requires old(BalancedOff(p, p, p))
      requires old(n == node || RootBlack())
      requires n != node && Shape() && BlamePainted(p, n, o)
      ensures p == node || RootBlack()
      ensures p.parent == null ==> p == node
      ensures var g := p.parent;
        g != null ==> g in repr && (g.left == p || g.right == p) && Bh(p) + 1 == Bh(Other(g, p)) &&
                      g.bh == Bh(p) + 1 + (if g.color == Black then 1 else 0)
    {
      assert ShapeAt(p);
      assert ShapeAt(o);
      var g := p.parent;
      if g != null {
        assert ShapeAt(g);
        assert old(BalancedAt(g));
      }
      assert node != null ==> ShapeAt(node);
    }

    // What blaming p changes: o is red, and o and p are one black node lower.
    twostate predicate BlamePainted(p: RbNode, n: RbNode?, o: RbNode)
      reads this, repr, p, o
    {
      SameTree() && p in repr && o in repr && p != o && n != o && n != p && Kids(p, n, o) &&
      PaintedOnly(p, o, null) && old(o.color) == Black && o.color == Red && p.color == old(p.color) &&
      o.bh == old(o.bh) - 1 && p.bh == old(p.bh) - 1
    }

    twostate lemma BlamedBalanced(new p: RbNode, new n: RbNode?, new o: RbNode)
      requires old(allocated(p)) && old(allocated(n)) && old(allocated(o))
      requires old(Shape())
      requires old(BalancedOff(p, p, p))
      requires old(Bh(n)) + 1 == old(o.bh) && old(p.bh) == old(o.bh) + (if p.color == Black then 1 else 0)
      requires BlamePainted(p, n, o)
      ensures BalancedOff(p.parent, p.parent, p.parent)
    {
      assert old(ShapeAt(p));
      assert old(BalancedAt(o));
      forall m | m in repr && m != p.parent ensures BalancedAt(m) {
        assert m != p ==> old(BalancedAt(m));
        assert old(ShapeAt(m));
      }
    }

    twostate lemma BlamedReds(new p: RbNode, new n: RbNode?, new o: RbNode)
      requires old(allocated(p)) && old(allocated(n)) && old(allocated(o))
      requires old(Shape())
      requires old(RedsBut(n))
      requires old(!IsRed(n))
      requires old(!IsRed(o.left) && !IsRed(o.right))
      requires BlamePainted(p, n, o)
      ensures RedsBut(p)
    {
      assert old(ShapeAt(p));
      forall m | m in repr && m != p ensures RedAt(m, p) {
        assert m != n ==> old(RedAt(m, n));
        assert old(ShapeAt(m));
      }
    }

    // The near nephew is red, the far one is not: the near one goes above the sibling o.
    method LiftNephewLeft(p: RbNode, n: RbNode?, o: RbNode)
      requires Short(n, p) && !IsRed(n) && n != node && p.left == n && p.right == o && o in repr && o.color == Black
      requires o.left != null && o.left.color == Red && !IsRed(o.right)
      modifies this`node, repr`left, repr`right, repr`parent, repr`lo, repr`hi, repr`color, repr`bh
      ensures Short(n, p) && !IsRed(n) && n != node && p.left == n && p.right != null && p.right.color == Black
      ensures p.right.right != null && p.right.right.color == Red
    {
      assert ShapeAt(p);
      assert ShapeAt(o);
      var top := o.left;
      assert ShapeAt(top);
      assert BalancedAt(o);
      assert BalancedAt(top);
      assert RedAt(top, n);
      ghost var a, b, c := o.right, top.right, top.left;
      TurnRedRight(o, p, n);
      assert ShapeAt(top);
      assert ShapeAt(p);
      assert ShapeAt(o);
      LiftedNephew(p, n, o, top, a, b, c);
    }

    // The near nephew is red, the far one is not: the near one goes above the sibling o.
    method LiftNephewRight(p: RbNode, n: RbNode?, o: RbNode)
      requires Short(n, p) && !IsRed(n) && n != node && p.right == n && p.left == o && o in repr && o.color == Black
      requires o.right != null && o.right.color == Red && !IsRed(o.left)
      modifies this`node, repr`left, repr`right, repr`parent, repr`lo, repr`hi, repr`color, repr`bh
      ensures Short(n, p) && !IsRed(n) && n != node && p.right == n && p.left != null && p.left.color == Black
      ensures p.left.left != null && p.left.left.color == Red
    {
      assert ShapeAt(p);
      assert ShapeAt(o);
      var top := o.right;
      assert ShapeAt(top);
      assert BalancedAt(o);
      assert BalancedAt(top);
      assert RedAt(top, n);
      ghost var a, b, c := o.left, top.left, top.right;
      TurnRedLeft(o, p, n);
      assert ShapeAt(top);
      assert ShapeAt(p);
      assert ShapeAt(o);
      LiftedNephew(p, n, o, top, a, b, c);
    }

    lemma LiftedNephew(p: RbNode, n: RbNode?, o: RbNode, top: RbNode, a: RbNode?, b: RbNode?, c: RbNode?)
      requires Shape() && BalancedOff(o, top, p) && RedsOff(n, o, top) && p in repr && top in repr && o in repr
      requires Kids(p, n, top) && Kids(o, a, b) && Kids(top, o, c) && n != top
      requires !IsRed(a) && !IsRed(b) && !IsRed(n) && o.color == Red && top.color == Black
      requires Bh(a) == Bh(b) && Bh(c) == Bh(b) && o.bh == Bh(b) && top.bh == Bh(b) + 1
      requires Bh(n) + 1 == top.bh && p.bh == Bh(n) + 1 + (if p.color == Black then 1 else 0)
      requires (n == null || (n in repr && n.parent == p)) && RootBlack()
      ensures Short(n, p)
    {
      forall m | m in repr && m != n ensures RedAt(m, n) { assert m != o && m != top ==> RedAt(m, n); }
      forall m | m in repr && m != p ensures BalancedAt(m) { }
    }

    // The far nephew is red: the sibling o takes p's place and colour, p and the nephew turn black.
    method LiftFarLeft(p: RbNode, ghost n: RbNode?, o: RbNode)
      requires Short(n, p) && !IsRed(n) && n != node && p.left == n && p.right == o && o in repr && o.color == Black
      requires o.right != null && o.right.color == Red
      modifies this`node, repr`left, repr`right, repr`parent, repr`lo, repr`hi, repr`color, repr`bh
      ensures Valid()
    {
      var far := o.right;
      ghost var b := o.left;
      FarFacts(p, n, o, b, far);
      PaintFar(p, o, far);
      RotateLeft(p);
      ReheightFar(p, o, far);
      TurnedBalanced(p, o, n, b, far, far, far);
      TurnedReds(p, o, n, b, far, n, far);
      LiftedFar(p, n, o, b, far);
    }

    // The far nephew is red: the sibling o takes p's place and colour, p and the nephew turn black.
    method LiftFarRight(p: RbNode, ghost n: RbNode?, o: RbNode)
      requires Short(n, p) && !IsRed(n) && n != node && p.right == n && p.left == o && o in repr && o.color == Black
      requires o.left != null && o.left.color == Red
      modifies this`node, repr`left, repr`right, repr`parent, repr`lo, repr`hi, repr`color, repr`bh
      ensures Valid()
    {
      var far := o.left;
      ghost var b := o.right;
      FarFacts(p, n, o, b, far);
      PaintFar(p, o, far);
      RotateRight(p);
      ReheightFar(p, o, far);
      TurnedBalanced(p, o, n, b, far, far, far);
      TurnedReds(p, o, n, b, far, n, far);
      LiftedFar(p, n, o, b, far);
    }

    lemma FarFacts(p: RbNode, n: RbNode?, o: RbNode, b: RbNode?, far: RbNode)
      requires Short(n, p) && n != node && p in repr && o in repr && Kids(p, n, o) && Kids(o, b, far) && n != o &&
        !IsRed(n)
      requires o.color == Black && (o.left == far || o.right == far) && far.color == Red
      ensures far in repr && n != far && b != far && b != o && node != o && node != far && far != p && far != o &&
        p != o && far.parent == o && (b == null || b in repr) && (n == null || n in repr) && n != p && b != p
      ensures o.bh == Bh(n) + 1 && Bh(b) == Bh(n) && far.bh == Bh(n) && Bh(far.left) == Bh(n) && Bh(far.right) == Bh(n)
      ensures node == p ==> p.color == Black
      ensures far.left != far && far.right != far && BalancedOff(p, o, far) && RedsOff(n, p, o)
    {
      assert ShapeAt(p);
      assert ShapeAt(o);
      assert ShapeAt(far);
      assert BalancedAt(o);
      assert BalancedAt(far);
      if b != null { assert ShapeAt(b); }
    }

    method PaintFar(p: RbNode, o: RbNode, far: RbNode)
      requires p in repr && o in repr && far in repr && p != o && p != far && o != far && Shape()
      modifies p`color, o`color, far`color
      ensures o.color == old(p.color) && p.color == Black && far.color == Black && Shape()
    {
      o.color := p.color;
      p.color := Black;
      far.color := Black;
      SameShape();
    }

    ghost method ReheightFar(p: RbNode, o: RbNode, far: RbNode)
      requires p in repr && o in repr && far in repr && p != o && p != far && o != far && Shape()
      modifies p`bh, o`bh, far`bh
      ensures o.bh == old(p.bh) && p.bh == old(o.bh) && far.bh == old(far.bh) + 1 && Shape()
    {
      o.bh, p.bh, far.bh := p.bh, o.bh, far.bh + 1;
      SameShape();
    }

    lemma LiftedFar(p: RbNode, n: RbNode?, o: RbNode, b: RbNode?, far: RbNode)
      requires Shape() && BalancedOff(p, o, far) && RedsOff(n, p, o) && RootBlack() && !IsRed(n)
      requires p in repr && o in repr && far in repr && Kids(p, n, b) && Kids(o, p, far) && p.color == Black &&
        far.color == Black
      requires Bh(n) == Bh(b) && p.bh == Bh(n) + 1 && far.bh == p.bh &&
        o.bh == p.bh + (if o.color == Black then 1 else 0)
      requires Bh(far.left) == Bh(far.right) && Bh(far.left) + 1 == far.bh
      ensures Valid()
    {
      forall m | m in repr ensures RedAt(m, null) { assert m != p && m != o ==> RedAt(m, n); }
      forall m | m in repr ensures BalancedAt(m) { }
    }

    // Some nephew is red: the erasure is settled by one or two rotations.
    method SettleLeft(p: RbNode, n: RbNode?, o: RbNode)
      requires Short(n, p) && !IsRed(n) && n != node && p.left == n && p.right == o && o in repr && o.color == Black
      requires IsRed(o.left) || IsRed(o.right)
      modifies this`node, repr`left, repr`right, repr`parent, repr`lo, repr`hi, repr`color, repr`bh
      ensures Valid()
    {
      var other := o;
      assert ShapeAt(o);
      if other.right == null || other.right.color == Black {
        LiftNephewLeft(p, n, other);
        other := p.right;
        assert ShapeAt(p);
      }
      LiftFarLeft(p, n, other);
    }

    // Some nephew is red: the erasure is settled by one or two rotations.
    method SettleRight(p: RbNode, n: RbNode?, o: RbNode)
      requires Short(n, p) && !IsRed(n) && n != node && p.right == n && p.left == o && o in repr && o.color == Black
      requires IsRed(o.right) || IsRed(o.left)
      modifies this`node, repr`left, repr`right, repr`parent, repr`lo, repr`hi, repr`color, repr`bh
      ensures Valid()
    {
      var other := o;
      assert ShapeAt(o);
      if other.left == null || other.left.color == Black {
        LiftNephewRight(p, n, other);
        other := p.left;
        assert ShapeAt(p);
      }
      LiftFarRight(p, n, other);
    }

    // One round of the fix-up loop with n on the left; up is null once the tree is in order.
    method EraseStepLeft(n: RbNode?, p: RbNode) returns (m: RbNode?, up: RbNode?)
      requires Short(n, p) && !IsRed(n) && n != node && p.left == n
      modifies this`node, repr`left, repr`right, repr`parent, repr`lo, repr`hi, repr`color, repr`bh
      ensures Short(m, up)
      ensures m == node || (m == p && (p.color == Red || (p.lo == old(p.lo) && p.hi == old(p.hi))))
    {
      assert ShapeAt(p);
      var other := p.right;
      if other.color == Red {
        LiftSiblingLeft(p, n);
        assert ShapeAt(p);
        other := p.right;
      }
      assert ShapeAt(other);
      if (other.left == null || other.left.color == Black) && (other.right == null || other.right.color == Black) {
        Blame(p, n, other);
        m := p;
        up := p.parent;
      } else {
        SettleLeft(p, n, other);
        m := node;
        up := null;
        SettledShort();
      }
    }

    // One round of the fix-up loop with n on the right; up is null once the tree is in order.
    method EraseStepRight(n: RbNode?, p: RbNode) returns (m: RbNode?, up: RbNode?)
      requires Short(n, p) && !IsRed(n) && n != node && p.right == n
      modifies this`node, repr`left, repr`right, repr`parent, repr`lo, repr`hi, repr`color, repr`bh
      ensures Short(m, up)
      ensures m == node || (m == p && (p.color == Red || (p.lo == old(p.lo) && p.hi == old(p.hi))))
    {
      assert ShapeAt(p);
      var other := p.left;
      if other.color == Red {
        LiftSiblingRight(p, n);
        assert ShapeAt(p);
        other := p.left;
      }
      assert ShapeAt(other);
      if (other.left == null || other.left.color == Black) && (other.right == null || other.right.color == Black) {
        Blame(p, n, other);
        m := p;
        up := p.parent;
      } else {
        SettleRight(p, n, other);
        m := node;
        up := null;
        SettledShort();
      }
    }

    lemma SettledShort()
      requires Valid()
      ensures Short(node, null)
    {
      assert node != null ==> ShapeAt(node);
      forall m | m in repr && m != node ensures RedAt(m, node) { assert RedAt(m, null); }
    }

    // __rb_erase_color: after a black node has been taken out
    method EraseColor(n0: RbNode?, parent0: RbNode?)
      requires Short(n0, parent0)
      modifies this`node, repr`left, repr`right, repr`parent, repr`lo, repr`hi, repr`color, repr`bh
      ensures Valid()
    {
      var n, parent := n0, parent0;
      while (n == null || n.color == Black) && n != node
        invariant Short(n, parent)
        decreases if (n == null || n.color == Black) && n != node
                  then 1 + |order| - (if n == null then 0 else n.hi - n.lo) else 0
      {
        assert n != null ==> ShapeAt(n);
        assert ShapeAt(parent);
        if parent.left == n {
          n, parent := EraseStepLeft(n, parent);
        } else {
          n, parent := EraseStepRight(n, parent);
        }
        assert n != null ==> ShapeAt(n);
      }
      if n != null {
        Blacken(n, parent);
      } else {
        EmptyValid();
      }
    }

    lemma EmptyValid()
      requires Short(null, null)
      ensures Valid()
    {}

    method Blacken(n: RbNode, ghost p: RbNode?)
      requires Short(n, p) && (n.color == Red || n == node)
      modifies n`color, n`bh
      ensures Valid()
    {
      ghost var wasRed := n.color == Red;
      n.color := Black;
      if wasRed {
        n.bh := n.bh + 1;
      }
      BlackenedValid(n, p);
    }

    twostate lemma BlackenedValid(new n: RbNode, new p: RbNode?)
      requires old(allocated(n)) && old(allocated(p))
      requires old(Short(n, p))
      requires n in repr && SameTree() && n.color == Black
      requires old(n.color) == Red || n == node
      requires n.bh == old(n.bh) + (if old(n.color) == Red then 1 else 0)
      requires forall m :: m in repr && m != n ==> m.color == old(m.color) && m.bh == old(m.bh)
      ensures Valid()
    {
      SameShape();
      BlackenedBalanced(n, p);
      forall m | m in repr ensures RedAt(m, null) {
        assert m != n ==> old(RedAt(m, n));
        assert old(ShapeAt(m));
      }
    }

    twostate lemma BlackenedBalanced(new n: RbNode, new p: RbNode?)
      requires old(allocated(n)) && old(allocated(p))
      requires old(Short(n, p))
      requires n in repr && SameTree() && n.color == Black
      requires old(n.color) == Red || n == node
      requires n.bh == old(n.bh) + (if old(n.color) == Red then 1 else 0)
      requires forall m :: m in repr && m != n ==> m.color == old(m.color) && m.bh == old(m.bh)
      ensures Balanced()
    {
      assert old(ShapeAt(n));
      if p != null { assert old(ShapeAt(p)); }
      forall m | m in repr ensures BalancedAt(m) {
        assert m != p ==> old(BalancedAt(m));
        assert old(ShapeAt(m));
      }
    }

    // ---- Taking a node with at most one child out ----

    // Positions after the removal of position k.
    static ghost function Cut(v: int, k: int): int { if v > k then v - 1 else v }

    // What taking n out changes; c takes its place below p.
    twostate predicate Unlinked(n: RbNode, c: RbNode?, p: RbNode?)
      reads this, repr, p, c
    {
      repr == old(repr) - {n} && n in old(repr) && n !in repr && p != n && c != n && p == old(n.parent) &&
      old(0 <= n.pos < |order|) && order == old(order[..n.pos] + order[n.pos + 1..]) &&
      ((old(n.left) == null && c == old(n.right)) || (old(n.right) == null && c == old(n.left))) &&
      (c != null ==> c in repr && c.parent == p) &&
      (p == null ==> node == c) && (p != null ==> p in repr && node == old(node)) &&
      (p != null && old(p.left) == n ==> p.left == c && p.right == old(p.right)) &&
      (p != null && old(p.left) != n ==> p.left == old(p.left) && p.right == c) &&
      (forall m :: m in repr && m != c ==> m.parent == old(m.parent)) &&
      (forall m :: m in repr && m != p ==> m.left == old(m.left) && m.right == old(m.right)) &&
      (forall m :: m in repr ==>
        (m.lo == Cut(old(m.lo), old(n.pos)) && m.pos == Cut(old(m.pos), old(n.pos)) &&
          m.hi == Cut(old(m.hi), old(n.pos)) &&
         m.color == old(m.color) && m.bh == old(m.bh)))
    }

    ghost predicate CanUnlink(n: RbNode, c: RbNode?)
      reads this, repr, n
    {
      n in repr && 0 <= n.pos < |order| && ((n.left == null && c == n.right) || (n.right == null && c == n.left)) &&
        c != n && n.parent != n &&
      (c != null ==> c in repr && c != n.parent) && (n.parent != null ==> n.parent in repr)
    }

    method CutOut(n: RbNode, child: RbNode?)
      requires CanUnlink(n, child)
      modifies this, repr`left, repr`right, repr`parent, repr`lo, repr`hi, repr`pos
      ensures Unlinked(n, child, old(n.parent))
      ensures n.left == old(n.left) && n.right == old(n.right) && n.parent == old(n.parent)
    {
      var parent := n.parent;
      if child != null {
        child.parent := parent;
      }
      Swing(parent, n, child);
      Close(n);
    }

    // The ghost side of removing n: every later position moves down by one.
    ghost method Close(n: RbNode)
      requires n in repr && 0 <= n.pos < |order|
      modifies this`repr, this`order, repr`lo, repr`hi, repr`pos
      ensures repr == old(repr) - {n} && order == old(order[..n.pos] + order[n.pos + 1..])
      ensures forall m :: m in repr ==>
        (m.lo == Cut(old(m.lo), old(n.pos)) && m.pos == Cut(old(m.pos), old(n.pos)) &&
          m.hi == Cut(old(m.hi), old(n.pos)))
    {
      var k := n.pos;
      repr := repr - {n};
      order := order[..k] + order[k + 1..];
      forall m | m in repr { m.lo := Cut(m.lo, k); }
      forall m | m in repr { m.hi := Cut(m.hi, k); }
      forall m | m in repr { m.pos := Cut(m.pos, k); }
    }

    twostate lemma UnlinkedShape(new n: RbNode, new c: RbNode?, new p: RbNode?)
      requires old(allocated(n)) && old(allocated(c)) && old(allocated(p))
      requires old(Shape())
      requires Unlinked(n, c, p)
      ensures Shape()
    {
      forall m | m in repr ensures ShapeAt(m) {
        UnlinkedLeftAt(n, c, p, m);
        UnlinkedRightAt(n, c, p, m);
        UnlinkedUpAt(n, c, p, m);
      }
      UnlinkedListed(n, c, p);
      assert old(ShapeAt(n));
    }

    twostate lemma UnlinkedListed(new n: RbNode, new c: RbNode?, new p: RbNode?)
      requires old(allocated(n)) && old(allocated(c)) && old(allocated(p))
      requires old(Shape())
      requires Unlinked(n, c, p)
      ensures Listed()
    {
      var k := old(n.pos);
      assert old(order)[k] == n;
      assert old(forall i :: 0 <= i < |order| ==> order[i].pos == i);
    }

    twostate lemma UnlinkedLeftAt(new n: RbNode, new c: RbNode?, new p: RbNode?, new m: RbNode)
      requires old(allocated(n)) && old(allocated(c)) && old(allocated(p)) && old(allocated(m))
      requires old(Shape())
      requires Unlinked(n, c, p)
      requires m in repr
      ensures LeftAt(m)
    {
      assert old(ShapeAt(m));
      assert old(ShapeAt(n));
      assert old(m.left) != null ==> old(ShapeAt(m.left));
      assert c != null ==> old(ShapeAt(c));
    }

    twostate lemma UnlinkedRightAt(new n: RbNode, new c: RbNode?, new p: RbNode?, new m: RbNode)
      requires old(allocated(n)) && old(allocated(c)) && old(allocated(p)) && old(allocated(m))
      requires old(Shape())
      requires Unlinked(n, c, p)
      requires m in repr
      ensures RightAt(m)
    {
      assert old(ShapeAt(m));
      assert old(ShapeAt(n));
      assert old(m.right) != null ==> old(ShapeAt(m.right));
      assert c != null ==> old(ShapeAt(c));
    }

    twostate lemma UnlinkedUpAt(new n: RbNode, new c: RbNode?, new p: RbNode?, new m: RbNode)
      requires old(allocated(n)) && old(allocated(c)) && old(allocated(p)) && old(allocated(m))
      requires old(Shape())
      requires Unlinked(n, c, p)
      requires m in repr
      ensures UpAt(m)
    {
      assert old(ShapeAt(m));
      assert old(ShapeAt(n));
      assert p != null ==> old(ShapeAt(p));
      assert old(m.parent) != null ==> old(ShapeAt(m.parent));
    }

    twostate lemma UnlinkedColors(new n: RbNode, new c: RbNode?, new p: RbNode?)
      requires old(allocated(n)) && old(allocated(c)) && old(allocated(p))
      requires old(Valid())
      requires Unlinked(n, c, p)
      ensures if old(n.color) == Black then BalancedOff(p, p, p) && RedsBut(c) else Balanced() && NoRedRed(null)
    {
      assert old(ShapeAt(n));
      assert old(BalancedAt(n));
      assert old(RedAt(n, null));
      forall m | m in repr && m != p ensures BalancedAt(m) {
        assert old(BalancedAt(m));
        assert old(ShapeAt(m));
      }
      forall m | m in repr && m != c ensures RedAt(m, c) {
        assert old(RedAt(m, null));
        assert old(ShapeAt(m));
      }
      if old(n.color) == Red {
        assert p != null ==> old(BalancedAt(p));
        assert p != null ==> old(RedAt(p, null));
        forall m | m in repr ensures RedAt(m, null) {
          assert old(RedAt(m, null));
          assert old(ShapeAt(m));
        }
      }
    }

    // Takes n, which has at most one child, out of the tree; child takes its place below parent.
    method Unlink(n: RbNode, child: RbNode?)
      requires Valid() && n in repr && ((n.left == null && child == n.right) || (n.right == null && child == n.left))
      modifies this, repr`left, repr`right, repr`parent, repr`lo, repr`hi, repr`pos
      ensures repr == old(repr) - {n} && old(0 <= n.pos < |order|) && order == old(order[..n.pos] + order[n.pos + 1..])
      ensures n.parent == old(n.parent) && (forall m :: m in repr ==> m.pos == Cut(old(m.pos), old(n.pos)))
      ensures if old(n.color) == Black then Short(child, n.parent) else Valid()
    {
      hide Listed, BalancedOff, Cut, IsRed;
      assert ShapeAt(n);
      assert child != null ==> ShapeAt(child);
      assert BalancedAt(n);
      ghost var p := n.parent;
      if p != null { assert ShapeAt(p); assert BalancedAt(p); assert RedAt(p, null); }
      assert node != null ==> ShapeAt(node);
      CutOut(n, child);
      UnlinkedShape(n, child, p);
      UnlinkedColors(n, child, p);
    }

    // ---- Replacing a node in place ----

    // What putting y in the place of v, with v's children a and b and its parent p, changes.
    twostate predicate Replaced(v: RbNode, y: RbNode, p: RbNode?, a: RbNode?, b: RbNode?)
      reads this, repr, y, p, a, b
    {
      v in old(repr) && y !in old(repr) && repr == old(repr) - {v} + {y} && p == old(v.parent) && a == old(v.left) &&
        b == old(v.right) &&
      old(0 <= v.pos < |order|) && order == old(order[v.pos := y]) &&
      y.left == a && y.right == b && y.parent == p && y.color == old(v.color) &&
      y.lo == old(v.lo) && y.pos == old(v.pos) && y.hi == old(v.hi) && y.bh == old(v.bh) &&
      (a != null ==> a in repr && a != y && a.parent == y) && (b != null ==> b in repr && b != y && b.parent == y) &&
      (p == null ==> node == y) && (p != null ==> p in repr && p != y && node == old(node)) &&
      (p != null && old(p.left) == v ==> p.left == y && p.right == old(p.right)) &&
      (p != null && old(p.left) != v ==> p.left == old(p.left) && p.right == y) &&
      (forall m :: m in repr && m != y && m != a && m != b ==> m.parent == old(m.parent)) &&
      (forall m :: m in repr && m != y && m != p ==> m.left == old(m.left) && m.right == old(m.right)) &&
      (forall m :: m in repr && m != y ==>
        (m.lo == old(m.lo) && m.pos == old(m.pos) && m.hi == old(m.hi) && m.color == old(m.color) && m.bh == old(m.bh)))
    }

    ghost predicate CanReplace(v: RbNode, y: RbNode)
      reads this, repr, v
    {
      v in repr && y !in repr && 0 <= v.pos < |order| &&
      (v.left != null ==> v.left in repr && v.left != v) && (v.right != null ==> v.right in repr && v.right != v) &&
      (v.parent != null ==> v.parent in repr && v.parent != v && v.parent != v.left && v.parent != v.right)
    }

    method Substitute(v: RbNode, y: RbNode)
      requires CanReplace(v, y)
      modifies this, repr`left, repr`right, repr`parent, y`left, y`right, y`parent, y`color, y`lo, y`pos, y`hi, y`bh
      ensures Replaced(v, y, old(v.parent), old(v.left), old(v.right))
    {
      Relink(v, y);
      Inherit(v, y);
    }

    // The links of y and its neighbours, and its colour.
    method Relink(v: RbNode, y: RbNode)
      requires CanReplace(v, y)
      modifies this`node, repr`left, repr`right, repr`parent, y`left, y`right, y`parent, y`color
      ensures y.left == old(v.left) && y.right == old(v.right) && y.parent == old(v.parent) && y.color == old(v.color)
      ensures old(v.left) != null ==> old(v.left).parent == y
      ensures old(v.right) != null ==> old(v.right).parent == y
      ensures node == if old(v.parent) == null then y else old(node)
      ensures var p := old(v.parent);
        p != null ==> if old(v.parent.left) == v then p.left == y && p.right == old(v.parent.right)
                      else p.left == old(v.parent.left) && p.right == y
      ensures forall m :: m in repr && m != old(v.left) && m != old(v.right) ==> m.parent == old(m.parent)
      ensures forall m :: m in repr && m != old(v.parent) ==> m.left == old(m.left) && m.right == old(m.right)
    {
      Swing(v.parent, v, y);
      Adopt(v, y);
      y.parent, y.color, y.right, y.left := v.parent, v.color, v.right, v.left;
    }

    // The children of v get y as their parent.
    static method Adopt(v: RbNode, y: RbNode)
      requires v.left != v && v.right != v
      modifies Opt(v.left)`parent, Opt(v.right)`parent
      ensures v.left != null ==> v.left.parent == y
      ensures v.right != null ==> v.right.parent == y
    {
      if v.left != null {
        v.left.parent := y;
      }
      if v.right != null {
        v.right.parent := y;
      }
    }

    // The ghost side of putting y in v's place.
    ghost method Inherit(v: RbNode, y: RbNode)
      requires v in repr && y !in repr && 0 <= v.pos < |order|
      modifies this`repr, this`order, y`lo, y`pos, y`hi, y`bh
      ensures y.lo == v.lo && y.pos == v.pos && y.hi == v.hi && y.bh == v.bh
      ensures repr == old(repr) - {v} + {y} && order == old(order)[v.pos := y]
    {
      y.lo, y.pos, y.hi, y.bh := v.lo, v.pos, v.hi, v.bh;
      repr := repr - {v} + {y};
      order := order[v.pos := y];
    }

    twostate lemma ReplacedShape(new v: RbNode, new y: RbNode, new p: RbNode?, new a: RbNode?, new b: RbNode?)
      requires old(allocated(v)) && old(allocated(y)) && old(allocated(p)) && old(allocated(a)) && old(allocated(b))
      requires old(Shape())
      requires Replaced(v, y, p, a, b)
      ensures Shape()
    {
      ReplacedListed(v, y, p, a, b);
      forall m | m in repr ensures ShapeAt(m) {
        ReplacedLeftAt(v, y, p, a, b, m);
        ReplacedRightAt(v, y, p, a, b, m);
        ReplacedUpAt(v, y, p, a, b, m);
      }
    }

    twostate lemma ReplacedListed(new v: RbNode, new y: RbNode, new p: RbNode?, new a: RbNode?, new b: RbNode?)
      requires old(allocated(v)) && old(allocated(y)) && old(allocated(p)) && old(allocated(a)) && old(allocated(b))
      requires old(Shape())
      requires Replaced(v, y, p, a, b)
      ensures Listed() && node != null && node in repr
    {
      assert old(ShapeAt(v));
      assert old(forall i :: 0 <= i < |order| ==> order[i].pos == i);
    }

    twostate lemma ReplacedLeftAt(new v: RbNode, new y: RbNode, new p: RbNode?, new a: RbNode?, new b: RbNode?,
                                  new m: RbNode)
      requires old(allocated(v)) && old(allocated(y)) && old(allocated(p)) && old(allocated(a)) && old(allocated(b)) &&
        old(allocated(m))
      requires old(Shape())
      requires Replaced(v, y, p, a, b)
      requires m in repr
      ensures LeftAt(m)
    {
      assert old(ShapeAt(v));
      if m != y {
        assert old(ShapeAt(m));
        if old(m.left) != null { assert old(ShapeAt(m.left)); }
      } else if a != null {
        assert old(ShapeAt(a));
      }
    }

    twostate lemma ReplacedRightAt(new v: RbNode, new y: RbNode, new p: RbNode?, new a: RbNode?, new b: RbNode?,
                                   new m: RbNode)
      requires old(allocated(v)) && old(allocated(y)) && old(allocated(p)) && old(allocated(a)) && old(allocated(b)) &&
        old(allocated(m))
      requires old(Shape())
      requires Replaced(v, y, p, a, b)
      requires m in repr
      ensures RightAt(m)
    {
      assert old(ShapeAt(v));
      if m != y {
        assert old(ShapeAt(m));
        if old(m.right) != null { assert old(ShapeAt(m.right)); }
      } else if b != null {
        assert old(ShapeAt(b));
      }
    }

    twostate lemma ReplacedUpAt(new v: RbNode, new y: RbNode, new p: RbNode?, new a: RbNode?, new b: RbNode?,
                                new m: RbNode)
      requires old(allocated(v)) && old(allocated(y)) && old(allocated(p)) && old(allocated(a)) && old(allocated(b)) &&
        old(allocated(m))
      requires old(Shape())
      requires Replaced(v, y, p, a, b)
      requires m in repr
      ensures UpAt(m)
    {
      assert old(ShapeAt(v));
      if m != y {
        assert old(ShapeAt(m));
        if old(m.parent) != null { assert old(ShapeAt(m.parent)); }
      }
      if p != null { assert old(ShapeAt(p)); }
    }

    twostate lemma ReplacedBalanced(new v: RbNode, new y: RbNode, new p: RbNode?, new a: RbNode?, new b: RbNode?,
                                    new z: RbNode?)
      requires old(allocated(v)) && old(allocated(y)) && old(allocated(p)) && old(allocated(a)) && old(allocated(b)) &&
        old(allocated(z))
      requires old(Shape())
      requires Replaced(v, y, p, a, b)
      requires old(BalancedOff(z, z, z))
      requires z != y
      ensures var z' := if z == v then y else z; BalancedOff(z', z', z')
    {
      var z' := if z == v then y else z;
      assert old(ShapeAt(v));
      forall m | m in repr && m != z' ensures BalancedAt(m) {
        var m0 := if m == y then v else m;
        assert old(BalancedAt(m0));
        assert old(ShapeAt(m0));
      }
    }

    twostate lemma ReplacedReds(new v: RbNode, new y: RbNode, new p: RbNode?, new a: RbNode?, new b: RbNode?,
                                new e: RbNode?)
      requires old(allocated(v)) && old(allocated(y)) && old(allocated(p)) && old(allocated(a)) && old(allocated(b)) &&
        old(allocated(e))
      requires old(Shape())
      requires Replaced(v, y, p, a, b)
      requires old(RedsBut(e))
      requires e != v && e != y
      ensures RedsBut(e)
    {
      assert old(ShapeAt(v));
      forall m | m in repr && m != e ensures RedAt(m, e) {
        var m0 := if m == y then v else m;
        assert old(RedAt(m0, e));
        assert old(ShapeAt(m0));
      }
    }

    // n may lack a black node below p, as in Short, when short holds; otherwise the tree is in order.
    ghost predicate ShortIf(short: bool, n: RbNode?, p: RbNode?)
      reads this, repr
    { if short then Short(n, p) else Valid() }

    twostate lemma ReplacedShortIf(new v: RbNode, new y: RbNode, new p: RbNode?, new a: RbNode?, new b: RbNode?,
                                   new short: bool, new n: RbNode?, new q: RbNode?)
      requires old(allocated(v)) && old(allocated(y)) && old(allocated(p)) && old(allocated(a)) && old(allocated(b)) &&
        old(allocated(n)) && old(allocated(q))
      requires old(ShortIf(short, n, q))
      requires Replaced(v, y, p, a, b)
      requires n != v && n != y && q != y
      ensures ShortIf(short, n, if q == v then y else q)
    {
      if short {
        ReplacedShort(v, y, p, a, b, n, q);
      } else {
        ReplacedShape(v, y, p, a, b);
        assert old(ShapeAt(v));
        ReplacedBalanced(v, y, p, a, b, null);
        ReplacedReds(v, y, p, a, b, null);
      }
    }

    twostate lemma ReplacedShort(new v: RbNode, new y: RbNode, new p: RbNode?, new a: RbNode?, new b: RbNode?,
                                 new n: RbNode?, new q: RbNode?)
      requires old(allocated(v)) && old(allocated(y)) && old(allocated(p)) && old(allocated(a)) && old(allocated(b)) &&
        old(allocated(n)) && old(allocated(q))
      requires old(Short(n, q))
      requires Replaced(v, y, p, a, b)
      requires n != v && n != y && q != y
      ensures Short(n, if q == v then y else q)
    {
      hide Listed, BalancedAt, BalancedOff;
      ReplacedShape(v, y, p, a, b);
      ReplacedBalanced(v, y, p, a, b, q);
      ReplacedReds(v, y, p, a, b, n);
      assert old(ShapeAt(v));
      if q != null { assert old(ShapeAt(q)); }
    }

    method ReplaceNode(v: RbNode, y: RbNode, ghost short: bool, ghost n: RbNode?, ghost q: RbNode?)
      requires ShortIf(short, n, q) && v in repr && y !in repr && n != v && n != y && q != y
      modifies this, repr`left, repr`right, repr`parent, y`left, y`right, y`parent, y`color, y`lo, y`pos, y`hi, y`bh
      ensures Replaced(v, y, old(v.parent), old(v.left), old(v.right))
      ensures ShortIf(short, n, if q == v then y else q)
    {
      CanReplaceFacts(v, y);
      ghost var p, a, b := v.parent, v.left, v.right;
      Substitute(v, y);
      ReplacedShortIf(v, y, p, a, b, short, n, q);
    }

    lemma CanReplaceFacts(v: RbNode, y: RbNode)
      requires Shape() && v in repr && y !in repr
      ensures CanReplace(v, y)
    {
      assert ShapeAt(v);
      if v.left != null { assert ShapeAt(v.left); }
      if v.right != null { assert ShapeAt(v.right); }
      if v.parent != null { assert ShapeAt(v.parent); }
    }

    // ---- rb_erase ----

    method Leftmost(n0: RbNode) returns (n: RbNode)
      requires Shape() && n0 in repr
      ensures n in repr && n.left == null && n.pos == n0.lo
    {
      n := n0;
      assert ShapeAt(n);
      while n.left != null
        invariant n in repr && n.lo == n0.lo && ShapeAt(n)
        decreases n.hi - n.lo
      {
        n := n.left;
        assert ShapeAt(n);
      }
    }

    // rb_erase: whichever children n has, a red-black tree of the other nodes remains, in their order.
    method Erase(n: RbNode)
      requires Valid() && n in repr
      modifies this, repr`left, repr`right, repr`parent, repr`color, repr`lo, repr`pos, repr`hi, repr`bh
      ensures Valid() && repr == old(repr) - {n} && old(0 <= n.pos < |order|) &&
        order == old(order[..n.pos] + order[n.pos + 1..])
      ensures forall m :: m in repr ==> m.pos == Cut(old(m.pos), old(n.pos))
    {
      assert ShapeAt(n);
      if n.left == null {
        EraseLeaf(n, n.right);
      } else if n.right == null {
        EraseLeaf(n, n.left);
      } else {
        EraseInner(n);
      }
      CutPositions(n, old(n.pos));
    }

    twostate lemma CutPositions(new n: RbNode, new k: int)
      requires old(allocated(n))
      requires old(Listed())
      requires Listed() && repr == old(repr) - {n} && n in old(repr) && k == old(n.pos)
      requires 0 <= k < |old(order)| && order == old(order)[..k] + old(order)[k + 1..]
      ensures forall m :: m in repr ==> m.pos == Cut(old(m.pos), k)
    {
      forall m | m in repr ensures m.pos == Cut(old(m.pos), k) {
        var j := if m.pos < k then m.pos else m.pos + 1;
        assert old(order)[j] == m;
        assert old(forall i :: 0 <= i < |order| ==> order[i].pos == i);
      }
    }

    // rb_erase of a node with at most one child
    method EraseLeaf(n: RbNode, child: RbNode?)
      requires Valid() && n in repr && ((n.left == null && child == n.right) || (n.right == null && child == n.left))
      modifies this, repr`left, repr`right, repr`parent, repr`color, repr`lo, repr`pos, repr`hi, repr`bh
      ensures Valid() && repr == old(repr) - {n} && old(0 <= n.pos < |order|) &&
        order == old(order[..n.pos] + order[n.pos + 1..])
    {
      var parent := n.parent;
      var color := n.color;
      Unlink(n, child);
      if color == Black {
        EraseColor(child, parent);
      }
    }

    // The successor y of n leaves its place; its labels in the shortened tree sit right after n's.
    method PullSuccessor(n: RbNode) returns (y: RbNode, child: RbNode?, parent: RbNode?, color: Color)
      requires Valid() && n in repr && n.left != null && n.right != null
      modifies this, repr`left, repr`right, repr`parent, repr`lo, repr`hi, repr`pos
      ensures y in old(repr) && y != n && child != n && child != y && parent != y
      ensures repr == old(repr) - {y} && ShortIf(color == Black, child, parent)
      ensures n.pos == old(n.pos) && 0 <= n.pos && n.pos + 1 < |old(order)| && y == old(order)[n.pos + 1]
      ensures order == old(order)[..n.pos + 1] + old(order)[n.pos + 2..]
    {
      RightBranch(n);
      assert Shape();
      hide Shape, Valid, Short;
      y := Leftmost(n.right);
      SuccessorFacts(n, y);
      child := y.right;
      parent := y.parent;
      color := y.color;
      Unlink(y, child);
    }

    lemma RightBranch(n: RbNode)
      requires Shape() && n in repr && n.right != null
      ensures n.right in repr && n.right.lo == n.pos + 1
    {
      assert ShapeAt(n);
      assert ShapeAt(n.right);
    }

    lemma SuccessorFacts(n: RbNode, y: RbNode)
      requires Shape() && n in repr && y in repr && y.left == null && y.pos == n.pos + 1
      ensures y != n && y.right != n && y.right != y && y.parent != y
      ensures 0 <= n.pos && n.pos + 1 < |order| && order[n.pos + 1] == y
    {
      assert ShapeAt(n);
      assert ShapeAt(y);
      if y.right != null { assert ShapeAt(y.right); }
    }

    static lemma SkipOne(s: seq<RbNode>, k: nat, t: seq<RbNode>)
      requires k + 1 < |s| && t == s[..k + 1] + s[k + 2..]
      ensures t[k := s[k + 1]] == s[..k] + s[k + 1..]
    {}

    // rb_erase of a node with two children: its successor takes its place
    method EraseInner(n: RbNode)
      requires Valid() && n in repr && n.left != null && n.right != null
      modifies this, repr`left, repr`right, repr`parent, repr`color, repr`lo, repr`pos, repr`hi, repr`bh
      ensures Valid() && repr == old(repr) - {n} && old(0 <= n.pos < |order|) &&
        order == old(order[..n.pos] + order[n.pos + 1..])
    {
      ghost var k := n.pos;
      var y, child, parent, color := PullSuccessor(n);
      SkipOne(old(order), k, order);
      ReplaceNode(n, y, color == Black, child, parent);
      if parent == n {
        parent := y;
      }
      if color == Black {
        EraseColor(child, parent);
      }
    }

    // ---- Linking a new leaf ----

    // link is an empty slot of the tree below parent.
    ghost predicate Vacant(parent: RbNode?, link: Link)
      reads this, repr
    {
      match link
      case AtRoot => parent == null && node == null
      case LeftOf(p) => parent == p && p in repr && p.left == null
      case RightOf(p) => parent == p && p in repr && p.right == null
    }

    // The position a node linked there will have.
    ghost function Slot(link: Link): int
      reads this, repr, if link.AtRoot? then {} else {link.p}
    {
      match link
      case AtRoot => 0
      case LeftOf(p) => p.pos
      case RightOf(p) => p.pos + 1
    }

    static ghost predicate Over(lo: int, hi: int, q: int) { lo <= q < hi }

    // What linking n at position k below p, which is at position q, changes.
    twostate predicate Linked(n: RbNode, p: RbNode?, link: Link, k: int, q: int)
      reads this, repr, n, p
    {
      n !in old(repr) && repr == old(repr) + {n} && 0 <= k <= |old(order)| &&
        order == old(order)[..k] + [n] + old(order)[k..] &&
      old(Vacant(p, link)) && k == old(Slot(link)) && (if p == null then q == 0 else q == old(p.pos)) && p != n &&
      n.left == null && n.right == null && n.parent == p && n.color == Red && n.bh == 0 && n.lo == k && n.pos == k &&
        n.hi == k + 1 &&
      (if link.AtRoot? then node == n else node == old(node)) &&
      (link.LeftOf? ==> p.left == n && p.right == old(p.right)) &&
        (link.RightOf? ==> p.right == n && p.left == old(p.left)) &&
      (forall m :: m in repr && m != n ==> m.parent == old(m.parent) && m.color == old(m.color) && m.bh == old(m.bh)) &&
      (forall m :: m in repr && m != n && m != p ==> m.left == old(m.left) && m.right == old(m.right)) &&
      (forall m :: m in repr && m != n ==>
        (m.pos == old(m.pos) + (if old(m.pos) >= k then 1 else 0) &&
         m.lo == old(m.lo) + (if !Over(old(m.lo), old(m.hi), q) && old(m.lo) >= k then 1 else 0) &&
         m.hi == old(m.hi) + (if Over(old(m.lo), old(m.hi), q) || old(m.hi) > k then 1 else 0)))
    }

    // The ghost side of linking n at position k below the node at position q.
    ghost method Widen(n: RbNode, k: int, q: int)
      requires n !in repr && 0 <= k <= |order|
      modifies this`repr, this`order, repr`lo, repr`pos, repr`hi, n`lo, n`pos, n`hi, n`bh
      ensures repr == old(repr) + {n} && order == old(order)[..k] + [n] + old(order)[k..]
      ensures n.bh == 0 && n.lo == k && n.pos == k && n.hi == k + 1
      ensures forall m :: m in repr && m != n ==>
        (m.pos == old(m.pos) + (if old(m.pos) >= k then 1 else 0) &&
         m.lo == old(m.lo) + (if !Over(old(m.lo), old(m.hi), q) && old(m.lo) >= k then 1 else 0) &&
         m.hi == old(m.hi) + (if Over(old(m.lo), old(m.hi), q) || old(m.hi) > k then 1 else 0))
    {
      forall m | m in repr { m.pos := m.pos + (if m.pos >= k then 1 else 0); }
      forall m | m in repr { m.lo := m.lo + (if !Over(m.lo, m.hi, q) && m.lo >= k then 1 else 0); }
      forall m | m in repr { m.hi := m.hi + (if Over(old(m.lo), m.hi, q) || m.hi > k then 1 else 0); }
      repr := repr + {n};
      order := order[..k] + [n] + order[k..];
      n.bh, n.lo, n.pos, n.hi := 0, k, k, k + 1;
    }

    method Plant(n: RbNode, parent: RbNode?, link: Link)
      requires n !in repr && Vacant(parent, link) && 0 <= Slot(link) <= |order|
      modifies this, repr`left, repr`right, repr`parent, repr`color, repr`lo, repr`pos, repr`hi, repr`bh,
        n`left, n`right, n`parent, n`color, n`lo, n`pos, n`hi, n`bh
      ensures Linked(n, parent, link, old(Slot(link)), if parent == null then 0 else old(parent.pos))
    {
      ghost var k, q := Slot(link), if parent == null then 0 else parent.pos;
      n.parent := parent;
      n.color := Red;
      n.left, n.right := null, null;
      match link {
        case AtRoot => node := n;
        case LeftOf(p) => p.left := n;
        case RightOf(p) => p.right := n;
      }
      Widen(n, k, q);
    }

    twostate lemma LinkedShape(new n: RbNode, new p: RbNode?, new link: Link, new k: int, new q: int)
      requires old(allocated(n)) && old(allocated(p)) && old(allocated(link))
      requires old(Shape())
      requires Linked(n, p, link, k, q)
      ensures Shape()
    {
      if p != null { assert old(ShapeAt(p)); }
      LinkedListed(n, p, link, k, q);
      forall m | m in repr ensures ShapeAt(m) {
        LinkedLeftAt(n, p, link, k, q, m);
        LinkedRightAt(n, p, link, k, q, m);
        LinkedUpAt(n, p, link, k, q, m);
      }
    }

    twostate lemma LinkedListed(new n: RbNode, new p: RbNode?, new link: Link, new k: int, new q: int)
      requires old(allocated(n)) && old(allocated(p)) && old(allocated(link))
      requires old(Shape())
      requires Linked(n, p, link, k, q)
      ensures Listed()
    {
    }

    twostate lemma LinkedLeftAt(new n: RbNode, new p: RbNode?, new link: Link, new k: int, new q: int, new m: RbNode)
      requires old(allocated(n)) && old(allocated(p)) && old(allocated(link)) && old(allocated(m))
      requires old(Shape())
      requires Linked(n, p, link, k, q)
      requires m in repr
      ensures LeftAt(m)
    {
      if p != null { assert old(ShapeAt(p)); }
      if m != n {
        assert old(ShapeAt(m));
        if old(m.left) != null { assert old(ShapeAt(m.left)); }
      }
    }

    twostate lemma LinkedRightAt(new n: RbNode, new p: RbNode?, new link: Link, new k: int, new q: int, new m: RbNode)
      requires old(allocated(n)) && old(allocated(p)) && old(allocated(link)) && old(allocated(m))
      requires old(Shape())
      requires Linked(n, p, link, k, q)
      requires m in repr
      ensures RightAt(m)
    {
      if p != null { assert old(ShapeAt(p)); }
      if m != n {
        assert old(ShapeAt(m));
        if old(m.right) != null { assert old(ShapeAt(m.right)); }
      }
    }

    twostate lemma LinkedUpAt(new n: RbNode, new p: RbNode?, new link: Link, new k: int, new q: int, new m: RbNode)
      requires old(allocated(n)) && old(allocated(p)) && old(allocated(link)) && old(allocated(m))
      requires old(Shape())
      requires Linked(n, p, link, k, q)
      requires m in repr
      ensures UpAt(m)
    {
      if p != null {
        assert old(ShapeAt(p));
      }
      if m != n {
        assert old(ShapeAt(m));
        if old(m.parent) != null { assert old(ShapeAt(m.parent)); }
      }
    }

    twostate lemma LinkedColors(new n: RbNode, new p: RbNode?, new link: Link, new k: int, new q: int)
      requires old(allocated(n)) && old(allocated(p)) && old(allocated(link))
      requires old(Valid())
      requires Linked(n, p, link, k, q)
      ensures Balanced() && NoRedRed(n)
    {
      forall m | m in repr ensures BalancedAt(m) {
        if m != n {
          assert old(BalancedAt(m));
          assert old(ShapeAt(m));
        }
      }
      forall m | m in repr ensures RedAt(m, n) {
        if m != n {
          assert old(RedAt(m, null));
          assert old(ShapeAt(m));
        }
      }
    }

    // rb_link_node: the new red leaf takes the position that its place in the tree gives it.
    method LinkNode(n: RbNode, parent: RbNode?, link: Link)
      requires Valid() && n !in repr && Vacant(parent, link)
      modifies this, repr`left, repr`right, repr`parent, repr`color, repr`lo, repr`pos, repr`hi, repr`bh,
        n`left, n`right, n`parent, n`color, n`lo, n`pos, n`hi, n`bh
      ensures OneRed(n) && repr == old(repr) + {n}
      ensures 0 <= old(Slot(link)) <= |old(order)|
      ensures order == old(order)[..old(Slot(link))] + [n] + old(order)[old(Slot(link))..]
      ensures n.pos == old(Slot(link))
      ensures forall m :: m in repr && m != n ==> m.pos == old(m.pos) + (if old(m.pos) >= old(Slot(link)) then 1 else 0)
    {
      if parent != null { assert ShapeAt(parent); }
      ghost var k, q := Slot(link), if parent == null then 0 else parent.pos;
      Plant(n, parent, link);
      LinkedShape(n, parent, link, k, q);
      LinkedColors(n, parent, link, k, q);
    }

    // ---- rb_first, rb_last, rb_next, rb_prev ----

    method First() returns (n: RbNode?)
      requires Shape()
      ensures n == if order == [] then null else order[0]
    {
      n := node;
      if n == null {
        return;
      }
      assert ShapeAt(n);
      while n.left != null
        invariant n != null && n in repr && n.lo == 0
        decreases n.hi - n.lo
      {
        assert ShapeAt(n);
        n := n.left;
        assert ShapeAt(n);
      }
      assert ShapeAt(n);
    }

    method Next(n0: RbNode) returns (r: RbNode?)
      requires Shape() && n0 in repr
      ensures 0 <= n0.pos < |order| && order[n0.pos] == n0
      ensures r == if n0.pos + 1 == |order| then null else order[n0.pos + 1]
    {
      var n := n0;
      assert ShapeAt(n);
      if n.right != null {
        n := n.right;
        assert ShapeAt(n);
        while n.left != null
          invariant n in repr && n.lo == n0.pos + 1
          decreases n.hi - n.lo
        {
          assert ShapeAt(n);
          n := n.left;
          assert ShapeAt(n);
        }
        assert ShapeAt(n);
        return n;
      }
      while n.parent != null && n == n.parent.right
        invariant n in repr && n.hi == n0.pos + 1
        decreases |order| - (n.hi - n.lo)
      {
        assert ShapeAt(n);
        n := n.parent;
        assert ShapeAt(n);
      }
      assert ShapeAt(n);
      r := n.parent;
      if r != null { assert ShapeAt(r); }
    }

    method Last() returns (n: RbNode?)
      requires Shape()
      ensures n == if order == [] then null else order[|order| - 1]
    {
      n := node;
      if n == null {
        return;
      }
      assert ShapeAt(n);
      while n.right != null
        invariant n != null && n in repr && n.hi == |order|
        decreases n.hi - n.lo
      {
        assert ShapeAt(n);
        n := n.right;
        assert ShapeAt(n);
      }
      assert ShapeAt(n);
    }

    method Prev(n0: RbNode) returns (r: RbNode?)
      requires Shape() && n0 in repr
      ensures 0 <= n0.pos < |order| && order[n0.pos] == n0
      ensures r == if n0.pos == 0 then null else order[n0.pos - 1]
    {
      var n := n0;
      assert ShapeAt(n);
      if n.left != null {
        n := n.left;
        assert ShapeAt(n);
        while n.right != null
          invariant n in repr && n.hi == n0.pos
          decreases n.hi - n.lo
        {
          assert ShapeAt(n);
          n := n.right;
          assert ShapeAt(n);
        }
        assert ShapeAt(n);
        return n;
      }
      while n.parent != null && n == n.parent.left
        invariant n in repr && n.lo == n0.pos
        decreases |order| - (n.hi - n.lo)
      {
        assert ShapeAt(n);
        n := n.parent;
        assert ShapeAt(n);
      }
      assert ShapeAt(n);
      r := n.parent;
      if r != null { assert ShapeAt(r); }
    }

    // rb_first, and then rb_next until it returns NULL: every node once, in order.
    method VisitAll() returns (visited: seq<RbNode>)
      requires Shape()
      ensures visited == order
    {
      visited := [];
      var n := First();
      while n != null
        invariant |visited| <= |order| && visited == order[..|visited|]
        invariant n == if |visited| < |order| then order[|visited|] else null
        decreases |order| - |visited|
      {
        visited := visited + [n];
        n := Next(n);
      }
    }

    // The nodes below n as the child pointers spell them out.
    ghost function InOrder(n: RbNode?): seq<RbNode>
      requires Shape() && (n != null ==> n in repr)
      reads this, repr
      decreases if n == null then 0 else n.hi - n.lo
    {
      if n == null then [] else
      assert ShapeAt(n);
      assert n.left != null ==> ShapeAt(n.left);
      assert n.right != null ==> ShapeAt(n.right);
      InOrder(n.left) + [n] + InOrder(n.right)
    }

    static lemma SliceJoin(s: seq<RbNode>, lo: int, pos: int, hi: int)
      requires 0 <= lo <= pos < hi <= |s|
      ensures s[lo..hi] == s[lo..pos] + [s[pos]] + s[pos + 1..hi]
    {}

    lemma {:induction false} InOrderSlice(n: RbNode)
      requires Shape() && n in repr
      ensures 0 <= n.lo <= n.hi <= |order| && InOrder(n) == order[n.lo..n.hi]
      decreases n.hi - n.lo
    {
      assert ShapeAt(n) && (n.left != null ==> ShapeAt(n.left)) && (n.right != null ==> ShapeAt(n.right));
      hide Shape;
      if n.left != null { InOrderSlice(n.left); }
      if n.right != null { InOrderSlice(n.right); }
      SliceJoin(order, n.lo, n.pos, n.hi);
    }

    lemma InOrderIsOrder()
      requires Shape()
      ensures InOrder(node) == order
    {
      if node != null {
        InOrderSlice(node);
        assert ShapeAt(node);
      }
    }

    // A way down from n to a missing child: left where the turn is true, right where it is false.
    ghost predicate Descends(n: RbNode?, turns: seq<bool>)
      requires Shape() && (n != null ==> n in repr)
      reads this, repr
      decreases |turns|
    {
      if n == null then turns == [] else
      turns != [] &&
      (assert ShapeAt(n); Descends(if turns[0] then n.left else n.right, turns[1..]))
    }

    // The number of black nodes on the way.
    ghost function Blacks(n: RbNode?, turns: seq<bool>): nat
      requires Shape() && (n != null ==> n in repr) && Descends(n, turns)
      reads this, repr
      decreases |turns|
    {
      if n == null then 0 else
      assert ShapeAt(n);
      (if n.color == Black then 1 else 0) + Blacks(if turns[0] then n.left else n.right, turns[1..])
    }

    // Every way down passes the same number of black nodes, and no two red ones in a row.
    lemma {:induction false} WaysDown(n: RbNode?, turns: seq<bool>)
      requires Valid() && (n != null ==> n in repr) && Descends(n, turns)
      ensures Blacks(n, turns) == Bh(n) <= |turns| <= 2 * Bh(n) + (if IsRed(n) then 1 else 0)
      decreases |turns|
    {
      if n != null {
        assert ShapeAt(n);
        assert BalancedAt(n);
        assert RedAt(n, null);
        WaysDown(if turns[0] then n.left else n.right, turns[1..]);
      }
    }

    // So no way down from the root is more than twice as long as another, and all have equally many black nodes.
    lemma EvenlyDeep(turns: seq<bool>, others: seq<bool>)
      requires Valid() && Descends(node, turns) && Descends(node, others)
      ensures Blacks(node, turns) == Blacks(node, others) && |turns| <= 2 * |others|
    {
      WaysDown(node, turns);
      WaysDown(node, others);
    }

    // The number of nodes on the longest way down from n.
    ghost function Height(n: RbNode?): nat
      requires Shape() && (n != null ==> n in repr)
      reads this, repr
      decreases if n == null then 0 else n.hi - n.lo
    {
      if n == null then 0 else
      assert ShapeAt(n);
      assert n.left != null ==> ShapeAt(n.left);
      assert n.right != null ==> ShapeAt(n.right);
      1 + Max(Height(n.left), Height(n.right))
    }

    lemma {:induction false} BlackHeightBounds(n: RbNode)
      requires Valid() && n in repr
      ensures Height(n) <= 2 * n.bh + (if n.color == Red then 1 else 0)
      ensures Pow2(n.bh) <= n.hi - n.lo + 1
      decreases n.hi - n.lo
    {
      assert ShapeAt(n);
      assert BalancedAt(n);
      assert RedAt(n, null);
      if n.left != null { assert ShapeAt(n.left); BlackHeightBounds(n.left); }
      if n.right != null { assert ShapeAt(n.right); BlackHeightBounds(n.right); }
    }

    // Twice the logarithm of the number of nodes bounds the longest path.
    lemma HeightLogarithmic()
      requires Valid()
      ensures Pow2((Height(node) + 1) / 2) <= |order| + 1
    {
      if node != null {
        assert ShapeAt(node);
        BlackHeightBounds(node);
        Pow2Monotone((Height(node) + 1) / 2, node.bh);
      }
    }
  }

  function Max(a: nat, b: nat): nat { if a < b then b else a }
}
