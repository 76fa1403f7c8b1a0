/** The red-black tree of db/tree.h, instantiated at columns as db/column.c does. */
module RbTree {
  import opened CStrings
  import opened Columns
  import opened RbShape

  /** A column with its RB_ENTRY. */
  class Node {
    const col: Column
    var left: Node?
    var right: Node?
    var parent: Node?
    var red: bool

    constructor (col: Column)
      ensures this.col == col
    {
      this.col := col;
      left, right, parent, red := null, null, null, false;
    }
  }

  ghost function RootOf(t: Tree<Node>): Node? {
    if t.Leaf? then null else t.node
  }

  ghost function ParentOf(c: Ctx<Node>): Node? {
    if c.Top? then null else c.node
  }

  /** The links and colours of the heap below `parent` are those of `t`. */
  ghost predicate Linked(t: Tree<Node>, parent: Node?)
    reads Nodes(t)
  {
    t.Branch? ==>
      && t.node.parent == parent
      && t.node.red == t.red
      && t.node.left == RootOf(t.left) && Linked(t.left, t.node)
      && t.node.right == RootOf(t.right) && Linked(t.right, t.node)
  }

  /** The links and colours on the path above `hole`, and of everything that hangs off it. */
  ghost predicate CLinked(c: Ctx<Node>, hole: Node?)
    reads CNodes(c)
  {
    !c.Top? ==>
      && c.node.parent == ParentOf(c.up)
      && c.node.red == c.red
      && c.node.left == (if c.InLeft? then hole else RootOf(c.sib))
      && c.node.right == (if c.InLeft? then RootOf(c.sib) else hole)
      && Linked(c.sib, c.node)
      && CLinked(c.up, c.node)
  }

  ghost function TopOf(c: Ctx<Node>, hole: Node?): Node? {
    if c.Top? then hole else TopOf(c.up, c.node)
  }

  // ---- the order of the names -------------------------------------------------------------

  ghost predicate Sorted(s: seq<Node>) {
    forall i, j :: 0 <= i < j < |s| ==> StrCmp(s[i].col.name, s[j].col.name) < 0
  }

  lemma OnePlace(s: seq<Node>, i: nat, k: nat)
    requires Sorted(s) && i < |s| && k < |s| && s[i].col.name == s[k].col.name
    ensures i == k
  {
    StrCmpZeroIffEqual(s[i].col.name, s[k].col.name);
    StrCmpZeroIffEqual(s[k].col.name, s[i].col.name);
  }

  lemma OnlyAt(s: seq<Node>, at: nat)
    requires Sorted(s) && at < |s|
    ensures forall i :: 0 <= i < |s| && s[i] == s[at] ==> i == at
  {
    forall i | 0 <= i < |s| && s[i] == s[at] ensures i == at {
      OnePlace(s, i, at);
    }
  }

  ghost predicate AllBelow(s: seq<Node>, name: CStr) {
    forall i :: 0 <= i < |s| ==> StrCmp(s[i].col.name, name) < 0
  }

  ghost predicate AllAbove(s: seq<Node>, name: CStr) {
    forall i :: 0 <= i < |s| ==> StrCmp(name, s[i].col.name) < 0
  }

  lemma AboveFrom(s: seq<Node>, k: nat, name: CStr)
    requires Sorted(s) && k < |s| && StrCmp(name, s[k].col.name) < 0
    ensures AllAbove(s[k..], name)
  {
    forall i | k <= i < |s| ensures StrCmp(name, s[i].col.name) < 0 {
      if k < i { StrCmpTransitive(name, s[k].col.name, s[i].col.name); }
    }
  }

  lemma BelowTo(s: seq<Node>, k: nat, name: CStr)
    requires Sorted(s) && k < |s| && StrCmp(s[k].col.name, name) < 0
    ensures AllBelow(s[..k + 1], name)
  {
    forall i | 0 <= i <= k ensures StrCmp(s[i].col.name, name) < 0 {
      if i < k { StrCmpTransitive(s[i].col.name, s[k].col.name, name); }
    }
  }

  lemma SearchLeft(c: Ctx<Node>, t: Tree<Node>, name: CStr)
    requires t.Branch? && Sorted(InOrder(Plug(c, t))) && StrCmp(name, t.node.col.name) < 0
    ensures AllAbove(After(InLeft(c, t.node, t.red, t.right)), name)
  {
    RootSplit(c, t);
    AboveFrom(InOrder(Plug(c, t)), IndexOf(c, t), name);
  }

  lemma SearchRight(c: Ctx<Node>, t: Tree<Node>, name: CStr)
    requires t.Branch? && Sorted(InOrder(Plug(c, t))) && StrCmp(name, t.node.col.name) > 0
    ensures AllBelow(Before(InRight(c, t.node, t.red, t.left)), name)
  {
    RootSplit(c, t);
    StrCmpAntisymmetric(name, t.node.col.name);
    BelowTo(InOrder(Plug(c, t)), IndexOf(c, t), name);
  }

  /** `x` put between what is below it and what is above it. */
  lemma InsertSorted(a: seq<Node>, x: Node, b: seq<Node>)
    requires Sorted(a + b) && AllBelow(a, x.col.name) && AllAbove(b, x.col.name)
    ensures Sorted(a + [x] + b)
  {
    var s, u := a + b, a + [x] + b;
    forall i, j | 0 <= i < j < |u| ensures StrCmp(u[i].col.name, u[j].col.name) < 0 {
      if i != |a| && j != |a| {
        assert u[i] == s[if i < |a| then i else i - 1];
        assert u[j] == s[if j < |a| then j else j - 1];
      }
    }
  }

  lemma NewLeafInv(c: Ctx<Node>, x: Node)
    requires RedBlack(Plug(c, Leaf))
    ensures InsertInv(c, Branch(Leaf, x, true, Leaf))
  {
    PlugRedBlack<Node>(c, Leaf);
  }

  /** A new red leaf in the empty place that the search ends at. */
  lemma InsertPlace(c: Ctx<Node>, x: Node)
    requires RedBlack(Plug(c, Leaf)) && Sorted(InOrder(Plug(c, Leaf)))
    requires AllBelow(Before(c), x.col.name) && AllAbove(After(c), x.col.name)
    ensures var s, at, t := InOrder(Plug(c, Leaf)), |Before(c)|, Branch(Leaf, x, true, Leaf);
            && InsertInv(c, t) && at <= |s|
            && InOrder(Plug(c, t)) == s[..at] + [x] + s[at..] && Sorted(InOrder(Plug(c, t)))
            && forall n :: n in s ==> n.col.name != x.col.name
  {
    var t := Branch(Leaf, x, true, Leaf);
    PlugInOrder<Node>(c, Leaf);
    PlugInOrder(c, t);
    NewLeafInv(c, x);
    hide Plug, Before, After, RedBlack, InsertInv;
    assert InOrder(Plug(c, Leaf)) == Before(c) + After(c);
    NoSuchName(Before(c), After(c), x.col.name);
    InsertSorted(Before(c), x, After(c));
  }

  lemma RemoveSorted(s: seq<Node>, i: nat)
    requires Sorted(s) && i < |s|
    ensures Sorted(Without(s, i))
  {
    var u := Without(s, i);
    forall j, k | 0 <= j < k < |u| ensures StrCmp(u[j].col.name, u[k].col.name) < 0 {
      assert u[j] == s[if j < i then j else j + 1];
      assert u[k] == s[if k < i then k else k + 1];
    }
  }

  lemma NoSuchName(a: seq<Node>, b: seq<Node>, name: CStr)
    requires AllBelow(a, name) && AllAbove(b, name)
    ensures forall n :: n in a + b ==> n.col.name != name
  {
    StrCmpZeroIffEqual(name, name);
  }

  class Head {
    var root: Node?
    ghost var nodes: set<Node>
    ghost var tree: Tree<Node>

    constructor ()
      ensures Valid() && Contents() == [] && nodes == {}
    {
      root := null;
      nodes := {};
      tree := Leaf;
    }

    /** The links spell out `tree`, and `tree` is a red-black search tree. */
    ghost predicate Valid()
      reads this, nodes, Nodes(tree)
    {
      nodes == Nodes(tree) && At(Top, tree) && RedBlack(tree) && Sorted(InOrder(tree))
    }

    /** The nodes in the order of their names. */
    ghost function Contents(): seq<Node>
      reads this
    {
      InOrder(tree)
    }

    /** The tree of this head, seen with the focus on `t` inside `c`. */
    ghost predicate At(c: Ctx<Node>, t: Tree<Node>)
      reads this, CNodes(c), Nodes(t)
    {
      && Apart(c, t) && nodes == CNodes(c) + Nodes(t)
      && CLinked(c, RootOf(t))
      && Linked(t, ParentOf(c))
      && root == TopOf(c, RootOf(t))
    }

    method Recolor(n: Node, red: bool, ghost c: Ctx<Node>, ghost t: Tree<Node>)
      requires At(c, t) && t.Branch? && t.node == n
      modifies n
      ensures At(c, t.(red := red))
    {
      n.red := red;
    }

    /** Points the parent link of `t`'s root at `parent`. */
    static method Reparent(n: Node, parent: Node?, ghost t: Tree<Node>, ghost was: Node?)
      requires t.Branch? && n == t.node && Distinct(t) && Linked(t, was)
      modifies n`parent
      ensures Linked(t, parent)
    {
      assert Linked(t.left, n) && Linked(t.right, n);
      n.parent := parent;
      assert Linked(t.left, n) && Linked(t.right, n);
    }

    /** Hangs the subtree `b` to the right of `elm`. */
    static method SetRight(elm: Node, sub: Node?, ghost b: Tree<Node>, ghost was: Node?)
      requires sub == RootOf(b) && elm !in Nodes(b) && Distinct(b) && Linked(b, was)
      modifies elm`right, sub
      ensures elm.right == sub && Linked(b, elm)
    {
      elm.right := sub;
      if sub != null {
        Reparent(sub, elm, b, was);
      }
    }

    /** Hangs the subtree `b` to the left of `elm`. */
    static method SetLeft(elm: Node, sub: Node?, ghost b: Tree<Node>, ghost was: Node?)
      requires sub == RootOf(b) && elm !in Nodes(b) && Distinct(b) && Linked(b, was)
      modifies elm`left, sub
      ensures elm.left == sub && Linked(b, elm)
    {
      elm.left := sub;
      if sub != null {
        Reparent(sub, elm, b, was);
      }
    }

    /** Puts `tmp` where the path `c` has `elm`: in the parent's link or in the head. */
    method Replace(elm: Node, parent: Node?, tmp: Node?, ghost c: Ctx<Node>)
      requires CDistinct(c) && CLinked(c, elm) && parent == ParentOf(c) && root == TopOf(c, elm)
      requires elm !in CNodes(c) && CNodes(c) <= nodes
      modifies `root, parent
      ensures CLinked(c, tmp) && root == TopOf(c, tmp)
    {
      if parent != null {
        assert !c.Top? && CLinked(c.up, c.node) && Linked(c.sib, c.node);
        if elm == parent.left {
          parent.left := tmp;
        } else {
          parent.right := tmp;
        }
        assert CLinked(c.up, c.node) && Linked(c.sib, c.node);
      } else {
        root := tmp;
      }
    }

    method TakePlace(elm: Node, tmp: Node, ghost c: Ctx<Node>)
      requires CDistinct(c) && CLinked(c, elm) && elm.parent == ParentOf(c) && root == TopOf(c, elm)
      requires elm !in CNodes(c) && tmp !in CNodes(c) && CNodes(c) <= nodes
      modifies `root, ParentOf(c), tmp`parent
      ensures CLinked(c, tmp) && root == TopOf(c, tmp) && tmp.parent == ParentOf(c)
    {
      tmp.parent := elm.parent;
      assert CLinked(c, elm);
      Replace(elm, tmp.parent, tmp, c);
    }

    method LinkOverLeft(elm: Node, tmp: Node, ghost c: Ctx<Node>)
      requires CDistinct(c) && CLinked(c, elm) && elm.parent == ParentOf(c) && root == TopOf(c, elm)
      requires elm != tmp && elm !in CNodes(c) && tmp !in CNodes(c) && CNodes(c) <= nodes
      modifies `root, ParentOf(c), elm`parent, tmp`left, tmp`parent
      ensures CLinked(c, tmp) && root == TopOf(c, tmp) && tmp.parent == ParentOf(c)
      ensures tmp.left == elm && elm.parent == tmp
    {
      TakePlace(elm, tmp, c);
      tmp.left := elm;
      elm.parent := tmp;
    }

    method LinkOverRight(elm: Node, tmp: Node, ghost c: Ctx<Node>)
      requires CDistinct(c) && CLinked(c, elm) && elm.parent == ParentOf(c) && root == TopOf(c, elm)
      requires elm != tmp && elm !in CNodes(c) && tmp !in CNodes(c) && CNodes(c) <= nodes
      modifies `root, ParentOf(c), elm`parent, tmp`right, tmp`parent
      ensures CLinked(c, tmp) && root == TopOf(c, tmp) && tmp.parent == ParentOf(c)
      ensures tmp.right == elm && elm.parent == tmp
    {
      TakePlace(elm, tmp, c);
      tmp.right := elm;
      elm.parent := tmp;
    }

    /** The assignments of RB_ROTATE_LEFT; `b` is the subtree that changes sides. */
    method TurnLeft(elm: Node, tmp: Node, ghost c: Ctx<Node>, ghost b: Tree<Node>)
      requires elm in nodes && tmp in nodes && CNodes(c) <= nodes && Nodes(b) <= nodes
      requires elm != tmp && elm !in CNodes(c) && tmp !in CNodes(c)
      requires elm !in Nodes(b) && tmp !in Nodes(b) && CNodes(c) !! Nodes(b)
      requires CDistinct(c) && CLinked(c, elm) && root == TopOf(c, elm) && elm.parent == ParentOf(c)
      requires Distinct(b) && Linked(b, tmp) && tmp.left == RootOf(b)
      modifies `root, ParentOf(c), elm`right, elm`parent, tmp`left, tmp`parent, RootOf(b)
      ensures CLinked(c, tmp) && root == TopOf(c, tmp) && tmp.parent == ParentOf(c)
      ensures Linked(b, elm) && elm.right == RootOf(b)
      ensures tmp.left == elm && elm.parent == tmp
    {
      assert b.Branch? ==> b.node in Nodes(b);
      assert !c.Top? ==> c.node in CNodes(c);
      SetRight(elm, tmp.left, b, tmp);
      LinkOverLeft(elm, tmp, c);
    }

    method RotateLeft(elm: Node, ghost c: Ctx<Node>, ghost t: Tree<Node>) returns (tmp: Node)
      requires At(c, t) && t.Branch? && t.node == elm && t.right.Branch?
      modifies `root, nodes
      ensures tmp == t.right.node
      ensures At(c, Branch(Branch(t.left, elm, t.red, t.right.left), tmp, t.right.red, t.right.right))
    {
      ghost var a, y, b, d := t.left, t.right, t.right.left, t.right.right;
      RotateNodes(a, elm, t.red, b, y.node, y.red, d, t.red, y.red);
      assert Distinct(y) && Linked(y, elm) && Linked(a, elm) && Linked(d, y.node);
      assert b.Branch? ==> b.node in Nodes(b);
      assert !c.Top? ==> c.node in CNodes(c);
      tmp := elm.right;
      TurnLeft(elm, tmp, c, b);
      assert Linked(a, elm) && Linked(d, tmp);
      assert Linked(Branch(a, elm, t.red, b), tmp);
    }

    /** The assignments of RB_ROTATE_RIGHT; `b` is the subtree that changes sides. */
    method TurnRight(elm: Node, tmp: Node, ghost c: Ctx<Node>, ghost b: Tree<Node>)
      requires elm in nodes && tmp in nodes && CNodes(c) <= nodes && Nodes(b) <= nodes
      requires elm != tmp && elm !in CNodes(c) && tmp !in CNodes(c)
      requires elm !in Nodes(b) && tmp !in Nodes(b) && CNodes(c) !! Nodes(b)
      requires CDistinct(c) && CLinked(c, elm) && root == TopOf(c, elm) && elm.parent == ParentOf(c)
      requires Distinct(b) && Linked(b, tmp) && tmp.right == RootOf(b)
      modifies `root, ParentOf(c), elm`left, elm`parent, tmp`right, tmp`parent, RootOf(b)
      ensures CLinked(c, tmp) && root == TopOf(c, tmp) && tmp.parent == ParentOf(c)
      ensures Linked(b, elm) && elm.left == RootOf(b)
      ensures tmp.right == elm && elm.parent == tmp
    {
      assert b.Branch? ==> b.node in Nodes(b);
      assert !c.Top? ==> c.node in CNodes(c);
      SetLeft(elm, tmp.right, b, tmp);
      LinkOverRight(elm, tmp, c);
    }

    method RotateRight(elm: Node, ghost c: Ctx<Node>, ghost t: Tree<Node>) returns (tmp: Node)
      requires At(c, t) && t.Branch? && t.node == elm && t.left.Branch?
      modifies `root, nodes
      ensures tmp == t.left.node
      ensures At(c, Branch(t.left.left, tmp, t.left.red, Branch(t.left.right, elm, t.red, t.right)))
    {
      ghost var a, y, b, d := t.right, t.left, t.left.right, t.left.left;
      RotateNodes(d, y.node, y.red, b, elm, t.red, a, y.red, t.red);
      assert Distinct(y) && Linked(y, elm) && Linked(a, elm) && Linked(d, y.node);
      assert b.Branch? ==> b.node in Nodes(b);
      assert !c.Top? ==> c.node in CNodes(c);
      tmp := elm.left;
      TurnRight(elm, tmp, c, b);
      assert Linked(a, elm) && Linked(d, tmp);
      assert Linked(Branch(b, elm, t.red, a), tmp);
    }

    // ---- moving the focus ---------------------------------------------------------------

    lemma Up(c: Ctx<Node>, t: Tree<Node>)
      requires At(c, t) && !c.Top?
      ensures At(c.up, Attach(c, t))
    {
      assert Nodes(Attach(c, t)) == Nodes(t) + {c.node} + Nodes(c.sib);
    }

    lemma Across(c: Ctx<Node>, t: Tree<Node>)
      requires At(c, t) && !c.Top?
      ensures At(Flip(c, t), c.sib)
    {
    }

    lemma DownLeft(c: Ctx<Node>, t: Tree<Node>)
      requires At(c, t) && t.Branch?
      ensures At(InLeft(c, t.node, t.red, t.right), t.left)
    {
    }

    lemma DownRight(c: Ctx<Node>, t: Tree<Node>)
      requires At(c, t) && t.Branch?
      ensures At(InRight(c, t.node, t.red, t.left), t.right)
    {
    }

    // ---- RB_INSERT_COLOR ------------------------------------------------------------------

    method RecolorRedUncle(parent: Node, gparent: Node, tmp: Node, ghost c: Ctx<Node>, ghost t: Tree<Node>)
      requires At(c, t) && !c.Top? && !c.up.Top? && RedRoot(c.up.sib)
      requires parent == c.node && gparent == c.up.node && tmp == c.up.sib.node
      modifies nodes
      ensures At(c.up.up, RedUncle(c, t))
    {
      Up(c, t);
      ghost var c1, t1, u := c.up, Attach(c, t), c.up.sib.(red := false);
      Across(c1, t1);
      Recolor(tmp, false, Flip(c1, t1), c1.sib);
      Across(Flip(c1, t1), u);
      ghost var c2, t2 := c1.(sib := u), t1.(red := false);
      Recolor(parent, false, c2, t1);
      Up(c2, t2);
      Recolor(gparent, true, c2.up, Attach(c2, t2));
      assert Attach(c2, t2).(red := true) == RedUncle(c, t);
    }

    /** RB_INSERT_COLOR's rotations when the parent is a left child and the uncle is black. */
    method TurnUnderLeft(elm0: Node, parent0: Node, gparent: Node, ghost c0: Ctx<Node>, ghost t0: Tree<Node>)
      returns (elm: Node, ghost c: Ctx<Node>, ghost t: Tree<Node>)
      requires At(c0, t0) && t0.Branch? && t0.node == elm0 && InsertInv(c0, t0)
      requires !c0.Top? && c0.red && c0.up.InLeft? && !RedRoot(c0.up.sib)
      requires parent0 == c0.node && gparent == c0.up.node
      modifies `root, nodes
      ensures At(c, t) && t.Branch? && t.node == elm && InsertInv(c, t) && !c.Top? && !c.red
      ensures InOrder(Plug(c, t)) == InOrder(Plug(c0, t0)) && Depth(c) < Depth(c0)
    {
      var parent, tmp;
      elm, parent, c, t := elm0, parent0, c0, t0;
      if parent.right == elm {
        Up(c, t);
        InnerTurnLeft(c, t);
        tmp := RotateLeft(parent, c.up, Attach(c, t));
        c, t := InLeft(c.up, t.node, true, t.right), Branch(c.sib, c.node, true, t.left);
        DownLeft(c.up, Attach(c, t));
        tmp := parent;
        parent := elm;
        elm := tmp;
      }
      OuterTurnRight(c, t);
      Up(c, t);
      Recolor(parent, false, c.up, Attach(c, t));
      ghost var t1 := Branch(t, parent, false, c.sib);
      Up(c.up, t1);
      Recolor(gparent, true, c.up.up, Attach(c.up, t1));
      ghost var g := c.up.up;
      tmp := RotateRight(gparent, g, Branch(t1, gparent, true, c.up.sib));
      c := InLeft(g, parent, false, Branch(c.sib, gparent, true, c.up.sib));
      DownLeft(g, Attach(c, t));
    }

    /** RB_INSERT_COLOR's rotations when the parent is a right child and the uncle is black. */
    method TurnUnderRight(elm0: Node, parent0: Node, gparent: Node, ghost c0: Ctx<Node>, ghost t0: Tree<Node>)
      returns (elm: Node, ghost c: Ctx<Node>, ghost t: Tree<Node>)
      requires At(c0, t0) && t0.Branch? && t0.node == elm0 && InsertInv(c0, t0)
      requires !c0.Top? && c0.red && c0.up.InRight? && !RedRoot(c0.up.sib)
      requires parent0 == c0.node && gparent == c0.up.node
      modifies `root, nodes
      ensures At(c, t) && t.Branch? && t.node == elm && InsertInv(c, t) && !c.Top? && !c.red
      ensures InOrder(Plug(c, t)) == InOrder(Plug(c0, t0)) && Depth(c) < Depth(c0)
    {
      var parent, tmp;
      elm, parent, c, t := elm0, parent0, c0, t0;
      if parent.left == elm {
        Up(c, t);
        InnerTurnRight(c, t);
        tmp := RotateRight(parent, c.up, Attach(c, t));
        c, t := InRight(c.up, t.node, true, t.left), Branch(t.right, c.node, true, c.sib);
        DownRight(c.up, Attach(c, t));
        tmp := parent;
        parent := elm;
        elm := tmp;
      }
      OuterTurnLeft(c, t);
      Up(c, t);
      Recolor(parent, false, c.up, Attach(c, t));
      ghost var t1 := Branch(c.sib, parent, false, t);
      Up(c.up, t1);
      Recolor(gparent, true, c.up.up, Attach(c.up, t1));
      ghost var g := c.up.up;
      tmp := RotateLeft(gparent, g, Branch(c.up.sib, gparent, true, t1));
      c := InRight(g, parent, false, Branch(c.up.sib, gparent, true, c.sib));
      DownRight(g, Attach(c, t));
    }

    /** One round of RB_INSERT_COLOR's loop. */
    method InsertColorRound(elm0: Node, parent: Node, ghost c0: Ctx<Node>, ghost t0: Tree<Node>)
      returns (elm: Node, ghost c: Ctx<Node>, ghost t: Tree<Node>)
      requires At(c0, t0) && t0.Branch? && t0.node == elm0 && InsertInv(c0, t0)
      requires parent == elm0.parent && parent.red
      modifies `root, nodes
      ensures At(c, t) && t.Branch? && t.node == elm && InsertInv(c, t)
      ensures InOrder(Plug(c, t)) == InOrder(Plug(c0, t0)) && Depth(c) < Depth(c0)
    {
      var gparent := parent.parent;
      assert CLinked(c0.up, parent) && CNoRedRed(c0.up, true);
      elm, c, t := gparent, c0.up.up, Attach(c0.up, Attach(c0, t0));
      if parent == gparent.left {
        assert c0.up.InLeft?;
        var tmp := gparent.right;
        if tmp != null && tmp.red {
          RedUncleInv(c0, t0);
          RecolorRedUncle(parent, gparent, tmp, c0, t0);
          t := RedUncle(c0, t0);
        } else {
          elm, c, t := TurnUnderLeft(elm0, parent, gparent, c0, t0);
        }
      } else {
        assert c0.up.InRight?;
        var tmp := gparent.left;
        if tmp != null && tmp.red {
          RedUncleInv(c0, t0);
          RecolorRedUncle(parent, gparent, tmp, c0, t0);
          t := RedUncle(c0, t0);
        } else {
          elm, c, t := TurnUnderRight(elm0, parent, gparent, c0, t0);
        }
      }
    }

    /** RB_INSERT_COLOR: repairs a red node under a red parent. */
    method RbInsertColor(elm0: Node, ghost c0: Ctx<Node>, ghost t0: Tree<Node>) returns (ghost t': Tree<Node>)
      requires At(c0, t0) && t0.Branch? && t0.node == elm0 && InsertInv(c0, t0)
      modifies `root, nodes
      ensures At(Top, t') && RedBlack(t') && InOrder(t') == InOrder(Plug(c0, t0))
    {
      var elm := elm0;
      ghost var c, t := c0, t0;
      while elm.parent != null && elm.parent.red
        invariant At(c, t) && t.Branch? && t.node == elm && InsertInv(c, t)
        invariant InOrder(Plug(c, t)) == InOrder(Plug(c0, t0))
        decreases Depth(c)
      {
        elm, c, t := InsertColorRound(elm, elm.parent, c, t);
      }
      InsertDone(c, t);
      t' := BlackenRoot(c, t);
    }

    /** The colour of the root set to black, as both repairs do last. */
    method BlackenRoot(ghost c: Ctx<Node>, ghost t: Tree<Node>) returns (ghost t': Tree<Node>)
      requires At(c, t) && t.Branch?
      modifies nodes
      ensures Plug(c, t).Branch? && t' == Plug(c, t).(red := false) && At(Top, t')
    {
      PlugBranch(c, t);
      Whole(c, t);
      Recolor(root, false, Top, Plug(c, t));
      t' := Plug(c, t).(red := false);
    }

    lemma {:induction false} Whole(c: Ctx<Node>, t: Tree<Node>)
      requires At(c, t)
      ensures At(Top, Plug(c, t))
    {
      if !c.Top? {
        Up(c, t);
        Whole(c.up, Attach(c, t));
      }
    }

    // ---- RB_INSERT --------------------------------------------------------------------------

    /** Descends from the root for `name`, as RB_INSERT and RB_FIND do: to the node of that name,
        or to the empty place where it belongs. */
    method RbSearch(name: CStr, ghost whole: Tree<Node>) returns (tmp: Node?, parent: Node?, comp: int, ghost c: Ctx<Node>, ghost t: Tree<Node>)
      requires At(Top, whole) && Sorted(InOrder(whole))
      ensures At(c, t) && Plug(c, t) == whole && tmp == RootOf(t)
      ensures tmp != null ==> tmp.col.name == name
      ensures tmp == null ==>
        && AllBelow(Before(c), name) && AllAbove(After(c), name)
        && parent == ParentOf(c) && (parent != null ==> if comp < 0 then c.InLeft? else c.InRight?)
    {
      tmp, parent, comp := root, null, 0;
      c, t := Top, whole;
      while tmp != null
        invariant At(c, t) && Plug(c, t) == whole && tmp == RootOf(t)
        invariant AllBelow(Before(c), name) && AllAbove(After(c), name)
        invariant parent == ParentOf(c) && (parent != null ==> if comp < 0 then c.InLeft? else c.InRight?)
        decreases t
      {
        parent := tmp;
        comp := StrCmp(name, parent.col.name);
        if comp < 0 {
          SearchLeft(c, t, name);
          DownLeft(c, t);
          tmp := tmp.left;
          c, t := InLeft(c, t.node, t.red, t.right), t.left;
        } else if comp > 0 {
          SearchRight(c, t, name);
          DownRight(c, t);
          tmp := tmp.right;
          c, t := InRight(c, t.node, t.red, t.left), t.right;
        } else {
          StrCmpZeroIffEqual(name, parent.col.name);
          return;
        }
      }
    }

    // ---- RB_REMOVE_COLOR --------------------------------------------------------------------

    lemma NephewColours(c: Ctx<Node>, t: Tree<Node>)
      requires At(c, t) && !c.Top? && c.sib.Branch?
      ensures var s, n := c.sib, c.sib.node;
              && n.left == RootOf(s.left) && n.right == RootOf(s.right) && n.red == s.red
              && (RedRoot(s.left) <==> n.left != null && n.left.red)
              && (RedRoot(s.right) <==> n.right != null && n.right.red)
    {
      assert Linked(c.sib, c.node);
      assert Linked(c.sib.left, c.sib.node) && Linked(c.sib.right, c.sib.node);
    }

    /** RB_REMOVE_COLOR's red sibling, on the right of `parent`. */
    method LiftRedSiblingLeft(parent: Node, tmp0: Node, ghost c0: Ctx<Node>, ghost t: Tree<Node>)
      returns (tmp: Node?, ghost c: Ctx<Node>)
      requires At(c0, t) && c0.InLeft? && RedRoot(c0.sib) && parent == c0.node && tmp0 == c0.sib.node
      modifies `root, nodes
      ensures c == InLeft(InLeft(c0.up, tmp0, false, c0.sib.right), parent, true, c0.sib.left)
      ensures At(c, t) && tmp == RootOf(c.sib)
    {
      Across(c0, t);
      ghost var s := c0.sib.(red := false);
      Recolor(tmp0, false, Flip(c0, t), c0.sib);
      Across(Flip(c0, t), s);
      ghost var c1 := InLeft(c0.up, parent, c0.red, s);
      Up(c1, t);
      Recolor(parent, true, c0.up, Attach(c1, t));
      tmp := RotateLeft(parent, c0.up, Branch(t, parent, true, s));
      ghost var t1 := Branch(t, parent, true, s.left);
      DownLeft(c0.up, Branch(t1, tmp0, false, s.right));
      ghost var c2 := InLeft(c0.up, tmp0, false, s.right);
      DownLeft(c2, t1);
      tmp := parent.right;
      c := InLeft(c2, parent, true, s.left);
    }

    /** RB_REMOVE_COLOR's inner red nephew turned above the sibling `tmp0`. */
    method TurnInnerNephewLeft(parent: Node, tmp0: Node, ghost c0: Ctx<Node>, ghost t: Tree<Node>)
      returns (tmp: Node, ghost c: Ctx<Node>)
      requires At(c0, t) && c0.InLeft? && c0.sib.Branch? && RedRoot(c0.sib.left)
      requires parent == c0.node && tmp0 == c0.sib.node
      modifies `root, nodes
      ensures var o := c0.sib.left;
              c == InLeft(c0.up, parent, c0.red, Branch(o.left, o.node, false, Branch(o.right, tmp0, true, c0.sib.right)))
      ensures At(c, t) && tmp == c.sib.node
    {
      Across(c0, t);
      ghost var cs, s := Flip(c0, t), c0.sib;
      DownLeft(cs, s);
      ghost var co, o := InLeft(cs, tmp0, s.red, s.right), s.left.(red := false);
      var oleft := tmp0.left;
      if oleft != null {
        Recolor(oleft, false, co, s.left);
      }
      Up(co, o);
      Recolor(tmp0, true, cs, Attach(co, o));
      var _ := RotateRight(tmp0, cs, Branch(o, tmp0, true, s.right));
      ghost var s' := Branch(o.left, o.node, false, Branch(o.right, tmp0, true, s.right));
      Across(cs, s');
      tmp := parent.right;
      c := InLeft(c0.up, parent, c0.red, s');
    }

    /** RB_REMOVE_COLOR's outer red nephew: the sibling `tmp` turned above `parent`. */
    method TurnOuterNephewLeft(parent: Node, tmp: Node, ghost c0: Ctx<Node>, ghost t0: Tree<Node>)
      returns (ghost t: Tree<Node>)
      requires At(c0, t0) && c0.InLeft? && c0.sib.Branch? && RedRoot(c0.sib.right)
      requires parent == c0.node && tmp == c0.sib.node
      modifies `root, nodes
      ensures var s := c0.sib;
              t == Branch(Branch(t0, parent, false, s.left), tmp, c0.red, s.right.(red := false))
      ensures At(c0.up, t)
    {
      Across(c0, t0);
      ghost var cs, s := Flip(c0, t0), c0.sib.(red := c0.red);
      Recolor(tmp, parent.red, cs, c0.sib);
      Across(cs, s);
      ghost var c1, t1 := InLeft(c0.up, parent, c0.red, s), Branch(t0, parent, false, s);
      Up(c1, t0);
      Recolor(parent, false, c0.up, Attach(c1, t0));
      DownRight(c0.up, t1);
      ghost var c2 := InRight(c0.up, parent, false, t0);
      DownRight(c2, s);
      ghost var c3, d := InRight(c2, tmp, s.red, s.left), s.right.(red := false);
      if tmp.right != null {
        Recolor(tmp.right, false, c3, s.right);
      }
      Up(c3, d);
      ghost var s' := Branch(s.left, tmp, s.red, d);
      Up(c2, s');
      var _ := RotateLeft(parent, c0.up, Branch(t0, parent, false, s'));
      t := Branch(Branch(t0, parent, false, s.left), tmp, c0.red, d);
    }

    /** The cases of RB_REMOVE_COLOR with a black sibling on the right; `done` is the loop's `break`. */
    method BlackSiblingLeft(parent0: Node, tmp0: Node, ghost c0: Ctx<Node>, ghost t0: Tree<Node>)
      returns (elm: Node?, parent: Node?, done: bool, ghost c: Ctx<Node>, ghost t: Tree<Node>)
      requires At(c0, t0) && RemoveInv(c0, t0) && !RedRoot(t0) && c0.InLeft? && !RedRoot(c0.sib) && c0.sib.Branch?
      requires parent0 == c0.node && tmp0 == c0.sib.node
      modifies `root, nodes
      ensures At(c, t) && InOrder(Plug(c, t)) == InOrder(Plug(c0, t0))
      ensures done ==> RedBlack(Plug(c, t)) && elm == root && t.Branch?
      ensures !done ==> RemoveInv(c, t) && elm == RootOf(t) && parent == ParentOf(c)
      ensures !done ==> c == c0.up && RedRoot(t) == c0.red
    {
      elm, parent, done, c, t := null, parent0, false, c0, t0;
      var tmp := tmp0;
      NephewColours(c, t);
      if (tmp.left == null || !tmp.left.red) && (tmp.right == null || !tmp.right.red) {
        BlackNephews(c, t);
        Across(c, t);
        ghost var s := c.sib.(red := true);
        Recolor(tmp, true, Flip(c, t), c.sib);
        Across(Flip(c, t), s);
        ghost var c1 := InLeft(c.up, parent, c.red, s);
        Up(c1, t);
        elm := parent;
        parent := elm.parent;
        c, t := c.up, Attach(c1, t);
      } else {
        if tmp.right == null || !tmp.right.red {
          InnerNephewLeft(c, t);
          tmp, c := TurnInnerNephewLeft(parent, tmp, c, t);
        }
        OuterNephewLeft(c, t);
        t := TurnOuterNephewLeft(parent, tmp, c, t);
        c := c.up;
        elm := root;
        done := true;
      }
    }

    /** One round of RB_REMOVE_COLOR's loop when the short subtree is a left child. */
    method RemoveColorRoundLeft(parent0: Node, ghost c0: Ctx<Node>, ghost t0: Tree<Node>)
      returns (elm: Node?, parent: Node?, done: bool, ghost c: Ctx<Node>, ghost t: Tree<Node>)
      requires At(c0, t0) && RemoveInv(c0, t0) && !RedRoot(t0) && c0.InLeft? && parent0 == c0.node
      modifies `root, nodes
      ensures At(c, t) && InOrder(Plug(c, t)) == InOrder(Plug(c0, t0))
      ensures done ==> RedBlack(Plug(c, t)) && elm == root && t.Branch?
      ensures !done ==> RemoveInv(c, t) && elm == RootOf(t) && parent == ParentOf(c)
      ensures !done ==> RedRoot(t) || Depth(c) < Depth(c0)
    {
      parent, c, t := parent0, c0, t0;
      var tmp := parent.right;
      SiblingExists(c, t);
      if tmp.red {
        RedSiblingLeft(c, t);
        tmp, c := LiftRedSiblingLeft(parent, tmp, c, t);
        SiblingExists(c, t);
      }
      elm, parent, done, c, t := BlackSiblingLeft(parent, tmp, c, t);
    }

    /** RB_REMOVE_COLOR's red sibling, on the left of `parent`. */
    method LiftRedSiblingRight(parent: Node, tmp0: Node, ghost c0: Ctx<Node>, ghost t: Tree<Node>)
      returns (tmp: Node?, ghost c: Ctx<Node>)
      requires At(c0, t) && c0.InRight? && RedRoot(c0.sib) && parent == c0.node && tmp0 == c0.sib.node
      modifies `root, nodes
      ensures c == InRight(InRight(c0.up, tmp0, false, c0.sib.left), parent, true, c0.sib.right)
      ensures At(c, t) && tmp == RootOf(c.sib)
    {
      Across(c0, t);
      ghost var s := c0.sib.(red := false);
      Recolor(tmp0, false, Flip(c0, t), c0.sib);
      Across(Flip(c0, t), s);
      ghost var c1 := InRight(c0.up, parent, c0.red, s);
      Up(c1, t);
      Recolor(parent, true, c0.up, Attach(c1, t));
      tmp := RotateRight(parent, c0.up, Branch(s, parent, true, t));
      ghost var t1 := Branch(s.right, parent, true, t);
      DownRight(c0.up, Branch(s.left, tmp0, false, t1));
      ghost var c2 := InRight(c0.up, tmp0, false, s.left);
      DownRight(c2, t1);
      tmp := parent.left;
      c := InRight(c2, parent, true, s.right);
    }

    /** RB_REMOVE_COLOR's inner red nephew turned above the sibling `tmp0`. */
    method TurnInnerNephewRight(parent: Node, tmp0: Node, ghost c0: Ctx<Node>, ghost t: Tree<Node>)
      returns (tmp: Node, ghost c: Ctx<Node>)
      requires At(c0, t) && c0.InRight? && c0.sib.Branch? && RedRoot(c0.sib.right)
      requires parent == c0.node && tmp0 == c0.sib.node
      modifies `root, nodes
      ensures var o := c0.sib.right;
              c == InRight(c0.up, parent, c0.red, Branch(Branch(c0.sib.left, tmp0, true, o.left), o.node, false, o.right))
      ensures At(c, t) && tmp == c.sib.node
    {
      Across(c0, t);
      ghost var cs, s := Flip(c0, t), c0.sib;
      DownRight(cs, s);
      ghost var co, o := InRight(cs, tmp0, s.red, s.left), s.right.(red := false);
      var oright := tmp0.right;
      if oright != null {
        Recolor(oright, false, co, s.right);
      }
      Up(co, o);
      Recolor(tmp0, true, cs, Attach(co, o));
      var _ := RotateLeft(tmp0, cs, Branch(s.left, tmp0, true, o));
      ghost var s' := Branch(Branch(s.left, tmp0, true, o.left), o.node, false, o.right);
      Across(cs, s');
      tmp := parent.left;
      c := InRight(c0.up, parent, c0.red, s');
    }

    /** RB_REMOVE_COLOR's outer red nephew: the sibling `tmp` turned above `parent`. */
    method TurnOuterNephewRight(parent: Node, tmp: Node, ghost c0: Ctx<Node>, ghost t0: Tree<Node>)
      returns (ghost t: Tree<Node>)
      requires At(c0, t0) && c0.InRight? && c0.sib.Branch? && RedRoot(c0.sib.left)
      requires parent == c0.node && tmp == c0.sib.node
      modifies `root, nodes
      ensures var s := c0.sib;
              t == Branch(s.left.(red := false), tmp, c0.red, Branch(s.right, parent, false, t0))
      ensures At(c0.up, t)
    {
      Across(c0, t0);
      ghost var cs, s := Flip(c0, t0), c0.sib.(red := c0.red);
      Recolor(tmp, parent.red, cs, c0.sib);
      Across(cs, s);
      ghost var c1, t1 := InRight(c0.up, parent, c0.red, s), Branch(s, parent, false, t0);
      Up(c1, t0);
      Recolor(parent, false, c0.up, Attach(c1, t0));
      DownLeft(c0.up, t1);
      ghost var c2 := InLeft(c0.up, parent, false, t0);
      DownLeft(c2, s);
      ghost var c3, d := InLeft(c2, tmp, s.red, s.right), s.left.(red := false);
      if tmp.left != null {
        Recolor(tmp.left, false, c3, s.left);
      }
      Up(c3, d);
      ghost var s' := Branch(d, tmp, s.red, s.right);
      Up(c2, s');
      var _ := RotateRight(parent, c0.up, Branch(s', parent, false, t0));
      t := Branch(d, tmp, c0.red, Branch(s.right, parent, false, t0));
    }

    /** The cases of RB_REMOVE_COLOR with a black sibling on the left; `done` is the loop's `break`. */
    method BlackSiblingRight(parent0: Node, tmp0: Node, ghost c0: Ctx<Node>, ghost t0: Tree<Node>)
      returns (elm: Node?, parent: Node?, done: bool, ghost c: Ctx<Node>, ghost t: Tree<Node>)
      requires At(c0, t0) && RemoveInv(c0, t0) && !RedRoot(t0) && c0.InRight? && !RedRoot(c0.sib) && c0.sib.Branch?
      requires parent0 == c0.node && tmp0 == c0.sib.node
      modifies `root, nodes
      ensures At(c, t) && InOrder(Plug(c, t)) == InOrder(Plug(c0, t0))
      ensures done ==> RedBlack(Plug(c, t)) && elm == root && t.Branch?
      ensures !done ==> RemoveInv(c, t) && elm == RootOf(t) && parent == ParentOf(c)
      ensures !done ==> c == c0.up && RedRoot(t) == c0.red
    {
      elm, parent, done, c, t := null, parent0, false, c0, t0;
      var tmp := tmp0;
      NephewColours(c, t);
      if (tmp.right == null || !tmp.right.red) && (tmp.left == null || !tmp.left.red) {
        BlackNephews(c, t);
        Across(c, t);
        ghost var s := c.sib.(red := true);
        Recolor(tmp, true, Flip(c, t), c.sib);
        Across(Flip(c, t), s);
        ghost var c1 := InRight(c.up, parent, c.red, s);
        Up(c1, t);
        elm := parent;
        parent := elm.parent;
        c, t := c.up, Attach(c1, t);
      } else {
        if tmp.left == null || !tmp.left.red {
          InnerNephewRight(c, t);
          tmp, c := TurnInnerNephewRight(parent, tmp, c, t);
        }
        OuterNephewRight(c, t);
        t := TurnOuterNephewRight(parent, tmp, c, t);
        c := c.up;
        elm := root;
        done := true;
      }
    }

    /** One round of RB_REMOVE_COLOR's loop when the short subtree is a right child. */
    method RemoveColorRoundRight(parent0: Node, ghost c0: Ctx<Node>, ghost t0: Tree<Node>)
      returns (elm: Node?, parent: Node?, done: bool, ghost c: Ctx<Node>, ghost t: Tree<Node>)
      requires At(c0, t0) && RemoveInv(c0, t0) && !RedRoot(t0) && c0.InRight? && parent0 == c0.node
      modifies `root, nodes
      ensures At(c, t) && InOrder(Plug(c, t)) == InOrder(Plug(c0, t0))
      ensures done ==> RedBlack(Plug(c, t)) && elm == root && t.Branch?
      ensures !done ==> RemoveInv(c, t) && elm == RootOf(t) && parent == ParentOf(c)
      ensures !done ==> RedRoot(t) || Depth(c) < Depth(c0)
    {
      parent, c, t := parent0, c0, t0;
      var tmp := parent.left;
      SiblingExists(c, t);
      if tmp.red {
        RedSiblingRight(c, t);
        tmp, c := LiftRedSiblingRight(parent, tmp, c, t);
        SiblingExists(c, t);
      }
      elm, parent, done, c, t := BlackSiblingRight(parent, tmp, c, t);
    }


    lemma {:induction false} RootAbove(c: Ctx<Node>, hole: Node?)
      requires !c.Top?
      ensures TopOf(c, hole) in CNodes(c)
    {
      if !c.up.Top? {
        RootAbove(c.up, c.node);
      }
    }

    /** RB_REMOVE_COLOR: gives back the black node that the subtree `t0` below `parent0` is short of. */
    method RbRemoveColor(parent0: Node?, elm0: Node?, ghost c0: Ctx<Node>, ghost t0: Tree<Node>) returns (ghost t': Tree<Node>)
      requires At(c0, t0) && RemoveInv(c0, t0) && elm0 == RootOf(t0) && parent0 == ParentOf(c0)
      modifies `root, nodes
      ensures At(Top, t') && RedBlack(t') && InOrder(t') == InOrder(Plug(c0, t0))
    {
      var elm, parent, done := elm0, parent0, false;
      ghost var c, t := c0, t0;
      while !done && (elm == null || !elm.red) && elm != root
        invariant At(c, t) && InOrder(Plug(c, t)) == InOrder(Plug(c0, t0))
        invariant done ==> RedBlack(Plug(c, t)) && elm == root && t.Branch?
        invariant !done ==> RemoveInv(c, t) && elm == RootOf(t) && parent == ParentOf(c)
        decreases !done, if RedRoot(t) then 0 else 1 + Depth(c)
      {
        assert !c.Top?;
        if parent.left == elm {
          elm, parent, done, c, t := RemoveColorRoundLeft(parent, c, t);
        } else {
          elm, parent, done, c, t := RemoveColorRoundRight(parent, c, t);
        }
      }
      if !c.Top? {
        RootAbove(c, RootOf(t));
      }
      if done {
        t' := BlackenRoot(c, t);
      } else {
        RemoveDone(c, t);
        if elm != null {
          Recolor(elm, false, c, t);
          t := t.(red := false);
        }
        Whole(c, t);
        t' := Plug(c, t);
      }
    }

    // ---- RB_REMOVE --------------------------------------------------------------------------

    /** The inverse of `Whole`: any focus can be taken. */
    lemma {:induction false} Refocus(c: Ctx<Node>, t: Tree<Node>)
      requires At(Top, Plug(c, t))
      ensures At(c, t)
    {
      if !c.Top? {
        Refocus(c.up, Attach(c, t));
      }
    }

    /** Takes out a node with at most one child, `child`, which moves up into its place. */
    method Unlink(elm: Node, child: Node?, parent: Node?, ghost c: Ctx<Node>, ghost t: Tree<Node>, ghost k: Tree<Node>)
      requires At(c, t) && t.Branch? && t.node == elm && child == RootOf(k) && parent == ParentOf(c)
      requires (t.left.Leaf? && k == t.right) || (t.right.Leaf? && k == t.left)
      modifies `root, `nodes, nodes - {elm}
      ensures At(c, k) && nodes == old(nodes) - {elm}
    {
      assert Distinct(k) && Linked(k, elm) && Nodes(t) == Nodes(k) + {elm};
      assert k.Branch? ==> k.node in Nodes(k);
      assert !c.Top? ==> c.node in CNodes(c);
      if child != null {
        Reparent(child, parent, k, elm);
      }
      Replace(elm, parent, child, c);
      nodes := nodes - {elm};
      assert Linked(k, parent);
    }

    /** Points the children of a node at `elm`. */
    static method AdoptChildren(elm: Node, left: Node, right: Node?, ghost l: Tree<Node>, ghost r: Tree<Node>, ghost was: Node, ghost S: set<Node>)
      requires l.Branch? && left == l.node && right == RootOf(r)
      requires Distinct(l) && Distinct(r) && Nodes(l) !! Nodes(r) && Nodes(l) + Nodes(r) <= S
      requires Linked(l, was) && Linked(r, was)
      modifies left`parent, right
      ensures Linked(l, elm) && Linked(r, elm)
    {
      assert l.node in Nodes(l) && (r.Branch? ==> r.node in Nodes(r));
      Reparent(left, elm, l, was);
      if right != null {
        Reparent(right, elm, r, was);
      }
    }

    /** Gives `elm`, which is in no tree, the links and the colour of `was`, and its place under the parent. */
    method TakeOver(elm: Node, was: Node, ghost c: Ctx<Node>)
      requires elm !in nodes && was in nodes && CNodes(c) <= nodes && was !in CNodes(c)
      requires CDistinct(c) && CLinked(c, was) && root == TopOf(c, was) && was.parent == ParentOf(c)
      modifies `root, ParentOf(c), elm
      ensures CLinked(c, elm) && root == TopOf(c, elm)
      ensures elm.left == was.left && elm.right == was.right && elm.parent == was.parent && elm.red == was.red
    {
      elm.left, elm.right, elm.parent, elm.red := was.left, was.right, was.parent, was.red;
      assert CLinked(c, was);
      Replace(was, was.parent, elm, c);
    }

    /** `TakeOver`, and the children of `was` pointed at `elm`. */
    method StandIn(elm: Node, was: Node, ghost c: Ctx<Node>, ghost l: Tree<Node>, ghost r: Tree<Node>)
      requires elm !in nodes && was in nodes && CNodes(c) <= nodes && Nodes(l) + Nodes(r) <= nodes
      requires was !in CNodes(c) && was !in Nodes(l) && was !in Nodes(r)
      requires CNodes(c) !! Nodes(l) && CNodes(c) !! Nodes(r) && Nodes(l) !! Nodes(r)
      requires CDistinct(c) && Distinct(l) && Distinct(r) && l.Branch?
      requires CLinked(c, was) && root == TopOf(c, was) && was.parent == ParentOf(c)
      requires Linked(l, was) && Linked(r, was) && was.left == RootOf(l) && was.right == RootOf(r)
      modifies `root, nodes - {was}, elm
      ensures CLinked(c, elm) && root == TopOf(c, elm)
      ensures Linked(l, elm) && Linked(r, elm)
      ensures elm.left == was.left && elm.right == was.right && elm.parent == was.parent && elm.red == was.red
    {
      assert l.node in Nodes(l) && (r.Branch? ==> r.node in Nodes(r));
      assert !c.Top? ==> c.node in CNodes(c);
      TakeOver(elm, was, c);
      AdoptChildren(elm, was.left, was.right, l, r, was, nodes);
    }

    /** Puts `elm`, which is in no tree, where `was` is. */
    method Transplant(elm: Node, was: Node, ghost c: Ctx<Node>, ghost t: Tree<Node>)
      requires At(c, t) && t.Branch? && t.node == was && elm !in nodes && t.left.Branch?
      modifies `root, `nodes, nodes, elm
      ensures At(c, Branch(t.left, elm, t.red, t.right)) && nodes == old(nodes) - {was} + {elm}
    {
      RenodeShape(c, t, elm);
      StandIn(elm, was, c, t.left, t.right);
      nodes := nodes - {was} + {elm};
      assert Linked(t.left, elm) && Linked(t.right, elm) && CLinked(c, elm);
    }

    /** RB_REMOVE of a node with at most one child. */
    method RemoveSingle(elm: Node, child: Node?, ghost c: Ctx<Node>, ghost t: Tree<Node>, ghost k: Tree<Node>)
      returns (ghost t': Tree<Node>)
      requires At(c, t) && RedBlack(Plug(c, t)) && t.Branch? && t.node == elm && child == RootOf(k)
      requires (t.left.Leaf? && k == t.right) || (t.right.Leaf? && k == t.left)
      modifies `root, `nodes, nodes
      ensures At(Top, t') && RedBlack(t') && nodes == old(nodes) - {elm}
      ensures InOrder(t') == InOrder(Plug(c, k))
    {
      UnlinkInv(c, t, k);
      var parent, red := elm.parent, elm.red;
      Unlink(elm, child, parent, c, t, k);
      if !red {
        t' := RbRemoveColor(parent, child, c, k);
      } else {
        Whole(c, k);
        t' := Plug(c, k);
      }
    }

    lemma {:induction false} UpNest(inner: Ctx<Node>, outer: Ctx<Node>, t: Tree<Node>)
      requires At(Nest(inner, outer), t)
      ensures At(outer, Plug(inner, t))
    {
      if !inner.Top? {
        Up(Nest(inner, outer), t);
        UpNest(inner.up, outer, Attach(inner, t));
      }
    }

    lemma {:induction false} DownNest(inner: Ctx<Node>, outer: Ctx<Node>, t: Tree<Node>)
      requires At(outer, Plug(inner, t))
      ensures At(Nest(inner, outer), t)
    {
      if !inner.Top? {
        DownNest(inner.up, outer, Attach(inner, t));
      }
    }

    /** Walks left from `elm0` to the end. */
    static method Leftmost(head: Head, elm0: Node, ghost c0: Ctx<Node>, ghost t0: Tree<Node>)
      returns (elm: Node, ghost d: Ctx<Node>, ghost t: Tree<Node>)
      requires head.At(c0, t0) && t0.Branch? && t0.node == elm0
      ensures LeftOnly(d) && head.At(Nest(d, c0), t) && t.Branch? && t.node == elm && t.left.Leaf?
      ensures Plug(d, t) == t0
    {
      elm, d, t := elm0, Top, t0;
      while elm.left != null
        invariant LeftOnly(d) && head.At(Nest(d, c0), t) && t.Branch? && t.node == elm
        invariant Plug(d, t) == t0
        decreases t
      {
        head.DownLeft(Nest(d, c0), t);
        elm := elm.left;
        d, t := InLeft(d, t.node, t.red, t.right), t.left;
      }
    }

    lemma SuccessorElsewhere(c: Ctx<Node>, t: Tree<Node>, d: Ctx<Node>, m: Tree<Node>)
      requires Apart(c, t) && t.Branch? && m.Branch? && Plug(d, m) == t.right
      ensures !d.Top? ==> d.node != t.node
      ensures m.node in Nodes(t) && m.node != t.node
    {
      PlugNodes(d, m);
      assert m.node in Nodes(t.right);
    }

    /** RB_REMOVE's relinking for a node `was` with two children: its successor `elm` takes its place. */
    method RelinkSuccessor(was: Node, elm: Node, ghost c: Ctx<Node>, ghost t: Tree<Node>, ghost d: Ctx<Node>, ghost m: Tree<Node>)
      returns (child: Node?, parent: Node?, red: bool)
      requires t.Branch? && t.node == was && t.left.Branch?
      requires At(Nest(d, InRight(c, was, t.red, t.left)), m) && m.Branch? && m.node == elm && m.left.Leaf?
      requires elm != was && (!d.Top? ==> d.node != was)
      modifies `root, `nodes, nodes
      ensures nodes == old(nodes) - {was} && red == m.red
      ensures var c' := Nest(d, InRight(c, elm, t.red, t.left));
              At(c', m.right) && child == RootOf(m.right) && parent == ParentOf(c')
    {
      ghost var o, k := InRight(c, was, t.red, t.left), m.right;
      child, parent, red := elm.right, elm.parent, elm.red;
      Unlink(elm, child, parent, Nest(d, o), m, k);
      if elm.parent == was {
        parent := elm;
      }
      Succeed(elm, was, c, t.red, t.left, d, k);
    }

    /** `Transplant` of the node above the context `d`, seen from below it. */
    method Succeed(elm: Node, was: Node, ghost c: Ctx<Node>, ghost red: bool, ghost l: Tree<Node>, ghost d: Ctx<Node>, ghost k: Tree<Node>)
      requires At(Nest(d, InRight(c, was, red, l)), k) && elm !in nodes && l.Branch?
      modifies `root, `nodes, nodes, elm
      ensures At(Nest(d, InRight(c, elm, red, l)), k) && nodes == old(nodes) - {was} + {elm}
    {
      ghost var r := Plug(d, k);
      UpNest(d, InRight(c, was, red, l), k);
      Up(InRight(c, was, red, l), r);
      Transplant(elm, was, c, Branch(l, was, red, r));
      DownRight(c, Branch(l, elm, red, r));
      DownNest(d, InRight(c, elm, red, l), k);
    }

    /** RB_REMOVE of a node `was` with two children. */
    method RemoveDouble(was: Node, right: Node, ghost c: Ctx<Node>, ghost t: Tree<Node>) returns (ghost t': Tree<Node>)
      requires At(c, t) && RedBlack(Plug(c, t)) && t.Branch? && t.node == was && t.left.Branch? && right == RootOf(t.right)
      modifies `root, `nodes, nodes
      ensures At(Top, t') && RedBlack(t') && nodes == old(nodes) - {was}
      ensures IndexOf(c, t) < |InOrder(Plug(c, t))|
      ensures InOrder(t') == Without(InOrder(Plug(c, t)), IndexOf(c, t))
    {
      ghost var o := InRight(c, was, t.red, t.left);
      DownRight(c, t);
      var elm;
      ghost var d, m;
      elm, d, m := Leftmost(this, right, o, t.right);
      NestPlug(d, o, m);
      UnlinkInv(Nest(d, o), m, m.right);
      SuccessorOrder(c, t, d, m);
      SuccessorElsewhere(c, t, d, m);
      var child, parent, red := RelinkSuccessor(was, elm, c, t, d, m);
      t' := FinishDouble(parent, child, red, d, o, elm, m.right);
    }

    method FinishDouble(parent: Node?, child: Node?, red: bool, ghost d: Ctx<Node>, ghost o: Ctx<Node>, elm: Node, ghost k: Tree<Node>)
      returns (ghost t': Tree<Node>)
      requires o.InRight?
      requires var c := Nest(d, InRight(o.up, elm, o.red, o.sib));
               At(c, k) && parent == ParentOf(c) && child == RootOf(k)
      requires if red then RedBlack(Plug(Nest(d, o), k)) else RemoveInv(Nest(d, o), k)
      modifies `root, nodes
      ensures At(Top, t') && RedBlack(t') && InOrder(t') == InOrder(Plug(Nest(d, InRight(o.up, elm, o.red, o.sib)), k))
    {
      ghost var c := Nest(d, InRight(o.up, elm, o.red, o.sib));
      NestColours(d, o.up, o.node, elm, o.red, o.sib, BlackHeight(k) + if red then 0 else 1, red && RedRoot(k));
      if !red {
        t' := RbRemoveColor(parent, child, c, k);
      } else {
        PlugRedBlack(c, k);
        PlugRedBlack(Nest(d, o), k);
        Whole(c, k);
        t' := Plug(c, k);
      }
    }

    /** RB_REMOVE: takes the node `elm` out of the tree. */
    method RbRemove(elm: Node) returns (ghost at: nat)
      requires Valid() && elm in nodes
      modifies this, nodes
      ensures Valid() && nodes == old(nodes) - {elm}
      ensures at < |old(Contents())| && old(Contents())[at] == elm
      ensures Contents() == Without(old(Contents()), at)
    {
      ghost var c, t := FocusOn(Top, tree, elm);
      Refocus(c, t);
      RootInOrder(c, t);
      at := IndexOf(c, t);
      RemoveSorted(InOrder(tree), at);
      tree := RemoveAt(elm, c, t);
    }

    /** RB_REMOVE, where `elm` is the root of `t`. */
    method RemoveAt(elm: Node, ghost c: Ctx<Node>, ghost t: Tree<Node>) returns (ghost t': Tree<Node>)
      requires At(c, t) && RedBlack(Plug(c, t)) && t.Branch? && t.node == elm
      modifies `root, `nodes, nodes
      ensures At(Top, t') && RedBlack(t') && nodes == old(nodes) - {elm}
      ensures IndexOf(c, t) < |InOrder(Plug(c, t))|
      ensures InOrder(t') == Without(InOrder(Plug(c, t)), IndexOf(c, t))
    {
      if elm.left == null {
        UnlinkOrder(c, t, t.right);
        t' := RemoveSingle(elm, elm.right, c, t, t.right);
      } else if elm.right == null {
        UnlinkOrder(c, t, t.left);
        t' := RemoveSingle(elm, elm.left, c, t, t.left);
      } else {
        t' := RemoveDouble(elm, elm.right, c, t);
      }
    }

    /** RB_FIND: the node of that name. */
    method RbFind(name: CStr) returns (r: Node?)
      requires Valid()
      ensures r != null ==> r in nodes && r in Contents() && r.col.name == name
      ensures r == null ==> forall n :: n in Contents() ==> n.col.name != name
    {
      var parent, comp;
      ghost var c, t;
      r, parent, comp, c, t := RbSearch(name, tree);
      PlugInOrder(c, t);
      if r == null {
        NoSuchName(Before(c), After(c), name);
        assert InOrder(tree) == Before(c) + After(c);
      } else {
        assert t.node in InOrder(t);
        InOrderNodes(tree, t.node);
      }
    }

    /** RB_SET, and the new node hung in the empty place that the search found. */
    method Hang(elm: Node, parent: Node?, comp: int, ghost c: Ctx<Node>)
      requires CDistinct(c) && CLinked(c, null) && root == TopOf(c, null) && elm !in nodes && CNodes(c) <= nodes
      requires parent == ParentOf(c) && (parent != null ==> if comp < 0 then c.InLeft? else c.InRight?)
      modifies `root, parent, elm
      ensures CLinked(c, elm) && root == TopOf(c, elm)
      ensures elm.parent == parent && elm.left == null && elm.right == null && elm.red
    {
      assert !c.Top? ==> c.node in CNodes(c) && CLinked(c.up, c.node) && Linked(c.sib, c.node);
      elm.parent := parent;
      elm.left, elm.right := null, null;
      elm.red := true;
      if parent != null {
        if comp < 0 {
          parent.left := elm;
        } else {
          parent.right := elm;
        }
      } else {
        root := elm;
      }
      assert !c.Top? ==> CLinked(c.up, c.node) && Linked(c.sib, c.node);
    }

    /** RB_INSERT once the empty place `c` is found. */
    method Place(elm: Node, parent: Node?, comp: int, ghost c: Ctx<Node>) returns (ghost t': Tree<Node>)
      requires At(c, Leaf) && elm !in nodes && InsertInv(c, Branch(Leaf, elm, true, Leaf))
      requires parent == ParentOf(c) && (parent != null ==> if comp < 0 then c.InLeft? else c.InRight?)
      modifies `root, `nodes, nodes, elm
      ensures At(Top, t') && RedBlack(t') && nodes == old(nodes) + {elm}
      ensures InOrder(t') == InOrder(Plug(c, Branch(Leaf, elm, true, Leaf)))
    {
      ghost var t := Branch(Leaf, elm, true, Leaf);
      Hang(elm, parent, comp, c);
      nodes := nodes + {elm};
      t' := RbInsertColor(elm, c, t);
    }

    /** RB_INSERT: adds `elm` unless a node of its name is there, which is then returned. */
    method RbInsert(elm: Node) returns (r: Node?, ghost at: nat)
      requires Valid() && elm !in nodes
      modifies this, nodes, elm
      ensures Valid()
      ensures r != null ==> r in Contents() && r.col.name == elm.col.name
      ensures r != null ==> tree == old(tree) && nodes == old(nodes)
      ensures r == null ==> forall n :: n in old(Contents()) ==> n.col.name != elm.col.name
      ensures r == null ==> nodes == old(nodes) + {elm} && at <= |old(Contents())|
      ensures r == null ==> Contents() == old(Contents())[..at] + [elm] + old(Contents())[at..]
    {
      var parent, comp;
      ghost var c, t;
      r, parent, comp, c, t := RbSearch(elm.col.name, tree);
      at := |Before(c)|;
      if r != null {
        PlugInOrder(c, t);
        assert t.node in InOrder(t);
        return;
      }
      InsertPlace(c, elm);
      tree := Place(elm, parent, comp, c);
    }

    // ---- traversal --------------------------------------------------------------------------

    /** RB_MINMAX: the first node for a negative `val`, otherwise the last. */
    method RbMinMax(val: int) returns (parent: Node?)
      requires Valid()
      ensures Contents() == [] ==> parent == null
      ensures Contents() != [] ==> parent == if val < 0 then Contents()[0] else Contents()[|Contents()| - 1]
    {
      var tmp := root;
      parent := null;
      ghost var c, t := Top, tree;
      while tmp != null
        invariant At(c, t) && Plug(c, t) == tree && tmp == RootOf(t) && parent == ParentOf(c)
        invariant if val < 0 then LeftOnly(c) else RightOnly(c)
        decreases t
      {
        parent := tmp;
        if val < 0 {
          DownLeft(c, t);
          tmp := tmp.left;
          c, t := InLeft(c, t.node, t.red, t.right), t.left;
        } else {
          DownRight(c, t);
          tmp := tmp.right;
          c, t := InRight(c, t.node, t.red, t.left), t.right;
        }
      }
      PlugInOrder(c, t);
      if val < 0 { LeftOnlyBefore(c); } else { RightOnlyAfter(c); }
    }

    /** RB_NEXT: the node after `elm0` in the order of the names, or null after the last. */
    method RbNext(elm0: Node) returns (elm: Node?, ghost at: nat)
      requires Valid() && elm0 in nodes
      ensures at < |Contents()| && Contents()[at] == elm0
      ensures elm == if at + 1 < |Contents()| then Contents()[at + 1] else null
      ensures forall i :: 0 <= i < |Contents()| && Contents()[i] == elm0 ==>
                elm == if i + 1 < |Contents()| then Contents()[i + 1] else null
    {
      ghost var c, t := FocusOn(Top, tree, elm0);
      Refocus(c, t);
      RootInOrder(c, t);
      at := IndexOf(c, t);
      PlugInOrder(c, t);
      if elm0.right != null {
        DownRight(c, t);
        ghost var d, m;
        elm, d, m := Leftmost(this, elm0.right, InRight(c, elm0, t.red, t.left), t.right);
        MinimumOrder(d, m);
        assert InOrder(t)[|InOrder(t.left)| + 1] == elm;
      } else {
        elm := Climb(elm0, c, t);
      }
      OnlyAt(Contents(), at);
    }

    /** The upward half of RB_NEXT: to the first ancestor reached from its left child. */
    method Climb(elm0: Node, ghost c0: Ctx<Node>, ghost t0: Tree<Node>) returns (elm: Node?)
      requires At(c0, t0) && t0.Branch? && t0.node == elm0
      ensures var s, k := InOrder(Plug(c0, t0)), |Before(c0)| + |InOrder(t0)|;
              k <= |s| && elm == if k < |s| then s[k] else null
    {
      elm := elm0;
      ghost var c, t := c0, t0;
      while elm.parent != null && elm == elm.parent.right
        invariant At(c, t) && t.Branch? && t.node == elm && Plug(c, t) == Plug(c0, t0)
        invariant |Before(c)| + |InOrder(t)| == |Before(c0)| + |InOrder(t0)|
        decreases Depth(c)
      {
        assert c.InRight?;
        Up(c, t);
        elm := elm.parent;
        c, t := c.up, Attach(c, t);
      }
      PlugInOrder(c, t);
      elm := elm.parent;
    }
  }
}
