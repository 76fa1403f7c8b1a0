/** The splay tree of db/tree.h on linked elements: one stack element holds both pieces that splaying cuts off. */
module SplayTree {
  import opened CStrings
  import opened Columns
  import opened RbShape
  import opened SplayShape

  ghost function RootOf(t: STree): Elem? {
    if t.Leaf? then null else t.node
  }

  /** The links of the heap are those of `t`. */
  ghost predicate Linked(t: STree)
    reads Nodes(t)
  {
    t.Branch? ==> t.node.left == RootOf(t.left) && Linked(t.left) && t.node.right == RootOf(t.right) && Linked(t.right)
  }

  /** The element whose link is the hole of the piece `c`. */
  ghost function Last(c: SCtx, node: Elem): Elem {
    if c.Top? then node else c.node
  }

  /** The left piece hangs off `node.right`, the right one off `node.left`; the links at their holes do not matter. */
  ghost predicate LeftPiece(c: SCtx, node: Elem)
    reads CNodes(c), node`right
  {
    !c.Top? ==>
      && c.InRight? && c.node.left == RootOf(c.sib) && Linked(c.sib)
      && Last(c.up, node) in CNodes(c.up) + {node} && Last(c.up, node).right == c.node && LeftPiece(c.up, node)
  }

  ghost predicate RightPiece(c: SCtx, node: Elem)
    reads CNodes(c), node`left
  {
    !c.Top? ==>
      && c.InLeft? && c.node.right == RootOf(c.sib) && Linked(c.sib)
      && Last(c.up, node) in CNodes(c.up) + {node} && Last(c.up, node).left == c.node && RightPiece(c.up, node)
  }

  /** The three parts share nothing. */
  ghost predicate Parts(l: SCtx, t: STree, r: SCtx, node: Elem, nodes: set<Elem>) {
    && CDistinct(l) && Distinct(t) && CDistinct(r)
    && CNodes(l) !! Nodes(t) && CNodes(l) !! CNodes(r) && Nodes(t) !! CNodes(r)
    && nodes == CNodes(l) + Nodes(t) + CNodes(r) && node !in nodes
  }

  // ---- moving links ----------------------------------------------------------------------------------------------

  /** A link at the hole of the left piece closes it. */
  lemma {:induction false} CloseLeft(c: SCtx, node: Elem, t: STree)
    requires LeftPiece(c, node) && Last(c, node).right == RootOf(t) && Linked(t)
    ensures Linked(Plug(c, t)) && node.right == RootOf(Plug(c, t))
  {
    if !c.Top? {
      CloseLeft(c.up, node, Branch(c.sib, c.node, c.red, t));
    }
  }

  lemma {:induction false} CloseRight(c: SCtx, node: Elem, t: STree)
    requires RightPiece(c, node) && Last(c, node).left == RootOf(t) && Linked(t)
    ensures Linked(Plug(c, t)) && node.left == RootOf(Plug(c, t))
  {
    if !c.Top? {
      CloseRight(c.up, node, Branch(t, c.node, c.red, c.sib));
    }
  }

  /** The elements of the tree in the middle are not among the others. */
  lemma Untouched(l: SCtx, t: STree, r: SCtx, node: Elem, nodes: set<Elem>)
    requires Parts(l, t, r, node, nodes) && t.Branch?
    ensures CNodes(l) <= nodes && Nodes(t) <= nodes && CNodes(r) <= nodes && node !in nodes
    ensures t.node !in CNodes(l) && t.node !in CNodes(r) && t.node != node && t.node in nodes
    ensures t.left.Branch? ==> t.left.node !in CNodes(l) && t.left.node !in CNodes(r) && t.left.node != node && t.left.node in nodes
    ensures t.right.Branch? ==> t.right.node !in CNodes(l) && t.right.node !in CNodes(r) && t.right.node != node && t.right.node in nodes
  {
    assert t.left.Branch? ==> t.left.node in Nodes(t.left);
    assert t.right.Branch? ==> t.right.node in Nodes(t.right);
  }

  lemma RotatedParts(l: SCtx, t: STree, r: SCtx, node: Elem, nodes: set<Elem>)
    requires Parts(l, t, r, node, nodes) && t.Branch?
    ensures t.left.Branch? ==> Parts(l, SplayShape.RotateRight(t), r, node, nodes)
    ensures t.right.Branch? ==> Parts(l, SplayShape.RotateLeft(t), r, node, nodes)
  {
    hide CDistinct, CNodes, Distinct, Nodes;
    if t.left.Branch? {
      RotateNodes(t.left.left, t.left.node, false, t.left.right, t.node, t.red, t.right, t.left.red, false);
      RotateNodes(t.left.left, t.left.node, false, t.left.right, t.node, false, t.right, t.left.red, t.red);
    }
    if t.right.Branch? {
      RotateNodes(t.left, t.node, t.red, t.right.left, t.right.node, t.right.red, t.right.right, false, false);
    }
  }

  /** The three assignments of SPLAY_ROTATE_RIGHT but the root's. */
  method TurnRight(root: Elem, tmp: Elem, ghost t: STree)
    requires t.Branch? && t.left.Branch? && root == t.node && tmp == t.left.node && Distinct(t) && Linked(t)
    modifies root`left, tmp`right
    ensures Linked(SplayShape.RotateRight(t))
  {
    ghost var a, b, d := t.left.left, t.left.right, t.right;
    assert tmp in Nodes(t.left) && Linked(t.left) && Linked(a) && Linked(b) && Linked(d);
    root.left := tmp.right;
    tmp.right := root;
    assert Linked(a) && Linked(b) && Linked(d);
    assert Linked(Node(b, root, d));
  }

  method TurnLeft(root: Elem, tmp: Elem, ghost t: STree)
    requires t.Branch? && t.right.Branch? && root == t.node && tmp == t.right.node && Distinct(t) && Linked(t)
    modifies root`right, tmp`left
    ensures Linked(SplayShape.RotateLeft(t))
  {
    ghost var a, b, d := t.left, t.right.left, t.right.right;
    assert tmp in Nodes(t.right) && Linked(t.right) && Linked(a) && Linked(b) && Linked(d);
    root.right := tmp.left;
    tmp.left := root;
    assert Linked(a) && Linked(b) && Linked(d);
    assert Linked(Node(a, root, b));
  }

  /** The link at the hole of the left piece may change: nothing depends on it. */
  method SetHoleRight(left: Elem, x: Elem?, ghost l: SCtx, ghost node: Elem)
    requires LeftPiece(l, node) && left == Last(l, node) && CDistinct(l) && node !in CNodes(l)
    modifies left`right
    ensures left.right == x && LeftPiece(l, node)
  {
    assert !l.Top? ==> Linked(l.sib) && LeftPiece(l.up, node) && Last(l.up, node) != l.node;
    left.right := x;
    assert !l.Top? ==> Linked(l.sib) && LeftPiece(l.up, node);
  }

  method SetHoleLeft(right: Elem, x: Elem?, ghost r: SCtx, ghost node: Elem)
    requires RightPiece(r, node) && right == Last(r, node) && CDistinct(r) && node !in CNodes(r)
    modifies right`left
    ensures right.left == x && RightPiece(r, node)
  {
    assert !r.Top? ==> Linked(r.sib) && RightPiece(r.up, node) && Last(r.up, node) != r.node;
    right.left := x;
    assert !r.Top? ==> Linked(r.sib) && RightPiece(r.up, node);
  }

  lemma LastPlace(l: SCtx, t: STree, r: SCtx, node: Elem, nodes: set<Elem>)
    requires Parts(l, t, r, node, nodes)
    ensures CDistinct(l) && CDistinct(r) && node !in CNodes(l) && node !in CNodes(r)
    ensures Last(l, node) !in CNodes(r) && Last(l, node) !in Nodes(t) && Last(r, node) !in CNodes(l) && Last(r, node) !in Nodes(t)
    ensures Last(l, node) == Last(r, node) ==> Last(l, node) == node
    ensures !l.Top? ==> Last(l, node) != node
    ensures !r.Top? ==> Last(r, node) != node
  {
    assert !l.Top? ==> l.node in CNodes(l);
    assert !r.Top? ==> r.node in CNodes(r);
  }

  /** The root and its subtree away from the hole join a piece. */
  lemma JoinRight(r: SCtx, t: STree, node: Elem)
    requires RightPiece(r, node) && t.Branch? && Last(r, node).left == t.node && t.node.right == RootOf(t.right) && Linked(t.right)
    ensures RightPiece(InLeft(r, t.node, false, t.right), node)
  {
    assert !r.Top? ==> r.node in CNodes(r);
  }

  lemma JoinLeft(l: SCtx, t: STree, node: Elem)
    requires LeftPiece(l, node) && t.Branch? && Last(l, node).right == t.node && t.node.left == RootOf(t.left) && Linked(t.left)
    ensures LeftPiece(InRight(l, t.node, false, t.left), node)
  {
    assert !l.Top? ==> l.node in CNodes(l);
  }

  ghost predicate NotElem(o: object, s: set<Elem>) {
    var m: set<object> := s; o !in m
  }

  class Head {
    var root: Elem?
    ghost var nodes: set<Elem>
    ghost var tree: STree

    constructor ()
      ensures Valid() && tree == Leaf
    {
      root, nodes, tree := null, {}, Leaf;
    }

    ghost predicate Valid()
      reads this, nodes, Nodes(tree)
    {
      nodes == Nodes(tree) && Distinct(tree) && Linked(tree) && root == RootOf(tree) && Sorted(InOrder(tree))
    }

    /** The state of the splaying loop. */
    ghost predicate At(l: SCtx, t: STree, r: SCtx, node: Elem, left: Elem, right: Elem)
      reads this, nodes, node, CNodes(l), Nodes(t), CNodes(r)
    {
      && Parts(l, t, r, node, nodes) && Linked(t) && LeftPiece(l, node) && RightPiece(r, node)
      && root == RootOf(t) && left == Last(l, node) && right == Last(r, node)
    }

    /** SPLAY_ROTATE_RIGHT. */
    method RotateRight(tmp: Elem, ghost l: SCtx, ghost t: STree, ghost r: SCtx, ghost node: Elem, ghost left: Elem, ghost right: Elem)
      requires At(l, t, r, node, left, right) && t.Branch? && t.left.Branch? && tmp == t.left.node
      modifies `root, t.node, tmp
      ensures At(l, SplayShape.RotateRight(t), r, node, left, right)
    {
      hide Parts, LeftPiece, RightPiece, Linked;
      Untouched(l, t, r, node, nodes);
      RotatedParts(l, t, r, node, nodes);
      assert Distinct(t) by { MiddleDistinct(l, t, r, node, nodes); }
      TurnRight(root, tmp, t);
      assert NotElem(this, Nodes(SplayShape.RotateRight(t))) && NotElem(this, CNodes(l)) && NotElem(this, CNodes(r)) && NotElem(this, {node});
      root := tmp;
    }

    /** SPLAY_ROTATE_LEFT. */
    method RotateLeft(tmp: Elem, ghost l: SCtx, ghost t: STree, ghost r: SCtx, ghost node: Elem, ghost left: Elem, ghost right: Elem)
      requires At(l, t, r, node, left, right) && t.Branch? && t.right.Branch? && tmp == t.right.node
      modifies `root, t.node, tmp
      ensures At(l, SplayShape.RotateLeft(t), r, node, left, right)
    {
      hide Parts, LeftPiece, RightPiece, Linked;
      Untouched(l, t, r, node, nodes);
      RotatedParts(l, t, r, node, nodes);
      assert Distinct(t) by { MiddleDistinct(l, t, r, node, nodes); }
      TurnLeft(root, tmp, t);
      assert NotElem(this, Nodes(SplayShape.RotateLeft(t))) && NotElem(this, CNodes(l)) && NotElem(this, CNodes(r)) && NotElem(this, {node});
      root := tmp;
    }

    /** SPLAY_LINKLEFT. */
    method LinkLeft(tmp: Elem, ghost l: SCtx, ghost t: STree, ghost r: SCtx, ghost node: Elem, ghost left: Elem) returns (right: Elem)
      requires At(l, t, r, node, left, tmp) && t.Branch? && t.left.Branch?
      modifies `root, tmp`left
      ensures At(l, t.left, InLeft(r, t.node, false, t.right), node, left, right)
    {
      hide Distinct, Parts, LeftPiece, RightPiece;
      LinkedParts(l, t, r, node, nodes);
      Untouched(l, t, r, node, nodes);
      LastPlace(l, t, r, node, nodes);
      assert Linked(t.left) && Linked(t.right);
      SubNodes(t);
      SetHoleLeft(tmp, root, r, node);
      assert Linked(t.left) && Linked(t.right);
      JoinRight(r, t, node);
      right := root;
      assert NotElem(this, CNodes(l)) && NotElem(this, CNodes(InLeft(r, t.node, false, t.right))) && NotElem(this, Nodes(t.left)) && NotElem(this, {node});
      root := root.left;
    }

    /** SPLAY_LINKRIGHT. */
    method LinkRight(tmp: Elem, ghost l: SCtx, ghost t: STree, ghost r: SCtx, ghost node: Elem, ghost right: Elem) returns (left: Elem)
      requires At(l, t, r, node, tmp, right) && t.Branch? && t.right.Branch?
      modifies `root, tmp`right
      ensures At(InRight(l, t.node, false, t.left), t.right, r, node, left, right)
    {
      hide Distinct, Parts, LeftPiece, RightPiece;
      LinkedParts(l, t, r, node, nodes);
      Untouched(l, t, r, node, nodes);
      LastPlace(l, t, r, node, nodes);
      assert Linked(t.left) && Linked(t.right);
      SubNodes(t);
      SetHoleRight(tmp, root, l, node);
      assert Linked(t.left) && Linked(t.right);
      JoinLeft(l, t, node);
      left := root;
      assert NotElem(this, CNodes(r)) && NotElem(this, CNodes(InRight(l, t.node, false, t.left))) && NotElem(this, Nodes(t.right)) && NotElem(this, {node});
      root := root.right;
    }

    /** The first two assignments of SPLAY_ASSEMBLE close the pieces. */
    method ClosePieces(left: Elem, right: Elem, ghost l: SCtx, ghost t: STree, ghost r: SCtx, ghost node: Elem)
      requires At(l, t, r, node, left, right) && t.Branch?
      modifies left`right, right`left
      ensures Linked(Plug(l, t.left)) && node.right == RootOf(Plug(l, t.left))
      ensures Linked(Plug(r, t.right)) && node.left == RootOf(Plug(r, t.right))
    {
      hide Distinct, Parts, LeftPiece, RightPiece;
      Untouched(l, t, r, node, nodes);
      LastPlace(l, t, r, node, nodes);
      SubNodes(t);
      assert Linked(t.left) && Linked(t.right);
      SetHoleRight(left, root.left, l, node);
      assert Linked(t.left) && Linked(t.right);
      assert RightPiece(r, node);
      SetHoleLeft(right, root.right, r, node);
      assert Linked(t.left) && Linked(t.right);
      assert LeftPiece(l, node);
      CloseLeft(l, node, t.left);
      CloseRight(r, node, t.right);
    }

    /** SPLAY_ASSEMBLE. */
    method AssembleRoot(left: Elem, right: Elem, node: Elem, ghost l: SCtx, ghost t: STree, ghost r: SCtx)
      requires At(l, t, r, node, left, right) && t.Branch?
      modifies `tree, left`right, right`left, t.node
      ensures tree == Assemble(l, t, r) && Linked(tree) && root == RootOf(tree) && Distinct(tree) && Nodes(tree) == nodes
    {
      hide Linked, LeftPiece, RightPiece;
      Untouched(l, t, r, node, nodes);
      AssembledParts(l, t, r, node, nodes);
      ghost var a, b := Plug(l, t.left), Plug(r, t.right);
      ClosePieces(left, right, l, t, r, node);
      root.left := node.right;
      root.right := node.left;
      assert Linked(a) && Linked(b);
      tree := Assemble(l, t, r);
      LinkedNode(tree);
    }

    /** SPLAY and SPLAY_MINMAX: the tree becomes what the definition on values says. */
    method Splay(p: Probe)
      requires Valid() && root != null
      modifies this, nodes
      ensures Valid() && nodes == old(nodes) && tree == SplayShape.Splay(p, old(tree))
    {
      hide Distinct, Parts, LeftPiece, RightPiece, Linked, Loop, Assemble, SplayShape.RotateLeft, SplayShape.RotateRight;
      SplayInOrder(p, tree);
      var node := new Elem([]);
      var left, right := node, node;
      ghost var l, t, r := Top, tree, Top;
      ghost var target := Loop(p, l, t, r);
      FirstState(tree, node);
      var comp := Cmp(p, root);
      var more := comp != 0;
      if !more { LoopStops(p, l, t, r); }
      while more
        invariant fresh(node) && nodes == old(nodes) && t.Branch? && At(l, t, r, node, left, right)
        invariant comp == Cmp(p, t.node) && (more ==> comp != 0 && Loop(p, l, t, r) == target)
        invariant !more ==> Assemble(l, t, r) == target
        decreases more, Size(t)
      {
        if comp < 0 {
          more, left, right, l, t, r := GoLeft(p, node, left, right, l, t, r);
        } else {
          more, left, right, l, t, r := GoRight(p, node, left, right, l, t, r);
        }
        comp := Cmp(p, root);
        if more && comp == 0 {
          more := false;
          LoopStops(p, l, t, r);
        }
      }
      HolesInside(l, t, r, node, nodes);
      Untouched(l, t, r, node, nodes);
      AssembleRoot(left, right, node, l, t, r);
    }

    /** SPLAY_INSERT: null, or the element that has the name already. */
    method SplayInsert(elm: Elem) returns (r: Elem?, ghost at: nat)
      requires Valid() && elm !in nodes
      modifies this, nodes, elm
      ensures Valid() && at <= |old(InOrder(tree))|
      ensures r == null <==> forall n :: n in old(InOrder(tree)) ==> n.name != elm.name
      ensures r == null ==> InOrder(tree) == old(InOrder(tree))[..at] + [elm] + old(InOrder(tree))[at..]
      ensures r != null ==> InOrder(tree) == old(InOrder(tree)) && r in nodes && r.name == elm.name
    {
      hide SplayShape.Splay, Sorted, Linked, Distinct, Insert;
      at := InsertIs(tree, elm);
      ghost var was := tree;
      r := null;
      if root == null {
        elm.left, elm.right := null, null;
        OnlyOne(elm, was);
      } else {
        SplayDivides(elm.name, tree);
        Splay(Key(elm.name));
        StrCmpZeroIffEqual(elm.name, root.name);
        StrCmpZeroIffEqual(root.name, root.name);
        var comp := StrCmp(elm.name, root.name);
        InsertSpelt(was, elm);
        if comp == 0 {
          assert root in InOrder(tree);
          return root, at;
        } else if comp < 0 {
          PutOverRight(elm);
        } else {
          PutOverLeft(elm);
        }
      }
      ghost var t := Insert(was, elm).value;
      assert Linked(t) && Distinct(t) && Nodes(t) == nodes + {elm} && NotElem(this, Nodes(t)) && RootOf(t) == elm;
      root, nodes, tree := elm, nodes + {elm}, t;
    }

    /** The new element over the splayed tree, whose root goes to its right. */
    method PutOverRight(elm: Elem)
      requires Valid() && tree.Branch? && elm !in nodes
      modifies root, elm
      ensures var t := Node(tree.left, elm, Node(Leaf, tree.node, tree.right)); Linked(t) && Distinct(t) && Nodes(t) == nodes + {elm}
    {
      hide Sorted, Distinct, Nodes;
      SubParts(tree);
      TopParts(tree, elm);
      ghost var a, b := tree.left, tree.right;
      assert Linked(a) && Linked(b);
      elm.left := root.left;
      elm.right := root;
      root.left := null;
      assert Linked(a) && Linked(b);
      assert Linked(Node(Leaf, tree.node, b));
    }

    method PutOverLeft(elm: Elem)
      requires Valid() && tree.Branch? && elm !in nodes
      modifies root, elm
      ensures var t := Node(Node(tree.left, tree.node, Leaf), elm, tree.right); Linked(t) && Distinct(t) && Nodes(t) == nodes + {elm}
    {
      hide Sorted, Distinct, Nodes;
      SubParts(tree);
      TopParts(tree, elm);
      ghost var a, b := tree.left, tree.right;
      assert Linked(a) && Linked(b);
      elm.right := root.right;
      elm.left := root;
      root.right := null;
      assert Linked(a) && Linked(b);
      assert Linked(Node(a, tree.node, Leaf));
    }

    /** SPLAY_FIND. */
    method SplayFind(name: CStr) returns (r: Elem?)
      requires Valid()
      modifies this, nodes
      ensures Valid() && nodes == old(nodes) && InOrder(tree) == old(InOrder(tree))
      ensures r == null ==> forall n :: n in InOrder(tree) ==> n.name != name
      ensures r != null ==> r in InOrder(tree) && r.name == name
    {
      hide Distinct, Linked, SplayShape.Splay, Sorted;
      if root == null {
        return null;
      }
      SplayDivides(name, tree);
      Splay(Key(name));
      StrCmpZeroIffEqual(name, root.name);
      assert root in InOrder(tree);
      r := if StrCmp(name, root.name) == 0 then root else null;
    }

    /** SPLAY_MIN and SPLAY_MAX, of a tree that is not empty. */
    method SplayMinMax(p: Probe) returns (r: Elem)
      requires Valid() && root != null && !p.Key?
      modifies this, nodes
      ensures Valid() && nodes == old(nodes) && InOrder(tree) == old(InOrder(tree)) && InOrder(tree) != []
      ensures r == if p.Low? then InOrder(tree)[0] else InOrder(tree)[|InOrder(tree)| - 1]
    {
      hide Distinct, Linked, Loop, Sorted;
      SplayInOrder(p, tree);
      LoopEnds(p, Top, tree, Top);
      Splay(p);
      r := root;
    }

    /** SPLAY_REMOVE: the element of the name is gone, if there was one. */
    method SplayRemove(name: CStr) returns (found: bool, ghost at: nat)
      requires Valid()
      modifies this, nodes
      ensures Valid() && nodes <= old(nodes)
      ensures found <==> exists n :: n in old(InOrder(tree)) && n.name == name
      ensures !found ==> InOrder(tree) == old(InOrder(tree))
      ensures found ==> at < |old(InOrder(tree))| && old(InOrder(tree))[at].name == name &&
                        InOrder(tree) == old(InOrder(tree))[..at] + old(InOrder(tree))[at + 1..]
    {
      hide Distinct, Linked, SplayShape.Splay, Sorted;
      at := RemoveIs(tree, name);
      if root == null {
        return false, at;
      }
      ghost var was := tree;
      SplayDivides(name, tree);
      Splay(Key(name));
      found := StrCmp(name, root.name) == 0;
      if found {
        RemoveRoot(name);
        RestSorted(InOrder(was), at);
      }
    }

    /** The root, which has the name, is taken off: the largest below it becomes the root. */
    method RemoveRoot(name: CStr)
      requires Valid() && tree.Branch?
      modifies this, nodes
      ensures nodes == Nodes(tree) && Distinct(tree) && Linked(tree) && root == RootOf(tree) && nodes <= old(nodes)
      ensures tree == if old(tree).left.Leaf? then old(tree).right
                      else var u := SplayShape.Splay(Key(name), old(tree).left); Node(u.left, u.node, old(tree).right)
    {
      hide SplayShape.Splay, Sorted, Distinct;
      ghost var s := tree;
      SubParts(s);
      assert Linked(s.left) && Linked(s.right);
      if root.left == null {
        root := root.right;
        tree, nodes := s.right, Nodes(s.right);
      } else {
        var tmp := root.right;
        root := root.left;
        tree, nodes := s.left, Nodes(s.left);
        Splay(Key(name));
        assert Linked(s.right);
        JoinParts(tree, s.right);
        SetRightOfRoot(tmp, s.right);
      }
    }

    /** `SPLAY_RIGHT((head)->sph_root) = __tmp`. */
    method SetRightOfRoot(tmp: Elem?, ghost b: STree)
      requires Valid() && tree.Branch? && Linked(b) && tmp == RootOf(b) && nodes !! Nodes(b)
      modifies root, `tree, `nodes
      ensures tree == Node(old(tree).left, old(tree).node, b) && Linked(tree) && root == RootOf(tree) && nodes == Nodes(tree)
    {
      hide Sorted;
      assert Linked(tree.left);
      root.right := tmp;
      assert Linked(tree.left) && Linked(b);
      tree := Node(tree.left, tree.node, b);
      nodes := Nodes(tree);
    }

    /** SPLAY_NEXT of an element of the tree. */
    method SplayNext(elm: Elem, ghost i: nat) returns (r: Elem?)
      requires Valid() && i < |InOrder(tree)| && InOrder(tree)[i] == elm
      modifies this, nodes
      ensures Valid() && nodes == old(nodes) && InOrder(tree) == old(InOrder(tree))
      ensures r == if i + 1 < |InOrder(tree)| then InOrder(tree)[i + 1] else null
    {
      hide Distinct, SplayShape.Splay, Sorted;
      InOrderNodes(tree, elm);
      SplayDivides(elm.name, tree);
      ghost var s := InOrder(tree);
      Splay(Key(elm.name));
      RootPlace(s, tree, i);
      var cur := elm.right;
      ghost var t := tree.right;
      assert Linked(t);
      if cur == null {
        return null;
      }
      while cur.left != null
        invariant cur != null && t.Branch? && cur == t.node && Linked(t) && InOrder(t) != [] && InOrder(t)[0] == InOrder(tree.right)[0]
        decreases t
      {
        cur := cur.left;
        t := t.left;
      }
      r := cur;
    }

    /** One round of the loop below the root. */
    method GoLeft(p: Probe, node: Elem, left0: Elem, right0: Elem, ghost l0: SCtx, ghost t0: STree, ghost r0: SCtx)
      returns (more: bool, left: Elem, right: Elem, ghost l: SCtx, ghost t: STree, ghost r: SCtx)
      requires t0.Branch? && At(l0, t0, r0, node, left0, right0) && Cmp(p, t0.node) < 0
      modifies `root, nodes, node
      ensures t.Branch? && At(l, t, r, node, left, right)
      ensures more ==> Loop(p, l, t, r) == Loop(p, l0, t0, r0) && Size(t) < Size(t0)
      ensures !more ==> Assemble(l, t, r) == Loop(p, l0, t0, r0)
    {
      hide Distinct, Parts, LeftPiece, RightPiece, Assemble;
      left, right, l, t, r := left0, right0, l0, t0, r0;
      Untouched(l, t, r, node, nodes);
      var tmp := root.left;
      if tmp == null {
        more := false;
        return;
      }
      if Cmp(p, tmp) < 0 {
        RotateRight(tmp, l, t, r, node, left, right);
        t := SplayShape.RotateRight(t);
        if root.left == null {
          more := false;
          return;
        }
      }
      HolesInside(l, t, r, node, nodes);
      right := LinkLeft(right, l, t, r, node, left);
      r := InLeft(r, t.node, false, t.right);
      t := t.left;
      more := true;
    }

    method GoRight(p: Probe, node: Elem, left0: Elem, right0: Elem, ghost l0: SCtx, ghost t0: STree, ghost r0: SCtx)
      returns (more: bool, left: Elem, right: Elem, ghost l: SCtx, ghost t: STree, ghost r: SCtx)
      requires t0.Branch? && At(l0, t0, r0, node, left0, right0) && Cmp(p, t0.node) > 0
      modifies `root, nodes, node
      ensures t.Branch? && At(l, t, r, node, left, right)
      ensures more ==> Loop(p, l, t, r) == Loop(p, l0, t0, r0) && Size(t) < Size(t0)
      ensures !more ==> Assemble(l, t, r) == Loop(p, l0, t0, r0)
    {
      hide Distinct, Parts, LeftPiece, RightPiece, Assemble;
      left, right, l, t, r := left0, right0, l0, t0, r0;
      Untouched(l, t, r, node, nodes);
      var tmp := root.right;
      if tmp == null {
        more := false;
        return;
      }
      if Cmp(p, tmp) > 0 {
        RotateLeft(tmp, l, t, r, node, left, right);
        t := SplayShape.RotateLeft(t);
        if root.right == null {
          more := false;
          return;
        }
      }
      HolesInside(l, t, r, node, nodes);
      left := LinkRight(left, l, t, r, node, right);
      l := InRight(l, t.node, false, t.left);
      t := t.right;
      more := true;
    }
  }

  lemma MiddleDistinct(l: SCtx, t: STree, r: SCtx, node: Elem, nodes: set<Elem>)
    requires Parts(l, t, r, node, nodes)
    ensures Distinct(t)
  {
  }

  lemma HolesInside(l: SCtx, t: STree, r: SCtx, node: Elem, nodes: set<Elem>)
    requires Parts(l, t, r, node, nodes)
    ensures Last(l, node) in nodes + {node} && Last(r, node) in nodes + {node}
  {
    assert !l.Top? ==> l.node in CNodes(l);
    assert !r.Top? ==> r.node in CNodes(r);
  }

  lemma FirstState(t: STree, node: Elem)
    requires Distinct(t) && node !in Nodes(t)
    ensures Parts(Top, t, Top, node, Nodes(t)) && LeftPiece(Top, node) && RightPiece(Top, node)
  {
  }

  lemma LoopStops(p: Probe, l: SCtx, t: STree, r: SCtx)
    requires t.Branch? && Cmp(p, t.node) == 0
    ensures Loop(p, l, t, r) == Assemble(l, t, r)
  {
  }

  lemma SplayInOrder(p: Probe, t: STree)
    ensures t.Branch? ==> InOrder(SplayShape.Splay(p, t)) == InOrder(t) && SplayShape.Splay(p, t) == Loop(p, Top, t, Top)
  {
    if t.Branch? {
      LoopOrder(p, Top, t, Top);
      assert [] + InOrder(t) + [] == InOrder(t);
    }
  }

  lemma SubParts(t: STree)
    requires t.Branch? && Distinct(t) && Sorted(InOrder(t))
    ensures Distinct(t.left) && Distinct(t.right) && Nodes(t.left) !! Nodes(t.right) && Sorted(InOrder(t.left))
    ensures t.node !in Nodes(t.left) && t.node !in Nodes(t.right) && Nodes(t.left) <= Nodes(t) && Nodes(t.right) <= Nodes(t)
  {
    assert forall i :: 0 <= i < |InOrder(t.left)| ==> InOrder(t.left)[i] == InOrder(t)[i];
  }

  lemma JoinParts(u: STree, b: STree)
    requires u.Branch? && Distinct(u) && Distinct(b) && Nodes(u) !! Nodes(b)
    ensures Distinct(Node(u.left, u.node, b)) && Nodes(Node(u.left, u.node, b)) <= Nodes(u) + Nodes(b)
  {
  }

  lemma RestSorted(s: seq<Elem>, at: nat)
    requires Sorted(s) && at < |s|
    ensures Sorted(s[..at] + s[at + 1..])
  {
    var u := s[..at] + s[at + 1..];
    assert forall i :: 0 <= i < |u| ==> u[i] == s[if i < at then i else i + 1];
  }

  /** The root that has the name of the element at `i` is that element, with what is before and after it at its sides. */
  lemma RootPlace(s: seq<Elem>, t: STree, i: nat)
    requires t.Branch? && InOrder(t) == s && Sorted(s) && i < |s| && t.node.name == s[i].name
    ensures t.node == s[i] && InOrder(t.right) == s[i + 1..]
  {
    var k := |InOrder(t.left)|;
    assert s[k] == t.node;
    StrCmpZeroIffEqual(s[i].name, s[k].name);
    StrCmpZeroIffEqual(s[k].name, s[i].name);
  }

  lemma TopParts(s: STree, elm: Elem)
    requires s.Branch? && Distinct(s) && elm !in Nodes(s)
    ensures var t := Node(s.left, elm, Node(Leaf, s.node, s.right)); Distinct(t) && Nodes(t) == Nodes(s) + {elm}
    ensures var t := Node(Node(s.left, s.node, Leaf), elm, s.right); Distinct(t) && Nodes(t) == Nodes(s) + {elm}
    ensures s.node in Nodes(s)
  {
    assert Nodes(Node(Leaf, s.node, s.right)) == {s.node} + Nodes(s.right);
    assert Nodes(Node(s.left, s.node, Leaf)) == Nodes(s.left) + {s.node};
  }

  lemma OnlyOne(elm: Elem, t: STree)
    requires t.Leaf? && elm.left == null && elm.right == null
    ensures Insert(t, elm) == Some(Node(Leaf, elm, Leaf))
    ensures var n := Node(Leaf, elm, Leaf); Linked(n) && Distinct(n) && Nodes(n) == {elm}
  {
  }

  lemma InsertSpelt(t: STree, elm: Elem)
    requires t.Branch?
    ensures var s, comp := SplayShape.Splay(Key(elm.name), t), StrCmp(elm.name, SplayShape.Splay(Key(elm.name), t).node.name);
            Insert(t, elm) == if comp < 0 then Some(Node(s.left, elm, Node(Leaf, s.node, s.right)))
                              else if comp > 0 then Some(Node(Node(s.left, s.node, Leaf), elm, s.right))
                              else None
  {
    hide SplayShape.Splay;
  }

  lemma SubNodes(t: STree)
    requires t.Branch?
    ensures Nodes(t.left) <= Nodes(t) && Nodes(t.right) <= Nodes(t) && t.node in Nodes(t)
  {
  }

  lemma LinkedNode(t: STree)
    requires t.Branch? && t.node.left == RootOf(t.left) && Linked(t.left) && t.node.right == RootOf(t.right) && Linked(t.right)
    ensures Linked(t)
  {
  }

  lemma AssembledParts(l: SCtx, t: STree, r: SCtx, node: Elem, nodes: set<Elem>)
    requires Parts(l, t, r, node, nodes) && t.Branch?
    ensures Distinct(Assemble(l, t, r)) && Nodes(Assemble(l, t, r)) == nodes
    ensures t.node !in Nodes(Plug(l, t.left)) && t.node !in Nodes(Plug(r, t.right))
  {
    PlugNodes(l, t.left);
    PlugNodes(r, t.right);
    PlugDistinct(l, t.left);
    PlugDistinct(r, t.right);
  }

  lemma LinkedParts(l: SCtx, t: STree, r: SCtx, node: Elem, nodes: set<Elem>)
    requires Parts(l, t, r, node, nodes) && t.Branch?
    ensures Parts(l, t.left, InLeft(r, t.node, false, t.right), node, nodes)
    ensures Parts(InRight(l, t.node, false, t.left), t.right, r, node, nodes)
  {
    assert CNodes(InLeft(r, t.node, false, t.right)) == CNodes(r) + {t.node} + Nodes(t.right);
    assert CNodes(InRight(l, t.node, false, t.left)) == CNodes(l) + {t.node} + Nodes(t.left);
  }
}
