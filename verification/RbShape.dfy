/** The shape theory of red-black trees (db/tree.h): a value that mirrors a linked tree, a
    context that mirrors the path from a node up to the root, and what the colours must satisfy.
    Nothing here touches the heap; `N` is the type of the node references. */
module RbShape {

  datatype Tree<N> = Leaf | Branch(left: Tree<N>, node: N, red: bool, right: Tree<N>)

  /** A tree with one subtree cut out, read from the hole upwards. */
  datatype Ctx<N> =
    | Top
    | InLeft(up: Ctx<N>, node: N, red: bool, sib: Tree<N>)
    | InRight(up: Ctx<N>, node: N, red: bool, sib: Tree<N>)

  ghost function Plug<N>(c: Ctx<N>, t: Tree<N>): Tree<N> {
    match c
    case Top => t
    case InLeft(up, n, red, sib) => Plug(up, Branch(t, n, red, sib))
    case InRight(up, n, red, sib) => Plug(up, Branch(sib, n, red, t))
  }

  /** The tree one level up: `t` put back under the lowest node of `c`. */
  ghost function Attach<N>(c: Ctx<N>, t: Tree<N>): Tree<N>
    requires !c.Top?
  {
    if c.InLeft? then Branch(t, c.node, c.red, c.sib) else Branch(c.sib, c.node, c.red, t)
  }

  /** The context of the sibling of `c`'s hole when the hole holds `t`. */
  ghost function Flip<N>(c: Ctx<N>, t: Tree<N>): Ctx<N>
    requires !c.Top?
  {
    if c.InLeft? then InRight(c.up, c.node, c.red, t) else InLeft(c.up, c.node, c.red, t)
  }

  ghost function InOrder<N>(t: Tree<N>): seq<N> {
    match t
    case Leaf => []
    case Branch(l, n, _, r) => InOrder(l) + [n] + InOrder(r)
  }

  /** The in-order sequence of the context before (`Before`) and after (`After`) the hole. */
  ghost function Before<N>(c: Ctx<N>): seq<N> {
    match c
    case Top => []
    case InLeft(up, _, _, _) => Before(up)
    case InRight(up, n, _, sib) => Before(up) + InOrder(sib) + [n]
  }

  ghost function After<N>(c: Ctx<N>): seq<N> {
    match c
    case Top => []
    case InLeft(up, n, _, sib) => [n] + InOrder(sib) + After(up)
    case InRight(up, _, _, _) => After(up)
  }

  lemma {:induction false} PlugInOrder<N>(c: Ctx<N>, t: Tree<N>)
    ensures InOrder(Plug(c, t)) == Before(c) + InOrder(t) + After(c)
  {
    match c
    case Top =>
    case InLeft(up, n, red, sib) =>
      PlugInOrder(up, Branch(t, n, red, sib));
      MovePieces(Before(up), InOrder(t), [n], InOrder(sib), After(up));
    case InRight(up, n, red, sib) =>
      PlugInOrder(up, Branch(sib, n, red, t));
      MovePieces(Before(up), InOrder(sib), [n], InOrder(t), After(up));
  }

  lemma MovePieces<N>(p: seq<N>, x: seq<N>, n: seq<N>, y: seq<N>, q: seq<N>)
    ensures p + (x + n + y) + q == p + x + (n + y + q)
    ensures p + (x + n + y) + q == (p + x + n) + y + q
  {
  }

  lemma PlugBranch<N>(c: Ctx<N>, t: Tree<N>)
    requires t.Branch?
    ensures Plug(c, t).Branch?
  {
    PlugInOrder(c, t);
    assert t.node in InOrder(t);
  }

  ghost function Nodes<N>(t: Tree<N>): set<N> {
    match t
    case Leaf => {}
    case Branch(l, n, _, r) => Nodes(l) + {n} + Nodes(r)
  }

  ghost function CNodes<N>(c: Ctx<N>): set<N> {
    if c.Top? then {} else CNodes(c.up) + {c.node} + Nodes(c.sib)
  }

  lemma {:induction false} PlugNodes<N>(c: Ctx<N>, t: Tree<N>)
    ensures Nodes(Plug(c, t)) == CNodes(c) + Nodes(t)
  {
    match c
    case Top =>
    case InLeft(up, n, red, sib) =>
      PlugNodes(up, Branch(t, n, red, sib));
    case InRight(up, n, red, sib) =>
      PlugNodes(up, Branch(sib, n, red, t));
  }

  lemma {:induction false} InOrderNodes<N>(t: Tree<N>, n: N)
    ensures n in InOrder(t) <==> n in Nodes(t)
  {
    match t
    case Leaf =>
    case Branch(l, _, _, r) =>
      InOrderNodes(l, n);
      InOrderNodes(r, n);
  }

  /** No node occurs twice. */
  ghost predicate Distinct<N>(t: Tree<N>) {
    t.Branch? ==>
      && t.node !in Nodes(t.left) && t.node !in Nodes(t.right)
      && Nodes(t.left) !! Nodes(t.right)
      && Distinct(t.left) && Distinct(t.right)
  }

  ghost predicate CDistinct<N>(c: Ctx<N>) {
    !c.Top? ==>
      && c.node !in CNodes(c.up) && c.node !in Nodes(c.sib)
      && CNodes(c.up) !! Nodes(c.sib)
      && CDistinct(c.up) && Distinct(c.sib)
  }

  ghost predicate Apart<N>(c: Ctx<N>, t: Tree<N>) {
    CDistinct(c) && Distinct(t) && CNodes(c) !! Nodes(t)
  }

  lemma {:induction false} PlugDistinct<N>(c: Ctx<N>, t: Tree<N>)
    ensures Apart(c, t) <==> Distinct(Plug(c, t))
  {
    match c
    case Top =>
    case InLeft(up, n, red, sib) =>
      PlugDistinct(up, Branch(t, n, red, sib));
    case InRight(up, n, red, sib) =>
      PlugDistinct(up, Branch(sib, n, red, t));
  }

  ghost function Depth<N>(c: Ctx<N>): nat {
    if c.Top? then 0 else 1 + Depth(c.up)
  }

  /** Turning a right child above its parent keeps the nodes and their order; so does the turn back. */
  lemma RotateNodes<N>(a: Tree<N>, x: N, xr: bool, b: Tree<N>, y: N, yr: bool, d: Tree<N>, xr': bool, yr': bool)
    ensures var t, t' := Branch(a, x, xr, Branch(b, y, yr, d)), Branch(Branch(a, x, xr', b), y, yr', d);
            && Nodes(t) == Nodes(t') == Nodes(a) + {x} + Nodes(b) + {y} + Nodes(d)
            && (Distinct(t) <==> Distinct(t'))
  {
    var bl, br := Branch(a, x, xr', b), Branch(b, y, yr, d);
    assert Nodes(bl) == Nodes(a) + {x} + Nodes(b);
    assert Nodes(br) == Nodes(b) + {y} + Nodes(d);
  }

  lemma RotateInOrder<N>(a: Tree<N>, x: N, xr: bool, b: Tree<N>, y: N, yr: bool, d: Tree<N>, xr': bool, yr': bool)
    ensures InOrder(Branch(a, x, xr, Branch(b, y, yr, d))) == InOrder(Branch(Branch(a, x, xr', b), y, yr', d))
  {
    var bl, br := Branch(a, x, xr', b), Branch(b, y, yr, d);
    assert InOrder(bl) == InOrder(a) + [x] + InOrder(b);
    assert InOrder(br) == InOrder(b) + [y] + InOrder(d);
    assert InOrder(a) + [x] + (InOrder(b) + [y] + InOrder(d)) == (InOrder(a) + [x] + InOrder(b)) + [y] + InOrder(d);
  }

  /** A node that is in no part of the tree may stand in for the root of `t`. */
  lemma RenodeShape<N>(c: Ctx<N>, t: Tree<N>, x: N)
    requires Apart(c, t) && t.Branch? && x !in CNodes(c) && x !in Nodes(t)
    ensures var t' := Branch(t.left, x, t.red, t.right);
            Apart(c, t') && CNodes(c) + Nodes(t') == CNodes(c) + Nodes(t) - {t.node} + {x}
  {
    assert Nodes(t) == Nodes(t.left) + {t.node} + Nodes(t.right);
  }

  // ---- colours ------------------------------------------------------------------------

  ghost predicate RedRoot<N>(t: Tree<N>) { t.Branch? && t.red }

  /** The number of black nodes on the leftmost path. */
  ghost function BlackHeight<N>(t: Tree<N>): nat {
    if t.Leaf? then 0 else BlackHeight(t.left) + (if t.red then 0 else 1)
  }

  /** Every path from the root to a leaf has the same number of black nodes. */
  ghost predicate Balanced<N>(t: Tree<N>) {
    t.Branch? ==> Balanced(t.left) && Balanced(t.right) && BlackHeight(t.left) == BlackHeight(t.right)
  }

  /** No red node has a red child. */
  ghost predicate NoRedRed<N>(t: Tree<N>) {
    t.Branch? ==>
      && (t.red ==> !RedRoot(t.left) && !RedRoot(t.right))
      && NoRedRed(t.left) && NoRedRed(t.right)
  }

  /** `NoRedRed` but for the root's own colour. */
  ghost predicate NoRedRedBelow<N>(t: Tree<N>) {
    t.Branch? ==> NoRedRed(t.left) && NoRedRed(t.right)
  }

  /** The red-black invariant of a whole tree. */
  ghost predicate RedBlack<N>(t: Tree<N>) {
    Balanced(t) && NoRedRed(t) && !RedRoot(t)
  }

  /** `c` is balanced once its hole is filled by a tree of black height `h`. */
  ghost predicate CBalanced<N>(c: Ctx<N>, h: nat) {
    !c.Top? ==>
      && Balanced(c.sib) && BlackHeight(c.sib) == h
      && CBalanced(c.up, h + if c.red then 0 else 1)
  }

  /** `c` has no red node under a red one when the hole's root is red iff `red`; its root is black. */
  ghost predicate CNoRedRed<N>(c: Ctx<N>, red: bool) {
    if c.Top? then !red
    else
      && (c.red ==> !red && !RedRoot(c.sib)) && NoRedRed(c.sib)
      && CNoRedRed(c.up, c.red)
  }

  lemma {:induction false} PlugRedBlack<N>(c: Ctx<N>, t: Tree<N>)
    ensures RedBlack(Plug(c, t)) <==>
            Balanced(t) && NoRedRed(t) && CBalanced(c, BlackHeight(t)) && CNoRedRed(c, RedRoot(t))
  {
    match c
    case Top =>
    case InLeft(up, n, red, sib) =>
      PlugRedBlack(up, Branch(t, n, red, sib));
    case InRight(up, n, red, sib) =>
      PlugRedBlack(up, Branch(sib, n, red, t));
  }

  // ---- insertion ------------------------------------------------------------------------

  /** What RB_INSERT_COLOR keeps: `t` is red, and all is well but for `t` under a red parent. */
  ghost predicate InsertInv<N>(c: Ctx<N>, t: Tree<N>) {
    RedRoot(t) && Balanced(t) && NoRedRed(t) && CBalanced(c, BlackHeight(t)) && CNoRedRed(c, false)
  }

  lemma Blacken<N>(t: Tree<N>)
    requires Balanced(t) && NoRedRedBelow(t) && t.Branch?
    ensures var b := t.(red := false);
            && Balanced(b) && NoRedRed(b) && !RedRoot(b)
            && BlackHeight(b) == BlackHeight(t) + (if t.red then 1 else 0)
            && InOrder(b) == InOrder(t)
  {
  }

  /** The colours after the red uncle's case, two levels up. */
  ghost function RedUncle<N>(c: Ctx<N>, t: Tree<N>): Tree<N>
    requires !c.Top? && !c.up.Top? && RedRoot(c.up.sib)
  {
    Attach(c.up.(red := true, sib := c.up.sib.(red := false)), Attach(c.(red := false), t))
  }

  lemma RedUncleInv<N>(c: Ctx<N>, t: Tree<N>)
    requires InsertInv(c, t) && !c.Top? && c.red && !c.up.Top? && RedRoot(c.up.sib)
    ensures InsertInv(c.up.up, RedUncle(c, t))
    ensures InOrder(Plug(c.up.up, RedUncle(c, t))) == InOrder(Plug(c, t))
  {
    RedUncleOrder(c, t);
    var u, p := c.up.sib.(red := false), Attach(c.(red := false), t);
    assert CBalanced(c.up, BlackHeight(t)) && CNoRedRed(c.up, true);
    Blacken(c.up.sib);
    assert Balanced(p) && NoRedRed(p) && BlackHeight(p) == BlackHeight(t) + 1;
    assert Balanced(RedUncle(c, t)) && NoRedRed(RedUncle(c, t));
  }

  lemma RedUncleOrder<N>(c: Ctx<N>, t: Tree<N>)
    requires !c.Top? && !c.up.Top? && RedRoot(c.up.sib)
    ensures InOrder(Plug(c.up.up, RedUncle(c, t))) == InOrder(Plug(c, t))
  {
    var t1 := Attach(c, t);
    var t2 := Attach(c.up, t1);
    assert Plug(c, t) == Plug(c.up, t1) == Plug(c.up.up, t2);
    assert InOrder(c.up.sib.(red := false)) == InOrder(c.up.sib);
    assert InOrder(Attach(c.(red := false), t)) == InOrder(t1);
    assert InOrder(RedUncle(c, t)) == InOrder(t2);
    PlugInOrder(c.up.up, t2);
    PlugInOrder(c.up.up, RedUncle(c, t));
  }

  /** The red node `t` on the right of its red parent, after the parent is turned left: the parent
      is now the lower one, on the left. */
  lemma InnerTurnLeft<N>(c: Ctx<N>, t: Tree<N>)
    requires InsertInv(c, t) && c.InRight? && c.red && !c.up.Top?
    ensures var c', t' := InLeft(c.up, t.node, true, t.right), Branch(c.sib, c.node, true, t.left);
            InsertInv(c', t') && InOrder(Plug(c', t')) == InOrder(Plug(c, t))
  {
    var t1 := Branch(c.sib, c.node, true, t);
    var t2 := Branch(Branch(c.sib, c.node, true, t.left), t.node, true, t.right);
    RotateInOrder(c.sib, c.node, true, t.left, t.node, true, t.right, true, true);
    PlugInOrder(c.up, t1);
    PlugInOrder(c.up, t2);
  }

  lemma InnerTurnRight<N>(c: Ctx<N>, t: Tree<N>)
    requires InsertInv(c, t) && c.InLeft? && c.red && !c.up.Top?
    ensures var c', t' := InRight(c.up, t.node, true, t.left), Branch(t.right, c.node, true, c.sib);
            InsertInv(c', t') && InOrder(Plug(c', t')) == InOrder(Plug(c, t))
  {
    var t1 := Branch(t, c.node, true, c.sib);
    var t2 := Branch(t.left, t.node, true, Branch(t.right, c.node, true, c.sib));
    RotateInOrder(t.left, t.node, true, t.right, c.node, true, c.sib, true, true);
    PlugInOrder(c.up, t1);
    PlugInOrder(c.up, t2);
  }

  /** The grandparent turned right over its red left child `c.node`, both recoloured. */
  lemma OuterTurnRight<N>(c: Ctx<N>, t: Tree<N>)
    requires InsertInv(c, t) && c.InLeft? && c.red && c.up.InLeft? && !RedRoot(c.up.sib)
    ensures var c' := InLeft(c.up.up, c.node, false, Branch(c.sib, c.up.node, true, c.up.sib));
            InsertInv(c', t) && InOrder(Plug(c', t)) == InOrder(Plug(c, t))
  {
    var g := Branch(c.sib, c.up.node, true, c.up.sib);
    assert CBalanced(c.up, BlackHeight(t)) && CNoRedRed(c.up, true);
    assert Balanced(g) && NoRedRed(g) && BlackHeight(g) == BlackHeight(t);
    var t1, t2 := Branch(Branch(t, c.node, true, c.sib), c.up.node, false, c.up.sib), Branch(t, c.node, false, g);
    RotateInOrder(t, c.node, false, c.sib, c.up.node, true, c.up.sib, true, false);
    PlugInOrder(c.up.up, t1);
    PlugInOrder(c.up.up, t2);
  }

  lemma OuterTurnLeft<N>(c: Ctx<N>, t: Tree<N>)
    requires InsertInv(c, t) && c.InRight? && c.red && c.up.InRight? && !RedRoot(c.up.sib)
    ensures var c' := InRight(c.up.up, c.node, false, Branch(c.up.sib, c.up.node, true, c.sib));
            InsertInv(c', t) && InOrder(Plug(c', t)) == InOrder(Plug(c, t))
  {
    var g := Branch(c.up.sib, c.up.node, true, c.sib);
    assert CBalanced(c.up, BlackHeight(t)) && CNoRedRed(c.up, true);
    assert Balanced(g) && NoRedRed(g) && BlackHeight(g) == BlackHeight(t);
    var t1, t2 := Branch(c.up.sib, c.up.node, false, Branch(c.sib, c.node, true, t)), Branch(g, c.node, false, t);
    RotateInOrder(c.up.sib, c.up.node, false, c.sib, c.node, true, t, true, false);
    PlugInOrder(c.up.up, t1);
    PlugInOrder(c.up.up, t2);
  }

  lemma InsertDone<N>(c: Ctx<N>, t: Tree<N>)
    requires InsertInv(c, t)
    requires !c.Top? ==> !c.red
    ensures Plug(c, t).Branch?
    ensures RedBlack(Plug(c, t).(red := false))
    ensures InOrder(Plug(c, t).(red := false)) == InOrder(Plug(c, t))
  {
    PlugRedBlack(c, t);
    PlugBranch(c, t);
  }

  // ---- removal --------------------------------------------------------------------------

  /** What RB_REMOVE_COLOR keeps: all is well but that `t` is one black node short, and may be red
      under a red parent or over a red child. */
  ghost predicate RemoveInv<N>(c: Ctx<N>, t: Tree<N>) {
    Balanced(t) && NoRedRedBelow(t) && CBalanced(c, BlackHeight(t) + 1) && CNoRedRed(c, false)
  }

  lemma SiblingExists<N>(c: Ctx<N>, t: Tree<N>)
    requires RemoveInv(c, t) && !c.Top?
    ensures c.sib.Branch? && Balanced(c.sib) && NoRedRed(c.sib) && BlackHeight(c.sib) == BlackHeight(t) + 1
    ensures CNoRedRed(c.up, c.red) && CBalanced(c.up, BlackHeight(c.sib) + if c.red then 0 else 1)
  {
  }

  /** The red sibling's case: the sibling turned above the parent, and the parent red below it. */
  lemma RedSiblingLeft<N>(c: Ctx<N>, t: Tree<N>)
    requires RemoveInv(c, t) && c.InLeft? && RedRoot(c.sib)
    ensures var c' := InLeft(InLeft(c.up, c.sib.node, false, c.sib.right), c.node, true, c.sib.left);
            RemoveInv(c', t) && InOrder(Plug(c', t)) == InOrder(Plug(c, t)) && !RedRoot(c.sib.left)
  {
    SiblingExists(c, t);
    var s := c.sib;
    RotateInOrder(t, c.node, c.red, s.left, s.node, true, s.right, true, false);
    PlugInOrder(c.up, Attach(c, t));
    PlugInOrder(c.up, Branch(Branch(t, c.node, true, s.left), s.node, false, s.right));
  }

  lemma RedSiblingRight<N>(c: Ctx<N>, t: Tree<N>)
    requires RemoveInv(c, t) && c.InRight? && RedRoot(c.sib)
    ensures var c' := InRight(InRight(c.up, c.sib.node, false, c.sib.left), c.node, true, c.sib.right);
            RemoveInv(c', t) && InOrder(Plug(c', t)) == InOrder(Plug(c, t)) && !RedRoot(c.sib.right)
  {
    SiblingExists(c, t);
    var s := c.sib;
    RotateInOrder(s.left, s.node, true, s.right, c.node, c.red, t, false, true);
    PlugInOrder(c.up, Attach(c, t));
    PlugInOrder(c.up, Branch(s.left, s.node, false, Branch(s.right, c.node, true, t)));
  }

  /** The case of two black nephews: the sibling turns red and the deficit moves up. */
  lemma BlackNephews<N>(c: Ctx<N>, t: Tree<N>)
    requires RemoveInv(c, t) && !RedRoot(t) && !c.Top? && !RedRoot(c.sib)
    requires c.sib.Branch? ==> !RedRoot(c.sib.left) && !RedRoot(c.sib.right)
    ensures c.sib.Branch?
    ensures var t' := Attach(c.(sib := c.sib.(red := true)), t);
            RemoveInv(c.up, t') && InOrder(Plug(c.up, t')) == InOrder(Plug(c, t)) && RedRoot(t') == c.red
  {
    SiblingExists(c, t);
    var s' := c.sib.(red := true);
    assert Balanced(s') && NoRedRed(s') && BlackHeight(s') == BlackHeight(t);
    assert InOrder(s') == InOrder(c.sib);
    PlugInOrder(c.up, Attach(c, t));
    PlugInOrder(c.up, Attach(c.(sib := s'), t));
  }

  /** The case of a red inner and a black outer nephew: the inner one turned above the sibling. */
  lemma InnerNephewLeft<N>(c: Ctx<N>, t: Tree<N>)
    requires RemoveInv(c, t) && c.InLeft? && !RedRoot(c.sib)
    requires c.sib.Branch? ==> RedRoot(c.sib.left) && !RedRoot(c.sib.right)
    ensures c.sib.Branch?
    ensures var s, o := c.sib, c.sib.left;
            var s' := Branch(o.left, o.node, false, Branch(o.right, s.node, true, s.right));
            var c' := InLeft(c.up, c.node, c.red, s');
            RemoveInv(c', t) && InOrder(Plug(c', t)) == InOrder(Plug(c, t))
  {
    SiblingExists(c, t);
    var s, o := c.sib, c.sib.left;
    var s1 := Branch(o.right, s.node, true, s.right);
    assert Balanced(s1) && NoRedRed(s1) && BlackHeight(s1) == BlackHeight(t);
    RotateInOrder(o.left, o.node, false, o.right, s.node, true, s.right, true, false);
    var s' := Branch(o.left, o.node, false, s1);
    assert InOrder(s') == InOrder(s);
    PlugInOrder(c, t);
    PlugInOrder(InLeft(c.up, c.node, c.red, s'), t);
  }

  lemma InnerNephewRight<N>(c: Ctx<N>, t: Tree<N>)
    requires RemoveInv(c, t) && c.InRight? && !RedRoot(c.sib)
    requires c.sib.Branch? ==> RedRoot(c.sib.right) && !RedRoot(c.sib.left)
    ensures c.sib.Branch?
    ensures var s, o := c.sib, c.sib.right;
            var s' := Branch(Branch(s.left, s.node, true, o.left), o.node, false, o.right);
            var c' := InRight(c.up, c.node, c.red, s');
            RemoveInv(c', t) && InOrder(Plug(c', t)) == InOrder(Plug(c, t))
  {
    SiblingExists(c, t);
    var s, o := c.sib, c.sib.right;
    var s1 := Branch(s.left, s.node, true, o.left);
    assert Balanced(s1) && NoRedRed(s1) && BlackHeight(s1) == BlackHeight(t);
    RotateInOrder(s.left, s.node, true, o.left, o.node, false, o.right, true, false);
    var s' := Branch(s1, o.node, false, o.right);
    assert InOrder(s') == InOrder(s);
    PlugInOrder(c, t);
    PlugInOrder(InRight(c.up, c.node, c.red, s'), t);
  }

  /** The case of a red outer nephew: the sibling turned above the parent repairs the tree. */
  lemma OuterNephewLeft<N>(c: Ctx<N>, t: Tree<N>)
    requires RemoveInv(c, t) && !RedRoot(t) && c.InLeft? && !RedRoot(c.sib) && c.sib.Branch? && RedRoot(c.sib.right)
    ensures var s := c.sib;
            var t' := Branch(Branch(t, c.node, false, s.left), s.node, c.red, s.right.(red := false));
            RedBlack(Plug(c.up, t')) && InOrder(Plug(c.up, t')) == InOrder(Plug(c, t))
  {
    SiblingExists(c, t);
    var s, d := c.sib, c.sib.right.(red := false);
    Blacken(s.right);
    var p := Branch(t, c.node, false, s.left);
    assert Balanced(s.left) && NoRedRed(s.left) && BlackHeight(s.left) == BlackHeight(t) && NoRedRed(t);
    assert Balanced(p) && NoRedRed(p) && BlackHeight(p) == BlackHeight(t) + 1;
    RotateInOrder(t, c.node, c.red, s.left, s.node, false, d, false, c.red);
    assert InOrder(s.(right := d)) == InOrder(s);
    PlugInOrder(c.up, Attach(c, t));
    PlugInOrder(c.up, Branch(p, s.node, c.red, d));
    PlugRedBlack(c.up, Branch(p, s.node, c.red, d));
  }

  lemma OuterNephewRight<N>(c: Ctx<N>, t: Tree<N>)
    requires RemoveInv(c, t) && !RedRoot(t) && c.InRight? && !RedRoot(c.sib) && c.sib.Branch? && RedRoot(c.sib.left)
    ensures var s := c.sib;
            var t' := Branch(s.left.(red := false), s.node, c.red, Branch(s.right, c.node, false, t));
            RedBlack(Plug(c.up, t')) && InOrder(Plug(c.up, t')) == InOrder(Plug(c, t))
  {
    SiblingExists(c, t);
    var s, d := c.sib, c.sib.left.(red := false);
    Blacken(s.left);
    var p := Branch(s.right, c.node, false, t);
    assert Balanced(s.right) && NoRedRed(s.right) && BlackHeight(s.right) == BlackHeight(t) && NoRedRed(t);
    assert Balanced(p) && NoRedRed(p) && BlackHeight(p) == BlackHeight(t) + 1;
    RotateInOrder(d, s.node, false, s.right, c.node, c.red, t, c.red, false);
    assert InOrder(s.(left := d)) == InOrder(s);
    PlugInOrder(c.up, Attach(c, t));
    PlugInOrder(c.up, Branch(d, s.node, c.red, p));
    PlugRedBlack(c.up, Branch(d, s.node, c.red, p));
  }

  /** Where the repair ends: the focus is red, or is the whole tree. */
  lemma RemoveDone<N>(c: Ctx<N>, t: Tree<N>)
    requires RemoveInv(c, t) && (RedRoot(t) || c.Top?)
    ensures t.Branch? ==> RedBlack(Plug(c, t.(red := false))) && InOrder(Plug(c, t.(red := false))) == InOrder(Plug(c, t))
    ensures t.Leaf? ==> c.Top? && RedBlack(Plug(c, t))
  {
    if t.Branch? {
      Blacken(t);
      PlugRedBlack(c, t.(red := false));
      PlugInOrder(c, t);
      PlugInOrder(c, t.(red := false));
    }
  }

  // ---- height ---------------------------------------------------------------------------

  ghost function Height<N>(t: Tree<N>): nat {
    if t.Leaf? then 0
    else 1 + if Height(t.left) >= Height(t.right) then Height(t.left) else Height(t.right)
  }

  ghost function Pow2(n: nat): nat { if n == 0 then 1 else 2 * Pow2(n - 1) }

  lemma {:induction false} Pow2Plus(a: nat, b: nat)
    ensures Pow2(a + b) == Pow2(a) * Pow2(b)
  {
    if a > 0 { Pow2Plus(a - 1, b); }
  }

  lemma {:induction false} Pow2Monotone(a: nat, b: nat)
    requires a <= b
    ensures Pow2(a) <= Pow2(b)
  {
    if a < b { Pow2Monotone(a, b - 1); }
  }

  lemma {:induction false} BlackHeightBounds<N>(t: Tree<N>)
    requires Balanced(t) && NoRedRed(t)
    ensures Pow2(BlackHeight(t)) <= |InOrder(t)| + 1
    ensures Height(t) <= 2 * BlackHeight(t) + if RedRoot(t) then 1 else 0
  {
    if t.Branch? {
      BlackHeightBounds(t.left);
      BlackHeightBounds(t.right);
    }
  }

  lemma SquareMonotone(a: nat, b: nat)
    requires a <= b
    ensures a * a <= b * b
  {
    assert a * a <= a * b;
  }

  /** The height is at most 2 * lg (n + 1): stated without logarithms. */
  lemma HeightBound<N>(t: Tree<N>)
    requires RedBlack(t)
    ensures Pow2(Height(t)) <= (|InOrder(t)| + 1) * (|InOrder(t)| + 1)
  {
    var b := BlackHeight(t);
    BlackHeightBounds(t);
    Pow2Monotone(Height(t), b + b);
    Pow2Plus(b, b);
    SquareMonotone(Pow2(b), |InOrder(t)| + 1);
  }

  // ---- one context inside another ---------------------------------------------------------

  /** `inner`, with `outer` continuing where `inner` ends. */
  ghost function Nest<N>(inner: Ctx<N>, outer: Ctx<N>): Ctx<N> {
    match inner
    case Top => outer
    case InLeft(up, n, red, sib) => InLeft(Nest(up, outer), n, red, sib)
    case InRight(up, n, red, sib) => InRight(Nest(up, outer), n, red, sib)
  }

  lemma {:induction false} NestPlug<N>(inner: Ctx<N>, outer: Ctx<N>, t: Tree<N>)
    ensures Plug(Nest(inner, outer), t) == Plug(outer, Plug(inner, t))
  {
    match inner
    case Top =>
    case InLeft(up, n, red, sib) => NestPlug(up, outer, Branch(t, n, red, sib));
    case InRight(up, n, red, sib) => NestPlug(up, outer, Branch(sib, n, red, t));
  }

  /** `c` only ever goes down to the left. */
  ghost predicate LeftOnly<N>(c: Ctx<N>) {
    !c.Top? ==> c.InLeft? && LeftOnly(c.up)
  }

  ghost predicate RightOnly<N>(c: Ctx<N>) {
    !c.Top? ==> c.InRight? && RightOnly(c.up)
  }

  lemma {:induction false} RightOnlyAfter<N>(c: Ctx<N>)
    requires RightOnly(c)
    ensures After(c) == []
  {
    if !c.Top? { RightOnlyAfter(c.up); }
  }

  lemma {:induction false} NestLeftOnly<N>(inner: Ctx<N>, outer: Ctx<N>)
    requires LeftOnly(inner)
    ensures Before(Nest(inner, outer)) == Before(outer)
    ensures After(Nest(inner, outer)) == After(inner) + After(outer)
  {
    if !inner.Top? {
      NestLeftOnly(inner.up, outer);
    }
  }

  /** Which node stands in a context does not matter to its colours. */
  lemma {:induction false} NestColours<N>(inner: Ctx<N>, c: Ctx<N>, x: N, y: N, red: bool, sib: Tree<N>, h: nat, r: bool)
    ensures CBalanced(Nest(inner, InRight(c, x, red, sib)), h) <==> CBalanced(Nest(inner, InRight(c, y, red, sib)), h)
    ensures CNoRedRed(Nest(inner, InRight(c, x, red, sib)), r) <==> CNoRedRed(Nest(inner, InRight(c, y, red, sib)), r)
  {
    if !inner.Top? {
      NestColours(inner.up, c, x, y, red, sib, h + if inner.red then 0 else 1, inner.red);
    }
  }

  /** Taking the node of `t` out, when one of its subtrees is empty, leaves the other one short. */
  lemma UnlinkInv<N>(c: Ctx<N>, t: Tree<N>, k: Tree<N>)
    requires RedBlack(Plug(c, t)) && t.Branch?
    requires (t.left.Leaf? && k == t.right) || (t.right.Leaf? && k == t.left)
    ensures t.red ==> RedBlack(Plug(c, k))
    ensures !t.red ==> RemoveInv(c, k)
  {
    PlugRedBlack(c, t);
    PlugRedBlack(c, k);
    if !t.red { NoRedRedAny(c, RedRoot(t)); }
  }

  lemma NoRedRedAny<N>(c: Ctx<N>, red: bool)
    requires CNoRedRed(c, red)
    ensures CNoRedRed(c, false)
  {
  }

  /** `s` without its `i`th element. */
  ghost function Without<N>(s: seq<N>, i: nat): seq<N>
    requires i < |s|
  {
    s[..i] + s[i + 1..]
  }

  lemma WithoutMiddle<N>(a: seq<N>, x: N, b: seq<N>)
    ensures (a + [x] + b)[|a|] == x && Without(a + [x] + b, |a|) == a + b
  {
  }

  /** The place of `t`'s root in the whole order. */
  ghost function IndexOf<N>(c: Ctx<N>, t: Tree<N>): nat
    requires t.Branch?
  {
    |Before(c) + InOrder(t.left)|
  }

  /** Five pieces of a sequence, grouped in two ways. */
  lemma FivePieces<N>(b: seq<N>, l: seq<N>, n: N, r: seq<N>, a: seq<N>)
    ensures b + (l + [n] + r) + a == (b + l) + [n] + (r + a)
    ensures (b + l) + [n] == b + l + [n] && [n] + r + a == [n] + (r + a)
  {
  }

  lemma RootInOrder<N>(c: Ctx<N>, t: Tree<N>)
    requires t.Branch?
    ensures var s := InOrder(Plug(c, t));
            && IndexOf(c, t) < |s| && s[IndexOf(c, t)] == t.node
            && Without(s, IndexOf(c, t)) == Before(c) + InOrder(t.left) + (InOrder(t.right) + After(c))
  {
    PlugInOrder(c, t);
    FivePieces(Before(c), InOrder(t.left), t.node, InOrder(t.right), After(c));
    WithoutMiddle(Before(c) + InOrder(t.left), t.node, InOrder(t.right) + After(c));
  }

  lemma CutMiddle<N>(a: seq<N>, x: N, b: seq<N>)
    ensures var s := a + [x] + b;
            s[|a|] == x && s[|a|..] == [x] + b && s[..|a| + 1] == a + [x]
  {
  }

  /** The order, cut at the root of `t`. */
  lemma RootSplit<N>(c: Ctx<N>, t: Tree<N>)
    requires t.Branch?
    ensures var s, k := InOrder(Plug(c, t)), IndexOf(c, t);
            && k < |s| && s[k] == t.node
            && s[k..] == After(InLeft(c, t.node, t.red, t.right))
            && s[..k + 1] == Before(InRight(c, t.node, t.red, t.left))
  {
    PlugInOrder(c, t);
    FivePieces(Before(c), InOrder(t.left), t.node, InOrder(t.right), After(c));
    CutMiddle(Before(c) + InOrder(t.left), t.node, InOrder(t.right) + After(c));
  }

  /** The successor of `t`'s root, taken out of its place and put in the root's: the order without the root. */
  lemma SuccessorOrder<N>(c: Ctx<N>, t: Tree<N>, d: Ctx<N>, m: Tree<N>)
    requires t.Branch? && m.Branch? && m.left.Leaf? && LeftOnly(d) && Plug(d, m) == t.right
    ensures IndexOf(c, t) < |InOrder(Plug(c, t))|
    ensures InOrder(Plug(Nest(d, InRight(c, m.node, t.red, t.left)), m.right)) == Without(InOrder(Plug(c, t)), IndexOf(c, t))
  {
    RootInOrder(c, t);
    MinimumOrder(d, m);
    SuccessorMoved(c, t, d, m);
    Regroup(Before(c) + InOrder(t.left), [m.node], InOrder(m.right), After(d), After(c));
  }

  lemma MinimumOrder<N>(d: Ctx<N>, m: Tree<N>)
    requires m.Branch? && m.left.Leaf? && LeftOnly(d)
    ensures InOrder(Plug(d, m)) == [m.node] + InOrder(m.right) + After(d)
  {
    LeftOnlyBefore(d);
    PlugInOrder(d, m);
    assert InOrder(m) == [m.node] + InOrder(m.right);
  }

  lemma SuccessorMoved<N>(c: Ctx<N>, t: Tree<N>, d: Ctx<N>, m: Tree<N>)
    requires t.Branch? && m.Branch? && LeftOnly(d)
    ensures InOrder(Plug(Nest(d, InRight(c, m.node, t.red, t.left)), m.right))
         == (Before(c) + InOrder(t.left) + [m.node]) + InOrder(m.right) + (After(d) + After(c))
  {
    var o := InRight(c, m.node, t.red, t.left);
    NestLeftOnly(d, o);
    PlugInOrder(Nest(d, o), m.right);
  }

  lemma {:induction false} LeftOnlyBefore<N>(c: Ctx<N>)
    requires LeftOnly(c)
    ensures Before(c) == []
  {
    if !c.Top? { LeftOnlyBefore(c.up); }
  }

  lemma Regroup<N>(p: seq<N>, x: seq<N>, y: seq<N>, a: seq<N>, b: seq<N>)
    ensures (p + x) + y + (a + b) == p + ((x + y + a) + b)
  {
  }

  /** Taking out a node with an empty subtree: the order without it. */
  lemma UnlinkOrder<N>(c: Ctx<N>, t: Tree<N>, k: Tree<N>)
    requires t.Branch?
    requires (t.left.Leaf? && k == t.right) || (t.right.Leaf? && k == t.left)
    ensures IndexOf(c, t) < |InOrder(Plug(c, t))|
    ensures InOrder(Plug(c, k)) == Without(InOrder(Plug(c, t)), IndexOf(c, t))
  {
    RootInOrder(c, t);
    PlugInOrder(c, k);
    hide Plug, Before, After;
    Closed(Before(c), InOrder(t.left), InOrder(t.right), After(c));
  }

  lemma Closed<N>(p: seq<N>, x: seq<N>, y: seq<N>, q: seq<N>)
    ensures x == [] ==> p + x + (y + q) == p + y + q
    ensures y == [] ==> p + x + (y + q) == p + x + q
  {
  }

  /** Every node of a tree can be brought into focus. */
  lemma {:induction false} FocusOn<N>(c: Ctx<N>, t: Tree<N>, n: N) returns (c': Ctx<N>, t': Tree<N>)
    requires n in Nodes(t)
    ensures t'.Branch? && t'.node == n && Plug(c', t') == Plug(c, t)
    decreases t
  {
    if t.node == n {
      c', t' := c, t;
    } else if n in Nodes(t.left) {
      c', t' := FocusOn(InLeft(c, t.node, t.red, t.right), t.left, n);
    } else {
      c', t' := FocusOn(InRight(c, t.node, t.red, t.left), t.right, n);
    }
  }
}
