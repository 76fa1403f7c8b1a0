/** Top-down splaying (SPLAY, db/tree.h) on trees as values: the tree in the middle, and on both sides what
    was cut off so far, each with a hole where the next piece will hang. */
module SplayShape {
  import opened CStrings
  import opened Columns
  import opened RbShape

  /** An element with its SPLAY_ENTRY. */
  class Elem {
    const name: CStr
    var left: Elem?
    var right: Elem?

    constructor (name: CStr)
      ensures this.name == name
    {
      this.name, this.left, this.right := name, null, null;
    }
  }

  /** What is sought: a name, or one of the ends (SPLAY_NEGINF, SPLAY_INF). */
  datatype Probe = Key(name: CStr) | Low | High

  /** The comparison of what is sought with an element. */
  function Cmp(p: Probe, n: Elem): int {
    match p
    case Key(name) => StrCmp(name, n.name)
    case Low => -1
    case High => 1
  }

  type STree = Tree<Elem>
  type SCtx = Ctx<Elem>

  function Node(l: STree, n: Elem, r: STree): STree { Branch(l, n, false, r) }

  ghost function Size(t: STree): nat {
    if t.Leaf? then 0 else Size(t.left) + 1 + Size(t.right)
  }

  /** SPLAY_ROTATE_RIGHT and SPLAY_ROTATE_LEFT. */
  ghost function RotateRight(t: STree): (r: STree)
    requires t.Branch? && t.left.Branch?
    ensures r.Branch? && Size(r) == Size(t)
  {
    Node(t.left.left, t.left.node, Node(t.left.right, t.node, t.right))
  }

  ghost function RotateLeft(t: STree): (r: STree)
    requires t.Branch? && t.right.Branch?
    ensures r.Branch? && Size(r) == Size(t)
  {
    Node(Node(t.left, t.node, t.right.left), t.right.node, t.right.right)
  }

  /** SPLAY_ASSEMBLE. */
  ghost function Assemble(l: SCtx, t: STree, r: SCtx): STree
    requires t.Branch?
  {
    Node(Plug(l, t.left), t.node, Plug(r, t.right))
  }

  /** The loop of SPLAY and SPLAY_MINMAX, then SPLAY_ASSEMBLE. */
  ghost function Loop(p: Probe, l: SCtx, t: STree, r: SCtx): (s: STree)
    requires t.Branch?
    ensures s.Branch?
    decreases Size(t)
  {
    if Cmp(p, t.node) < 0 then
      if t.left.Leaf? then Assemble(l, t, r)
      else
        var t' := if Cmp(p, t.left.node) < 0 then RotateRight(t) else t;
        if t'.left.Leaf? then Assemble(l, t', r) else Loop(p, l, t'.left, InLeft(r, t'.node, false, t'.right))
    else if Cmp(p, t.node) > 0 then
      if t.right.Leaf? then Assemble(l, t, r)
      else
        var t' := if Cmp(p, t.right.node) > 0 then RotateLeft(t) else t;
        if t'.right.Leaf? then Assemble(l, t', r) else Loop(p, InRight(l, t'.node, false, t'.left), t'.right, r)
    else Assemble(l, t, r)
  }

  ghost function Splay(p: Probe, t: STree): (s: STree)
    requires t.Branch?
    ensures s.Branch?
  {
    Loop(p, Top, t, Top)
  }

  /** The left piece has its hole at its right end, the right piece at its left end. */
  ghost predicate Left(c: SCtx) { !c.Top? ==> c.InRight? && Left(c.up) }

  ghost predicate Right(c: SCtx) { !c.Top? ==> c.InLeft? && Right(c.up) }

  lemma {:induction false} LeftEnds(c: SCtx)
    requires Left(c)
    ensures After(c) == []
  {
    if !c.Top? { LeftEnds(c.up); }
  }

  lemma {:induction false} RightEnds(c: SCtx)
    requires Right(c)
    ensures Before(c) == []
  {
    if !c.Top? { RightEnds(c.up); }
  }

  lemma AssembleOrder(l: SCtx, t: STree, r: SCtx)
    requires Left(l) && Right(r) && t.Branch?
    ensures InOrder(Assemble(l, t, r)) == Before(l) + InOrder(t) + After(r)
    ensures InOrder(Plug(l, t.left)) == Before(l) + InOrder(t.left) && InOrder(Plug(r, t.right)) == InOrder(t.right) + After(r)
  {
    hide Plug, Before, After;
    LeftEnds(l);
    RightEnds(r);
    PlugInOrder(l, t.left);
    PlugInOrder(r, t.right);
    FiveInARow(Before(l), InOrder(t.left), [t.node], InOrder(t.right), After(r));
    assert Before(l) + InOrder(t.left) + [] == Before(l) + InOrder(t.left);
    assert [] + InOrder(t.right) + After(r) == InOrder(t.right) + After(r);
  }

  lemma FiveInARow<N>(a: seq<N>, b: seq<N>, x: seq<N>, c: seq<N>, d: seq<N>)
    ensures (a + b) + x + (c + d) == a + (b + x + c) + d
  {
  }

  /** One link to the right piece moves the root and its right subtree there. */
  lemma LinkLeftOrder(l: SCtx, t: STree, r: SCtx)
    requires t.Branch?
    ensures Before(l) + InOrder(t.left) + After(InLeft(r, t.node, false, t.right)) == Before(l) + InOrder(t) + After(r)
  {
  }

  lemma LinkRightOrder(l: SCtx, t: STree, r: SCtx)
    requires t.Branch?
    ensures Before(InRight(l, t.node, false, t.left)) + InOrder(t.right) + After(r) == Before(l) + InOrder(t) + After(r)
  {
  }

  lemma RotateRightOrder(t: STree)
    requires t.Branch? && t.left.Branch?
    ensures InOrder(RotateRight(t)) == InOrder(t)
  {
    RotateInOrder(t.left.left, t.left.node, false, t.left.right, t.node, t.red, t.right, t.left.red, false);
    RotateInOrder(t.left.left, t.left.node, false, t.left.right, t.node, false, t.right, t.left.red, t.red);
  }

  lemma RotateLeftOrder(t: STree)
    requires t.Branch? && t.right.Branch?
    ensures InOrder(RotateLeft(t)) == InOrder(t)
  {
    RotateInOrder(t.left, t.node, t.red, t.right.left, t.right.node, t.right.red, t.right.right, false, false);
  }

  /** Whatever is sought, splaying keeps the elements and their order. */
  lemma {:induction false} LoopOrder(p: Probe, l: SCtx, t: STree, r: SCtx)
    requires t.Branch? && Left(l) && Right(r)
    ensures InOrder(Loop(p, l, t, r)) == Before(l) + InOrder(t) + After(r)
    decreases Size(t)
  {
    hide Cmp, InOrder, Before, After, Assemble;
    AssembleOrder(l, t, r);
    if Cmp(p, t.node) < 0 && t.left.Branch? {
      RotateRightOrder(t);
      var t' := if Cmp(p, t.left.node) < 0 then RotateRight(t) else t;
      AssembleOrder(l, t', r);
      if t'.left.Branch? {
        LinkLeftOrder(l, t', r);
        LoopOrder(p, l, t'.left, InLeft(r, t'.node, false, t'.right));
      }
    } else if Cmp(p, t.node) > 0 && t.right.Branch? {
      RotateLeftOrder(t);
      var t' := if Cmp(p, t.right.node) > 0 then RotateLeft(t) else t;
      AssembleOrder(l, t', r);
      if t'.right.Branch? {
        LinkRightOrder(l, t', r);
        LoopOrder(p, InRight(l, t'.node, false, t'.left), t'.right, r);
      }
    }
  }

  // ---- the order of the names ---------------------------------------------------------------------------------

  ghost predicate Sorted(s: seq<Elem>) {
    forall i, j :: 0 <= i < j < |s| ==> StrCmp(s[i].name, s[j].name) < 0
  }

  ghost predicate Below(s: seq<Elem>, name: CStr) {
    forall n :: n in s ==> StrCmp(n.name, name) < 0
  }

  ghost predicate Above(s: seq<Elem>, name: CStr) {
    forall n :: n in s ==> StrCmp(name, n.name) < 0
  }

  /** The root divides its tree, wherever this stands in a sorted sequence. */
  lemma RootDivides(a: seq<Elem>, t: STree, b: seq<Elem>)
    requires t.Branch? && Sorted(a + InOrder(t) + b)
    ensures Below(InOrder(t.left), t.node.name) && Above(InOrder(t.right), t.node.name)
  {
    var l, r, s := InOrder(t.left), InOrder(t.right), a + InOrder(t) + b;
    var k := |a| + |l|;
    assert s[k] == t.node;
    forall i | 0 <= i < |l| ensures StrCmp(l[i].name, t.node.name) < 0 {
      assert s[|a| + i] == l[i];
    }
    forall i | 0 <= i < |r| ensures StrCmp(t.node.name, r[i].name) < 0 {
      assert s[k + 1 + i] == r[i];
    }
  }

  lemma AboveMore(s: seq<Elem>, x: CStr, name: CStr)
    requires Above(s, x) && StrCmp(name, x) <= 0
    ensures Above(s, name)
  {
    forall n | n in s ensures StrCmp(name, n.name) < 0 {
      StrCmpZeroIffEqual(name, x);
      if name != x { StrCmpTransitive(name, x, n.name); }
    }
  }

  lemma BelowMore(s: seq<Elem>, x: CStr, name: CStr)
    requires Below(s, x) && StrCmp(name, x) >= 0
    ensures Below(s, name)
  {
    StrCmpAntisymmetric(name, x);
    forall n | n in s ensures StrCmp(n.name, name) < 0 {
      StrCmpZeroIffEqual(name, x);
      if name != x { StrCmpTransitive(n.name, x, name); }
    }
  }

  /** The tree `t` with what is around it, ready for the loop. */
  ghost predicate Ready(name: CStr, l: SCtx, t: STree, r: SCtx) {
    Left(l) && Right(r) && Sorted(Before(l) + InOrder(t) + After(r)) && Below(Before(l), name) && Above(After(r), name)
  }

  /** The end of the loop at a root that is not below the name and has nothing between. */
  lemma EndHigh(name: CStr, l: SCtx, t: STree, r: SCtx)
    requires t.Branch? && Ready(name, l, t, r) && StrCmp(name, t.node.name) <= 0 && (t.left.Leaf? || StrCmp(name, t.node.name) == 0)
    ensures Below(InOrder(Assemble(l, t, r).left), name) && Above(InOrder(Assemble(l, t, r).right), name)
  {
    hide Plug, Before, After, Sorted;
    AssembleOrder(l, t, r);
    RootDivides(Before(l), t, After(r));
    AboveMore(InOrder(t.right), t.node.name, name);
    if StrCmp(name, t.node.name) == 0 { BelowMore(InOrder(t.left), t.node.name, name); }
  }

  lemma EndLow(name: CStr, l: SCtx, t: STree, r: SCtx)
    requires t.Branch? && Ready(name, l, t, r) && StrCmp(name, t.node.name) > 0 && t.right.Leaf?
    ensures Below(InOrder(Assemble(l, t, r).left), name) && Above(InOrder(Assemble(l, t, r).right), name)
  {
    hide Plug, Before, After, Sorted;
    AssembleOrder(l, t, r);
    RootDivides(Before(l), t, After(r));
    BelowMore(InOrder(t.left), t.node.name, name);
  }

  lemma LinkLeftReady(name: CStr, l: SCtx, t: STree, r: SCtx)
    requires t.Branch? && Ready(name, l, t, r) && StrCmp(name, t.node.name) < 0
    ensures Ready(name, l, t.left, InLeft(r, t.node, false, t.right))
  {
    hide Sorted;
    LinkLeftOrder(l, t, r);
    RootDivides(Before(l), t, After(r));
    AboveMore(InOrder(t.right), t.node.name, name);
  }

  lemma LinkRightReady(name: CStr, l: SCtx, t: STree, r: SCtx)
    requires t.Branch? && Ready(name, l, t, r) && StrCmp(name, t.node.name) > 0
    ensures Ready(name, InRight(l, t.node, false, t.left), t.right, r)
  {
    hide Sorted;
    LinkRightOrder(l, t, r);
    RootDivides(Before(l), t, After(r));
    BelowMore(InOrder(t.left), t.node.name, name);
    StrCmpAntisymmetric(name, t.node.name);
  }

  /** Splaying for a name leaves a root with everything below the name on its left and everything above it
      on its right: the root is the name's element, or else its predecessor or successor. */
  lemma {:induction false} LoopDivides(name: CStr, l: SCtx, t: STree, r: SCtx)
    requires t.Branch? && Ready(name, l, t, r)
    ensures var s := Loop(Key(name), l, t, r); Below(InOrder(s.left), name) && Above(InOrder(s.right), name)
    decreases Size(t)
  {
    hide InOrder, Before, After, Assemble, Ready, Below, Above, RotateLeft, RotateRight;
    var p := Key(name);
    if Cmp(p, t.node) < 0 {
      if t.left.Leaf? {
        EndHigh(name, l, t, r);
      } else {
        RotatedReady(name, l, t, r);
        var t' := if Cmp(p, t.left.node) < 0 then RotateRight(t) else t;
        if t'.left.Leaf? {
          EndHigh(name, l, t', r);
        } else {
          LinkLeftReady(name, l, t', r);
          LoopDivides(name, l, t'.left, InLeft(r, t'.node, false, t'.right));
        }
      }
    } else if Cmp(p, t.node) > 0 {
      if t.right.Leaf? {
        EndLow(name, l, t, r);
      } else {
        RotatedReady(name, l, t, r);
        var t' := if Cmp(p, t.right.node) > 0 then RotateLeft(t) else t;
        if t'.right.Leaf? {
          EndLow(name, l, t', r);
        } else {
          LinkRightReady(name, l, t', r);
          LoopDivides(name, InRight(l, t'.node, false, t'.left), t'.right, r);
        }
      }
    } else {
      EndHigh(name, l, t, r);
    }
  }

  lemma RotatedReady(name: CStr, l: SCtx, t: STree, r: SCtx)
    requires t.Branch? && Ready(name, l, t, r)
    ensures t.left.Branch? ==> Ready(name, l, RotateRight(t), r) && RotateRight(t).node == t.left.node
    ensures t.right.Branch? ==> Ready(name, l, RotateLeft(t), r) && RotateLeft(t).node == t.right.node
  {
    if t.left.Branch? { RotateRightOrder(t); }
    if t.right.Branch? { RotateLeftOrder(t); }
  }

  /** The main property of SPLAY: same elements in the same order, and the root divides them at the name. */
  lemma SplayDivides(name: CStr, t: STree)
    requires t.Branch? && Sorted(InOrder(t))
    ensures var s := Splay(Key(name), t);
            && InOrder(s) == InOrder(t) && Below(InOrder(s.left), name) && Above(InOrder(s.right), name)
            && ((exists n :: n in InOrder(t) && n.name == name) <==> s.node.name == name)
  {
    hide Loop, Sorted;
    assert [] + InOrder(t) + [] == InOrder(t);
    LoopOrder(Key(name), Top, t, Top);
    LoopDivides(name, Top, t, Top);
    var s := Splay(Key(name), t);
    StrCmpZeroIffEqual(name, name);
    assert s.node in InOrder(s);
    assert forall n :: n in InOrder(s) ==> n in InOrder(s.left) || n == s.node || n in InOrder(s.right);
  }

  /** SPLAY_MINMAX brings the first or the last element to the root. */
  lemma {:induction false} LoopEnds(p: Probe, l: SCtx, t: STree, r: SCtx)
    requires t.Branch? && !p.Key? && Left(l) && Right(r) && (p.Low? ==> l.Top?) && (p.High? ==> r.Top?)
    ensures var s := Loop(p, l, t, r); if p.Low? then s.left.Leaf? else s.right.Leaf?
    decreases Size(t)
  {
    hide InOrder;
    if p.Low? && t.left.Branch? {
      var t' := RotateRight(t);
      if t'.left.Branch? { LoopEnds(p, l, t'.left, InLeft(r, t'.node, false, t'.right)); }
    } else if p.High? && t.right.Branch? {
      var t' := RotateLeft(t);
      if t'.right.Branch? { LoopEnds(p, InRight(l, t'.node, false, t'.left), t'.right, r); }
    }
  }

  // ---- the ordered set ---------------------------------------------------------------------------------------------

  /** SPLAY_INSERT; None: the name was there and the tree is only splayed. */
  ghost function Insert(t: STree, elm: Elem): Option<STree> {
    if t.Leaf? then Some(Node(Leaf, elm, Leaf))
    else
      var s := Splay(Key(elm.name), t);
      if StrCmp(elm.name, s.node.name) < 0 then Some(Node(s.left, elm, Node(Leaf, s.node, s.right)))
      else if StrCmp(elm.name, s.node.name) > 0 then Some(Node(Node(s.left, s.node, Leaf), elm, s.right))
      else None
  }

  /** The new element goes between what is below and what is above it, and is refused exactly when its name is there. */
  lemma InsertIs(t: STree, elm: Elem) returns (at: nat)
    requires Sorted(InOrder(t))
    ensures Insert(t, elm).None? <==> exists n :: n in InOrder(t) && n.name == elm.name
    ensures at <= |InOrder(t)|
    ensures Insert(t, elm).Some? ==>
              var s := InOrder(t);
              && InOrder(Insert(t, elm).value) == s[..at] + [elm] + s[at..]
              && Below(s[..at], elm.name) && Above(s[at..], elm.name) && Sorted(InOrder(Insert(t, elm).value))
  {
    hide Splay, Sorted, Below, Above;
    at := 0;
    if t.Branch? {
      SplayDivides(elm.name, t);
      var s := Splay(Key(elm.name), t);
      StrCmpZeroIffEqual(elm.name, s.node.name);
      var a, b := InOrder(s.left), InOrder(s.right);
      assert InOrder(t) == a + [s.node] + b;
      if StrCmp(elm.name, s.node.name) < 0 {
        at := |a|;
        OverRight(a, elm, s, b);
      } else if StrCmp(elm.name, s.node.name) > 0 {
        at := |a| + 1;
        OverLeft(a, elm, s, b);
      }
    } else {
      Alone(elm, InOrder(t));
    }
  }

  lemma Alone(elm: Elem, s: seq<Elem>)
    requires s == []
    ensures InOrder(Node(Leaf, elm, Leaf)) == s[..0] + [elm] + s[0..] == [elm]
    ensures Below(s[..0], elm.name) && Above(s[0..], elm.name) && Sorted([elm])
  {
  }

  lemma OverRight(a: seq<Elem>, elm: Elem, s: STree, b: seq<Elem>)
    requires s.Branch? && a == InOrder(s.left) && b == InOrder(s.right) && Sorted(a + [s.node] + b)
    requires Below(a, elm.name) && Above(b, elm.name) && StrCmp(elm.name, s.node.name) < 0
    ensures var t, o := Node(s.left, elm, Node(Leaf, s.node, s.right)), a + [s.node] + b;
            && InOrder(t) == o[..|a|] + [elm] + o[|a|..] && Below(o[..|a|], elm.name) && Above(o[|a|..], elm.name) && Sorted(InOrder(t))
  {
    hide Sorted;
    var o := a + [s.node] + b;
    assert o[..|a|] == a && o[|a|..] == [s.node] + b;
    assert a + ([s.node] + b) == o;
    AboveRoot(a, s, b, elm.name);
    PutBetween(a, elm, [s.node] + b);
    assert InOrder(Node(Leaf, s.node, s.right)) == [s.node] + b;
  }

  lemma AboveRoot(a: seq<Elem>, s: STree, b: seq<Elem>, name: CStr)
    requires s.Branch? && Above(b, name) && StrCmp(name, s.node.name) < 0
    ensures Above([s.node] + b, name)
  {
  }

  lemma OverLeft(a: seq<Elem>, elm: Elem, s: STree, b: seq<Elem>)
    requires s.Branch? && a == InOrder(s.left) && b == InOrder(s.right) && Sorted(a + [s.node] + b)
    requires Below(a, elm.name) && Above(b, elm.name) && StrCmp(elm.name, s.node.name) > 0
    ensures var t, o, k := Node(Node(s.left, s.node, Leaf), elm, s.right), a + [s.node] + b, |a| + 1;
            && InOrder(t) == o[..k] + [elm] + o[k..] && Below(o[..k], elm.name) && Above(o[k..], elm.name) && Sorted(InOrder(t))
  {
    var o := a + [s.node] + b;
    assert o[..|a| + 1] == a + [s.node] && o[|a| + 1..] == b;
    StrCmpAntisymmetric(elm.name, s.node.name);
    PutBetween(a + [s.node], elm, b);
    assert InOrder(Node(s.left, s.node, Leaf)) == a + [s.node];
  }

  lemma PutBetween(a: seq<Elem>, x: Elem, b: seq<Elem>)
    requires Sorted(a + b) && Below(a, x.name) && Above(b, x.name)
    ensures Sorted(a + [x] + b)
  {
    var s, u := a + b, a + [x] + b;
    forall i, j | 0 <= i < j < |u| ensures StrCmp(u[i].name, u[j].name) < 0 {
      if i != |a| && j != |a| {
        assert u[i] == s[if i < |a| then i else i - 1];
        assert u[j] == s[if j < |a| then j else j - 1];
      }
    }
  }

  /** SPLAY_REMOVE; None: the name is not there. */
  ghost function Remove(t: STree, name: CStr): Option<STree> {
    if t.Leaf? then None
    else
      var s := Splay(Key(name), t);
      if StrCmp(name, s.node.name) != 0 then None
      else if s.left.Leaf? then Some(s.right)
      else
        var u := Splay(Key(name), s.left);
        Some(Node(u.left, u.node, s.right))
  }

  /** Exactly the element of the name goes. */
  lemma RemoveIs(t: STree, name: CStr) returns (at: nat)
    requires Sorted(InOrder(t))
    ensures Remove(t, name).Some? <==> exists n :: n in InOrder(t) && n.name == name
    ensures Remove(t, name).Some? ==>
              var s := InOrder(t);
              at < |s| && s[at].name == name && InOrder(Remove(t, name).value) == s[..at] + s[at + 1..]
  {
    hide Splay;
    at := 0;
    if t.Branch? {
      SplayDivides(name, t);
      var s := Splay(Key(name), t);
      StrCmpZeroIffEqual(name, s.node.name);
      var a, b := InOrder(s.left), InOrder(s.right);
      assert InOrder(t) == a + [s.node] + b;
      at := |a|;
      assert InOrder(t)[..at] == a && InOrder(t)[at + 1..] == b;
      if s.left.Branch? && StrCmp(name, s.node.name) == 0 {
        assert Sorted(a) by { assert forall i :: 0 <= i < |a| ==> a[i] == InOrder(t)[i]; }
        SplayDivides(name, s.left);
        var u := Splay(Key(name), s.left);
        NothingAbove(InOrder(u.right), a, name, InOrder(u.left) + [u.node]);
        NoLeaves(u.right);
        assert InOrder(u) == InOrder(u.left) + [u.node];
      }
    }
  }

  lemma NothingAbove(r: seq<Elem>, a: seq<Elem>, name: CStr, l: seq<Elem>)
    requires Above(r, name) && Below(a, name) && a == l + r
    ensures r == []
  {
    if r != [] {
      var x := r[0];
      assert x in r && a[|l|] == x && x in a;
      StrCmpAntisymmetric(x.name, name);
    }
  }

  lemma NoLeaves(t: STree)
    requires InOrder(t) == []
    ensures t.Leaf?
  {
    assert t.Branch? ==> |InOrder(t)| > 0;
  }
}
