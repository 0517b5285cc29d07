/**
 * Shapes of the AVL tree as algebraic values. A `Tree` arranges node
 * identities (arena indices); a `Ctx` is a one-hole context that locates a
 * subtree inside a tree, so that every pointer operation on the arena can be
 * described as a rewrite of one subtree in its context.
 */
module Shapes {

  datatype Option<T> = None | Some(value: T)

  /** An arena index: the identity of a node. */
  type Id = int

  /** The shape of a tree: which node sits where. */
  datatype Tree = Nil | Node(left: Tree, id: Id, right: Tree)

  /** The path from a hole up to the root, innermost frame first.
      `LeftOf(up, i, r)`: the hole is the left child of node `i`, whose right
      subtree is `r`; `RightOf(up, l, i)` is the mirror image. */
  datatype Ctx =
    | Top
    | LeftOf(up: Ctx, id: Id, right: Tree)
    | RightOf(up: Ctx, left: Tree, id: Id)

  function Max(a: int, b: int): int { if a < b then b else a }

  function RootOf(t: Tree): Option<Id> {
    if t.Nil? then None else Some(t.id)
  }

  /** The tree obtained by filling the hole of `c` with `t`. */
  function Plug(c: Ctx, t: Tree): Tree
    decreases c
  {
    match c
    case Top => t
    case LeftOf(up, i, r) => Plug(up, Node(t, i, r))
    case RightOf(up, l, i) => Plug(up, Node(l, i, t))
  }

  /** The node whose child slot is the hole, if any. */
  function HoleParent(c: Ctx): Option<Id> {
    if c.Top? then None else Some(c.id)
  }

  /** One level further out: the context of the hole's parent ... */
  function Outer(c: Ctx): Ctx {
    if c.Top? then Top else c.up
  }

  /** ... and the subtree rooted there once `t` fills the hole, so that
      `Plug(Outer(c), Enclose(c, t)) == Plug(c, t)`. */
  function Enclose(c: Ctx, t: Tree): Tree {
    match c
    case Top => t
    case LeftOf(_, i, r) => Node(t, i, r)
    case RightOf(_, l, i) => Node(l, i, t)
  }

  function Ids(t: Tree): set<Id> {
    match t
    case Nil => {}
    case Node(l, i, r) => Ids(l) + {i} + Ids(r)
  }

  function CtxIds(c: Ctx): set<Id> {
    match c
    case Top => {}
    case LeftOf(up, i, r) => CtxIds(up) + {i} + Ids(r)
    case RightOf(up, l, i) => CtxIds(up) + Ids(l) + {i}
  }

  /** No node identity occurs twice. */
  predicate Distinct(t: Tree) {
    match t
    case Nil => true
    case Node(l, i, r) =>
      Distinct(l) && Distinct(r) && i !in Ids(l) && i !in Ids(r) && Ids(l) !! Ids(r)
  }

  predicate CtxDistinct(c: Ctx) {
    match c
    case Top => true
    case LeftOf(up, i, r) =>
      CtxDistinct(up) && Distinct(r) && i !in Ids(r) && i !in CtxIds(up) && Ids(r) !! CtxIds(up)
    case RightOf(up, l, i) =>
      CtxDistinct(up) && Distinct(l) && i !in Ids(l) && i !in CtxIds(up) && Ids(l) !! CtxIds(up)
  }

  /** In-order sequence of node identities. */
  function InOrder(t: Tree): seq<Id> {
    match t
    case Nil => []
    case Node(l, i, r) => InOrder(l) + [i] + InOrder(r)
  }

  /** The nodes of a context that come before / after the hole in order. */
  function Before(c: Ctx): seq<Id> {
    match c
    case Top => []
    case LeftOf(up, i, r) => Before(up)
    case RightOf(up, l, i) => Before(up) + InOrder(l) + [i]
  }

  function After(c: Ctx): seq<Id> {
    match c
    case Top => []
    case LeftOf(up, i, r) => [i] + InOrder(r) + After(up)
    case RightOf(up, l, i) => After(up)
  }

  /** Height with an absent subtree counting 0 and a leaf 1. */
  function Height(t: Tree): nat {
    match t
    case Nil => 0
    case Node(l, _, r) => 1 + Max(Height(l), Height(r))
  }

  /** Left rotation of a subtree at its root; no change without a right child. */
  function RotL(t: Tree): Tree {
    match t
    case Node(a, x, Node(b, y, c)) => Node(Node(a, x, b), y, c)
    case _ => t
  }

  /** Right rotation of a subtree at its root; no change without a left child. */
  function RotR(t: Tree): Tree {
    match t
    case Node(Node(a, x, b), y, c) => Node(a, x, Node(b, y, c))
    case _ => t
  }

  predicate NoDup(s: seq<Id>) {
    forall i, j :: 0 <= i < j < |s| ==> s[i] != s[j]
  }

  // ---------------------------------------------------------------------
  // Exchanging two identities (the effect of a node-position swap).

  function Sw(i: Id, a: Id, b: Id): Id {
    if i == a then b else if i == b then a else i
  }

  function SwOpt(o: Option<Id>, a: Id, b: Id): Option<Id> {
    if o.None? then None else Some(Sw(o.value, a, b))
  }

  function Rename(t: Tree, a: Id, b: Id): Tree {
    match t
    case Nil => Nil
    case Node(l, i, r) => Node(Rename(l, a, b), Sw(i, a, b), Rename(r, a, b))
  }

  function RenameCtx(c: Ctx, a: Id, b: Id): Ctx {
    match c
    case Top => Top
    case LeftOf(up, i, r) => LeftOf(RenameCtx(up, a, b), Sw(i, a, b), Rename(r, a, b))
    case RightOf(up, l, i) => RightOf(RenameCtx(up, a, b), Rename(l, a, b), Sw(i, a, b))
  }

  function SwSeq(s: seq<Id>, a: Id, b: Id): seq<Id> {
    if s == [] then [] else [Sw(s[0], a, b)] + SwSeq(s[1..], a, b)
  }

  // ---------------------------------------------------------------------
  // Plugging a subtree into a context.

  lemma {:induction false} PlugIds(c: Ctx, t: Tree)
    ensures Ids(Plug(c, t)) == CtxIds(c) + Ids(t)
  {
    match c
    case Top =>
    case LeftOf(up, i, r) => PlugIds(up, Node(t, i, r));
    case RightOf(up, l, i) => PlugIds(up, Node(l, i, t));
  }

  /** The root of a plugged tree depends on the filler only at the top. */
  lemma {:induction false} PlugRootOf(c: Ctx, t: Tree, t': Tree)
    requires c != Top || RootOf(t) == RootOf(t')
    ensures RootOf(Plug(c, t)) == RootOf(Plug(c, t'))
    decreases c
  {
    match c
    case Top =>
    case LeftOf(up, i, r) => PlugRootOf(up, Node(t, i, r), Node(t', i, r));
    case RightOf(up, l, i) => PlugRootOf(up, Node(l, i, t), Node(l, i, t'));
  }

  lemma {:induction false} PlugInOrder(c: Ctx, t: Tree)
    ensures InOrder(Plug(c, t)) == Before(c) + InOrder(t) + After(c)
  {
    match c
    case Top =>
    case LeftOf(up, i, r) => PlugInOrder(up, Node(t, i, r));
    case RightOf(up, l, i) => PlugInOrder(up, Node(l, i, t));
  }

  /** The in-order sequence of a tree, split at the node in the hole. */
  lemma InOrderAround(c: Ctx, s: Tree)
    requires s.Node?
    ensures InOrder(Plug(c, s)) == (Before(c) + InOrder(s.left)) + [s.id] + (InOrder(s.right) + After(c))
  {
    PlugInOrder(c, s);
    var b, l, r, a := Before(c), InOrder(s.left), InOrder(s.right), After(c);
    Regroup(b, l, s.id, r, a);
  }

  lemma Regroup(b: seq<Id>, l: seq<Id>, x: Id, r: seq<Id>, a: seq<Id>)
    ensures b + (l + [x] + r) + a == (b + l) + [x] + (r + a)
  {
  }

  lemma {:induction false} PlugDistinct(c: Ctx, t: Tree)
    ensures Distinct(Plug(c, t)) <==> Distinct(t) && CtxDistinct(c) && CtxIds(c) !! Ids(t)
  {
    match c
    case Top =>
    case LeftOf(up, i, r) => PlugDistinct(up, Node(t, i, r));
    case RightOf(up, l, i) => PlugDistinct(up, Node(l, i, t));
  }

  /** The distinctness facts about a node `i` in the hole of `up`, spelled
      out for the node itself. */
  lemma PlugNodeDistinct(up: Ctx, l: Tree, i: Id, r: Tree)
    requires Distinct(Plug(up, Node(l, i, r)))
    ensures Distinct(l) && Distinct(r) && CtxDistinct(up)
    ensures i !in Ids(l) && i !in Ids(r) && i !in CtxIds(up)
    ensures Ids(l) !! Ids(r) && Ids(l) !! CtxIds(up) && Ids(r) !! CtxIds(up)
  {
    PlugDistinct(up, Node(l, i, r));
    assert Ids(Node(l, i, r)) == Ids(l) + {i} + Ids(r);
    assert i in Ids(Node(l, i, r));
  }

  /** The same for a node `i` whose left child `s` is a node. */
  lemma PlugLeftPairDistinct(up: Ctx, s: Tree, i: Id, r: Tree)
    requires s.Node? && Distinct(Plug(up, Node(s, i, r)))
    ensures i != s.id && Distinct(s) && Distinct(s.left) && Distinct(s.right) && Distinct(r) && CtxDistinct(up)
    ensures i !in Ids(s.left) && i !in Ids(s.right) && i !in Ids(r) && i !in CtxIds(up)
    ensures s.id !in Ids(s.left) && s.id !in Ids(s.right) && s.id !in Ids(r) && s.id !in CtxIds(up)
  {
    PlugNodeDistinct(up, s, i, r);
    assert Ids(s) == Ids(s.left) + {s.id} + Ids(s.right);
  }

  /** The same for a node `i` whose right child `s` is a node. */
  lemma PlugRightPairDistinct(up: Ctx, l: Tree, i: Id, s: Tree)
    requires s.Node? && Distinct(Plug(up, Node(l, i, s)))
    ensures i != s.id && Distinct(s) && Distinct(s.left) && Distinct(s.right) && Distinct(l) && CtxDistinct(up)
    ensures i !in Ids(s.left) && i !in Ids(s.right) && i !in Ids(l) && i !in CtxIds(up)
    ensures s.id !in Ids(s.left) && s.id !in Ids(s.right) && s.id !in Ids(l) && s.id !in CtxIds(up)
  {
    PlugNodeDistinct(up, l, i, s);
    assert Ids(s) == Ids(s.left) + {s.id} + Ids(s.right);
  }

  /** For a node `i` whose left child `s` has a right child `t`: all three
      identities are distinct, and none occurs in the four hanging subtrees
      or in the context. */
  lemma PlugLeftZigZagDistinct(up: Ctx, s: Tree, i: Id, r: Tree)
    requires s.Node? && s.right.Node? && Distinct(Plug(up, Node(s, i, r)))
    ensures i != s.id && i != s.right.id && s.id != s.right.id && Distinct(s)
    ensures Distinct(s.left) && Distinct(s.right.left) && Distinct(s.right.right) && Distinct(r) && CtxDistinct(up)
    ensures i !in Ids(s.left) && i !in Ids(s.right.left) && i !in Ids(s.right.right) && i !in Ids(r) && i !in CtxIds(up)
    ensures s.id !in Ids(s.left) && s.id !in Ids(s.right.left) && s.id !in Ids(s.right.right) && s.id !in Ids(r) && s.id !in CtxIds(up)
    ensures s.right.id !in Ids(s.left) && s.right.id !in Ids(s.right.left) && s.right.id !in Ids(s.right.right)
    ensures s.right.id !in Ids(r) && s.right.id !in CtxIds(up)
  {
    PlugLeftPairDistinct(up, s, i, r);
    var t := s.right;
    assert Ids(s) == Ids(s.left) + {s.id} + Ids(t);
    assert Ids(t) == Ids(t.left) + {t.id} + Ids(t.right);
    PlugNodeDistinct(up, s, i, r);
  }

  /** The mirror image: node `i` with right child `s` whose left child is `t`. */
  lemma PlugRightZigZagDistinct(up: Ctx, l: Tree, i: Id, s: Tree)
    requires s.Node? && s.left.Node? && Distinct(Plug(up, Node(l, i, s)))
    ensures i != s.id && i != s.left.id && s.id != s.left.id && Distinct(s)
    ensures Distinct(s.right) && Distinct(s.left.left) && Distinct(s.left.right) && Distinct(l) && CtxDistinct(up)
    ensures i !in Ids(s.right) && i !in Ids(s.left.left) && i !in Ids(s.left.right) && i !in Ids(l) && i !in CtxIds(up)
    ensures s.id !in Ids(s.right) && s.id !in Ids(s.left.left) && s.id !in Ids(s.left.right) && s.id !in Ids(l) && s.id !in CtxIds(up)
    ensures s.left.id !in Ids(s.right) && s.left.id !in Ids(s.left.left) && s.left.id !in Ids(s.left.right)
    ensures s.left.id !in Ids(l) && s.left.id !in CtxIds(up)
  {
    PlugRightPairDistinct(up, l, i, s);
    var t := s.left;
    assert Ids(s) == Ids(t) + {s.id} + Ids(s.right);
    assert Ids(t) == Ids(t.left) + {t.id} + Ids(t.right);
    PlugNodeDistinct(up, l, i, s);
  }

  /** Replacing the subtree in a hole by one with no more identities keeps a
      distinct tree distinct. */
  lemma PlugReplaceDistinct(c: Ctx, t: Tree, t': Tree)
    requires Distinct(Plug(c, t)) && Distinct(t') && Ids(t') <= Ids(t)
    ensures Distinct(Plug(c, t'))
  {
    PlugDistinct(c, t);
    PlugDistinct(c, t');
  }

  lemma {:induction false} InOrderIds(t: Tree)
    ensures forall i :: i in InOrder(t) <==> i in Ids(t)
  {
    match t
    case Nil =>
    case Node(l, i, r) => InOrderIds(l); InOrderIds(r);
  }

  lemma NoDupConcat(a: seq<Id>, b: seq<Id>)
    requires NoDup(a) && NoDup(b)
    requires forall x :: x in a ==> x !in b
    ensures NoDup(a + b)
  {
    var s := a + b;
    forall i, j | 0 <= i < j < |s| ensures s[i] != s[j] {
      if i < |a| && j >= |a| {
        assert s[i] in a && s[j] == b[j - |a|];
      }
    }
  }

  /** Distinct identities give an in-order sequence without repetition. */
  lemma {:induction false} DistinctNoDup(t: Tree)
    requires Distinct(t)
    ensures NoDup(InOrder(t))
  {
    match t
    case Nil =>
    case Node(l, i, r) =>
      DistinctNoDup(l);
      DistinctNoDup(r);
      InOrderIds(l);
      InOrderIds(r);
      NoDupConcat(InOrder(l), [i]);
      NoDupConcat(InOrder(l) + [i], InOrder(r));
  }

  /** In a sequence without repetition an element has one position. */
  lemma NoDupSplit(s: seq<Id>, x: Id, p: seq<Id>, q: seq<Id>, p': seq<Id>, q': seq<Id>)
    requires NoDup(s) && s == p + [x] + q && s == p' + [x] + q'
    ensures p == p' && q == q'
  {
    assert s[|p|] == x && s[|p'|] == x;
    assert |p| == |p'|;
    assert p == s[..|p|] && p' == s[..|p'|];
    assert q == s[|p| + 1..] && q' == s[|p'| + 1..];
  }

  // ---------------------------------------------------------------------
  // Rotations keep the identities and their in-order sequence.

  lemma {:induction false} RotLPreserves(t: Tree)
    ensures InOrder(RotL(t)) == InOrder(t) && Ids(RotL(t)) == Ids(t)
    ensures Distinct(t) ==> Distinct(RotL(t))
    ensures RootOf(RotL(t)) == (if t.Node? && t.right.Node? then Some(t.right.id) else RootOf(t))
  {
    match t
    case Node(a, x, Node(b, y, c)) =>
      assert Ids(t) == Ids(a) + {x} + Ids(b) + {y} + Ids(c);
      if Distinct(t) {
        assert Distinct(Node(b, y, c));
        assert Distinct(Node(a, x, b));
      }
    case _ =>
  }

  lemma {:induction false} RotRPreserves(t: Tree)
    ensures InOrder(RotR(t)) == InOrder(t) && Ids(RotR(t)) == Ids(t)
    ensures Distinct(t) ==> Distinct(RotR(t))
    ensures RootOf(RotR(t)) == (if t.Node? && t.left.Node? then Some(t.left.id) else RootOf(t))
  {
    match t
    case Node(Node(a, x, b), y, c) =>
      assert Ids(t) == Ids(a) + {x} + Ids(b) + {y} + Ids(c);
      if Distinct(t) {
        assert Distinct(Node(a, x, b));
        assert Distinct(Node(b, y, c));
      }
    case _ =>
  }

  /** Rotating a subtree in place keeps the in-order sequence of the whole tree. */
  lemma PlugRotInOrder(c: Ctx, t: Tree)
    ensures InOrder(Plug(c, RotL(t))) == InOrder(Plug(c, t))
    ensures InOrder(Plug(c, RotR(t))) == InOrder(Plug(c, t))
  {
    PlugInOrder(c, t);
    PlugInOrder(c, RotL(t));
    PlugInOrder(c, RotR(t));
    RotLPreserves(t);
    RotRPreserves(t);
  }

  // ---------------------------------------------------------------------
  // Renaming.

  lemma SwInvolution(i: Id, a: Id, b: Id)
    ensures Sw(Sw(i, a, b), a, b) == i
  {
  }

  lemma {:induction false} RenameIds(t: Tree, a: Id, b: Id)
    ensures forall i :: i in Ids(Rename(t, a, b)) <==> Sw(i, a, b) in Ids(t)
  {
    match t
    case Nil =>
    case Node(l, j, r) =>
      RenameIds(l, a, b);
      RenameIds(r, a, b);
  }

  lemma {:induction false} RenameDistinct(t: Tree, a: Id, b: Id)
    requires Distinct(t)
    ensures Distinct(Rename(t, a, b))
  {
    match t
    case Nil =>
    case Node(l, j, r) =>
      RenameDistinct(l, a, b);
      RenameDistinct(r, a, b);
      RenameIds(l, a, b);
      RenameIds(r, a, b);
      SwInvolution(j, a, b);
      forall i | i in Ids(Rename(l, a, b)) ensures i !in Ids(Rename(r, a, b)) {
        assert Sw(i, a, b) in Ids(l);
      }
  }

  lemma {:induction false} RenameUntouched(t: Tree, a: Id, b: Id)
    requires a !in Ids(t) && b !in Ids(t)
    ensures Rename(t, a, b) == t
  {
    match t
    case Nil =>
    case Node(l, j, r) =>
      RenameUntouched(l, a, b);
      RenameUntouched(r, a, b);
  }

  lemma {:induction false} RenamePlug(c: Ctx, t: Tree, a: Id, b: Id)
    ensures Rename(Plug(c, t), a, b) == Plug(RenameCtx(c, a, b), Rename(t, a, b))
  {
    match c
    case Top =>
    case LeftOf(up, i, r) => RenamePlug(up, Node(t, i, r), a, b);
    case RightOf(up, l, i) => RenamePlug(up, Node(l, i, t), a, b);
  }

  lemma {:induction false} SwSeqAppend(s: seq<Id>, s': seq<Id>, a: Id, b: Id)
    ensures SwSeq(s + s', a, b) == SwSeq(s, a, b) + SwSeq(s', a, b)
  {
    if s != [] {
      assert (s + s')[1..] == s[1..] + s';
      assert (s + s')[0] == s[0];
      SwSeqAppend(s[1..], s', a, b);
      calc {
        SwSeq(s + s', a, b);
        [Sw(s[0], a, b)] + SwSeq(s[1..] + s', a, b);
        [Sw(s[0], a, b)] + (SwSeq(s[1..], a, b) + SwSeq(s', a, b));
        ([Sw(s[0], a, b)] + SwSeq(s[1..], a, b)) + SwSeq(s', a, b);
      }
    } else {
      assert s + s' == s';
    }
  }

  lemma {:induction false} SwSeqUntouched(s: seq<Id>, a: Id, b: Id)
    requires a !in s && b !in s
    ensures SwSeq(s, a, b) == s
  {
    if s != [] {
      SwSeqUntouched(s[1..], a, b);
    }
  }

  lemma {:induction false} RenameInOrder(t: Tree, a: Id, b: Id)
    ensures InOrder(Rename(t, a, b)) == SwSeq(InOrder(t), a, b)
  {
    match t
    case Nil =>
    case Node(l, i, r) =>
      RenameInOrder(l, a, b);
      RenameInOrder(r, a, b);
      SwSeqAppend(InOrder(l), [i], a, b);
      SwSeqAppend(InOrder(l) + [i], InOrder(r), a, b);
  }
}
