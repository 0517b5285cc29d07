/**
 * Pointer-level facts behind the two rotations: which link records a rotation
 * rewrites, and that the rewritten arena describes the rotated shape. Each
 * rotation is split into its reads, its writes (one arena per write), the
 * record-level effect of those writes, and the resulting tree.
 */
module Rotations {
  import opened Shapes
  import opened Arena

  /** `g'` holds the links of a left rotation at `x = s.id` (right child
      `y`): the records of `x`, `y`, the root of `y`'s old left subtree and
      the hole's parent are rewritten; every other record is kept. */
  ghost predicate RelinkedLeft(g: map<Id, Link>, g': map<Id, Link>, c: Ctx, s: Tree) {
    s.Node? && s.right.Node? &&
    (forall i ::
       (i in g && i != s.id && i != s.right.id && Some(i) != HoleParent(c) && Some(i) != RootOf(s.right.left))
       ==> i in g' && g'[i] == g[i]) &&
    s.id in g' && g'[s.id] == Link(Some(s.right.id), RootOf(s.left), RootOf(s.right.left)) &&
    s.right.id in g' && g'[s.right.id] == Link(HoleParent(c), Some(s.id), RootOf(s.right.right)) &&
    (s.right.left.Node? ==>
       s.right.left.id in g && s.right.left.id in g' && g'[s.right.left.id] == g[s.right.left.id].(parent := Some(s.id))) &&
    (c.LeftOf? ==> c.id in g && c.id in g' && g'[c.id] == g[c.id].(left := Some(s.right.id))) &&
    (c.RightOf? ==> c.id in g && c.id in g' && g'[c.id] == g[c.id].(right := Some(s.right.id)))
  }

  /** The mirror image: a right rotation at `y = s.id` with left child `x`. */
  ghost predicate RelinkedRight(g: map<Id, Link>, g': map<Id, Link>, c: Ctx, s: Tree) {
    s.Node? && s.left.Node? &&
    (forall i ::
       (i in g && i != s.id && i != s.left.id && Some(i) != HoleParent(c) && Some(i) != RootOf(s.left.right))
       ==> i in g' && g'[i] == g[i]) &&
    s.id in g' && g'[s.id] == Link(Some(s.left.id), RootOf(s.left.right), RootOf(s.right)) &&
    s.left.id in g' && g'[s.left.id] == Link(HoleParent(c), RootOf(s.left.left), Some(s.id)) &&
    (s.left.right.Node? ==>
       s.left.right.id in g && s.left.right.id in g' && g'[s.left.right.id] == g[s.left.right.id].(parent := Some(s.id))) &&
    (c.LeftOf? ==> c.id in g && c.id in g' && g'[c.id] == g[c.id].(left := Some(s.left.id))) &&
    (c.RightOf? ==> c.id in g && c.id in g' && g'[c.id] == g[c.id].(right := Some(s.left.id)))
  }

  /** After a left rotation the demoted node `x`, with its old left subtree
      and `y`'s old left subtree, hangs below `y`. */
  lemma RotateLeftLower(g: map<Id, Link>, g': map<Id, Link>, c: Ctx, s: Tree)
    requires Linked(g, s, HoleParent(c)) && Distinct(s) && CtxIds(c) !! Ids(s)
    requires RelinkedLeft(g, g', c, s)
    ensures Linked(g', Node(s.left, s.id, s.right.left), Some(s.right.id))
  {
    assert Distinct(s.right);
    LinkedFrame(g, g', s.left, Some(s.id));
    Reparent(g, g', s.right.left, Some(s.right.id), Some(s.id));
  }

  /** The arena after a left rotation links the rotated shape. */
  lemma RotateLeftRelinks(g: map<Id, Link>, g': map<Id, Link>, c: Ctx, s: Tree)
    requires CtxLinked(g, c, RootOf(s)) && Linked(g, s, HoleParent(c))
    requires CtxDistinct(c) && Distinct(s) && CtxIds(c) !! Ids(s)
    requires RelinkedLeft(g, g', c, s)
    ensures Linked(g', Plug(c, RotL(s)), None)
  {
    assert Distinct(s.right);
    assert HoleParent(c).Some? ==> HoleParent(c).value in CtxIds(c);
    RotateLeftLower(g, g', c, s);
    CtxLinkedHole(g, g', c, Some(s.id), Some(s.right.id));
    LinkedFrame(g, g', s.right.right, Some(s.right.id));
    PlugLinked(g', c, RotL(s));
  }

  /** After a right rotation the demoted node `y`, with `x`'s old right
      subtree and its own old right subtree, hangs below `x`. */
  lemma RotateRightLower(g: map<Id, Link>, g': map<Id, Link>, c: Ctx, s: Tree)
    requires Linked(g, s, HoleParent(c)) && Distinct(s) && CtxIds(c) !! Ids(s)
    requires RelinkedRight(g, g', c, s)
    ensures Linked(g', Node(s.left.right, s.id, s.right), Some(s.left.id))
  {
    assert Distinct(s.left);
    LinkedFrame(g, g', s.right, Some(s.id));
    Reparent(g, g', s.left.right, Some(s.left.id), Some(s.id));
  }

  /** The arena after a right rotation links the rotated shape. */
  lemma RotateRightRelinks(g: map<Id, Link>, g': map<Id, Link>, c: Ctx, s: Tree)
    requires CtxLinked(g, c, RootOf(s)) && Linked(g, s, HoleParent(c))
    requires CtxDistinct(c) && Distinct(s) && CtxIds(c) !! Ids(s)
    requires RelinkedRight(g, g', c, s)
    ensures Linked(g', Plug(c, RotR(s)), None)
  {
    assert Distinct(s.left);
    assert HoleParent(c).Some? ==> HoleParent(c).value in CtxIds(c);
    RotateRightLower(g, g', c, s);
    CtxLinkedHole(g, g', c, Some(s.id), Some(s.left.id));
    LinkedFrame(g, g', s.left.left, Some(s.left.id));
    PlugLinked(g', c, RotR(s));
  }

  /** What the links say about the node `s.id`, its children and its parent
      when `s` sits in the hole of `c`: the facts a rotation reads. */
  lemma LocalLinks(g: map<Id, Link>, c: Ctx, s: Tree)
    requires Linked(g, Plug(c, s), None) && Distinct(Plug(c, s)) && s.Node?
    ensures s.id in g && g[s.id] == Link(HoleParent(c), RootOf(s.left), RootOf(s.right))
    ensures s.left.Node? ==> s.left.id in g && g[s.left.id] == Link(Some(s.id), RootOf(s.left.left), RootOf(s.left.right))
    ensures s.right.Node? ==> s.right.id in g && g[s.right.id] == Link(Some(s.id), RootOf(s.right.left), RootOf(s.right.right))
    ensures s.left.Node? && s.left.right.Node? ==> s.left.right.id in g && s.left.right.id !in {s.id, s.left.id}
    ensures s.right.Node? && s.right.left.Node? ==> s.right.left.id in g && s.right.left.id !in {s.id, s.right.id}
    ensures s.left.Node? ==> s.left.id != s.id
    ensures s.right.Node? ==> s.right.id != s.id
    ensures c.LeftOf? ==> c.id in g && g[c.id].left == Some(s.id)
    ensures c.RightOf? ==> c.id in g && g[c.id].left != Some(s.id) && g[c.id].right == Some(s.id)
    ensures c != Top ==> c.id !in Ids(s)
    ensures c != Top && s.left.Node? ==> c.id != s.left.id && (s.left.right.Node? ==> c.id != s.left.right.id)
    ensures c != Top && s.right.Node? ==> c.id != s.right.id && (s.right.left.Node? ==> c.id != s.right.left.id)
  {
    PlugLinked(g, c, s);
    PlugDistinct(c, s);
    if s.left.Node? {
      assert Distinct(s.left) && Linked(g, s.left, Some(s.id));
      if s.left.right.Node? {
        assert s.left.right.id in Ids(s.left.right) && Linked(g, s.left.right, Some(s.left.id));
      }
    }
    if s.right.Node? {
      assert Distinct(s.right) && Linked(g, s.right, Some(s.id));
      if s.right.left.Node? {
        assert s.right.left.id in Ids(s.right.left) && Linked(g, s.right.left, Some(s.right.id));
      }
    }
    match c
    case Top =>
    case LeftOf(up, i, r) =>
    case RightOf(up, l, i) =>
      assert s.id !in Ids(l);
  }

  /** What the fix-up walks read at a node `s.id`: its own record, the
      side of its parent it hangs on, and that its children are records. */
  lemma FixReads(g: map<Id, Link>, c: Ctx, s: Tree)
    requires Linked(g, Plug(c, s), None) && Distinct(Plug(c, s)) && s.Node?
    ensures s.id in g && g[s.id].parent == HoleParent(c)
    ensures g[s.id].left == RootOf(s.left) && g[s.id].right == RootOf(s.right)
    ensures s.left.Node? ==> s.left.id in g
    ensures s.right.Node? ==> s.right.id in g
    ensures c.LeftOf? ==> c.id in g && g[c.id].left == Some(s.id)
    ensures c.RightOf? ==> c.id in g && g[c.id].left != Some(s.id)
  {
    LocalLinks(g, c, s);
  }

  /** Only what `rotateLeft` reads before it writes. */
  lemma RotateLeftReads(g: map<Id, Link>, c: Ctx, s: Tree)
    requires Linked(g, Plug(c, s), None) && Distinct(Plug(c, s)) && s.Node?
    ensures s.id in g && g[s.id].right == RootOf(s.right) && g[s.id].parent == HoleParent(c)
    ensures PtrIn(g[s.id].parent, g.Keys)
    ensures s.right.Node? ==> s.right.id in g && PtrIn(g[s.right.id].left, g.Keys) && HoleParent(c) != Some(s.right.id)
  {
    LocalLinks(g, c, s);
  }

  /** Only what `rotateRight` reads before it writes. */
  lemma RotateRightReads(g: map<Id, Link>, c: Ctx, s: Tree)
    requires Linked(g, Plug(c, s), None) && Distinct(Plug(c, s)) && s.Node?
    ensures s.id in g && g[s.id].left == RootOf(s.left) && g[s.id].parent == HoleParent(c)
    ensures PtrIn(g[s.id].parent, g.Keys)
    ensures s.left.Node? ==> s.left.id in g && PtrIn(g[s.left.id].right, g.Keys) && HoleParent(c) != Some(s.left.id)
  {
    LocalLinks(g, c, s);
  }

  /** The pointer writes of `rotateLeft`, one arena per write, in order: the
      parent's child slot, `x.right`, the parent of `x`'s new right subtree,
      `y` itself, and `x.parent`, together rewrite exactly the records a left
      rotation rewrites. */
  lemma RotateLeftWrites(g: map<Id, Link>, g1: map<Id, Link>, g2: map<Id, Link>, g3: map<Id, Link>,
                         g4: map<Id, Link>, g5: map<Id, Link>,
                         c: Ctx, s: Tree, x: Id, y: Id, parent: Option<Id>, b: Option<Id>)
    requires Linked(g, Plug(c, s), None) && Distinct(Plug(c, s)) && s.Node? && s.id == x
    requires x in g && g[x].right == Some(y) && parent == g[x].parent
    requires parent.Some? ==> parent.value in g
    requires g1 == if parent.None? then g
                   else if g[parent.value].left == Some(x) then g[parent.value := g[parent.value].(left := Some(y))]
                   else g[parent.value := g[parent.value].(right := Some(y))]
    requires y in g1 && b == g1[y].left && x in g1
    requires g2 == g1[x := g1[x].(right := b)]
    requires b.Some? ==> b.value in g2
    requires g3 == if b.Some? then g2[b.value := g2[b.value].(parent := Some(x))] else g2
    requires y in g3 && g4 == g3[y := g3[y].(left := Some(x), parent := parent)]
    requires x in g4 && g5 == g4[x := g4[x].(parent := Some(y))]
    ensures RelinkedLeft(g, g5, c, s) && g5.Keys == g.Keys
  {
    LocalLinks(g, c, s);
  }

  /** The pointer writes of `rotateRight`: the mirror image. */
  lemma RotateRightWrites(g: map<Id, Link>, g1: map<Id, Link>, g2: map<Id, Link>, g3: map<Id, Link>,
                          g4: map<Id, Link>, g5: map<Id, Link>,
                          c: Ctx, s: Tree, x: Id, y: Id, parent: Option<Id>, b: Option<Id>)
    requires Linked(g, Plug(c, s), None) && Distinct(Plug(c, s)) && s.Node? && s.id == x
    requires x in g && g[x].left == Some(y) && parent == g[x].parent
    requires parent.Some? ==> parent.value in g
    requires g1 == if parent.None? then g
                   else if g[parent.value].left == Some(x) then g[parent.value := g[parent.value].(left := Some(y))]
                   else g[parent.value := g[parent.value].(right := Some(y))]
    requires y in g1 && b == g1[y].right && x in g1
    requires g2 == g1[x := g1[x].(left := b)]
    requires b.Some? ==> b.value in g2
    requires g3 == if b.Some? then g2[b.value := g2[b.value].(parent := Some(x))] else g2
    requires y in g3 && g4 == g3[y := g3[y].(right := Some(x), parent := parent)]
    requires x in g4 && g5 == g4[x := g4[x].(parent := Some(y))]
    ensures RelinkedRight(g, g5, c, s) && g5.Keys == g.Keys
  {
    LocalLinks(g, c, s);
  }

  /** A left rotation's relinking keeps the structural invariant and the
      arena then describes the rotated shape. */
  lemma RotateLeftKeepsWf<V>(g: map<Id, Link>, g': map<Id, Link>, key: map<Id, int>, value: map<Id, V>,
                             balance: map<Id, int>, root: Option<Id>, root': Option<Id>, nextId: nat, c: Ctx, s: Tree)
    requires WellFormed(g, key, value, balance, root, nextId, Plug(c, s))
    requires RelinkedLeft(g, g', c, s) && g'.Keys == g.Keys
    requires root' == if c == Top then Some(s.right.id) else root
    ensures WellFormed(g', key, value, balance, root', nextId, Plug(c, RotL(s)))
  {
    PlugLinked(g, c, s);
    PlugDistinct(c, s);
    PlugIds(c, s);
    RotateLeftRelinks(g, g', c, s);
    RotLPreserves(s);
    PlugIds(c, RotL(s));
    PlugReplaceDistinct(c, s, RotL(s));
    if c != Top { PlugRootOf(c, s, RotL(s)); }
  }

  /** The mirror image for a right rotation. */
  lemma RotateRightKeepsWf<V>(g: map<Id, Link>, g': map<Id, Link>, key: map<Id, int>, value: map<Id, V>,
                              balance: map<Id, int>, root: Option<Id>, root': Option<Id>, nextId: nat, c: Ctx, s: Tree)
    requires WellFormed(g, key, value, balance, root, nextId, Plug(c, s))
    requires RelinkedRight(g, g', c, s) && g'.Keys == g.Keys
    requires root' == if c == Top then Some(s.left.id) else root
    ensures WellFormed(g', key, value, balance, root', nextId, Plug(c, RotR(s)))
  {
    PlugLinked(g, c, s);
    PlugDistinct(c, s);
    PlugIds(c, s);
    RotateRightRelinks(g, g', c, s);
    RotRPreserves(s);
    PlugIds(c, RotR(s));
    PlugReplaceDistinct(c, s, RotR(s));
    if c != Top { PlugRootOf(c, s, RotR(s)); }
  }
}
