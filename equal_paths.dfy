/**
 * The leaf-depth checker: decides whether every leaf of a plain binary tree
 * lies at the same depth. A node with a single child is a pass-through: its
 * leaves are compared one level deeper, with no sibling required.
 */
module LeafPaths {

  /** A plain binary tree; `Nil` stands for the null pointer. The node payload
      is never consulted by the checker, so it is not modelled. */
  datatype PTree = Nil | Node(left: PTree, right: PTree)

  function Max(a: int, b: int): int { if a < b then b else a }

  /** Ordinary height (null is 0), used as a reference bound. */
  function Height(t: PTree): nat {
    match t
    case Nil => 0
    case Node(l, r) => 1 + Max(Height(l), Height(r))
  }

  /** The set of depths at which the leaves of `t` sit, when the root of `t`
      sits at depth `d`. This is the independent statement of "where the
      leaves are" that the checker is proved against. */
  ghost function LeafDepths(t: PTree, d: int): set<int> {
    match t
    case Nil => {}
    case Node(l, r) =>
      if l.Nil? && r.Nil? then {d} else LeafDepths(l, d + 1) + LeafDepths(r, d + 1)
  }

  /** All leaves of `t` share one depth (vacuously true for the empty tree). */
  ghost predicate SameDepth(t: PTree) {
    forall x, y :: x in LeafDepths(t, 1) && y in LeafDepths(t, 1) ==> x == y
  }

  /** `getLeafHeight`: the depth of the leaves found by one descent. A leaf
      yields 1; a node with two children yields 0 when either side reports
      0, and otherwise one more than the larger side; a node with one child
      extends that child's answer by one. */
  function LeafHeight(t: PTree): (h: nat)
    ensures h <= Height(t)
    ensures t.Node? && h == 0 ==> t.left.Node? && t.right.Node?
  {
    match t
    case Nil => 0
    case Node(l, r) =>
      if l.Nil? && r.Nil? then 1
      else
        var lh := if l.Node? then LeafHeight(l) else 0;
        var rh := if r.Node? then LeafHeight(r) else 0;
        if l.Node? && r.Node? then
          (if lh != 0 && rh != 0 then Max(lh, rh) + 1 else 0)
        else
          lh + rh + 1
  }

  /** `checkEqualPaths`: every leaf below `t`, whose root sits at depth
      `current`, sits at depth `target`. */
  function CheckEqualPaths(t: PTree, target: int, current: int): bool {
    match t
    case Nil => true
    case Node(l, r) =>
      if l.Nil? && r.Nil? then current == target
      else
        (if l.Node? then CheckEqualPaths(l, target, current + 1) else true) &&
        (if r.Node? then CheckEqualPaths(r, target, current + 1) else true)
  }

  /** `equalPaths`: true for the empty tree; otherwise every leaf is checked
      against the depth found by `LeafHeight`, with the root at depth 1. */
  function EqualPaths(t: PTree): bool {
    if t.Nil? then true else CheckEqualPaths(t, LeafHeight(t), 1)
  }

  /** The depth of the leftmost leaf of a non-empty tree: a witness that
      every non-empty tree has a leaf. */
  ghost function FirstLeafDepth(t: PTree, d: int): (x: int)
    requires t.Node?
    ensures x in LeafDepths(t, d)
  {
    if t.left.Node? then FirstLeafDepth(t.left, d + 1)
    else if t.right.Node? then FirstLeafDepth(t.right, d + 1)
    else d
  }

  /** A non-empty tree has at least one leaf, and no leaf sits above its root. */
  lemma {:induction false} LeafDepthsBounds(t: PTree, d: int)
    requires t.Node?
    ensures LeafDepths(t, d) != {}
    ensures forall x :: x in LeafDepths(t, d) ==> x >= d
  {
    var l, r := t.left, t.right;
    if l.Nil? && r.Nil? {
      assert d in LeafDepths(t, d);
    } else {
      if l.Node? { LeafDepthsBounds(l, d + 1); }
      if r.Node? { LeafDepthsBounds(r, d + 1); }
    }
  }

  /** Every leaf of `t` (its root at depth `current`) sits at depth `target`. */
  ghost predicate AllLeavesAt(t: PTree, target: int, current: int) {
    forall x :: x in LeafDepths(t, current) ==> x == target
  }

  /** `checkEqualPaths` holds exactly when every leaf depth equals the target. */
  lemma {:induction false} CheckEqualPathsMeaning(t: PTree, target: int, current: int)
    ensures CheckEqualPaths(t, target, current) <==> AllLeavesAt(t, target, current)
  {
    match t
    case Nil =>
    case Node(l, r) =>
      if l.Nil? && r.Nil? {
        assert current in LeafDepths(t, current);
      } else {
        CheckEqualPathsMeaning(l, target, current + 1);
        CheckEqualPathsMeaning(r, target, current + 1);
        assert LeafDepths(t, current) == LeafDepths(l, current + 1) + LeafDepths(r, current + 1);
        assert AllLeavesAt(t, target, current) <==>
               AllLeavesAt(l, target, current + 1) && AllLeavesAt(r, target, current + 1);
      }
  }

  /** When every leaf of `t` sits at depth `d` (the root at depth `d0`), the
      descent of `getLeafHeight` reports exactly `d - d0 + 1`. */
  lemma {:induction false} LeafHeightUniform(t: PTree, d0: int, d: int)
    requires t.Node?
    requires forall x :: x in LeafDepths(t, d0) ==> x == d
    ensures LeafHeight(t) == d - d0 + 1
  {
    var l, r := t.left, t.right;
    LeafDepthsBounds(t, d0);
    if l.Nil? && r.Nil? {
      assert d0 in LeafDepths(t, d0);
    } else {
      assert LeafDepths(t, d0) == LeafDepths(l, d0 + 1) + LeafDepths(r, d0 + 1);
      if l.Node? {
        LeafHeightUniform(l, d0 + 1, d);
        LeafDepthsBounds(l, d0 + 1);
      }
      if r.Node? {
        LeafHeightUniform(r, d0 + 1, d);
        LeafDepthsBounds(r, d0 + 1);
      }
    }
  }

  /** The main theorem: `equalPaths` answers true exactly when all leaves lie
      at one depth (the empty tree included). */
  lemma EqualPathsCorrect(t: PTree)
    ensures EqualPaths(t) <==> SameDepth(t)
  {
    if t.Node? {
      CheckEqualPathsMeaning(t, LeafHeight(t), 1);
      var ds := LeafDepths(t, 1);
      if SameDepth(t) {
        var d := FirstLeafDepth(t, 1);
        LeafHeightUniform(t, 1, d);
      }
      if EqualPaths(t) {
        forall x, y | x in ds && y in ds ensures x == y {
          assert AllLeavesAt(t, LeafHeight(t), 1);
        }
      }
    }
  }

  /** The examples: a single node and a root with one child are accepted; a
      root whose left child is a leaf and whose right child has a further left
      child (leaves at depths 2 and 3) is rejected. */
  lemma EqualPathsExamples()
    ensures EqualPaths(Node(Nil, Nil))
    ensures EqualPaths(Node(Node(Nil, Nil), Nil))
    ensures !EqualPaths(Node(Node(Nil, Nil), Node(Node(Nil, Nil), Nil)))
    ensures EqualPaths(Nil)
  {
  }
}
