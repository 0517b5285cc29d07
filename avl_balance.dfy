/**
 * The balance arithmetic of `insertFix`: what the stored balance factors
 * must be when the fix-up is entered, and that each of its cases (stop,
 * propagate, single rotation, double rotation) leaves every balance factor
 * equal to the true height difference, in {-1,0,1}.
 */
module InsertBalance {
  import opened Shapes
  import opened Arena

  /** The state in which `insertFix(p, n)` is entered: the subtree `s`
      rooted at `p` is AVL-correct and has just grown by one level through
      its child `n`, so the balance of `p` leans towards `n`; the rest of the
      tree is still correct for the height `s` had before it grew. */
  ghost predicate Grown(bal: map<Id, int>, c: Ctx, s: Tree, n: Id) {
    s.Node? && BalOK(bal, s) &&
    ((bal[s.id] == -1 && RootOf(s.left) == Some(n)) || (bal[s.id] == 1 && RootOf(s.right) == Some(n))) &&
    CtxBalOK(bal, c, Height(s) - 1)
  }

  /** Writing the balance of a node outside `t` leaves `t` correct. */
  lemma BalOKUpdate(bal: map<Id, int>, t: Tree, i: Id, v: int)
    requires BalOK(bal, t) && i !in Ids(t)
    ensures BalOK(bal[i := v], t)
  {
    BalFrame(bal, bal[i := v], t);
  }

  /** Writing the balance of a node outside `c` leaves `c` correct. */
  lemma CtxBalOKUpdate(bal: map<Id, int>, c: Ctx, h: int, i: Id, v: int)
    requires CtxBalOK(bal, c, h) && i !in CtxIds(c)
    ensures CtxBalOK(bal[i := v], c, h)
  {
    CtxBalFrame(bal, bal[i := v], c, h);
  }

  /** What `Grown` says about the grandparent `g` above a left-hand
      parent, and that rewriting `g`'s balance leaves everything else
      correct. */
  lemma GrownLeftParts(bal: map<Id, int>, up: Ctx, g: Id, r: Tree, s: Tree, n: Id, v: int)
    requires Grown(bal, LeftOf(up, g, r), s, n) && Distinct(Plug(up, Node(s, g, r)))
    ensures g in bal && bal[g] == Height(r) - Height(s) + 1 && -1 <= bal[g] <= 1
    ensures s.id != g && BalOK(bal[g := v], s) && BalOK(bal[g := v], r)
    ensures CtxBalOK(bal[g := v], up, 1 + Max(Height(s) - 1, Height(r)))
  {
    PlugNodeDistinct(up, s, g, r);
    BalOKUpdate(bal, s, g, v);
    BalOKUpdate(bal, r, g, v);
    CtxBalOKUpdate(bal, up, 1 + Max(Height(s) - 1, Height(r)), g, v);
  }

  /** The mirror image for a right-hand parent. */
  lemma GrownRightParts(bal: map<Id, int>, up: Ctx, l: Tree, g: Id, s: Tree, n: Id, v: int)
    requires Grown(bal, RightOf(up, l, g), s, n) && Distinct(Plug(up, Node(l, g, s)))
    ensures g in bal && bal[g] == Height(s) - 1 - Height(l) && -1 <= bal[g] <= 1
    ensures s.id != g && BalOK(bal[g := v], s) && BalOK(bal[g := v], l)
    ensures CtxBalOK(bal[g := v], up, 1 + Max(Height(l), Height(s) - 1))
  {
    PlugNodeDistinct(up, l, g, s);
    BalOKUpdate(bal, s, g, v);
    BalOKUpdate(bal, l, g, v);
    CtxBalOKUpdate(bal, up, 1 + Max(Height(l), Height(s) - 1), g, v);
  }

  /** Above a left-hand parent, decrementing the grandparent's balance
      gives -2, -1 or 0; at -2 its right side is two levels shorter than the
      grown subtree. */
  lemma GrowLeft(bal: map<Id, int>, up: Ctx, g: Id, r: Tree, s: Tree, n: Id)
    requires Grown(bal, LeftOf(up, g, r), s, n) && Distinct(Plug(up, Node(s, g, r)))
    ensures g in bal && -2 <= bal[g] - 1 <= 0
    ensures bal[g] - 1 == -2 ==> Height(r) == Height(s) - 2
  {
    GrownLeftParts(bal, up, g, r, s, n, bal[g] - 1);
  }

  /** Balance 0 after the decrement: the subtree of the grandparent kept its
      height, and the whole tree is correct; the fix-up stops. */
  lemma GrowLeftStop(bal: map<Id, int>, up: Ctx, g: Id, r: Tree, s: Tree, n: Id)
    requires Grown(bal, LeftOf(up, g, r), s, n) && Distinct(Plug(up, Node(s, g, r)))
    requires g in bal && bal[g] - 1 == 0
    ensures BalOK(bal[g := bal[g] - 1], Plug(up, Node(s, g, r)))
  {
    GrownLeftParts(bal, up, g, r, s, n, bal[g] - 1);
    var bal' := bal[g := bal[g] - 1];
    assert BalOK(bal', Node(s, g, r));
    PlugBal(bal', up, Node(s, g, r));
  }

  /** Balance -1 after the decrement: the grandparent's subtree grew by one
      level through the parent, so the fix-up continues one level up. */
  lemma GrowLeftUp(bal: map<Id, int>, up: Ctx, g: Id, r: Tree, s: Tree, n: Id)
    requires Grown(bal, LeftOf(up, g, r), s, n) && Distinct(Plug(up, Node(s, g, r)))
    requires g in bal && bal[g] - 1 == -1
    ensures Grown(bal[g := bal[g] - 1], up, Node(s, g, r), s.id)
  {
    GrownLeftParts(bal, up, g, r, s, n, bal[g] - 1);
    var bal' := bal[g := bal[g] - 1];
    assert bal'[s.id] == bal[s.id];
    assert BalOK(bal', Node(s, g, r));
  }

  /** Above a right-hand parent the grandparent's balance is incremented:
      the result is 0, 1 or 2; at 2 its left side is two levels shorter. */
  lemma GrowRight(bal: map<Id, int>, up: Ctx, l: Tree, g: Id, s: Tree, n: Id)
    requires Grown(bal, RightOf(up, l, g), s, n) && Distinct(Plug(up, Node(l, g, s)))
    ensures g in bal && 0 <= bal[g] + 1 <= 2
    ensures bal[g] + 1 == 2 ==> Height(l) == Height(s) - 2
  {
    GrownRightParts(bal, up, l, g, s, n, bal[g] + 1);
  }

  /** Balance 0 after the increment: the fix-up stops with a correct tree. */
  lemma GrowRightStop(bal: map<Id, int>, up: Ctx, l: Tree, g: Id, s: Tree, n: Id)
    requires Grown(bal, RightOf(up, l, g), s, n) && Distinct(Plug(up, Node(l, g, s)))
    requires g in bal && bal[g] + 1 == 0
    ensures BalOK(bal[g := bal[g] + 1], Plug(up, Node(l, g, s)))
  {
    GrownRightParts(bal, up, l, g, s, n, bal[g] + 1);
    var bal' := bal[g := bal[g] + 1];
    assert BalOK(bal', Node(l, g, s));
    PlugBal(bal', up, Node(l, g, s));
  }

  /** Balance 1 after the increment: the growth passes one level up. */
  lemma GrowRightUp(bal: map<Id, int>, up: Ctx, l: Tree, g: Id, s: Tree, n: Id)
    requires Grown(bal, RightOf(up, l, g), s, n) && Distinct(Plug(up, Node(l, g, s)))
    requires g in bal && bal[g] + 1 == 1
    ensures Grown(bal[g := bal[g] + 1], up, Node(l, g, s), s.id)
  {
    GrownRightParts(bal, up, l, g, s, n, bal[g] + 1);
    var bal' := bal[g := bal[g] + 1];
    assert bal'[s.id] == bal[s.id];
    assert BalOK(bal', Node(l, g, s));
  }

  /** Writing the balances of two nodes outside `t` leaves `t` correct. */
  lemma BalOKUpdate2(bal: map<Id, int>, t: Tree, i: Id, v: int, j: Id, w: int)
    requires BalOK(bal, t) && i !in Ids(t) && j !in Ids(t)
    ensures BalOK(bal[i := v][j := w], t)
  {
    BalFrame(bal, bal[i := v][j := w], t);
  }

  /** Writing the balances of two nodes outside `c` leaves `c` correct. */
  lemma CtxBalOKUpdate2(bal: map<Id, int>, c: Ctx, h: int, i: Id, v: int, j: Id, w: int)
    requires CtxBalOK(bal, c, h) && i !in CtxIds(c) && j !in CtxIds(c)
    ensures CtxBalOK(bal[i := v][j := w], c, h)
  {
    CtxBalFrame(bal, bal[i := v][j := w], c, h);
  }

  /** In the state `Grown`, the parent leans towards the new node: with the
      node on its left its balance is -1 and its left side is the taller by
      one level, and the mirror image on the right. */
  lemma GrownLeans(bal: map<Id, int>, c: Ctx, s: Tree, n: Id)
    requires Grown(bal, c, s, n) && Distinct(s)
    ensures RootOf(s.left) == Some(n) ==> bal[s.id] == -1 && Height(s.left) == Height(s.right) + 1
    ensures RootOf(s.right) == Some(n) ==> bal[s.id] == 1 && Height(s.right) == Height(s.left) + 1
    ensures BalOK(bal, s.left) && BalOK(bal, s.right)
  {
    if RootOf(s.left) == Some(n) {
      assert n in Ids(s.left);
    }
    if RootOf(s.right) == Some(n) {
      assert n in Ids(s.right);
    }
  }

  /** The subtree a single right rotation produces, `Node(a, p, Node(b, g,
      r))`, is correct with both rotated nodes at 0 when `a` is one level
      taller than `b` and `r`; it is then as tall as `a` plus one. */
  lemma RotatedRightBal(bal: map<Id, int>, a: Tree, p: Id, b: Tree, g: Id, r: Tree)
    requires BalOK(bal, a) && BalOK(bal, b) && BalOK(bal, r)
    requires p in bal && g in bal && bal[p] == 0 && bal[g] == 0
    requires Height(a) == Height(b) + 1 && Height(r) == Height(b)
    ensures BalOK(bal, Node(a, p, Node(b, g, r))) && Height(Node(a, p, Node(b, g, r))) == Height(a) + 1
  {
  }

  /** The mirror image: `Node(Node(l, g, a), p, b)` after a left rotation. */
  lemma RotatedLeftBal(bal: map<Id, int>, l: Tree, g: Id, a: Tree, p: Id, b: Tree)
    requires BalOK(bal, l) && BalOK(bal, a) && BalOK(bal, b)
    requires p in bal && g in bal && bal[p] == 0 && bal[g] == 0
    requires Height(b) == Height(a) + 1 && Height(l) == Height(a)
    ensures BalOK(bal, Node(Node(l, g, a), p, b)) && Height(Node(Node(l, g, a), p, b)) == Height(b) + 1
  {
  }

  /** Left zig-zig: the new node hangs left of the parent, which hangs left
      of the grandparent, now at -2. A right rotation at the grandparent with
      both balances reset to 0 restores the whole tree. */
  lemma ZigZigLeft(bal: map<Id, int>, up: Ctx, g: Id, r: Tree, s: Tree, n: Id)
    requires Grown(bal, LeftOf(up, g, r), s, n) && Distinct(Plug(up, Node(s, g, r)))
    requires g in bal && bal[g] - 1 == -2 && RootOf(s.left) == Some(n)
    ensures BalOK(bal[g := bal[g] - 1][s.id := 0][g := 0], Plug(up, RotR(Node(s, g, r))))
  {
    var bal1 := bal[g := bal[g] - 1];
    GrownLeftParts(bal, up, g, r, s, n, bal[g] - 1);
    var a, p, b := s.left, s.id, s.right;
    PlugLeftPairDistinct(up, s, g, r);
    GrownLeans(bal, LeftOf(up, g, r), s, n);
    BalOKUpdate(bal, a, g, bal[g] - 1);
    BalOKUpdate(bal, b, g, bal[g] - 1);
    var bal2 := bal1[p := 0][g := 0];
    BalOKUpdate2(bal1, a, p, 0, g, 0);
    BalOKUpdate2(bal1, b, p, 0, g, 0);
    BalOKUpdate2(bal1, r, p, 0, g, 0);
    assert Height(s) == Height(a) + 1 && Height(r) == Height(b);
    assert 1 + Max(Height(s) - 1, Height(r)) == Height(s);
    CtxBalOKUpdate2(bal1, up, Height(s), p, 0, g, 0);
    RotatedRightBal(bal2, a, p, b, g, r);
    assert RotR(Node(s, g, r)) == Node(a, p, Node(b, g, r));
    PlugBal(bal2, up, Node(a, p, Node(b, g, r)));
  }

  /** The mirror image: the new node hangs right of a right-hand parent, and
      a left rotation at the grandparent restores the tree. */
  lemma ZigZigRight(bal: map<Id, int>, up: Ctx, l: Tree, g: Id, s: Tree, n: Id)
    requires Grown(bal, RightOf(up, l, g), s, n) && Distinct(Plug(up, Node(l, g, s)))
    requires g in bal && bal[g] + 1 == 2 && RootOf(s.right) == Some(n)
    ensures BalOK(bal[g := bal[g] + 1][s.id := 0][g := 0], Plug(up, RotL(Node(l, g, s))))
  {
    var bal1 := bal[g := bal[g] + 1];
    GrownRightParts(bal, up, l, g, s, n, bal[g] + 1);
    var a, p, b := s.left, s.id, s.right;
    PlugRightPairDistinct(up, l, g, s);
    GrownLeans(bal, RightOf(up, l, g), s, n);
    BalOKUpdate(bal, a, g, bal[g] + 1);
    BalOKUpdate(bal, b, g, bal[g] + 1);
    var bal2 := bal1[p := 0][g := 0];
    BalOKUpdate2(bal1, a, p, 0, g, 0);
    BalOKUpdate2(bal1, b, p, 0, g, 0);
    BalOKUpdate2(bal1, l, p, 0, g, 0);
    assert Height(s) == Height(b) + 1 && Height(l) == Height(a);
    assert 1 + Max(Height(l), Height(s) - 1) == Height(s);
    CtxBalOKUpdate2(bal1, up, Height(s), p, 0, g, 0);
    RotatedLeftBal(bal2, l, g, a, p, b);
    assert RotL(Node(l, g, s)) == Node(Node(l, g, a), p, b);
    PlugBal(bal2, up, Node(Node(l, g, a), p, b));
  }

  /** Writing the balances of three nodes outside `t` leaves `t` correct. */
  lemma BalOKUpdate3(bal: map<Id, int>, t: Tree, i: Id, u: int, j: Id, v: int, k: Id, w: int)
    requires BalOK(bal, t) && i !in Ids(t) && j !in Ids(t) && k !in Ids(t)
    ensures BalOK(bal[i := u][j := v][k := w], t)
  {
    BalFrame(bal, bal[i := u][j := v][k := w], t);
  }

  /** Writing the balances of three nodes outside `c` leaves `c` correct. */
  lemma CtxBalOKUpdate3(bal: map<Id, int>, c: Ctx, h: int, i: Id, u: int, j: Id, v: int, k: Id, w: int)
    requires CtxBalOK(bal, c, h) && i !in CtxIds(c) && j !in CtxIds(c) && k !in CtxIds(c)
    ensures CtxBalOK(bal[i := u][j := v][k := w], c, h)
  {
    CtxBalFrame(bal, bal[i := u][j := v][k := w], c, h);
  }

  /** The balance table of the double rotation: from the balance `nb` of the
      middle node, whose taller side is as tall as `ha` and `hr`, the values
      written for the parent (`pb`) and grandparent (`gb`) are the true height
      differences of the two nodes after the rotation, for the left-hand case
      `Node(Node(a, p, b), n, Node(c, g, r))`. */
  lemma ZigZagLeftTable(ha: int, hb: int, hc: int, hr: int, nb: int, pb: int, gb: int)
    requires nb == hc - hb && -1 <= nb <= 1 && Max(hb, hc) == ha && hr == ha
    requires (nb == -1 && pb == 0 && gb == 1) || (nb == 0 && pb == 0 && gb == 0) ||
             (nb != -1 && nb != 0 && pb == -1 && gb == 0)
    ensures pb == hb - ha && gb == hr - hc
  {
  }

  /** The mirror table, for `Node(Node(l, g, a), n, Node(b, p, c))`. */
  lemma ZigZagRightTable(hl: int, ha: int, hb: int, hc: int, nb: int, pb: int, gb: int)
    requires nb == hb - ha && -1 <= nb <= 1 && Max(ha, hb) == hc && hl == hc
    requires (nb == 1 && pb == 0 && gb == -1) || (nb == 0 && pb == 0 && gb == 0) ||
             (nb != 1 && nb != 0 && pb == 1 && gb == 0)
    ensures pb == hc - hb && gb == ha - hl
  {
  }

  /** The subtree a double rotation produces is correct and as tall as
      before the insertion when its five hanging subtrees are, and the three
      rotated nodes store their true height differences. */
  lemma RotatedTwiceBal(bal: map<Id, int>, a: Tree, p: Id, b: Tree, n: Id, c: Tree, g: Id, r: Tree)
    requires BalOK(bal, a) && BalOK(bal, b) && BalOK(bal, c) && BalOK(bal, r)
    requires p in bal && n in bal && g in bal && bal[n] == 0
    requires bal[p] == Height(b) - Height(a) && -1 <= bal[p] <= 1
    requires bal[g] == Height(r) - Height(c) && -1 <= bal[g] <= 1
    requires Max(Height(a), Height(b)) == Max(Height(c), Height(r))
    ensures BalOK(bal, Node(Node(a, p, b), n, Node(c, g, r)))
    ensures Height(Node(Node(a, p, b), n, Node(c, g, r))) == 2 + Max(Height(a), Height(b))
  {
  }

  /** Writing the balances of the three nodes of a double rotation, with
      the middle node `n` at 0, gives a correct whole tree when the five
      hanging subtrees and the context were correct and the written values
      are the true height differences. */
  lemma DoubleRotatedPlug(bal: map<Id, int>, up: Ctx, h: int, a: Tree, p: Id, pb: int, b: Tree, n: Id,
                          c: Tree, g: Id, gb: int, r: Tree)
    requires BalOK(bal, a) && BalOK(bal, b) && BalOK(bal, c) && BalOK(bal, r) && CtxBalOK(bal, up, h)
    requires p !in Ids(a) && p !in Ids(b) && p !in Ids(c) && p !in Ids(r) && p !in CtxIds(up)
    requires n !in Ids(a) && n !in Ids(b) && n !in Ids(c) && n !in Ids(r) && n !in CtxIds(up)
    requires g !in Ids(a) && g !in Ids(b) && g !in Ids(c) && g !in Ids(r) && g !in CtxIds(up)
    requires p != g && p != n && g != n
    requires pb == Height(b) - Height(a) && -1 <= pb <= 1 && gb == Height(r) - Height(c) && -1 <= gb <= 1
    requires Max(Height(a), Height(b)) == Max(Height(c), Height(r)) && h == 2 + Max(Height(a), Height(b))
    ensures BalOK(bal[p := pb][g := gb][n := 0], Plug(up, Node(Node(a, p, b), n, Node(c, g, r))))
  {
    var bal2 := bal[p := pb][g := gb][n := 0];
    BalOKUpdate3(bal, a, p, pb, g, gb, n, 0);
    BalOKUpdate3(bal, b, p, pb, g, gb, n, 0);
    BalOKUpdate3(bal, c, p, pb, g, gb, n, 0);
    BalOKUpdate3(bal, r, p, pb, g, gb, n, 0);
    CtxBalOKUpdate3(bal, up, h, p, pb, g, gb, n, 0);
    RotatedTwiceBal(bal2, a, p, b, n, c, g, r);
    PlugBal(bal2, up, Node(Node(a, p, b), n, Node(c, g, r)));
  }

  /** Writes to two different nodes commute. */
  lemma UpdatesCommute(bal: map<Id, int>, i: Id, u: int, j: Id, v: int, k: Id, w: int)
    requires i != j
    ensures bal[i := u][j := v][k := w] == bal[j := v][i := u][k := w]
  {
  }

  /** The facts the left zig-zag case rests on, about the balances after
      the grandparent's decrement: the new node `n` is the parent's right
      child, the four hanging subtrees and the context are correct, the
      middle node's balance is its true height difference, and its taller
      side is as tall as the parent's left side and the grandparent's right
      side. */
  lemma ZigZagLeftFacts(bal: map<Id, int>, up: Ctx, g: Id, r: Tree, s: Tree, n: Id)
    requires Grown(bal, LeftOf(up, g, r), s, n) && Distinct(Plug(up, Node(s, g, r)))
    requires g in bal && bal[g] - 1 == -2 && RootOf(s.left) != Some(n)
    ensures s.right.Node? && s.right.id == n && n != g
    ensures var bal1 := bal[g := bal[g] - 1];
      BalOK(bal1, s.left) && BalOK(bal1, s.right.left) && BalOK(bal1, s.right.right) && BalOK(bal1, r) &&
      CtxBalOK(bal1, up, Height(s)) && n in bal1 && bal1[n] == Height(s.right.right) - Height(s.right.left) &&
      -1 <= bal1[n] <= 1
    ensures Max(Height(s.right.left), Height(s.right.right)) == Height(s.left) && Height(r) == Height(s.left)
    ensures Height(s) == 2 + Height(s.left)
  {
    GrownLeftParts(bal, up, g, r, s, n, bal[g] - 1);
    PlugLeftPairDistinct(up, s, g, r);
    GrownLeans(bal, LeftOf(up, g, r), s, n);
    var t := s.right;
    assert t.Node? && t.id == n;
    PlugLeftZigZagDistinct(up, s, g, r);
    assert BalOK(bal, t);
    BalOKUpdate(bal, s.left, g, bal[g] - 1);
    BalOKUpdate(bal, t.left, g, bal[g] - 1);
    BalOKUpdate(bal, t.right, g, bal[g] - 1);
  }

  /** The mirror image for the right zig-zag case. */
  lemma ZigZagRightFacts(bal: map<Id, int>, up: Ctx, l: Tree, g: Id, s: Tree, n: Id)
    requires Grown(bal, RightOf(up, l, g), s, n) && Distinct(Plug(up, Node(l, g, s)))
    requires g in bal && bal[g] + 1 == 2 && RootOf(s.right) != Some(n)
    ensures s.left.Node? && s.left.id == n && n != g
    ensures var bal1 := bal[g := bal[g] + 1];
      BalOK(bal1, l) && BalOK(bal1, s.left.left) && BalOK(bal1, s.left.right) && BalOK(bal1, s.right) &&
      CtxBalOK(bal1, up, Height(s)) && n in bal1 && bal1[n] == Height(s.left.right) - Height(s.left.left) &&
      -1 <= bal1[n] <= 1
    ensures Max(Height(s.left.left), Height(s.left.right)) == Height(s.right) && Height(l) == Height(s.right)
    ensures Height(s) == 2 + Height(s.right)
  {
    GrownRightParts(bal, up, l, g, s, n, bal[g] + 1);
    PlugRightPairDistinct(up, l, g, s);
    GrownLeans(bal, RightOf(up, l, g), s, n);
    var t := s.left;
    assert t.Node? && t.id == n;
    PlugRightZigZagDistinct(up, l, g, s);
    assert BalOK(bal, t);
    BalOKUpdate(bal, s.right, g, bal[g] + 1);
    BalOKUpdate(bal, t.left, g, bal[g] + 1);
    BalOKUpdate(bal, t.right, g, bal[g] + 1);
  }

  /** Left double rotation on balances: with the facts above and the values
      of the table written for the parent and the grandparent, the tree
      after both rotations is correct. */
  lemma ZigZagLeftRestores(bal: map<Id, int>, up: Ctx, g: Id, r: Tree, s: Tree, pb: int, gb: int)
    requires s.Node? && s.right.Node? && Distinct(Plug(up, Node(s, g, r)))
    requires BalOK(bal, s.left) && BalOK(bal, s.right.left) && BalOK(bal, s.right.right) && BalOK(bal, r)
    requires CtxBalOK(bal, up, Height(s)) && Height(s) == 2 + Height(s.left)
    requires Max(Height(s.right.left), Height(s.right.right)) == Height(s.left) && Height(r) == Height(s.left)
    requires pb == Height(s.right.left) - Height(s.left) && -1 <= pb <= 1
    requires gb == Height(r) - Height(s.right.right) && -1 <= gb <= 1
    ensures BalOK(bal[s.id := pb][g := gb][s.right.id := 0], Plug(up, RotR(Node(RotL(s), g, r))))
  {
    PlugLeftZigZagDistinct(up, s, g, r);
    var a, p, t := s.left, s.id, s.right;
    DoubleRotatedPlug(bal, up, Height(s), a, p, pb, t.left, t.id, t.right, g, gb, r);
    assert RotR(Node(RotL(s), g, r)) == Node(Node(a, p, t.left), t.id, Node(t.right, g, r));
  }

  /** The mirror image for the right double rotation. */
  lemma ZigZagRightRestores(bal: map<Id, int>, up: Ctx, l: Tree, g: Id, s: Tree, pb: int, gb: int)
    requires s.Node? && s.left.Node? && Distinct(Plug(up, Node(l, g, s)))
    requires BalOK(bal, l) && BalOK(bal, s.left.left) && BalOK(bal, s.left.right) && BalOK(bal, s.right)
    requires CtxBalOK(bal, up, Height(s)) && Height(s) == 2 + Height(s.right)
    requires Max(Height(s.left.left), Height(s.left.right)) == Height(s.right) && Height(l) == Height(s.right)
    requires pb == Height(s.right) - Height(s.left.right) && -1 <= pb <= 1
    requires gb == Height(s.left.left) - Height(l) && -1 <= gb <= 1
    ensures BalOK(bal[s.id := pb][g := gb][s.left.id := 0], Plug(up, RotL(Node(l, g, RotR(s)))))
  {
    PlugRightZigZagDistinct(up, l, g, s);
    var t, p, c := s.left, s.id, s.right;
    DoubleRotatedPlug(bal, up, Height(s), l, g, gb, t.left, t.id, t.right, p, pb, c);
    UpdatesCommute(bal, g, gb, p, pb, t.id, 0);
    assert RotL(Node(l, g, RotR(s))) == Node(Node(l, g, t.left), t.id, Node(t.right, p, c));
  }

  /** Left zig-zag: the new node `n` hangs right of a left-hand parent and
      the grandparent is at -2. A left rotation at the parent, a right
      rotation at the grandparent and the balance table indexed by `n`'s
      balance restore the whole tree. */
  lemma ZigZagLeft(bal: map<Id, int>, up: Ctx, g: Id, r: Tree, s: Tree, n: Id, pb: int, gb: int)
    requires Grown(bal, LeftOf(up, g, r), s, n) && Distinct(Plug(up, Node(s, g, r)))
    requires g in bal && bal[g] - 1 == -2 && RootOf(s.left) != Some(n)
    requires n in bal[g := bal[g] - 1]
    requires var nb := bal[g := bal[g] - 1][n];
      (nb == -1 && pb == 0 && gb == 1) || (nb == 0 && pb == 0 && gb == 0) ||
      (nb != -1 && nb != 0 && pb == -1 && gb == 0)
    ensures BalOK(bal[g := bal[g] - 1][s.id := pb][g := gb][n := 0], Plug(up, RotR(Node(RotL(s), g, r))))
  {
    var bal1 := bal[g := bal[g] - 1];
    ZigZagLeftFacts(bal, up, g, r, s, n);
    var t := s.right;
    ZigZagLeftTable(Height(s.left), Height(t.left), Height(t.right), Height(r), bal1[n], pb, gb);
    ZigZagLeftRestores(bal1, up, g, r, s, pb, gb);
  }

  /** The mirror image: `n` hangs left of a right-hand parent, the
      grandparent is at 2; a right rotation at the parent, a left rotation at
      the grandparent and the mirrored table restore the tree. */
  lemma ZigZagRight(bal: map<Id, int>, up: Ctx, l: Tree, g: Id, s: Tree, n: Id, pb: int, gb: int)
    requires Grown(bal, RightOf(up, l, g), s, n) && Distinct(Plug(up, Node(l, g, s)))
    requires g in bal && bal[g] + 1 == 2 && RootOf(s.right) != Some(n)
    requires n in bal[g := bal[g] + 1]
    requires var nb := bal[g := bal[g] + 1][n];
      (nb == 1 && pb == 0 && gb == -1) || (nb == 0 && pb == 0 && gb == 0) ||
      (nb != 1 && nb != 0 && pb == 1 && gb == 0)
    ensures BalOK(bal[g := bal[g] + 1][s.id := pb][g := gb][n := 0], Plug(up, RotL(Node(l, g, RotR(s)))))
  {
    var bal1 := bal[g := bal[g] + 1];
    ZigZagRightFacts(bal, up, l, g, s, n);
    var t := s.left;
    ZigZagRightTable(Height(l), Height(t.left), Height(t.right), Height(s.right), bal1[n], pb, gb);
    ZigZagRightRestores(bal1, up, l, g, s, pb, gb);
  }
}
