/**
 * The steps of `remove` on the arena: locating a node, the contents seen by
 * the search, the exchange of two nodes' positions done by `nodeSwap`, and
 * the unlinking of a node with at most one child, with what each does to
 * the links, the ordering and the contents.
 */
module RemoveSteps {
  import opened Shapes
  import opened Arena
  import opened InsertBalance

  // ---------------------------------------------------------------------
  // Locating a node and reading the contents.

  /** Every node below the hole of `c0` sits itself in the hole of some
      context of the same tree. */
  lemma {:induction false} Locate(c0: Ctx, t: Tree, i: Id) returns (c: Ctx, s: Tree)
    requires i in Ids(t)
    ensures Plug(c0, t) == Plug(c, s) && s.Node? && s.id == i
    decreases t
  {
    var l, j, r := t.left, t.id, t.right;
    if i == j {
      c, s := c0, t;
    } else if i in Ids(l) {
      c, s := Locate(LeftOf(c0, j, r), l, i);
    } else {
      c, s := Locate(RightOf(c0, l, j), r, i);
    }
  }

  /** The contents read along `s` hold the key of each of its nodes. */
  lemma {:induction false} ItemsHas<V>(key: map<Id, int>, value: map<Id, V>, s: seq<Id>, x: Id)
    requires forall j :: 0 <= j < |s| ==> s[j] in key && s[j] in value
    requires x in s
    ensures key[x] in Items(key, value, s)
  {
    if s[0] != x {
      assert x in s[1..];
      ItemsHas(key, value, s[1..], x);
    }
  }

  /** Dropping the node `x` from the sorted in-order sequence `p + [x] + q`
      together with its key and value record keeps `p + q` sorted and
      removes exactly the key of `x` from the contents. */
  lemma RemoveContents<V>(key: map<Id, int>, value: map<Id, V>, p: seq<Id>, x: Id, q: seq<Id>)
    requires Sorted(key, p + [x] + q)
    requires forall j :: 0 <= j < |p + [x] + q| ==> (p + [x] + q)[j] in value
    ensures x in key
    ensures Sorted(key - {x}, p + q)
    ensures Items(key - {x}, value - {x}, p + q) == Items(key, value, p + [x] + q) - {key[x]}
  {
    var s, s0 := p + q, p + [x] + q;
    SortedSplit(key, p, x, q);
    SortedRemove(key, p, x, q);
    assert s0[|p|] == x;
    forall j | 0 <= j < |s|
      ensures s[j] in key && s[j] in value && key[s[j]] != key[x] && s[j] != x
    {
      if j < |p| {
        assert s[j] == p[j] == s0[j];
      } else {
        assert s[j] == q[j - |p|] == s0[j + 1];
      }
    }
    SortedFrame(key, key - {x}, s);
    ItemsFrame(key, value, key - {x}, value - {x}, s);
    ItemsMiddle(key, value, p, x, q);
    ItemsAbsent(key, value, s, key[x]);
  }

  // ---------------------------------------------------------------------
  // Exchanging the positions of two nodes.

  /** A link record with every pointer to `a` turned to `b` and back. */
  function SwLink(l: Link, a: Id, b: Id): Link {
    Link(SwOpt(l.parent, a, b), SwOpt(l.left, a, b), SwOpt(l.right, a, b))
  }

  /** The records after the base tree's `nodeSwap(a, b)`: `a` takes the place
      of `b` in the tree and `b` that of `a`; each node keeps its own key and
      value. */
  function SwapLinks(g: map<Id, Link>, a: Id, b: Id): (g': map<Id, Link>)
    requires a in g && b in g
    ensures g'.Keys == g.Keys
    ensures a in g' && g'[a] == SwLink(g[b], a, b) && b in g' && g'[b] == SwLink(g[a], a, b)
  {
    map i | i in g :: SwLink(g[Sw(i, a, b)], a, b)
  }

  /** Swapping the same two nodes twice restores every record. */
  lemma SwapLinksInvolution(g: map<Id, Link>, a: Id, b: Id)
    requires a in g && b in g
    ensures SwapLinks(SwapLinks(g, a, b), a, b) == g
  {
    var g1 := SwapLinks(g, a, b);
    var g2 := SwapLinks(g1, a, b);
    forall i | i in g
      ensures g2[i] == g[i]
    {
      SwInvolution(i, a, b);
      var j := Sw(i, a, b);
      SwInvolution(j, a, b);
      assert g1[j] == SwLink(g[i], a, b);
      SwLinkInvolution(g[i], a, b);
    }
  }

  lemma SwLinkInvolution(l: Link, a: Id, b: Id)
    ensures SwLink(SwLink(l, a, b), a, b) == l
  {
    if l.parent.Some? { SwInvolution(l.parent.value, a, b); }
    if l.left.Some? { SwInvolution(l.left.value, a, b); }
    if l.right.Some? { SwInvolution(l.right.value, a, b); }
  }

  /** The swapped records describe the tree with `a` and `b` exchanged. */
  lemma {:induction false} LinkedSwap(g: map<Id, Link>, t: Tree, p: Option<Id>, a: Id, b: Id)
    requires Linked(g, t, p) && a in g && b in g
    ensures Linked(SwapLinks(g, a, b), Rename(t, a, b), SwOpt(p, a, b))
  {
    match t
    case Nil =>
    case Node(l, i, r) =>
      SwInvolution(i, a, b);
      assert RootOf(Rename(l, a, b)) == SwOpt(RootOf(l), a, b);
      assert RootOf(Rename(r, a, b)) == SwOpt(RootOf(r), a, b);
      LinkedSwap(g, l, Some(i), a, b);
      LinkedSwap(g, r, Some(i), a, b);
  }

  /** Exchanging two nodes of a well-formed arena keeps it well formed. */
  lemma SwapWf<V>(link: map<Id, Link>, key: map<Id, int>, value: map<Id, V>, balance: map<Id, int>,
                  root: Option<Id>, nextId: nat, t: Tree, a: Id, b: Id)
    requires WellFormed(link, key, value, balance, root, nextId, t) && a in Ids(t) && b in Ids(t)
    ensures WellFormed(SwapLinks(link, a, b), key, value, balance, SwOpt(root, a, b), nextId, Rename(t, a, b))
  {
    LinkedSwap(link, t, None, a, b);
    RenameDistinct(t, a, b);
    RenameSameIds(t, a, b);
    assert RootOf(Rename(t, a, b)) == SwOpt(RootOf(t), a, b);
  }

  lemma RenameSameIds(t: Tree, a: Id, b: Id)
    requires a in Ids(t) && b in Ids(t)
    ensures Ids(Rename(t, a, b)) == Ids(t)
  {
    RenameIds(t, a, b);
    forall i ensures i in Ids(Rename(t, a, b)) <==> i in Ids(t) {
      if i != a && i != b {
        assert Sw(i, a, b) == i;
      }
    }
  }

  /** When the part `l` of `p == b + l` ends in the predecessor `pr` of `x`,
      the in-order sequence `p + [x] + q` reads `u + [pr, x] + q`, and
      removing `x` from it leaves `u + ([pr] + q)`. */
  lemma PredecessorSplit(b: seq<Id>, l: seq<Id>, x: Id, q: seq<Id>) returns (u: seq<Id>)
    requires l != []
    ensures b + l == u + [l[|l| - 1]]
    ensures (b + l) + [x] + q == u + [l[|l| - 1], x] + q
    ensures u + ([l[|l| - 1]] + q) == (b + l) + q
  {
    u := b + l[..|l| - 1];
    assert l == l[..|l| - 1] + [l[|l| - 1]];
  }

  /** Exchanging `a` with the node `b` just before it in order exchanges
      the two in the in-order sequence. */
  lemma SwapInOrder(t: Tree, u: seq<Id>, b: Id, a: Id, v: seq<Id>)
    requires Distinct(t) && InOrder(t) == u + [b, a] + v
    ensures InOrder(Rename(t, a, b)) == u + [a] + ([b] + v)
  {
    DistinctNoDup(t);
    var s := InOrder(t);
    assert s[|u|] == b && s[|u| + 1] == a;
    forall j | 0 <= j < |u| ensures u[j] != a && u[j] != b {
      assert u[j] == s[j];
    }
    forall j | 0 <= j < |v| ensures v[j] != a && v[j] != b {
      assert v[j] == s[|u| + 2 + j];
    }
    RenameInOrder(t, a, b);
    SwSeqAppend(u, [b, a], a, b);
    SwSeqAppend(u + [b, a], v, a, b);
    SwSeqUntouched(u, a, b);
    SwSeqUntouched(v, a, b);
    SwSeqPair(a, b);
  }

  lemma SwSeqPair(a: Id, b: Id)
    ensures SwSeq([b, a], a, b) == [a, b]
  {
    assert [b, a][1..] == [a];
    assert [a][1..] == [];
    assert SwSeq([a], a, b) == [b] + SwSeq([], a, b);
  }

  // ---------------------------------------------------------------------
  // Unlinking a node with at most one child.

  /** The subtree that takes the place of a removed node with at most one
      child: its left subtree if it has one, else its right one. */
  function Survivor(s: Tree): Tree
    requires s.Node?
  {
    if s.left.Node? then s.left else s.right
  }

  /** The records after `remove` unlinks node `x`, which hangs in the hole
      of `c` with the child `ch`: the hole's parent points at `ch`, `ch`
      points back at it, and the record of `x` is released. */
  ghost function UnlinkLinks(g: map<Id, Link>, c: Ctx, x: Id, ch: Option<Id>): map<Id, Link>
    requires c != Top ==> c.id in g
    requires ch.Some? ==> ch.value in g
  {
    var g1 := if c.LeftOf? then g[c.id := g[c.id].(left := ch)]
              else if c.RightOf? then g[c.id := g[c.id].(right := ch)]
              else g;
    var g2 := if ch.Some? then g1[ch.value := g1[ch.value].(parent := HoleParent(c))] else g1;
    g2 - {x}
  }

  /** Unlinking leaves the records of every other node alone ... */
  lemma UnlinkLinksFrame(g: map<Id, Link>, c: Ctx, x: Id, ch: Option<Id>, i: Id)
    requires c != Top ==> c.id in g
    requires ch.Some? ==> ch.value in g
    requires i in g && i != x && Some(i) != ch && Some(i) != HoleParent(c)
    ensures i in UnlinkLinks(g, c, x, ch) && UnlinkLinks(g, c, x, ch)[i] == g[i]
  {
  }

  /** ... and rewrites just the child slot of the hole's parent and the
      parent pointer of the child. */
  lemma UnlinkLinksChanges(g: map<Id, Link>, c: Ctx, x: Id, ch: Option<Id>)
    requires c != Top ==> c.id in g && c.id != x && ch != Some(c.id)
    requires ch.Some? ==> ch.value in g && ch.value != x
    ensures c.LeftOf? ==> c.id in UnlinkLinks(g, c, x, ch) && UnlinkLinks(g, c, x, ch)[c.id] == g[c.id].(left := ch)
    ensures c.RightOf? ==> c.id in UnlinkLinks(g, c, x, ch) && UnlinkLinks(g, c, x, ch)[c.id] == g[c.id].(right := ch)
    ensures ch.Some? ==>
              ch.value in UnlinkLinks(g, c, x, ch) && UnlinkLinks(g, c, x, ch)[ch.value] == g[ch.value].(parent := HoleParent(c))
  {
  }

  /** The unlinked records describe the context and the survivor below it. */
  lemma UnlinkLinkedParts(g: map<Id, Link>, c: Ctx, s: Tree)
    requires s.Node? && (s.left == Nil || s.right == Nil)
    requires CtxLinked(g, c, Some(s.id)) && Linked(g, s, HoleParent(c))
    requires CtxDistinct(c) && Distinct(s) && CtxIds(c) !! Ids(s)
    ensures c != Top ==> c.id in g
    ensures RootOf(Survivor(s)).Some? ==> RootOf(Survivor(s)).value in g
    ensures CtxLinked(UnlinkLinks(g, c, s.id, RootOf(Survivor(s))), c, RootOf(Survivor(s)))
    ensures Linked(UnlinkLinks(g, c, s.id, RootOf(Survivor(s))), Survivor(s), HoleParent(c))
  {
    var t, ch, x := Survivor(s), RootOf(Survivor(s)), s.id;
    assert Linked(g, t, Some(x)) && Distinct(t) && x !in Ids(t) && Ids(t) <= Ids(s);
    if c != Top {
      assert c.id in CtxIds(c);
    }
    if ch.Some? {
      assert ch.value in Ids(t);
    }
    var g' := UnlinkLinks(g, c, x, ch);
    UnlinkLinksChanges(g, c, x, ch);
    forall i | i in CtxIds(c) && Some(i) != HoleParent(c) && i in g
      ensures i in g' && g'[i] == g[i]
    {
      UnlinkLinksFrame(g, c, x, ch, i);
    }
    forall i | i in Ids(t) && Some(i) != RootOf(t) && i in g
      ensures i in g' && g'[i] == g[i]
    {
      UnlinkLinksFrame(g, c, x, ch, i);
    }
    CtxLinkedHole(g, g', c, Some(x), ch);
    Reparent(g, g', t, Some(x), HoleParent(c));
  }

  /** Unlinking keeps the arena well formed, with the records of `x`
      released, and drops `x` from the in-order sequence. */
  lemma UnlinkWf<V>(link: map<Id, Link>, key: map<Id, int>, value: map<Id, V>, balance: map<Id, int>,
                    root: Option<Id>, nextId: nat, c: Ctx, s: Tree)
    requires WellFormed(link, key, value, balance, root, nextId, Plug(c, s))
    requires s.Node? && (s.left == Nil || s.right == Nil)
    ensures c != Top ==> c.id in link
    ensures RootOf(Survivor(s)).Some? ==> RootOf(Survivor(s)).value in link
    ensures WellFormed(UnlinkLinks(link, c, s.id, RootOf(Survivor(s))),
                       key - {s.id}, value - {s.id}, balance - {s.id},
                       if c == Top then RootOf(Survivor(s)) else root, nextId, Plug(c, Survivor(s)))
  {
    UnlinkLinked(link, c, s);
    UnlinkIds(c, s);
    if c != Top {
      PlugRootOf(c, s, Survivor(s));
    }
  }

  /** The unlinked records describe the whole tree with the survivor in
      the hole. */
  lemma UnlinkLinked(g: map<Id, Link>, c: Ctx, s: Tree)
    requires s.Node? && (s.left == Nil || s.right == Nil)
    requires Linked(g, Plug(c, s), None) && Distinct(Plug(c, s))
    ensures c != Top ==> c.id in g
    ensures RootOf(Survivor(s)).Some? ==> RootOf(Survivor(s)).value in g
    ensures Linked(UnlinkLinks(g, c, s.id, RootOf(Survivor(s))), Plug(c, Survivor(s)), None)
  {
    PlugLinked(g, c, s);
    PlugDistinct(c, s);
    UnlinkLinkedParts(g, c, s);
    PlugLinked(UnlinkLinks(g, c, s.id, RootOf(Survivor(s))), c, Survivor(s));
  }

  /** Unlinking removes exactly the node itself from the tree. */
  lemma UnlinkIds(c: Ctx, s: Tree)
    requires s.Node? && (s.left == Nil || s.right == Nil) && Distinct(Plug(c, s))
    ensures Distinct(Plug(c, Survivor(s)))
    ensures Ids(Plug(c, Survivor(s))) == Ids(Plug(c, s)) - {s.id}
  {
    PlugIds(c, s);
    PlugIds(c, Survivor(s));
    PlugDistinct(c, s);
    PlugReplaceDistinct(c, s, Survivor(s));
  }

  /** ... and once the node, with at most one child, is unlinked. */
  lemma UnlinkInOrder(c: Ctx, s: Tree)
    requires s.Node? && (s.left == Nil || s.right == Nil)
    ensures InOrder(Plug(c, Survivor(s))) == (Before(c) + InOrder(s.left)) + (InOrder(s.right) + After(c))
  {
    PlugInOrder(c, Survivor(s));
    var b, l, r, a := Before(c), InOrder(s.left), InOrder(s.right), After(c);
    if s.left == Nil {
      assert l == [] && Survivor(s) == s.right;
      assert b + r + a == (b + l) + (r + a);
    } else {
      assert r == [] && Survivor(s) == s.left;
      assert b + l + a == (b + l) + (r + a);
    }
  }

  // ---------------------------------------------------------------------
  // Balance factors across a swap and a rotation.

  /** The balances after the AVL `nodeSwap(a, b)`: the two nodes exchange
      their balance factors along with their places. */
  function SwapBal(bal: map<Id, int>, a: Id, b: Id): map<Id, int>
    requires a in bal && b in bal
  {
    bal[a := bal[b]][b := bal[a]]
  }

  lemma {:induction false} RenameHeight(t: Tree, a: Id, b: Id)
    ensures Height(Rename(t, a, b)) == Height(t)
  {
    match t
    case Nil =>
    case Node(l, i, r) =>
      RenameHeight(l, a, b);
      RenameHeight(r, a, b);
  }

  /** Exchanging two nodes' places together with their balance factors
      keeps every balance factor correct. */
  lemma {:induction false} SwapBalOK(bal: map<Id, int>, t: Tree, a: Id, b: Id)
    requires a in bal && b in bal && BalOK(bal, t)
    ensures BalOK(SwapBal(bal, a, b), Rename(t, a, b))
  {
    match t
    case Nil =>
    case Node(l, i, r) =>
      RenameHeight(l, a, b);
      RenameHeight(r, a, b);
      SwapBalOK(bal, l, a, b);
      SwapBalOK(bal, r, a, b);
      assert SwapBal(bal, a, b)[Sw(i, a, b)] == bal[i];
  }

  /** A single right rotation at a node `n` whose left subtree is two levels
      taller than its right one, with left child `ch` of balance `cb` in
      {-1, 0}: afterwards `n` must hold `-1 - cb` and `ch` must hold `1 + cb`.
      The pair `removeFix` stores, `-cb` for `n` and 0 for `ch`, is never
      correct. */
  lemma RemoveFixRotateRightTable(bal: map<Id, int>, a: Tree, ch: Id, b: Tree, n: Id, r: Tree)
    requires Distinct(Node(Node(a, ch, b), n, r))
    requires BalOK(bal, Node(a, ch, b)) && BalOK(bal, r)
    requires Height(Node(a, ch, b)) == Height(r) + 2 && bal[ch] <= 0
    ensures BalOK(bal[n := -1 - bal[ch]][ch := 1 + bal[ch]], RotR(Node(Node(a, ch, b), n, r)))
    ensures !BalOK(bal[n := -bal[ch]][ch := 0], RotR(Node(Node(a, ch, b), n, r)))
  {
    var cb := bal[ch];
    var ha: int, hb: int, hr: int := Height(a), Height(b), Height(r);
    assert cb == hb - ha && 1 + Max(ha, hb) == hr + 2;
    assert ha == hr + 1 && hb == hr + 1 + cb;
    assert RotR(Node(Node(a, ch, b), n, r)) == Node(a, ch, Node(b, n, r));
    RotatedBalances(bal, a, ch, b, n, r, 1 + cb, -1 - cb);
    RotatedBalances(bal, a, ch, b, n, r, 0, -cb);
  }

  /** The mirror image: a single left rotation at a node whose right
      subtree is two levels taller, with right child balance `cb` in {0, 1},
      must leave `1 - cb` for the node and `cb - 1` for the child;
      `removeFix` stores `-cb` and 0. */
  lemma RemoveFixRotateLeftTable(bal: map<Id, int>, l: Tree, n: Id, b: Tree, ch: Id, c: Tree)
    requires Distinct(Node(l, n, Node(b, ch, c)))
    requires BalOK(bal, l) && BalOK(bal, Node(b, ch, c))
    requires Height(Node(b, ch, c)) == Height(l) + 2 && bal[ch] >= 0
    ensures BalOK(bal[n := 1 - bal[ch]][ch := bal[ch] - 1], RotL(Node(l, n, Node(b, ch, c))))
    ensures !BalOK(bal[n := -bal[ch]][ch := 0], RotL(Node(l, n, Node(b, ch, c))))
  {
    var cb := bal[ch];
    var hl: int, hb: int, hc: int := Height(l), Height(b), Height(c);
    assert cb == hc - hb && 1 + Max(hb, hc) == hl + 2;
    assert hc == hl + 1 && hb == hl + 1 - cb;
    assert RotL(Node(l, n, Node(b, ch, c))) == Node(Node(l, n, b), ch, c);
    RotatedBalances(bal, l, n, b, ch, c, 1 - cb, cb - 1);
    RotatedBalances(bal, l, n, b, ch, c, -cb, 0);
  }

  /** The double rotation of the -2 case of `removeFix`: node `n` whose
      left subtree `Node(a, ch, Node(b, gc, c))` is two levels taller than
      `r`, with `ch` leaning right. The code's table, keyed on the old
      balance of `gc`, stores exactly the true height differences: the
      rotated subtree `Node(Node(a, ch, b), gc, Node(c, n, r))` is correct. */
  lemma RemoveFixDoubleRightTable(bal: map<Id, int>, a: Tree, ch: Id, b: Tree, gc: Id, c: Tree, n: Id, r: Tree,
                                  nb: int, cb: int)
    requires Distinct(Node(Node(a, ch, Node(b, gc, c)), n, r))
    requires BalOK(bal, Node(a, ch, Node(b, gc, c))) && BalOK(bal, r)
    requires Height(Node(a, ch, Node(b, gc, c))) == Height(r) + 2 && bal[ch] > 0 && gc in bal
    requires (bal[gc] == -1 && nb == 1 && cb == 0) || (bal[gc] == 0 && nb == 0 && cb == 0) ||
             (bal[gc] != -1 && bal[gc] != 0 && nb == 0 && cb == -1)
    ensures BalOK(bal[n := nb][ch := cb][gc := 0], Node(Node(a, ch, b), gc, Node(c, n, r)))
  {
    var ha: int, hb: int, hc: int, hr: int := Height(a), Height(b), Height(c), Height(r);
    assert BalOK(bal, Node(b, gc, c)) && BalOK(bal, a) && BalOK(bal, b) && BalOK(bal, c);
    assert bal[ch] == 1 && Height(Node(b, gc, c)) == hr + 1 && ha == hr;
    assert bal[gc] == hc - hb && Max(hb, hc) == hr;
    ZigZagLeftTable(ha, hb, hc, hr, bal[gc], cb, nb);
    DoubleRightFresh(a, ch, b, gc, c, n, r);
    var bal' := bal[n := nb][ch := cb][gc := 0];
    BalOKUpdate3(bal, a, n, nb, ch, cb, gc, 0);
    BalOKUpdate3(bal, b, n, nb, ch, cb, gc, 0);
    BalOKUpdate3(bal, c, n, nb, ch, cb, gc, 0);
    BalOKUpdate3(bal, r, n, nb, ch, cb, gc, 0);
    RotatedTwiceBal(bal', a, ch, b, gc, c, n, r);
  }

  /** The three nodes a double rotation moves occur once each, outside the
      four subtrees that hang from them. */
  lemma DoubleRightFresh(a: Tree, ch: Id, b: Tree, gc: Id, c: Tree, n: Id, r: Tree)
    requires Distinct(Node(Node(a, ch, Node(b, gc, c)), n, r))
    ensures n != ch && n != gc && ch != gc
    ensures n !in Ids(a) && n !in Ids(b) && n !in Ids(c) && n !in Ids(r)
    ensures ch !in Ids(a) && ch !in Ids(b) && ch !in Ids(c) && ch !in Ids(r)
    ensures gc !in Ids(a) && gc !in Ids(b) && gc !in Ids(c) && gc !in Ids(r)
  {
    PlugLeftZigZagDistinct(Top, Node(a, ch, Node(b, gc, c)), n, r);
  }

  /** The mirror image: the +2 case, node `n` with left subtree `l` and right
      subtree `Node(Node(a, gc, b), ch, c)` two levels taller, `ch` leaning
      left; the rotated subtree is `Node(Node(l, n, a), gc, Node(b, ch, c))`. */
  lemma RemoveFixDoubleLeftTable(bal: map<Id, int>, l: Tree, n: Id, a: Tree, gc: Id, b: Tree, ch: Id, c: Tree,
                                 nb: int, cb: int)
    requires Distinct(Node(l, n, Node(Node(a, gc, b), ch, c)))
    requires BalOK(bal, l) && BalOK(bal, Node(Node(a, gc, b), ch, c))
    requires Height(Node(Node(a, gc, b), ch, c)) == Height(l) + 2 && bal[ch] < 0 && gc in bal
    requires (bal[gc] == 1 && nb == -1 && cb == 0) || (bal[gc] == 0 && nb == 0 && cb == 0) ||
             (bal[gc] != 1 && bal[gc] != 0 && nb == 0 && cb == 1)
    ensures BalOK(bal[n := nb][ch := cb][gc := 0], Node(Node(l, n, a), gc, Node(b, ch, c)))
  {
    var hl: int, ha: int, hb: int, hc: int := Height(l), Height(a), Height(b), Height(c);
    assert BalOK(bal, Node(a, gc, b)) && BalOK(bal, a) && BalOK(bal, b) && BalOK(bal, c);
    assert bal[ch] == -1 && Height(Node(a, gc, b)) == hl + 1 && hc == hl;
    assert bal[gc] == hb - ha && Max(ha, hb) == hl;
    ZigZagRightTable(hl, ha, hb, hc, bal[gc], cb, nb);
    DoubleLeftFresh(l, n, a, gc, b, ch, c);
    var bal' := bal[n := nb][ch := cb][gc := 0];
    BalOKUpdate3(bal, l, n, nb, ch, cb, gc, 0);
    BalOKUpdate3(bal, a, n, nb, ch, cb, gc, 0);
    BalOKUpdate3(bal, b, n, nb, ch, cb, gc, 0);
    BalOKUpdate3(bal, c, n, nb, ch, cb, gc, 0);
    RotatedTwiceBal(bal', l, n, a, gc, b, ch, c);
  }

  /** The mirror image of `DoubleRightFresh`. */
  lemma DoubleLeftFresh(l: Tree, n: Id, a: Tree, gc: Id, b: Tree, ch: Id, c: Tree)
    requires Distinct(Node(l, n, Node(Node(a, gc, b), ch, c)))
    ensures n != ch && n != gc && ch != gc
    ensures n !in Ids(l) && n !in Ids(a) && n !in Ids(b) && n !in Ids(c)
    ensures ch !in Ids(l) && ch !in Ids(a) && ch !in Ids(b) && ch !in Ids(c)
    ensures gc !in Ids(l) && gc !in Ids(a) && gc !in Ids(b) && gc !in Ids(c)
  {
    PlugRightZigZagDistinct(Top, l, n, Node(Node(a, gc, b), ch, c));
  }

  /** `RemoveFixRotateRightTable` for the subtree `s` in the hole of `c`:
      the pair `removeFix` stores leaves the whole tree unbalanced. */
  lemma RemoveFixLeftSingleBal(bal: map<Id, int>, c: Ctx, s: Tree)
    requires Distinct(s) && s.Node? && s.left.Node?
    requires BalOK(bal, s.left) && BalOK(bal, s.right) && Height(s.left) == Height(s.right) + 2 && bal[s.left.id] <= 0
    ensures !BalOK(bal[s.id := -bal[s.left.id]][s.left.id := 0], Plug(c, RotR(s)))
  {
    RemoveFixRotateRightTable(bal, s.left.left, s.left.id, s.left.right, s.id, s.right);
    PlugBal(bal[s.id := -bal[s.left.id]][s.left.id := 0], c, RotR(s));
  }

  /** `RemoveFixRotateLeftTable` for the subtree `s` in the hole of `c`. */
  lemma RemoveFixRightSingleBal(bal: map<Id, int>, c: Ctx, s: Tree)
    requires Distinct(s) && s.Node? && s.right.Node?
    requires BalOK(bal, s.left) && BalOK(bal, s.right) && Height(s.right) == Height(s.left) + 2 && bal[s.right.id] >= 0
    ensures !BalOK(bal[s.id := -bal[s.right.id]][s.right.id := 0], Plug(c, RotL(s)))
  {
    RemoveFixRotateLeftTable(bal, s.left, s.id, s.right.left, s.right.id, s.right.right);
    PlugBal(bal[s.id := -bal[s.right.id]][s.right.id := 0], c, RotL(s));
  }

  /** `RemoveFixDoubleRightTable` for the subtree `s` as it stands before the
      two rotations, one conclusion per row of the table. */
  lemma RemoveFixLeftDoubleBal(bal: map<Id, int>, s: Tree)
    requires Distinct(s) && s.Node? && s.left.Node? && s.left.right.Node?
    requires BalOK(bal, s.left) && BalOK(bal, s.right) && Height(s.left) == Height(s.right) + 2 && bal[s.left.id] > 0
    ensures s.left.right.id in bal
    ensures bal[s.left.right.id] == -1 ==>
            BalOK(bal[s.id := 1][s.left.id := 0][s.left.right.id := 0], RotR(Node(RotL(s.left), s.id, s.right)))
    ensures bal[s.left.right.id] == 0 ==>
            BalOK(bal[s.id := 0][s.left.id := 0][s.left.right.id := 0], RotR(Node(RotL(s.left), s.id, s.right)))
    ensures bal[s.left.right.id] != -1 && bal[s.left.right.id] != 0 ==>
            BalOK(bal[s.id := 0][s.left.id := -1][s.left.right.id := 0], RotR(Node(RotL(s.left), s.id, s.right)))
  {
    var a, ch, g, n, r := s.left.left, s.left.id, s.left.right, s.id, s.right;
    assert BalOK(bal, g);
    assert RotR(Node(RotL(s.left), n, r)) == Node(Node(a, ch, g.left), g.id, Node(g.right, n, r));
    var nb, cb := if bal[g.id] == -1 then 1 else 0, if bal[g.id] == -1 || bal[g.id] == 0 then 0 else -1;
    RemoveFixDoubleRightTable(bal, a, ch, g.left, g.id, g.right, n, r, nb, cb);
  }

  /** `RemoveFixDoubleLeftTable` for the subtree `s` as it stands before the
      two rotations, one conclusion per row of the table. */
  lemma RemoveFixRightDoubleBal(bal: map<Id, int>, s: Tree)
    requires Distinct(s) && s.Node? && s.right.Node? && s.right.left.Node?
    requires BalOK(bal, s.left) && BalOK(bal, s.right) && Height(s.right) == Height(s.left) + 2 && bal[s.right.id] < 0
    ensures s.right.left.id in bal
    ensures bal[s.right.left.id] == 1 ==>
            BalOK(bal[s.id := -1][s.right.id := 0][s.right.left.id := 0], RotL(Node(s.left, s.id, RotR(s.right))))
    ensures bal[s.right.left.id] == 0 ==>
            BalOK(bal[s.id := 0][s.right.id := 0][s.right.left.id := 0], RotL(Node(s.left, s.id, RotR(s.right))))
    ensures bal[s.right.left.id] != 1 && bal[s.right.left.id] != 0 ==>
            BalOK(bal[s.id := 0][s.right.id := 1][s.right.left.id := 0], RotL(Node(s.left, s.id, RotR(s.right))))
  {
    var l, n, g, ch, c := s.left, s.id, s.right.left, s.right.id, s.right.right;
    assert BalOK(bal, g);
    assert RotL(Node(l, n, RotR(s.right))) == Node(Node(l, n, g.left), g.id, Node(g.right, ch, c));
    var nb, cb := if bal[g.id] == 1 then -1 else 0, if bal[g.id] == 1 || bal[g.id] == 0 then 0 else 1;
    RemoveFixDoubleLeftTable(bal, l, n, g.left, g.id, g.right, ch, c, nb, cb);
  }

  /** The tree `Node(Node(x, i, y), j, z)` with distinct nodes whose three
      subtrees carry correct balances is balanced under `bal[i := u][j := w]`
      exactly when `u` and `w` are the height differences at `i` and `j`
      and lie in {-1, 0, 1}. */
  lemma RotatedBalances(bal: map<Id, int>, x: Tree, i: Id, y: Tree, j: Id, z: Tree, u: int, w: int)
    requires Distinct(Node(Node(x, i, y), j, z)) || Distinct(Node(x, i, Node(y, j, z)))
    requires BalOK(bal, x) && BalOK(bal, y) && BalOK(bal, z)
    ensures i != j
    ensures BalOK(bal[i := u][j := w], Node(Node(x, i, y), j, z)) <==>
            u == Height(y) - Height(x) && -1 <= u <= 1 &&
            w == Height(z) - Height(Node(x, i, y)) && -1 <= w <= 1
    ensures BalOK(bal[j := w][i := u], Node(x, i, Node(y, j, z))) <==>
            w == Height(z) - Height(y) && -1 <= w <= 1 &&
            u == Height(Node(y, j, z)) - Height(x) && -1 <= u <= 1
  {
    var bal' := bal[i := u][j := w];
    assert i != j && i !in Ids(x) + Ids(y) + Ids(z) && j !in Ids(x) + Ids(y) + Ids(z);
    BalFrame(bal, bal', x);
    BalFrame(bal, bal', y);
    BalFrame(bal, bal', z);
    assert bal[j := w][i := u] == bal';
  }
}
