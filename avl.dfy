/**
 * The AVL tree: an arena of nodes addressed by index, each with a key, a
 * value, a balance factor and parent/left/right links, plus the root pointer.
 * The ghost `shape` is the tree the links describe; `Wf` ties the two.
 */
module AvlTree {
  import opened Shapes
  import opened Arena
  import opened Rotations
  import opened InsertBalance
  import opened InsertSteps
  import opened RemoveSteps

  class AVLTree<V> {
    /** Node records, split by field: links, key, value, balance. */
    var link: map<Id, Link>
    var key: map<Id, int>
    var value: map<Id, V>
    var balance: map<Id, int>
    var root: Option<Id>
    /** Next unused arena index. */
    var nextId: nat
    /** The tree the links describe. */
    ghost var shape: Tree

    /** Structural invariant: the links describe `shape` exactly, every node
        occurs once, the root has no parent, and every record has all fields. */
    ghost predicate Wf()
      reads this
    {
      WellFormed(link, key, value, balance, root, nextId, shape)
    }

    /** Binary-search-tree ordering: keys strictly increase in order. */
    ghost predicate Ordered()
      reads this
    {
      Sorted(key, InOrder(shape))
    }

    ghost predicate Valid()
      reads this
    {
      Wf() && Ordered()
    }

    /** The AVL invariant: every stored balance equals right height minus
        left height and lies in {-1,0,1}. */
    ghost predicate Balanced()
      reads this
    {
      BalOK(balance, shape)
    }

    /** The key/value map the tree holds. */
    ghost function Contents(): map<int, V>
      reads this
    {
      Items(key, value, InOrder(shape))
    }

    constructor ()
      ensures Valid() && Balanced() && Contents() == map[] && root == None
    {
      link, key, value, balance := map[], map[], map[], map[];
      root, nextId := None, 0;
      shape := Nil;
    }

    /** `empty()` of the base tree. */
    method Empty() returns (e: bool)
      requires Wf()
      ensures e <==> shape == Nil
    {
      e := root.None?;
    }

    /** Installs a rewritten set of link records and root pointer, together
        with the shape they describe; keys, values and balances stay. */
    method SetLinks(g: map<Id, Link>, r: Option<Id>, ghost t: Tree)
      requires WellFormed(g, key, value, balance, r, nextId, t)
      modifies this
      ensures Wf() && shape == t && link == g && root == r
      ensures key == old(key) && value == old(value) && balance == old(balance) && nextId == old(nextId)
    {
      link, root, shape := g, r, t;
    }

    /** `rotateLeft`: promotes the right child of `x` into the place of `x`;
        `x` becomes its left child and takes over its old left subtree. No
        effect without a right child. Balances are not touched. */
    method RotateLeft(x: Id, ghost c: Ctx, ghost s: Tree)
      requires Wf() && shape == Plug(c, s) && s.Node? && s.id == x
      modifies this
      ensures Wf() && shape == Plug(c, RotL(s)) && InOrder(shape) == old(InOrder(shape))
      ensures key == old(key) && value == old(value) && balance == old(balance) && nextId == old(nextId)
    {
      PlugRotInOrder(c, s);
      RotateLeftReads(link, c, s);
      var g := link;
      var right := g[x].right;
      if right.None? {
        return;
      }
      var y := right.value;
      var parent := g[x].parent;
      var g1 := g;
      var r := root;
      if parent.Some? {
        var p := parent.value;
        if g[p].left == Some(x) {
          g1 := g[p := g[p].(left := Some(y))];
        } else {
          g1 := g[p := g[p].(right := Some(y))];
        }
      } else {
        r := Some(y);
      }
      var b := g1[y].left;
      var g2 := g1[x := g1[x].(right := b)];
      var g3 := g2;
      if b.Some? {
        g3 := g2[b.value := g2[b.value].(parent := Some(x))];
      }
      var g4 := g3[y := g3[y].(left := Some(x), parent := parent)];
      var g5 := g4[x := g4[x].(parent := Some(y))];
      RotateLeftWrites(g, g1, g2, g3, g4, g5, c, s, x, y, parent, b);
      RotateLeftKeepsWf(g, g5, key, value, balance, root, r, nextId, c, s);
      SetLinks(g5, r, Plug(c, RotL(s)));
    }

    /** `rotateRight`: the mirror image of `RotateLeft`: promotes the left
        child of `x`, which takes `x` as its right child. */
    method RotateRight(x: Id, ghost c: Ctx, ghost s: Tree)
      requires Wf() && shape == Plug(c, s) && s.Node? && s.id == x
      modifies this
      ensures Wf() && shape == Plug(c, RotR(s)) && InOrder(shape) == old(InOrder(shape))
      ensures key == old(key) && value == old(value) && balance == old(balance) && nextId == old(nextId)
    {
      PlugRotInOrder(c, s);
      RotateRightReads(link, c, s);
      var g := link;
      var left := g[x].left;
      if left.None? {
        return;
      }
      var y := left.value;
      var parent := g[x].parent;
      var g1 := g;
      var r := root;
      if parent.Some? {
        var p := parent.value;
        if g[p].left == Some(x) {
          g1 := g[p := g[p].(left := Some(y))];
        } else {
          g1 := g[p := g[p].(right := Some(y))];
        }
      } else {
        r := Some(y);
      }
      var b := g1[y].right;
      var g2 := g1[x := g1[x].(left := b)];
      var g3 := g2;
      if b.Some? {
        g3 := g2[b.value := g2[b.value].(parent := Some(x))];
      }
      var g4 := g3[y := g3[y].(right := Some(x), parent := parent)];
      var g5 := g4[x := g4[x].(parent := Some(y))];
      RotateRightWrites(g, g1, g2, g3, g4, g5, c, s, x, y, parent, b);
      RotateRightKeepsWf(g, g5, key, value, balance, root, r, nextId, c, s);
      SetLinks(g5, r, Plug(c, RotR(s)));
    }

    /** `setBalance` of a node. */
    method SetBalance(i: Id, b: int)
      requires Wf() && i in balance
      modifies this
      ensures Wf() && balance == old(balance)[i := b]
      ensures link == old(link) && root == old(root) && shape == old(shape)
      ensures key == old(key) && value == old(value) && nextId == old(nextId)
    {
      balance := balance[i := b];
    }

    /** `updateBalance`: adds `d` to the balance of a node. */
    method UpdateBalance(i: Id, d: int)
      requires Wf() && i in balance
      modifies this
      ensures Wf() && balance == old(balance)[i := old(balance)[i] + d]
      ensures link == old(link) && root == old(root) && shape == old(shape)
      ensures key == old(key) && value == old(value) && nextId == old(nextId)
    {
      balance := balance[i := balance[i] + d];
    }

    /** `insertFix(p, n)`: `n` is a child of `p` and the subtree of `p` has
        just grown by one level. Adjusts the balance of `p`'s parent by -1 or
        +1 according to the side `p` hangs on; stops at 0, moves up at -1/+1,
        and at -2/+2 rotates once (zig-zig) or twice (zig-zag) and stops. The
        in-order sequence and keys are kept; entered in the state `Grown`, it
        leaves every balance correct. */
    method InsertFix(p: Id, n: Id, ghost c: Ctx, ghost s: Tree)
      requires Wf() && shape == Plug(c, s) && s.Node? && s.id == p
      requires RootOf(s.left) == Some(n) || RootOf(s.right) == Some(n)
      modifies this
      ensures Wf() && InOrder(shape) == old(InOrder(shape))
      ensures key == old(key) && value == old(value) && nextId == old(nextId)
      ensures old(Grown(balance, c, s, n)) ==> Balanced()
      decreases c
    {
      FixReads(link, c, s);
      ghost var bal0 := balance;
      ghost var grown := Grown(balance, c, s, n);
      assert n in balance;
      var parent := link[p].parent;
      if parent.None? {
        return;
      }
      var g := parent.value;
      if link[g].left == Some(p) {
        ghost var up, r := c.up, c.right;
        UpdateBalance(g, -1);
        if grown {
          GrowLeft(bal0, up, g, r, s, n);
        }
        if balance[g] == 0 {
          if grown {
            GrowLeftStop(bal0, up, g, r, s, n);
          }
          return;
        }
        if balance[g] == -1 {
          if grown {
            GrowLeftUp(bal0, up, g, r, s, n);
          }
          InsertFix(g, p, up, Node(s, g, r));
          return;
        }
        if balance[g] == -2 {
          RebalanceLeft(p, n, g, up, r, s, bal0);
        }
      } else {
        ghost var up, l := c.up, c.left;
        UpdateBalance(g, 1);
        if grown {
          GrowRight(bal0, up, l, g, s, n);
        }
        if balance[g] == 0 {
          if grown {
            GrowRightStop(bal0, up, l, g, s, n);
          }
          return;
        }
        if balance[g] == 1 {
          if grown {
            GrowRightUp(bal0, up, l, g, s, n);
          }
          InsertFix(g, p, up, Node(l, g, s));
          return;
        }
        if balance[g] == 2 {
          RebalanceRight(p, n, g, up, l, s, bal0);
        }
      }
    }

    /** The -2 case of `insertFix` above a left-hand parent `p`: a single
        right rotation at `g` when `n` is `p`'s left child, otherwise a left
        rotation at `p` and a right rotation at `g`, followed by the balance
        table. `bal0` holds the balances before `g` was decremented. */
    method RebalanceLeft(p: Id, n: Id, g: Id, ghost up: Ctx, ghost r: Tree, ghost s: Tree, ghost bal0: map<Id, int>)
      requires Wf() && shape == Plug(up, Node(s, g, r)) && s.Node? && s.id == p
      requires RootOf(s.left) == Some(n) || RootOf(s.right) == Some(n)
      requires g in bal0 && bal0[g] - 1 == -2 && balance == bal0[g := bal0[g] - 1]
      modifies this
      ensures Wf() && InOrder(shape) == old(InOrder(shape))
      ensures key == old(key) && value == old(value) && nextId == old(nextId)
      ensures Grown(bal0, LeftOf(up, g, r), s, n) ==> Balanced()
    {
      ghost var c := LeftOf(up, g, r);
      FixReads(link, c, s);
      ghost var grown := Grown(bal0, c, s, n);
      assert n in balance;
      if link[p].left == Some(n) {
        RotateRight(g, up, Node(s, g, r));
        SetBalance(p, 0);
        SetBalance(g, 0);
        if grown {
          ZigZigLeft(bal0, up, g, r, s, n);
        }
      } else {
        RotateLeft(p, c, s);
        RotateRight(g, up, Node(RotL(s), g, r));
        var pb, gb;
        if balance[n] == -1 {
          pb, gb := 0, 1;
        } else if balance[n] == 0 {
          pb, gb := 0, 0;
        } else {
          pb, gb := -1, 0;
        }
        SetBalance(p, pb);
        SetBalance(g, gb);
        SetBalance(n, 0);
        if grown {
          ZigZagLeft(bal0, up, g, r, s, n, pb, gb);
        }
      }
    }

    /** The mirror image: the +2 case above a right-hand parent. */
    method RebalanceRight(p: Id, n: Id, g: Id, ghost up: Ctx, ghost l: Tree, ghost s: Tree, ghost bal0: map<Id, int>)
      requires Wf() && shape == Plug(up, Node(l, g, s)) && s.Node? && s.id == p
      requires RootOf(s.left) == Some(n) || RootOf(s.right) == Some(n)
      requires g in bal0 && bal0[g] + 1 == 2 && balance == bal0[g := bal0[g] + 1]
      modifies this
      ensures Wf() && InOrder(shape) == old(InOrder(shape))
      ensures key == old(key) && value == old(value) && nextId == old(nextId)
      ensures Grown(bal0, RightOf(up, l, g), s, n) ==> Balanced()
    {
      ghost var c := RightOf(up, l, g);
      FixReads(link, c, s);
      ghost var grown := Grown(bal0, c, s, n);
      assert n in balance;
      if link[p].right == Some(n) {
        RotateLeft(g, up, Node(l, g, s));
        SetBalance(p, 0);
        SetBalance(g, 0);
        if grown {
          ZigZigRight(bal0, up, l, g, s, n);
        }
      } else {
        RotateRight(p, c, s);
        RotateLeft(g, up, Node(l, g, RotR(s)));
        var pb, gb;
        if balance[n] == 1 {
          pb, gb := 0, -1;
        } else if balance[n] == 0 {
          pb, gb := 0, 0;
        } else {
          pb, gb := 1, 0;
        }
        SetBalance(p, pb);
        SetBalance(g, gb);
        SetBalance(n, 0);
        if grown {
          ZigZagRight(bal0, up, l, g, s, n, pb, gb);
        }
      }
    }

    /** `setValue` of a node (from the base tree). */
    method SetValue(i: Id, v: V)
      requires Wf() && i in value
      modifies this
      ensures Wf() && value == old(value)[i := v]
      ensures link == old(link) && root == old(root) && shape == old(shape)
      ensures key == old(key) && balance == old(balance) && nextId == old(nextId)
    {
      value := value[i := v];
    }

    /** Installs a whole arena after a node record was allocated. */
    method Install(g: map<Id, Link>, ks: map<Id, int>, vs: map<Id, V>, bs: map<Id, int>,
                   r: Option<Id>, next: nat, ghost t: Tree)
      requires WellFormed(g, ks, vs, bs, r, next, t)
      modifies this
      ensures Wf() && link == g && key == ks && value == vs && balance == bs
      ensures root == r && nextId == next && shape == t
    {
      link, key, value, balance, root, nextId, shape := g, ks, vs, bs, r, next, t;
    }

    /** `insert`: overwrites the value of an existing key; otherwise attaches
        a new leaf where the descent by key comparison ends, adjusts the
        balance of its parent and, when that is not 0, runs `insertFix`.
        The tree stays ordered and well linked, its contents gain `k := v`,
        and a balanced tree stays balanced. */
    method Insert(k: int, v: V)
      requires Valid()
      modifies this
      ensures Valid() && Contents() == old(Contents())[k := v]
      ensures old(Balanced()) ==> Balanced()
      ensures k in old(Contents()) ==>
        shape == old(shape) && link == old(link) && key == old(key) && balance == old(balance)
      ensures old(shape) == Nil ==>
        (root.Some? && shape == Node(Nil, root.value, Nil) &&
         link[root.value].parent == None && key[root.value] == k && balance[root.value] == 0)
    {
      var e := Empty();
      if e {
        var id := nextId;
        NewRoot(link, key, value, balance, root, nextId, k, v);
        Install(link[id := Link(None, None, None)], key[id := k], value[id := v], balance[id := 0],
                Some(id), nextId + 1, Node(Nil, id, Nil));
        return;
      }
      var current := root;
      var parent: Option<Id> := None;
      ghost var c := Top;
      ghost var s := shape;
      while current.Some?
        invariant link == old(link) && key == old(key) && value == old(value) && balance == old(balance)
        invariant root == old(root) && nextId == old(nextId) && shape == old(shape)
        invariant shape == Plug(c, s) && current == RootOf(s) && parent == HoleParent(c)
        invariant c == Top ==> s.Node?
        invariant KeysBelow(key, Before(c), k) && KeysAbove(key, After(c), k)
        decreases s
      {
        FixReads(link, c, s);
        var cur := current.value;
        if k == key[cur] {
          SetValueContents(link, key, value, balance, root, nextId, shape, cur, v);
          SetValue(cur, v);
          return;
        }
        parent := current;
        if k < key[cur] {
          DescendLeft(key, c, s, k);
          current := link[cur].left;
          c, s := LeftOf(c, cur, s.right), s.left;
        } else {
          DescendRight(key, c, s, k);
          current := link[cur].right;
          c, s := RightOf(c, s.left, cur), s.right;
        }
      }
      ItemsAbsentAtHole(key, value, c, k);
      AttachLeaf(parent.value, k, v, c);
    }

    /** The part of `insert` after the descent: allocates the new node with
        parent `p` and balance 0, links it on the side its key calls for,
        adjusts `p`'s balance by -1 or +1 and runs `insertFix` unless that
        balance became 0. */
    method AttachLeaf(p: Id, k: int, v: V, ghost c: Ctx)
      requires Valid() && shape == Plug(c, Nil) && c != Top && HoleParent(c) == Some(p)
      requires KeysBelow(key, Before(c), k) && KeysAbove(key, After(c), k)
      modifies this
      ensures Valid() && Contents() == old(Contents())[k := v]
      ensures old(Balanced()) ==> Balanced()
    {
      ghost var bal0 := balance;
      var id := nextId;
      HoleSide(key, c, k);
      AddLeafWf(link, key, value, balance, root, nextId, c, k, v);
      InOrderIds(shape);
      AddLeafSorted(key, c, id, k);
      AddLeafItems(link, key, value, balance, root, nextId, c, k, v);
      ghost var leaf := Node(Nil, id, Nil);
      var left := k < key[p];
      var g := link[id := Link(Some(p), None, None)];
      if left {
        g := g[p := g[p].(left := Some(id))];
      } else {
        g := g[p := g[p].(right := Some(id))];
      }
      assert g == LeafLinks(link, p, id, left);
      Install(g, key[id := k], value[id := v], balance[id := 0], root, nextId + 1, Plug(c, leaf));
      ghost var s;
      if left {
        LeafLeft(bal0, c.up, p, c.right, id);
        UpdateBalance(p, -1);
        s := Node(leaf, p, c.right);
      } else {
        LeafRight(bal0, c.up, c.left, p, id);
        UpdateBalance(p, 1);
        s := Node(c.left, p, leaf);
      }
      if balance[p] != 0 {
        InsertFix(p, id, c.up, s);
      }
    }
  
    /** `internalFind` of the base tree: descends from the root by key
        comparison and yields the node carrying `k`, or null when there is
        none. */
    method InternalFind(k: int) returns (r: Option<Id>)
      requires Valid()
      ensures r.Some? ==> r.value in Ids(shape) && key[r.value] == k
      ensures r.Some? <==> k in Contents()
    {
      var current := root;
      ghost var c := Top;
      ghost var s := shape;
      while current.Some?
        invariant shape == Plug(c, s) && current == RootOf(s)
        invariant KeysBelow(key, Before(c), k) && KeysAbove(key, After(c), k)
        decreases s
      {
        FixReads(link, c, s);
        var cur := current.value;
        if k == key[cur] {
          InInOrder(shape, cur);
          InOrderMembers(shape);
          ItemsHas(key, value, InOrder(shape), cur);
          return Some(cur);
        }
        if k < key[cur] {
          DescendLeft(key, c, s, k);
          current := link[cur].left;
          c, s := LeftOf(c, cur, s.right), s.left;
        } else {
          DescendRight(key, c, s, k);
          current := link[cur].right;
          c, s := RightOf(c, s.left, cur), s.right;
        }
      }
      ItemsAbsentAtHole(key, value, c, k);
      return None;
    }

    /** `predecessor` of the base tree for a node `x` with a left child,
        the only way `remove` calls it: the rightmost node of the left
        subtree, that is the last node of the left subtree in order. */
    method Predecessor(x: Id, ghost c: Ctx, ghost s: Tree) returns (pr: Id)
      requires Wf() && shape == Plug(c, s) && s.Node? && s.id == x && s.left.Node?
      ensures InOrder(s.left) != [] && InOrder(s.left)[|InOrder(s.left)| - 1] == pr
      ensures pr in link && link[pr].right == None
    {
      FixReads(link, c, s);
      PlugLinked(link, c, s);
      var cur := link[x].left.value;
      ghost var sub := s.left;
      ghost var par := Some(x);
      ghost var pre: seq<Id> := [];
      while link[cur].right.Some?
        invariant sub.Node? && sub.id == cur && Linked(link, sub, par)
        invariant InOrder(s.left) == pre + InOrder(sub)
        decreases sub
      {
        assert InOrder(sub) == (InOrder(sub.left) + [cur]) + InOrder(sub.right);
        pre := pre + (InOrder(sub.left) + [cur]);
        par := Some(cur);
        sub := sub.right;
        cur := link[cur].right.value;
      }
      assert InOrder(sub) == InOrder(sub.left) + [cur];
      pr := cur;
    }

    /** `nodeSwap` of the base tree: `a` and `b` exchange their places in the
        tree (parent, children and the root pointer); each keeps its key,
        value and balance. */
    method BaseNodeSwap(a: Id, b: Id)
      requires Wf() && a in Ids(shape) && b in Ids(shape)
      modifies this
      ensures Wf() && shape == Rename(old(shape), a, b)
      ensures link == SwapLinks(old(link), a, b) && root == SwOpt(old(root), a, b)
      ensures key == old(key) && value == old(value) && balance == old(balance) && nextId == old(nextId)
    {
      SwapWf(link, key, value, balance, root, nextId, shape, a, b);
      SetLinks(SwapLinks(link, a, b), SwOpt(root, a, b), Rename(shape, a, b));
    }

    /** The AVL `nodeSwap`: the base swap, then the two nodes exchange their
        balance factors as well, so that every position keeps its balance. */
    method NodeSwap(n1: Id, n2: Id)
      requires Wf() && n1 in Ids(shape) && n2 in Ids(shape)
      modifies this
      ensures Wf() && shape == Rename(old(shape), n1, n2) && link == SwapLinks(old(link), n1, n2)
      ensures balance == SwapBal(old(balance), n1, n2)
      ensures key == old(key) && value == old(value) && nextId == old(nextId)
      ensures old(Balanced()) ==> Balanced()
    {
      ghost var bal0, shape0 := balance, shape;
      BaseNodeSwap(n1, n2);
      var tempB := balance[n1];
      SetBalance(n1, balance[n2]);
      SetBalance(n2, tempB);
      if BalOK(bal0, shape0) {
        SwapBalOK(bal0, shape0, n1, n2);
      }
    }

    /** `remove`: a node with two children first trades places with its
        in-order predecessor, which has no right child; the node, now with
        at most one child, is then unlinked. The tree stays ordered and well
        linked and its contents lose `k`; an absent key changes nothing. */
    method Remove(k: int)
      requires Valid()
      modifies this
      ensures Valid() && Contents() == old(Contents()) - {k}
      ensures k !in old(Contents()) ==>
        shape == old(shape) && link == old(link) && key == old(key) && balance == old(balance) &&
        value == old(value) && root == old(root) && nextId == old(nextId)
    {
      var found := InternalFind(k);
      if found.None? {
        return;
      }
      var x := found.value;
      ghost var c, s := Locate(Top, shape, x);
      FixReads(link, c, s);
      InOrderAround(c, s);
      InOrderMembers(shape);
      ghost var key0, value0 := key, value;
      ghost var p, q := Before(c) + InOrder(s.left), InOrder(s.right) + After(c);
      if link[x].left.Some? && link[x].right.Some? {
        var pred := Predecessor(x, c, s);
        ghost var u := PredecessorSplit(Before(c), InOrder(s.left), x, q);
        SwapInOrder(shape, u, pred, x, q);
        NodeSwap(x, pred);
        Detach(x, u, [pred] + q);
      } else {
        Detach(x, p, q);
      }
      RemoveContents(key0, value0, p, x, q);
    }

    /** The part of `remove` after the swap: node `x` has at most one child,
        which takes `x`'s place (`Unlink`); then `removeFix` runs from `x`'s
        parent. The record of `x` is released before `removeFix` runs, which
        never reaches `x` again. */
    method Detach(x: Id, ghost p: seq<Id>, ghost q: seq<Id>)
      requires Wf() && InOrder(shape) == p + [x] + q
      requires x in link && (link[x].left == None || link[x].right == None)
      modifies this
      ensures Wf() && InOrder(shape) == p + q
      ensures key == old(key) - {x} && value == old(value) - {x}
    {
      ghost var c, s := Locate(Top, shape, x);
      FixReads(link, c, s);
      InOrderAround(c, s);
      UnlinkInOrder(c, s);
      DistinctNoDup(shape);
      NoDupSplit(InOrder(shape), x, p, q, Before(c) + InOrder(s.left), InOrder(s.right) + After(c));
      var parent, diff := Unlink(x, c, s);
      if parent.Some? {
        RemoveFix(parent, diff, Outer(c), Enclose(c, Survivor(s)));
      }
    }

    /** The splice of `remove`: node `x`, with at most one child, is replaced
        by that child (or by null) under its parent, or as the root, and its
        record is released. Returns the parent of `x` and the side `x` hung
        on, as the `diff` that `removeFix` is started with: 1 for a left
        child, -1 for a right child, 0 for the root. */
    method Unlink(x: Id, ghost c: Ctx, ghost s: Tree) returns (parent: Option<Id>, diff: int)
      requires Wf() && shape == Plug(c, s) && s.Node? && s.id == x && (s.left == Nil || s.right == Nil)
      modifies this
      ensures Wf() && shape == Plug(c, Survivor(s))
      ensures root == (if c == Top then RootOf(Survivor(s)) else old(root))
      ensures key == old(key) - {x} && value == old(value) - {x} && balance == old(balance) - {x}
      ensures nextId == old(nextId)
      ensures parent == HoleParent(c) && diff == (if c.LeftOf? then 1 else if c.RightOf? then -1 else 0)
    {
      FixReads(link, c, s);
      assert root == Some(x) <==> c == Top;
      parent := link[x].parent;
      var child := if link[x].left.Some? then link[x].left else link[x].right;
      diff := 0;
      if parent.Some? {
        if link[parent.value].left == Some(x) {
          diff := 1;
        } else {
          diff := -1;
        }
      }
      UnlinkWf(link, key, value, balance, root, nextId, c, s);
      var g := link;
      var r := root;
      if root == Some(x) {
        r := child;
      } else if g[parent.value].left == Some(x) {
        g := g[parent.value := g[parent.value].(left := child)];
      } else {
        g := g[parent.value := g[parent.value].(right := child)];
      }
      if child.Some? {
        g := g[child.value := g[child.value].(parent := parent)];
      }
      g := g - {x};
      assert g == UnlinkLinks(link, c, x, child);
      Install(g, key - {x}, value - {x}, balance - {x}, r, nextId, Plug(c, Survivor(s)));
    }

    /** `removeFix(n, diff)`: the subtree of `n` lost a level on the side
        `diff` points away from. Adds `diff` to the balance of `n`; at 0 it
        moves up, at -1/+1 it stops, at -2/+2 it rotates once or twice, sets
        the balances its tables give and moves up. A null `n` ends the walk;
        so does a missing child or grandchild where the rotation needs one.
        The links, the in-order sequence and the keys stay intact. */
    method RemoveFix(n: Option<Id>, diff: int, ghost c: Ctx, ghost s: Tree)
      requires Wf() && shape == Plug(c, s) && (n.Some? ==> s.Node? && s.id == n.value)
      modifies this
      ensures Wf() && InOrder(shape) == old(InOrder(shape))
      ensures key == old(key) && value == old(value) && nextId == old(nextId)
      ensures n.None? ==> link == old(link) && root == old(root) && shape == old(shape) && balance == old(balance)
      ensures n.Some? && n.value in old(balance) &&
              (old(balance)[n.value] + diff == 1 || old(balance)[n.value] + diff == -1) ==>
              shape == old(shape) && link == old(link) && root == old(root) &&
              balance == old(balance)[n.value := old(balance)[n.value] + diff]
      decreases c, if n.Some? then 2 else 0
    {
      if n.None? {
        return;
      }
      var node := n.value;
      FixReads(link, c, s);
      var parent := link[node].parent;
      var ndiff := 0;
      if parent.Some? && link[parent.value].left == Some(node) {
        ndiff := 1;
      } else if parent.Some? {
        ndiff := -1;
      }
      UpdateBalance(node, diff);
      if balance[node] == 0 {
        RemoveFix(parent, ndiff, Outer(c), Enclose(c, s));
        return;
      } else if balance[node] == 1 || balance[node] == -1 {
        return;
      }
      var rotated := false;
      ghost var t := s;
      if balance[node] == -2 {
        rotated, t := RemoveFixLeft(node, c, s);
      } else if balance[node] == 2 {
        rotated, t := RemoveFixRight(node, c, s);
      }
      if rotated {
        RemoveFix(parent, ndiff, Outer(c), Enclose(c, t));
      }
    }

    /** The -2 case of `removeFix`: a right rotation at `node` when its left
        child leans left or not at all, else a left rotation at the child and
        a right rotation at `node`, each with its balance writes. `t` is the
        subtree that then fills the hole of `c`; `rotated` is false when the
        child, or the grandchild the double rotation needs, is missing, and
        then nothing changes. */
    method RemoveFixLeft(node: Id, ghost c: Ctx, ghost s: Tree) returns (rotated: bool, ghost t: Tree)
      requires Wf() && shape == Plug(c, s) && s.Node? && s.id == node
      modifies this
      ensures Wf() && shape == Plug(c, t) && InOrder(shape) == old(InOrder(shape))
      ensures key == old(key) && value == old(value) && nextId == old(nextId)
      ensures node in old(balance) && (s.left.Node? ==> s.left.id in old(balance))
      ensures s.left.Node? && s.left.right.Node? ==> s.left.right.id in old(balance)
      ensures rotated <==> s.left.Node? && (old(balance)[s.left.id] <= 0 || s.left.right.Node?)
      ensures !rotated ==> t == s && link == old(link) && root == old(root) && balance == old(balance)
      ensures s.left.Node? && old(balance)[s.left.id] <= 0 ==>
              t == RotR(s) && balance == old(balance)[node := -old(balance)[s.left.id]][s.left.id := 0]
      ensures s.left.Node? && s.left.right.Node? && old(balance)[s.left.id] > 0 ==>
              var ch, gc := s.left.id, s.left.right.id;
              t == RotR(Node(RotL(s.left), node, s.right)) &&
              (old(balance)[gc] == -1 ==> balance == old(balance)[node := 1][ch := 0][gc := 0]) &&
              (old(balance)[gc] == 0 ==> balance == old(balance)[node := 0][ch := 0][gc := 0]) &&
              (old(balance)[gc] != -1 && old(balance)[gc] != 0 ==>
                 balance == old(balance)[node := 0][ch := -1][gc := 0])
    {
      FixReads(link, c, s);
      rotated := false;
      t := s;
      var child := link[node].left;
      if child.None? {
        return;
      }
      var ch := child.value;
      FixReads(link, LeftOf(c, node, s.right), s.left);
      if balance[ch] <= 0 {
        RemoveFixLeftSingle(node, ch, c, s);
        rotated := true;
        t := RotR(s);
      } else {
        var grand := link[ch].right;
        if grand.None? {
          return;
        }
        RemoveFixLeftDouble(node, ch, grand.value, c, s);
        rotated := true;
        t := RotR(Node(RotL(s.left), node, s.right));
      }
    }

    /** The mirror image: the +2 case of `removeFix`. */
    method RemoveFixRight(node: Id, ghost c: Ctx, ghost s: Tree) returns (rotated: bool, ghost t: Tree)
      requires Wf() && shape == Plug(c, s) && s.Node? && s.id == node
      modifies this
      ensures Wf() && shape == Plug(c, t) && InOrder(shape) == old(InOrder(shape))
      ensures key == old(key) && value == old(value) && nextId == old(nextId)
      ensures node in old(balance) && (s.right.Node? ==> s.right.id in old(balance))
      ensures s.right.Node? && s.right.left.Node? ==> s.right.left.id in old(balance)
      ensures rotated <==> s.right.Node? && (old(balance)[s.right.id] >= 0 || s.right.left.Node?)
      ensures !rotated ==> t == s && link == old(link) && root == old(root) && balance == old(balance)
      ensures s.right.Node? && old(balance)[s.right.id] >= 0 ==>
              t == RotL(s) && balance == old(balance)[node := -old(balance)[s.right.id]][s.right.id := 0]
      ensures s.right.Node? && s.right.left.Node? && old(balance)[s.right.id] < 0 ==>
              var ch, gc := s.right.id, s.right.left.id;
              t == RotL(Node(s.left, node, RotR(s.right))) &&
              (old(balance)[gc] == 1 ==> balance == old(balance)[node := -1][ch := 0][gc := 0]) &&
              (old(balance)[gc] == 0 ==> balance == old(balance)[node := 0][ch := 0][gc := 0]) &&
              (old(balance)[gc] != 1 && old(balance)[gc] != 0 ==>
                 balance == old(balance)[node := 0][ch := 1][gc := 0])
    {
      FixReads(link, c, s);
      rotated := false;
      t := s;
      var child := link[node].right;
      if child.None? {
        return;
      }
      var ch := child.value;
      FixReads(link, RightOf(c, s.left, node), s.right);
      if balance[ch] >= 0 {
        RemoveFixRightSingle(node, ch, c, s);
        rotated := true;
        t := RotL(s);
      } else {
        var grand := link[ch].left;
        if grand.None? {
          return;
        }
        RemoveFixRightDouble(node, ch, grand.value, c, s);
        rotated := true;
        t := RotL(Node(s.left, node, RotR(s.right)));
      }
    }

    /** The single rotation of the -2 case of `removeFix`: a right rotation
        at `node`, whose left child is `ch`; then `node` stores the negated
        old balance of `ch`, and `ch` stores 0. When the subtrees below were
        correct and the left one two levels taller, those two values are
        never the true height differences, so the tree is left unbalanced. */
    method RemoveFixLeftSingle(node: Id, ch: Id, ghost c: Ctx, ghost s: Tree)
      requires Wf() && shape == Plug(c, s) && s.Node? && s.id == node && s.left.Node? && s.left.id == ch
      modifies this
      ensures Wf() && shape == Plug(c, RotR(s)) && InOrder(shape) == old(InOrder(shape))
      ensures key == old(key) && value == old(value) && nextId == old(nextId)
      ensures node in old(balance) && ch in old(balance)
      ensures balance == old(balance)[node := -old(balance)[ch]][ch := 0]
      ensures BalOK(old(balance), s.left) && BalOK(old(balance), s.right) &&
              Height(s.left) == Height(s.right) + 2 && old(balance)[ch] <= 0 ==>
              !Balanced()
    {
      FixReads(link, c, s);
      PlugDistinct(c, s);
      ghost var bal0 := balance;
      var cb := balance[ch];
      if BalOK(bal0, s.left) && BalOK(bal0, s.right) && Height(s.left) == Height(s.right) + 2 && cb <= 0 {
        RemoveFixLeftSingleBal(bal0, c, s);
      }
      RotateRight(node, c, s);
      SetBalance(node, -cb);
      SetBalance(ch, 0);
    }

    /** The double rotation of the -2 case of `removeFix`: `ch` is the left
        child of `node` and `gc` the right child of `ch`. A left rotation at
        `ch` and a right rotation at `node` lift `gc` into their place; the
        old balance of `gc` then selects the new balances of `node` and `ch`,
        and `gc` stores 0. When the subtrees below were correct, the left one
        two levels taller and `ch` leaning right, the rotated subtree is
        correct. */
    method RemoveFixLeftDouble(node: Id, ch: Id, gc: Id, ghost c: Ctx, ghost s: Tree)
      requires Wf() && shape == Plug(c, s) && s.Node? && s.id == node && s.left.Node? && s.left.id == ch
      requires s.left.right.Node? && s.left.right.id == gc
      modifies this
      ensures Wf() && shape == Plug(c, RotR(Node(RotL(s.left), node, s.right)))
      ensures InOrder(shape) == old(InOrder(shape))
      ensures key == old(key) && value == old(value) && nextId == old(nextId)
      ensures node in old(balance) && ch in old(balance) && gc in old(balance)
      ensures old(balance)[gc] == -1 ==> balance == old(balance)[node := 1][ch := 0][gc := 0]
      ensures old(balance)[gc] == 0 ==> balance == old(balance)[node := 0][ch := 0][gc := 0]
      ensures old(balance)[gc] != -1 && old(balance)[gc] != 0 ==>
              balance == old(balance)[node := 0][ch := -1][gc := 0]
      ensures BalOK(old(balance), s.left) && BalOK(old(balance), s.right) &&
              Height(s.left) == Height(s.right) + 2 && old(balance)[ch] > 0 ==>
              BalOK(balance, RotR(Node(RotL(s.left), node, s.right)))
    {
      FixReads(link, c, s);
      FixReads(link, LeftOf(c, node, s.right), s.left);
      PlugDistinct(c, s);
      assert Distinct(s) && node in balance && ch in balance && gc in balance;
      ghost var bal0 := balance;
      if BalOK(bal0, s.left) && BalOK(bal0, s.right) && Height(s.left) == Height(s.right) + 2 && bal0[ch] > 0 {
        RemoveFixLeftDoubleBal(bal0, s);
      }
      RotateLeft(ch, LeftOf(c, node, s.right), s.left);
      RotateRight(node, c, Node(RotL(s.left), node, s.right));
      RemoveFixLeftDoubleTable(node, ch, gc);
    }

    /** The balance table of the double rotation of the -2 case,
        keyed on the balance of the grandchild `gc`: `node` and `ch` get
        1 and 0, 0 and 0, or 0 and -1, and `gc` gets 0. */
    method RemoveFixLeftDoubleTable(node: Id, ch: Id, gc: Id)
      requires Wf() && node in balance && ch in balance && gc in balance
      modifies this
      ensures Wf() && link == old(link) && root == old(root) && shape == old(shape)
      ensures key == old(key) && value == old(value) && nextId == old(nextId)
      ensures old(balance)[gc] == -1 ==> balance == old(balance)[node := 1][ch := 0][gc := 0]
      ensures old(balance)[gc] == 0 ==> balance == old(balance)[node := 0][ch := 0][gc := 0]
      ensures old(balance)[gc] != -1 && old(balance)[gc] != 0 ==>
              balance == old(balance)[node := 0][ch := -1][gc := 0]
    {
      if balance[gc] == -1 {
        SetBalance(node, 1);
        SetBalance(ch, 0);
      } else if balance[gc] == 0 {
        SetBalance(node, 0);
        SetBalance(ch, 0);
      } else {
        SetBalance(node, 0);
        SetBalance(ch, -1);
      }
      SetBalance(gc, 0);
    }

    /** The mirror image of `RemoveFixLeftSingle`: the single left rotation
        of the +2 case. */
    method RemoveFixRightSingle(node: Id, ch: Id, ghost c: Ctx, ghost s: Tree)
      requires Wf() && shape == Plug(c, s) && s.Node? && s.id == node && s.right.Node? && s.right.id == ch
      modifies this
      ensures Wf() && shape == Plug(c, RotL(s)) && InOrder(shape) == old(InOrder(shape))
      ensures key == old(key) && value == old(value) && nextId == old(nextId)
      ensures node in old(balance) && ch in old(balance)
      ensures balance == old(balance)[node := -old(balance)[ch]][ch := 0]
      ensures BalOK(old(balance), s.left) && BalOK(old(balance), s.right) &&
              Height(s.right) == Height(s.left) + 2 && old(balance)[ch] >= 0 ==>
              !Balanced()
    {
      FixReads(link, c, s);
      PlugDistinct(c, s);
      ghost var bal0 := balance;
      var cb := balance[ch];
      if BalOK(bal0, s.left) && BalOK(bal0, s.right) && Height(s.right) == Height(s.left) + 2 && cb >= 0 {
        RemoveFixRightSingleBal(bal0, c, s);
      }
      RotateLeft(node, c, s);
      SetBalance(node, -cb);
      SetBalance(ch, 0);
    }

    /** The mirror image of `RemoveFixLeftDouble`: `ch` is the right child
        of `node` and `gc` the left child of `ch`; a right rotation at `ch`
        and a left rotation at `node` lift `gc`. */
    method RemoveFixRightDouble(node: Id, ch: Id, gc: Id, ghost c: Ctx, ghost s: Tree)
      requires Wf() && shape == Plug(c, s) && s.Node? && s.id == node && s.right.Node? && s.right.id == ch
      requires s.right.left.Node? && s.right.left.id == gc
      modifies this
      ensures Wf() && shape == Plug(c, RotL(Node(s.left, node, RotR(s.right))))
      ensures InOrder(shape) == old(InOrder(shape))
      ensures key == old(key) && value == old(value) && nextId == old(nextId)
      ensures node in old(balance) && ch in old(balance) && gc in old(balance)
      ensures old(balance)[gc] == 1 ==> balance == old(balance)[node := -1][ch := 0][gc := 0]
      ensures old(balance)[gc] == 0 ==> balance == old(balance)[node := 0][ch := 0][gc := 0]
      ensures old(balance)[gc] != 1 && old(balance)[gc] != 0 ==>
              balance == old(balance)[node := 0][ch := 1][gc := 0]
      ensures BalOK(old(balance), s.left) && BalOK(old(balance), s.right) &&
              Height(s.right) == Height(s.left) + 2 && old(balance)[ch] < 0 ==>
              BalOK(balance, RotL(Node(s.left, node, RotR(s.right))))
    {
      FixReads(link, c, s);
      FixReads(link, RightOf(c, s.left, node), s.right);
      PlugDistinct(c, s);
      assert Distinct(s) && node in balance && ch in balance && gc in balance;
      ghost var bal0 := balance;
      if BalOK(bal0, s.left) && BalOK(bal0, s.right) && Height(s.right) == Height(s.left) + 2 && bal0[ch] < 0 {
        RemoveFixRightDoubleBal(bal0, s);
      }
      RotateRight(ch, RightOf(c, s.left, node), s.right);
      RotateLeft(node, c, Node(s.left, node, RotR(s.right)));
      RemoveFixRightDoubleTable(node, ch, gc);
    }

    /** The balance table of the double rotation of the +2 case,
        keyed on the balance of the grandchild `gc`: `node` and `ch` get
        -1 and 0, 0 and 0, or 0 and 1, and `gc` gets 0. */
    method RemoveFixRightDoubleTable(node: Id, ch: Id, gc: Id)
      requires Wf() && node in balance && ch in balance && gc in balance
      modifies this
      ensures Wf() && link == old(link) && root == old(root) && shape == old(shape)
      ensures key == old(key) && value == old(value) && nextId == old(nextId)
      ensures old(balance)[gc] == 1 ==> balance == old(balance)[node := -1][ch := 0][gc := 0]
      ensures old(balance)[gc] == 0 ==> balance == old(balance)[node := 0][ch := 0][gc := 0]
      ensures old(balance)[gc] != 1 && old(balance)[gc] != 0 ==>
              balance == old(balance)[node := 0][ch := 1][gc := 0]
    {
      if balance[gc] == 1 {
        SetBalance(node, -1);
        SetBalance(ch, 0);
      } else if balance[gc] == 0 {
        SetBalance(node, 0);
        SetBalance(ch, 0);
      } else {
        SetBalance(node, 0);
        SetBalance(ch, 1);
      }
      SetBalance(gc, 0);
    }
  }
}
