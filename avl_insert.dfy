/**
 * The steps of `insert` on the arena: the descent by key comparison, the
 * overwrite of an existing key's value, and the attachment of a new leaf
 * below the last node visited, with what each does to the ordering, the
 * contents and the balance factors.
 */
module InsertSteps {
  import opened Shapes
  import opened Arena
  import opened InsertBalance

  /** Every node along `s` carries a key below `k`. */
  ghost predicate KeysBelow(key: map<Id, int>, s: seq<Id>, k: int) {
    forall j :: 0 <= j < |s| ==> s[j] in key && key[s[j]] < k
  }

  /** Every node along `s` carries a key above `k`. */
  ghost predicate KeysAbove(key: map<Id, int>, s: seq<Id>, k: int) {
    forall j :: 0 <= j < |s| ==> s[j] in key && k < key[s[j]]
  }

  /** A node with key above `k`, followed by nodes with keys above its own,
      gives a sequence with every key above `k`. */
  lemma KeysAboveAfter(key: map<Id, int>, x: Id, r: seq<Id>, a: seq<Id>, k: int)
    requires x in key && k < key[x]
    requires forall j :: 0 <= j < |r + a| ==> (r + a)[j] in key && key[x] < key[(r + a)[j]]
    ensures KeysAbove(key, [x] + r + a, k)
  {
    var s := [x] + r + a;
    forall j | 0 <= j < |s| ensures s[j] in key && k < key[s[j]] {
      if j > 0 {
        assert s[j] == (r + a)[j - 1];
      }
    }
  }

  /** Nodes with keys below that of `x`, followed by `x` whose key is below
      `k`, give a sequence with every key below `k`. */
  lemma KeysBelowBefore(key: map<Id, int>, b: seq<Id>, l: seq<Id>, x: Id, k: int)
    requires x in key && key[x] < k
    requires forall j :: 0 <= j < |b + l| ==> (b + l)[j] in key && key[(b + l)[j]] < key[x]
    ensures KeysBelow(key, b + l + [x], k)
  {
    var s := b + l + [x];
    forall j | 0 <= j < |s| ensures s[j] in key && key[s[j]] < k {
      if j < |b + l| {
        assert s[j] == (b + l)[j];
      }
    }
  }

  /** Stepping left at a node whose key exceeds `k` keeps every key after
      the hole above `k`: the node itself and its right subtree join them. */
  lemma DescendLeft(key: map<Id, int>, c: Ctx, s: Tree, k: int)
    requires Sorted(key, InOrder(Plug(c, s))) && s.Node? && s.id in key && k < key[s.id]
    requires KeysAbove(key, After(c), k)
    ensures KeysAbove(key, After(LeftOf(c, s.id, s.right)), k)
    ensures Before(LeftOf(c, s.id, s.right)) == Before(c)
  {
    InOrderAround(c, s);
    SortedSplit(key, Before(c) + InOrder(s.left), s.id, InOrder(s.right) + After(c));
    KeysAboveAfter(key, s.id, InOrder(s.right), After(c), k);
  }

  /** Stepping right at a node whose key is below `k` keeps every key before
      the hole below `k`. */
  lemma DescendRight(key: map<Id, int>, c: Ctx, s: Tree, k: int)
    requires Sorted(key, InOrder(Plug(c, s))) && s.Node? && s.id in key && key[s.id] < k
    requires KeysBelow(key, Before(c), k)
    ensures KeysBelow(key, Before(RightOf(c, s.left, s.id)), k)
    ensures After(RightOf(c, s.left, s.id)) == After(c)
  {
    InOrderAround(c, s);
    SortedSplit(key, Before(c) + InOrder(s.left), s.id, InOrder(s.right) + After(c));
    KeysBelowBefore(key, Before(c), InOrder(s.left), s.id, k);
  }

  /** At the end of the descent the hole hangs on the left of its parent
      exactly when `k` is below the parent's key. */
  lemma HoleSide(key: map<Id, int>, c: Ctx, k: int)
    requires c != Top && KeysBelow(key, Before(c), k) && KeysAbove(key, After(c), k)
    ensures c.id in key && (c.LeftOf? <==> k < key[c.id])
  {
    match c
    case LeftOf(up, i, r) =>
      assert After(c)[0] == i;
    case RightOf(up, l, i) =>
      assert Before(c)[|Before(c)| - 1] == i;
  }

  /** When the descent ends in an empty hole, no node carries `k`. */
  lemma ItemsAbsentAtHole<V>(key: map<Id, int>, value: map<Id, V>, c: Ctx, k: int)
    requires KeysBelow(key, Before(c), k) && KeysAbove(key, After(c), k)
    ensures k !in Items(key, value, InOrder(Plug(c, Nil)))
  {
    PlugInOrder(c, Nil);
    var b, a := Before(c), After(c);
    assert InOrder(Plug(c, Nil)) == b + a;
    forall j | 0 <= j < |b + a| ensures (b + a)[j] in key && key[(b + a)[j]] != k {
      if j < |b| {
        assert (b + a)[j] == b[j];
      } else {
        assert (b + a)[j] == a[j - |b|];
      }
    }
    ItemsAbsent(key, value, b + a, k);
  }

  /** A node of the tree is on its in-order sequence. */
  lemma InInOrder(t: Tree, i: Id)
    requires i in Ids(t)
    ensures i in InOrder(t)
  {
    InOrderIds(t);
  }

  /** Every entry of the in-order sequence is a node of the tree. */
  lemma InOrderMembers(t: Tree)
    ensures forall j :: 0 <= j < |InOrder(t)| ==> InOrder(t)[j] in Ids(t)
  {
    InOrderIds(t);
    forall j | 0 <= j < |InOrder(t)| ensures InOrder(t)[j] in Ids(t) {
      assert InOrder(t)[j] in InOrder(t);
    }
  }

  /** Overwriting the value of the node that carries key `key[x]` sets that
      key's entry in the contents and nothing else. */
  lemma SetValueContents<V>(link: map<Id, Link>, key: map<Id, int>, value: map<Id, V>, balance: map<Id, int>,
                            root: Option<Id>, nextId: nat, t: Tree, x: Id, v: V)
    requires WellFormed(link, key, value, balance, root, nextId, t) && Sorted(key, InOrder(t)) && x in Ids(t)
    ensures Items(key, value[x := v], InOrder(t)) == Items(key, value, InOrder(t))[key[x] := v]
  {
    InOrderIds(t);
    InInOrder(t, x);
    ItemsSetValue(key, value, InOrder(t), x, v);
  }

  /** A new node in an empty arena is a well-formed, ordered, balanced
      one-node tree holding just `k := v`. */
  lemma NewRoot<V>(link: map<Id, Link>, key: map<Id, int>, value: map<Id, V>, balance: map<Id, int>,
                   root: Option<Id>, nextId: nat, k: int, v: V)
    requires WellFormed(link, key, value, balance, root, nextId, Nil)
    ensures var t := Node(Nil, nextId, Nil);
      WellFormed(link[nextId := Link(None, None, None)], key[nextId := k], value[nextId := v], balance[nextId := 0],
                 Some(nextId), nextId + 1, t) &&
      Sorted(key[nextId := k], InOrder(t)) && BalOK(balance[nextId := 0], t) &&
      Items(key[nextId := k], value[nextId := v], InOrder(t)) == map[k := v] &&
      Items(key, value, InOrder(Nil)) == map[]
  {
    var id := nextId;
    assert InOrder(Node(Nil, id, Nil)) == [id];
    assert [id][1..] == [];
  }

  /** The link records after allocating a leaf `id` with parent `p` and
      linking it as `p`'s left (`left`) or right child. */
  ghost function LeafLinks(link: map<Id, Link>, p: Id, id: Id, left: bool): map<Id, Link>
    requires p in link
  {
    var g := link[id := Link(Some(p), None, None)];
    if left then g[p := g[p].(left := Some(id))]
    else g[p := g[p].(right := Some(id))]
  }

  /** The links after attaching a fresh leaf describe the tree with the
      leaf in the hole. */
  lemma AddLeafLinked(link: map<Id, Link>, c: Ctx, id: Id)
    requires Linked(link, Plug(c, Nil), None) && Distinct(Plug(c, Nil)) && c != Top
    requires id !in Ids(Plug(c, Nil))
    ensures c.id in link && Linked(LeafLinks(link, c.id, id, c.LeftOf?), Plug(c, Node(Nil, id, Nil)), None)
  {
    var leaf := Node(Nil, id, Nil);
    PlugIds(c, Nil);
    PlugLinked(link, c, Nil);
    PlugDistinct(c, Nil);
    assert c.id in CtxIds(c);
    var g := LeafLinks(link, c.id, id, c.LeftOf?);
    CtxLinkedHole(link, g, c, None, Some(id));
    assert Linked(g, leaf, HoleParent(c));
    PlugLinked(g, c, leaf);
  }

  /** Attaching a fresh leaf in the hole keeps the arena well formed. */
  lemma AddLeafWf<V>(link: map<Id, Link>, key: map<Id, int>, value: map<Id, V>, balance: map<Id, int>,
                     root: Option<Id>, nextId: nat, c: Ctx, k: int, v: V)
    requires WellFormed(link, key, value, balance, root, nextId, Plug(c, Nil)) && c != Top
    ensures c.id in link && nextId !in Ids(Plug(c, Nil))
    ensures WellFormed(LeafLinks(link, c.id, nextId, c.LeftOf?), key[nextId := k], value[nextId := v], balance[nextId := 0],
                       root, nextId + 1, Plug(c, Node(Nil, nextId, Nil)))
  {
    var leaf := Node(Nil, nextId, Nil);
    assert nextId !in Ids(Plug(c, Nil));
    AddLeafLinked(link, c, nextId);
    PlugIds(c, Nil);
    PlugIds(c, leaf);
    PlugDistinct(c, Nil);
    PlugDistinct(c, leaf);
    PlugRootOf(c, Nil, leaf);
  }

  /** The new leaf takes its place in key order. */
  lemma AddLeafSorted(key: map<Id, int>, c: Ctx, id: Id, k: int)
    requires Sorted(key, InOrder(Plug(c, Nil))) && id !in InOrder(Plug(c, Nil))
    requires KeysBelow(key, Before(c), k) && KeysAbove(key, After(c), k)
    ensures Sorted(key[id := k], InOrder(Plug(c, Node(Nil, id, Nil))))
  {
    PlugInOrder(c, Nil);
    PlugInOrder(c, Node(Nil, id, Nil));
    assert InOrder(Plug(c, Nil)) == Before(c) + After(c);
    assert InOrder(Plug(c, Node(Nil, id, Nil))) == Before(c) + [id] + After(c);
    SortedInsert(key, Before(c), id, After(c), k);
  }

  /** The new leaf adds exactly the pair `k := v` to the contents. */
  lemma AddLeafItems<V>(link: map<Id, Link>, key: map<Id, int>, value: map<Id, V>, balance: map<Id, int>,
                        root: Option<Id>, nextId: nat, c: Ctx, k: int, v: V)
    requires WellFormed(link, key, value, balance, root, nextId, Plug(c, Nil))
    requires KeysBelow(key, Before(c), k)
    ensures Items(key[nextId := k], value[nextId := v], InOrder(Plug(c, Node(Nil, nextId, Nil)))) ==
            Items(key, value, InOrder(Plug(c, Nil)))[k := v]
  {
    var id := nextId;
    var key', value' := key[id := k], value[id := v];
    PlugInOrder(c, Nil);
    PlugInOrder(c, Node(Nil, id, Nil));
    var b, a := Before(c), After(c);
    assert InOrder(Plug(c, Nil)) == b + a;
    assert InOrder(Plug(c, Node(Nil, id, Nil))) == b + [id] + a;
    InOrderMembers(Plug(c, Nil));
    forall j | 0 <= j < |b| ensures b[j] in key' && key'[b[j]] != k {
      assert (b + a)[j] == b[j];
    }
    ItemsMiddle(key', value', b, id, a);
    ItemsFrame(key, value, key', value', b + a);
  }

  /** The balances after a new leaf `id` is attached left of `p`: the leaf
      gets 0 and `p` is decremented. If `p` ends at 0 the tree is balanced;
      otherwise `p`'s subtree grew by one level towards `id` and `insertFix`
      is entered in the state `Grown`. */
  lemma LeafLeft(bal: map<Id, int>, up: Ctx, p: Id, r: Tree, id: Id)
    requires Distinct(Plug(up, Node(Nil, p, r))) && id !in Ids(Plug(up, Node(Nil, p, r))) && p in bal
    ensures p in bal[id := 0]
    ensures var b := bal[id := 0][p := bal[id := 0][p] - 1];
      BalOK(bal, Plug(up, Node(Nil, p, r))) ==>
      (b[p] == 0 ==> BalOK(b, Plug(up, Node(Node(Nil, id, Nil), p, r)))) &&
      (b[p] != 0 ==> Grown(b, up, Node(Node(Nil, id, Nil), p, r), id))
  {
    var t := Node(Nil, p, r);
    if !BalOK(bal, Plug(up, t)) {
      return;
    }
    PlugBal(bal, up, t);
    PlugIds(up, t);
    PlugNodeDistinct(up, Nil, p, r);
    assert p != id && p in Ids(t);
    var b := bal[id := 0][p := bal[p] - 1];
    BalOKUpdate2(bal, r, id, 0, p, bal[p] - 1);
    CtxBalOKUpdate2(bal, up, Height(t), id, 0, p, bal[p] - 1);
    var t' := Node(Node(Nil, id, Nil), p, r);
    assert bal[p] == Height(r) && b[p] == Height(r) - 1;
    assert BalOK(b, t');
    if b[p] == 0 {
      assert Height(r) == 1 && Height(t') == Height(t);
      PlugBal(b, up, t');
    } else {
      assert Height(r) == 0 && Height(t) == 1 && Height(t') == 2;
    }
  }

  /** The mirror image: the leaf attached right of `p`, which is incremented. */
  lemma LeafRight(bal: map<Id, int>, up: Ctx, l: Tree, p: Id, id: Id)
    requires Distinct(Plug(up, Node(l, p, Nil))) && id !in Ids(Plug(up, Node(l, p, Nil))) && p in bal
    ensures p in bal[id := 0]
    ensures var b := bal[id := 0][p := bal[id := 0][p] + 1];
      BalOK(bal, Plug(up, Node(l, p, Nil))) ==>
      (b[p] == 0 ==> BalOK(b, Plug(up, Node(l, p, Node(Nil, id, Nil))))) &&
      (b[p] != 0 ==> Grown(b, up, Node(l, p, Node(Nil, id, Nil)), id))
  {
    var t := Node(l, p, Nil);
    if !BalOK(bal, Plug(up, t)) {
      return;
    }
    PlugBal(bal, up, t);
    PlugIds(up, t);
    PlugNodeDistinct(up, l, p, Nil);
    assert p != id && p in Ids(t);
    var b := bal[id := 0][p := bal[p] + 1];
    BalOKUpdate2(bal, l, id, 0, p, bal[p] + 1);
    CtxBalOKUpdate2(bal, up, Height(t), id, 0, p, bal[p] + 1);
    var t' := Node(l, p, Node(Nil, id, Nil));
    assert bal[p] + Height(l) == 0 && b[p] + Height(l) == 1;
    assert BalOK(b, t');
    if b[p] == 0 {
      assert Height(l) == 1 && Height(t') == Height(t);
      PlugBal(b, up, t');
    } else {
      assert Height(l) == 0 && Height(t) == 1 && Height(t') == 2;
    }
  }
}
