/**
 * The arena view of the tree: per-node link records (parent, left, right),
 * what it means for the arena's links to describe a given shape, what it
 * means for the stored balance factors to be correct, and the key/value
 * contents read along the in-order sequence.
 */
module Arena {
  import opened Shapes

  /** The three pointers of a node; `None` is the null pointer. */
  datatype Link = Link(parent: Option<Id>, left: Option<Id>, right: Option<Id>)

  /** The links of `g` describe the shape `t`, whose root has parent `p`. */
  ghost predicate Linked(g: map<Id, Link>, t: Tree, p: Option<Id>) {
    match t
    case Nil => true
    case Node(l, i, r) =>
      i in g && g[i] == Link(p, RootOf(l), RootOf(r)) &&
      Linked(g, l, Some(i)) && Linked(g, r, Some(i))
  }

  /** The links of `g` describe the context `c`, whose hole holds the node `h`. */
  ghost predicate CtxLinked(g: map<Id, Link>, c: Ctx, h: Option<Id>) {
    match c
    case Top => true
    case LeftOf(up, i, r) =>
      i in g && g[i] == Link(HoleParent(up), h, RootOf(r)) &&
      Linked(g, r, Some(i)) && CtxLinked(g, up, Some(i))
    case RightOf(up, l, i) =>
      i in g && g[i] == Link(HoleParent(up), RootOf(l), h) &&
      Linked(g, l, Some(i)) && CtxLinked(g, up, Some(i))
  }

  /** A whole tree is linked exactly when its context and the plugged
      subtree are, with the subtree's root pointing back to the hole's parent. */
  lemma {:induction false} PlugLinked(g: map<Id, Link>, c: Ctx, t: Tree)
    ensures Linked(g, Plug(c, t), None) <==>
            CtxLinked(g, c, RootOf(t)) && Linked(g, t, HoleParent(c))
  {
    match c
    case Top =>
    case LeftOf(up, i, r) => PlugLinked(g, up, Node(t, i, r));
    case RightOf(up, l, i) => PlugLinked(g, up, Node(l, i, t));
  }

  /** Links describe a tree only through the records of its own nodes. */
  lemma {:induction false} LinkedFrame(g: map<Id, Link>, g': map<Id, Link>, t: Tree, p: Option<Id>)
    requires Linked(g, t, p)
    requires forall i :: i in Ids(t) && i in g ==> i in g' && g'[i] == g[i]
    ensures Linked(g', t, p)
  {
    match t
    case Nil =>
    case Node(l, i, r) =>
      LinkedFrame(g, g', l, Some(i));
      LinkedFrame(g, g', r, Some(i));
  }

  lemma {:induction false} CtxLinkedFrame(g: map<Id, Link>, g': map<Id, Link>, c: Ctx, h: Option<Id>)
    requires CtxLinked(g, c, h)
    requires forall i :: i in CtxIds(c) && i in g ==> i in g' && g'[i] == g[i]
    ensures CtxLinked(g', c, h)
  {
    match c
    case Top =>
    case LeftOf(up, i, r) =>
      LinkedFrame(g, g', r, Some(i));
      CtxLinkedFrame(g, g', up, Some(i));
    case RightOf(up, l, i) =>
      LinkedFrame(g, g', l, Some(i));
      CtxLinkedFrame(g, g', up, Some(i));
  }

  /** Repointing the hole parent's child slot at a new node `h'` relinks the
      context around `h'`. */
  lemma CtxLinkedHole(g: map<Id, Link>, g': map<Id, Link>, c: Ctx, h: Option<Id>, h': Option<Id>)
    requires CtxLinked(g, c, h) && CtxDistinct(c)
    requires forall i :: i in CtxIds(c) && Some(i) != HoleParent(c) && i in g ==> i in g' && g'[i] == g[i]
    requires c.LeftOf? ==> c.id in g' && g'[c.id] == g[c.id].(left := h')
    requires c.RightOf? ==> c.id in g' && g'[c.id] == g[c.id].(right := h')
    ensures CtxLinked(g', c, h')
  {
    match c
    case Top =>
    case LeftOf(up, i, r) =>
      LinkedFrame(g, g', r, Some(i));
      CtxLinkedFrame(g, g', up, Some(i));
    case RightOf(up, l, i) =>
      LinkedFrame(g, g', l, Some(i));
      CtxLinkedFrame(g, g', up, Some(i));
  }

  /** Repointing only the root's parent pointer relinks a subtree under its
      new parent `q`. */
  lemma Reparent(g: map<Id, Link>, g': map<Id, Link>, t: Tree, p: Option<Id>, q: Option<Id>)
    requires Linked(g, t, p) && Distinct(t)
    requires forall i :: i in Ids(t) && Some(i) != RootOf(t) && i in g ==> i in g' && g'[i] == g[i]
    requires t.Node? ==> t.id in g' && g'[t.id] == g[t.id].(parent := q)
    ensures Linked(g', t, q)
  {
    match t
    case Nil =>
    case Node(l, i, r) =>
      LinkedFrame(g, g', l, Some(i));
      LinkedFrame(g, g', r, Some(i));
  }

  /** An optional pointer is null or names a member of `ids`. */
  predicate PtrIn(o: Option<Id>, ids: set<Id>) {
    o.Some? ==> o.value in ids
  }

  /** The structural invariant of the whole arena: the links describe
      `shape` exactly, every node occurs once, `root` names its root, every
      record has all of its fields, and every index lies below `nextId`. */
  ghost predicate WellFormed<V>(link: map<Id, Link>, key: map<Id, int>, value: map<Id, V>,
                                balance: map<Id, int>, root: Option<Id>, nextId: nat, shape: Tree)
  {
    Linked(link, shape, None) && Distinct(shape) && root == RootOf(shape) &&
    link.Keys == Ids(shape) && key.Keys == Ids(shape) &&
    value.Keys == Ids(shape) && balance.Keys == Ids(shape) &&
    (forall i :: i in Ids(shape) ==> i < nextId)
  }

  // ---------------------------------------------------------------------
  // Balance factors.

  /** Every node of `t` stores right height minus left height, in {-1,0,1}. */
  ghost predicate BalOK(bal: map<Id, int>, t: Tree) {
    match t
    case Nil => true
    case Node(l, i, r) =>
      i in bal && bal[i] == Height(r) - Height(l) && -1 <= bal[i] <= 1 &&
      BalOK(bal, l) && BalOK(bal, r)
  }

  /** Every node of `c` stores a correct balance in {-1,0,1}, taking the
      subtree in the hole to have height `h`. */
  ghost predicate CtxBalOK(bal: map<Id, int>, c: Ctx, h: int) {
    match c
    case Top => true
    case LeftOf(up, i, r) =>
      i in bal && bal[i] == Height(r) - h && -1 <= bal[i] <= 1 &&
      BalOK(bal, r) && CtxBalOK(bal, up, 1 + Max(h, Height(r)))
    case RightOf(up, l, i) =>
      i in bal && bal[i] == h - Height(l) && -1 <= bal[i] <= 1 &&
      BalOK(bal, l) && CtxBalOK(bal, up, 1 + Max(Height(l), h))
  }

  /** The whole tree is balanced-and-correct exactly when the context is,
      for the plugged subtree's height, and the subtree is. */
  lemma {:induction false} PlugBal(bal: map<Id, int>, c: Ctx, t: Tree)
    ensures BalOK(bal, Plug(c, t)) <==> CtxBalOK(bal, c, Height(t)) && BalOK(bal, t)
  {
    match c
    case Top =>
    case LeftOf(up, i, r) => PlugBal(bal, up, Node(t, i, r));
    case RightOf(up, l, i) => PlugBal(bal, up, Node(l, i, t));
  }

  lemma {:induction false} BalFrame(bal: map<Id, int>, bal': map<Id, int>, t: Tree)
    requires BalOK(bal, t)
    requires forall i :: i in Ids(t) && i in bal ==> i in bal' && bal'[i] == bal[i]
    ensures BalOK(bal', t)
  {
    match t
    case Nil =>
    case Node(l, i, r) =>
      BalFrame(bal, bal', l);
      BalFrame(bal, bal', r);
  }

  lemma {:induction false} CtxBalFrame(bal: map<Id, int>, bal': map<Id, int>, c: Ctx, h: int)
    requires CtxBalOK(bal, c, h)
    requires forall i :: i in CtxIds(c) && i in bal ==> i in bal' && bal'[i] == bal[i]
    ensures CtxBalOK(bal', c, h)
  {
    match c
    case Top =>
    case LeftOf(up, i, r) =>
      assert CtxIds(c) == CtxIds(up) + {i} + Ids(r);
      BalFrame(bal, bal', r);
      CtxBalFrame(bal, bal', up, 1 + Max(h, Height(r)));
    case RightOf(up, l, i) =>
      assert CtxIds(c) == CtxIds(up) + Ids(l) + {i};
      BalFrame(bal, bal', l);
      CtxBalFrame(bal, bal', up, 1 + Max(Height(l), h));
  }

  // ---------------------------------------------------------------------
  // Keys and contents.

  /** The keys along `s` are strictly increasing (so also pairwise distinct). */
  ghost predicate Sorted(key: map<Id, int>, s: seq<Id>) {
    (forall j :: 0 <= j < |s| ==> s[j] in key) &&
    (forall i, j :: 0 <= i < j < |s| ==> key[s[i]] < key[s[j]])
  }

  /** The key/value map read along `s`. */
  ghost function Items<V>(key: map<Id, int>, value: map<Id, V>, s: seq<Id>): map<int, V> {
    if s == [] then map[]
    else if s[0] in key && s[0] in value then Items(key, value, s[1..])[key[s[0]] := value[s[0]]]
    else Items(key, value, s[1..])
  }

  lemma {:induction false} ItemsAppend<V>(key: map<Id, int>, value: map<Id, V>, s: seq<Id>, s': seq<Id>)
    ensures Items(key, value, s + s') == Items(key, value, s') + Items(key, value, s)
  {
    if s == [] {
      assert s + s' == s';
    } else {
      assert (s + s')[0] == s[0] && (s + s')[1..] == s[1..] + s';
      ItemsAppend(key, value, s[1..], s');
    }
  }

  lemma {:induction false} ItemsFrame<V>(key: map<Id, int>, value: map<Id, V>,
                                          key': map<Id, int>, value': map<Id, V>, s: seq<Id>)
    requires forall j :: 0 <= j < |s| ==> s[j] in key && s[j] in value
    requires forall j :: 0 <= j < |s| ==> s[j] in key' && key'[s[j]] == key[s[j]]
    requires forall j :: 0 <= j < |s| ==> s[j] in value' && value'[s[j]] == value[s[j]]
    ensures Items(key', value', s) == Items(key, value, s)
  {
    if s != [] {
      ItemsFrame(key, value, key', value', s[1..]);
    }
  }

  /** A key carried by no node along `s` is not in its contents. */
  lemma {:induction false} ItemsAbsent<V>(key: map<Id, int>, value: map<Id, V>, s: seq<Id>, k: int)
    requires forall j :: 0 <= j < |s| ==> s[j] in key && key[s[j]] != k
    ensures k !in Items(key, value, s)
  {
    if s != [] {
      ItemsAbsent(key, value, s[1..], k);
    }
  }

  /** Reading the contents along `p + [x] + q` adds the pair of `x` to the
      contents along `p + q`, when no node of `p` carries `x`'s key. */
  lemma ItemsMiddle<V>(key: map<Id, int>, value: map<Id, V>, p: seq<Id>, x: Id, q: seq<Id>)
    requires x in key && x in value
    requires forall j :: 0 <= j < |p| ==> p[j] in key && key[p[j]] != key[x]
    ensures Items(key, value, p + [x] + q) == Items(key, value, p + q)[key[x] := value[x]]
  {
    ItemsAppend(key, value, p + [x], q);
    ItemsAppend(key, value, p, [x]);
    ItemsAppend(key, value, p, q);
    ItemsAbsent(key, value, p, key[x]);
    assert Items(key, value, [x]) == map[key[x] := value[x]] by {
      assert [x][1..] == [];
    }
  }

  /** Overwriting the value of the node that carries key `key[x]`. */
  lemma {:induction false} ItemsSetValue<V>(key: map<Id, int>, value: map<Id, V>, s: seq<Id>, x: Id, v: V)
    requires Sorted(key, s) && x in s && x in value
    requires forall j :: 0 <= j < |s| ==> s[j] in value
    ensures Items(key, value[x := v], s) == Items(key, value, s)[key[x] := v]
  {
    var s' := s[1..];
    assert Sorted(key, s');
    if s[0] == x {
      forall j | 0 <= j < |s'| ensures s'[j] in key && key[s'[j]] != key[x] {
        assert key[s[0]] < key[s[j + 1]];
      }
      ItemsAbsent(key, value, s', key[x]);
      ItemsAbsent(key, value[x := v], s', key[x]);
      ItemsFrame(key, value, key, value[x := v], s');
    } else {
      assert x in s';
      var j :| 0 <= j < |s'| && s'[j] == x;
      assert key[s[0]] < key[s[j + 1]];
      ItemsSetValue(key, value, s', x, v);
    }
  }

  lemma SortedSplit(key: map<Id, int>, p: seq<Id>, x: Id, q: seq<Id>)
    requires Sorted(key, p + [x] + q)
    ensures x in key
    ensures forall j :: 0 <= j < |p| ==> p[j] in key && key[p[j]] < key[x]
    ensures forall j :: 0 <= j < |q| ==> q[j] in key && key[x] < key[q[j]]
  {
    var s := p + [x] + q;
    assert s[|p|] == x;
    forall j | 0 <= j < |p| ensures p[j] in key && key[p[j]] < key[x] {
      assert s[j] == p[j];
    }
    forall j | 0 <= j < |q| ensures q[j] in key && key[x] < key[q[j]] {
      assert s[|p| + 1 + j] == q[j];
    }
  }

  lemma SortedRemove(key: map<Id, int>, p: seq<Id>, x: Id, q: seq<Id>)
    requires Sorted(key, p + [x] + q)
    ensures Sorted(key, p + q)
  {
    var s, s' := p + [x] + q, p + q;
    forall j | 0 <= j < |s'| ensures s'[j] == s[if j < |p| then j else j + 1] { }
  }

  lemma SortedInsert(key: map<Id, int>, p: seq<Id>, x: Id, q: seq<Id>, k: int)
    requires Sorted(key, p + q) && x !in p && x !in q
    requires forall j :: 0 <= j < |p| ==> p[j] in key && key[p[j]] < k
    requires forall j :: 0 <= j < |q| ==> q[j] in key && k < key[q[j]]
    ensures Sorted(key[x := k], p + [x] + q)
  {
    var s, s' := p + q, p + [x] + q;
    var key' := key[x := k];
    forall i, j | 0 <= i < j < |s'| ensures key'[s'[i]] < key'[s'[j]] {
      if j < |p| {
        assert s'[i] == s[i] && s'[j] == s[j];
      } else if j == |p| {
        assert s'[i] == p[i];
      } else if i < |p| {
        assert s'[i] == p[i] && s'[j] == q[j - |p| - 1];
      } else if i == |p| {
        assert s'[j] == q[j - |p| - 1];
      } else {
        assert s'[i] == s[i - 1] && s'[j] == s[j - 1];
      }
    }
  }

  lemma SortedFrame(key: map<Id, int>, key': map<Id, int>, s: seq<Id>)
    requires Sorted(key, s)
    requires forall j :: 0 <= j < |s| ==> s[j] in key' && key'[s[j]] == key[s[j]]
    ensures Sorted(key', s)
  {
  }
}
