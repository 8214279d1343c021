/** The tree the node blocks stand for, as a value, and what inserting into it does.

    A tree node carries the index of its block.  An interior entry pairs a
    separator with a child; `Exact` says that the separator is the greatest
    physical key below that child. */
module Trees {
  import opened Slots

  datatype Entry<K> = Entry(sep: K, kid: Tree<K>)

  datatype Tree<K> =
    | Leaf(id: nat, slots: seq<Slot<K>>)
    | Node(id: nat, entries: seq<Entry<K>>)
  {
    function Count(): nat {
      if Leaf? then |slots| else |entries|
    }

    /** The entries as the node block holds them. */
    function Items(): (s: seq<Slot<K>>)
      ensures |s| == Count()
    {
      if Leaf? then slots
      else seq(|entries|, i requires 0 <= i < |entries| => Slot(entries[i].sep, true, Child(entries[i].kid.id)))
    }

    function MaxKey(): K
      requires Count() > 0
    {
      if Leaf? then slots[|slots| - 1].key else entries[|entries| - 1].sep
    }
  }

  /** The physical entries of a tree, removed ones included, from left to right. */
  function Phys<K>(t: Tree<K>): seq<Slot<K>>
    decreases t
  {
    if t.Leaf? then t.slots else PhysAll(t.entries)
  }

  function PhysAll<K>(es: seq<Entry<K>>): seq<Slot<K>>
    decreases es
  {
    if es == [] then [] else Below(es[0]) + PhysAll(es[1..])
  }

  function Below<K>(e: Entry<K>): seq<Slot<K>>
    decreases e
  {
    Phys(e.kid)
  }

  lemma {:induction false} PhysConcat<K>(a: seq<Entry<K>>, b: seq<Entry<K>>)
    ensures PhysAll(a + b) == PhysAll(a) + PhysAll(b)
  {
    if a == [] {
      assert a + b == b;
    } else {
      assert (a + b)[0] == a[0] && (a + b)[1..] == a[1..] + b;
      PhysConcat(a[1..], b);
    }
  }

  /** Node capacities: how many entries fit in a leaf and in an interior node. */
  datatype Caps = Caps(leaf: nat, node: nat)

  function Cap<K>(t: Tree<K>, c: Caps): nat {
    if t.Leaf? then c.leaf else c.node
  }

  /** Below its top node, a tree of height `h` is balanced, no node is full and
      none has less than half of what fits. */
  ghost predicate Shape<K>(t: Tree<K>, h: nat, c: Caps)
    decreases h
  {
    if h == 0 then t.Leaf?
    else
      && t.Node? && |t.entries| > 0
      && forall i :: 0 <= i < |t.entries| ==>
        && Shape(t.entries[i].kid, h - 1, c)
        && Cap(t.entries[i].kid, c) / 2 <= t.entries[i].kid.Count() < Cap(t.entries[i].kid, c)
  }

  lemma ShapeKid<K>(t: Tree<K>, h: nat, c: Caps, j: nat)
    requires Shape(t, h, c) && h > 0 && t.Node? && j < |t.entries|
    ensures Shape(t.entries[j].kid, h - 1, c) && t.entries[j].kid.Count() < Cap(t.entries[j].kid, c)
    ensures Cap(t.entries[j].kid, c) / 2 <= t.entries[j].kid.Count()
  {
  }

  lemma ShapeTop<K>(t: Tree<K>, h: nat, c: Caps)
    requires Shape(t, h, c)
    ensures t.Leaf? <==> h == 0
    ensures t.Node? ==> |t.entries| > 0
  {
  }

  /** Every separator is the greatest physical key below its child. */
  ghost predicate Exact<K>(t: Tree<K>)
    decreases t
  {
    t.Node? ==> forall e :: e in t.entries ==> ExactEntry(e)
  }

  ghost predicate ExactEntry<K>(e: Entry<K>)
    decreases e
  {
    Exact(e.kid) && Ends(Phys(e.kid), e.sep)
  }

  ghost predicate Ends<K>(s: seq<Slot<K>>, k: K) {
    s != [] && s[|s| - 1].key == k
  }

  /** The child a search for `p` descends into: the first whose separator is not less
      than the key searched for, or the last. */
  function Pick<K>(t: Tree<K>, p: K -> int): (j: nat)
    requires t.Node? && |t.entries| > 0
    ensures j < |t.entries|
  {
    var i := Lub(t.Items(), p);
    if i == |t.entries| then i - 1 else i
  }

  /** The entries of the leaf in which a search for `p` ends. */
  function LeafFor<K>(t: Tree<K>, p: K -> int): seq<Slot<K>> {
    if t.Leaf? then t.slots else if t.entries == [] then [] else LeafFor(t.entries[Pick(t, p)].kid, p)
  }

  /** The separator of the picked child once it has become `son`. */
  function SepAfter<K>(t: Tree<K>, p: K -> int, son: Tree<K>): K
    requires t.Node? && |t.entries| > 0 && son.Count() > 0
  {
    if Lub(t.Items(), p) == |t.entries| then son.MaxKey() else t.entries[Pick(t, p)].sep
  }

  /** Splitting a full node: the upper half moves to a new block. */
  function Split<K>(t: Tree<K>, id: nat): (r: (Tree<K>, Tree<K>)) {
    var m := (t.Count() + 1) / 2;
    if t.Leaf? then (Leaf(t.id, t.slots[..m]), Leaf(id, t.slots[m..]))
    else (Node(t.id, t.entries[..m]), Node(id, t.entries[m..]))
  }

  /** Splitting child `j`: its lower half keeps its block and goes under its new
      greatest key, its upper half goes to block `m` under the old separator. */
  function SplitKid<K>(t: Tree<K>, j: nat, m: nat): Tree<K>
    requires t.Node? && j < |t.entries| && t.entries[j].kid.Count() > 0
  {
    var (l, r) := Split(t.entries[j].kid, m);
    Node(t.id, t.entries[..j] + [Entry(l.MaxKey(), l), Entry(t.entries[j].sep, r)] + t.entries[j + 1..])
  }

  function ReplaceKid<K>(t: Tree<K>, j: nat, sep: K, son: Tree<K>): Tree<K>
    requires t.Node? && j < |t.entries|
  {
    Node(t.id, t.entries[j := Entry(sep, son)])
  }

  /** Puts `son` back as child `j` of `t`; a full son is split, with `m` for the
      new block.  Also returns the next unused block index. */
  function Graft<K>(t: Tree<K>, j: nat, sep: K, son: Tree<K>, m: nat, c: Caps): (Tree<K>, nat)
    requires t.Node? && j < |t.entries| && son.Count() > 0
  {
    var t1 := ReplaceKid(t, j, sep, son);
    if son.Count() == Cap(son, c) then (SplitKid(t1, j, m), m + 1) else (t1, m)
  }

  /** The halves of a full node are at least half full, and not full. */
  lemma SplitShape<K>(t: Tree<K>, id: nat, h: nat, c: Caps)
    requires Shape(t, h, c) && t.Count() == Cap(t, c) >= 3
    ensures var (l, r) := Split(t, id);
      && Shape(l, h, c) && Cap(t, c) / 2 <= l.Count() < Cap(l, c)
      && Shape(r, h, c) && Cap(t, c) / 2 <= r.Count() < Cap(r, c)
  {
  }

  lemma GraftShape<K>(t: Tree<K>, j: nat, sep: K, son: Tree<K>, m: nat, h: nat, c: Caps)
    requires h > 0 && Shape(t, h, c) && j < |t.entries|
    requires Shape(son, h - 1, c) && 0 < son.Count() <= Cap(son, c) && Cap(son, c) >= 3
    requires Cap(son, c) / 2 <= son.Count()
    ensures var t' := Graft(t, j, sep, son, m, c).0; Shape(t', h, c) && t.Count() <= t'.Count() <= t.Count() + 1
  {
    if son.Count() == Cap(son, c) {
      SplitShape(son, m, h - 1, c);
    }
  }

  /** The tree after `key` is entered below `t` with payload `w`, and the next
      unused block index, when blocks are handed out from `n` on. */
  function Insert<K>(t: Tree<K>, p: K -> int, key: K, w: Payload, n: nat, h: nat, c: Caps): (r: (Tree<K>, nat))
    requires Shape(t, h, c) && c.leaf >= 3 && c.node >= 3
    ensures Shape(r.0, h, c) && r.0.Count() > 0
    ensures t.Count() <= r.0.Count() <= t.Count() + 1
    decreases h
  {
    if h == 0 then
      (Leaf(t.id, Enter(t.slots, p, key, w)), n)
    else
      var j := Pick(t, p);
      var (son, m) := Insert(t.entries[j].kid, p, key, w, n, h - 1, c);
      var sep := SepAfter(t, p, son);
      GraftShape(t, j, sep, son, m, h, c);
      Graft(t, j, sep, son, m, c)
  }

  /** A list of children taken apart at child `j`. */
  lemma PhysAround<K>(es: seq<Entry<K>>, j: nat)
    requires j < |es|
    ensures PhysAll(es) == PhysAll(es[..j]) + Phys(es[j].kid) + PhysAll(es[j + 1..])
  {
    hide Phys;
    var rest := es[j..];
    assert PhysAll(rest) == Phys(rest[0].kid) + PhysAll(rest[1..]);
    assert rest[0] == es[j] && rest[1..] == es[j + 1..];
    assert es == es[..j] + rest;
    PhysConcat(es[..j], rest);
  }

  lemma PhysPair<K>(a: Entry<K>, b: Entry<K>)
    ensures PhysAll([a, b]) == Phys(a.kid) + Phys(b.kid)
  {
    assert PhysAll([b]) == Phys(b.kid) + [];
    assert [a, b][1..] == [b];
  }

  lemma MaxKeyIsLast<K>(t: Tree<K>)
    requires Exact(t) && t.Count() > 0
    ensures Ends(Phys(t), t.MaxKey())
  {
    if t.Node? {
      var j := |t.entries| - 1;
      PhysAround(t.entries, j);
      assert ExactEntry(t.entries[j]);
    }
  }

  lemma SplitPhys<K>(t: Tree<K>, id: nat)
    ensures var (l, r) := Split(t, id); Phys(l) + Phys(r) == Phys(t)
  {
    var m := (t.Count() + 1) / 2;
    if t.Node? {
      PhysConcat(t.entries[..m], t.entries[m..]);
      assert t.entries == t.entries[..m] + t.entries[m..];
    } else {
      assert t.slots == t.slots[..m] + t.slots[m..];
    }
  }

  lemma GraftPhys<K>(t: Tree<K>, j: nat, sep: K, son: Tree<K>, m: nat, c: Caps)
    requires t.Node? && j < |t.entries| && son.Count() > 0
    ensures Phys(Graft(t, j, sep, son, m, c).0) == PhysAll(t.entries[..j]) + Phys(son) + PhysAll(t.entries[j + 1..])
  {
    var es := t.entries;
    if son.Count() == Cap(son, c) {
      var (l, r) := Split(son, m);
      var mid := [Entry(l.MaxKey(), l), Entry(sep, r)];
      assert Graft(t, j, sep, son, m, c).0.entries == es[..j] + mid + es[j + 1..];
      SplitPhys(son, m);
      PhysPair(mid[0], mid[1]);
      PhysConcat(es[..j] + mid, es[j + 1..]);
      PhysConcat(es[..j], mid);
    } else {
      var es' := es[j := Entry(sep, son)];
      PhysAround(es', j);
      assert es'[..j] == es[..j] && es'[j + 1..] == es[j + 1..];
    }
  }

  lemma SplitExact<K>(t: Tree<K>, id: nat)
    requires Exact(t)
    ensures var (l, r) := Split(t, id); Exact(l) && Exact(r)
  {
  }

  lemma GraftExact<K>(t: Tree<K>, j: nat, sep: K, son: Tree<K>, m: nat, c: Caps)
    requires t.Node? && Exact(t) && j < |t.entries|
    requires Exact(son) && son.Count() > 0 && Ends(Phys(son), sep) && Cap(son, c) >= 3
    ensures Exact(Graft(t, j, sep, son, m, c).0)
  {
    if son.Count() == Cap(son, c) {
      var (l, r) := Split(son, m);
      SplitExact(son, m);
      SplitPhys(son, m);
      MaxKeyIsLast(l);
      MaxKeyIsLast(r);
      assert ExactEntry(Entry(l.MaxKey(), l)) && ExactEntry(Entry(sep, r));
    } else {
      assert ExactEntry(Entry(sep, son));
    }
  }

  /** Splitting a child moves no physical entry and keeps the separators exact. */
  lemma SplitKidOrder<K>(t: Tree<K>, j: nat, m: nat)
    requires t.Node? && Exact(t) && j < |t.entries| && t.entries[j].kid.Count() >= 3
    ensures Phys(SplitKid(t, j, m)) == Phys(t) && Exact(SplitKid(t, j, m))
  {
    var e := t.entries[j];
    var c := Caps(e.kid.Count(), e.kid.Count());
    assert ExactEntry(e) && ReplaceKid(t, j, e.sep, e.kid) == t;
    GraftPhys(t, j, e.sep, e.kid, m, c);
    GraftExact(t, j, e.sep, e.kid, m, c);
    PhysAround(t.entries, j);
  }

  /** Children all of whose separators are below the probe hold only keys below it. */
  lemma {:induction false} AllBelow<K>(es: seq<Entry<K>>, p: K -> int)
    requires forall e :: e in es ==> ExactEntry(e) && p(e.sep) < 0
    requires Monotone(p, PhysAll(es))
    ensures forall x :: x in PhysAll(es) ==> p(x.key) < 0
  {
    if es != [] {
      var a, b := Phys(es[0].kid), PhysAll(es[1..]);
      assert PhysAll(es) == a + b;
      MonotoneParts(p, a, b);
      assert ExactEntry(es[0]);
      AllBelow(es[1..], p);
    }
  }

  lemma MonotoneParts<K>(p: K -> int, a: seq<Slot<K>>, b: seq<Slot<K>>)
    requires Monotone(p, a + b)
    ensures Monotone(p, a) && Monotone(p, b)
  {
    var s := a + b;
    assert forall i :: 0 <= i < |a| ==> a[i] == s[i];
    assert forall i :: 0 <= i < |b| ==> b[i] == s[|a| + i];
  }

  /** Where a search for `p` goes: everything left of the picked child is below
      the probe, and unless it is the last child, its greatest key is not. */
  lemma PickSplits<K>(t: Tree<K>, p: K -> int)
    requires t.Node? && |t.entries| > 0 && Exact(t) && Monotone(p, Phys(t))
    ensures var j := Pick(t, p);
      var a, b, z := PhysAll(t.entries[..j]), Phys(t.entries[j].kid), PhysAll(t.entries[j + 1..]);
      && Phys(t) == a + b + z
      && Monotone(p, b)
      && (forall x :: x in a ==> p(x.key) < 0)
      && (if Lub(t.Items(), p) == |t.entries| then z == [] else Lub(b, p) < |b|)
  {
    var es := t.entries;
    var j := Pick(t, p);
    var a, b, z := PhysAll(es[..j]), Phys(es[j].kid), PhysAll(es[j + 1..]);
    PhysAround(es, j);
    MonotoneParts(p, a + b, z);
    MonotoneParts(p, a, b);
    assert forall e :: e in es[..j] ==> e in es;
    forall e | e in es[..j] ensures ExactEntry(e) && p(e.sep) < 0 {
      var i :| 0 <= i < j && es[i] == e;
      assert t.Items()[i].key == e.sep;
    }
    AllBelow(es[..j], p);
    assert ExactEntry(es[j]);
    if Lub(t.Items(), p) < |es| {
      assert t.Items()[j].key == es[j].sep;
    }
  }

  lemma {:induction false} LubMiddle<K>(a: seq<Slot<K>>, b: seq<Slot<K>>, z: seq<Slot<K>>, p: K -> int)
    requires forall x :: x in a ==> p(x.key) < 0
    requires z == [] || Lub(b, p) < |b|
    ensures Lub(a + b + z, p) == |a| + Lub(b, p)
  {
    var s := a + b + z;
    var r := |a| + Lub(b, p);
    forall i | 0 <= i < r ensures p(s[i].key) < 0 {
      if i < |a| {
        assert s[i] in a;
      } else {
        assert s[i] == b[i - |a|];
      }
    }
    LubUnique(s, p, r);
  }

  lemma UpdateMiddle<T>(a: seq<T>, b: seq<T>, z: seq<T>, i: nat, x: T)
    requires i < |b|
    ensures (a + b + z)[|a| + i := x] == a + b[i := x] + z
  {
  }

  lemma SpliceMiddle<T>(a: seq<T>, b: seq<T>, z: seq<T>, i: nat, m: seq<T>)
    requires i <= |b|
    ensures (a + b + z)[..|a| + i] + m + (a + b + z)[|a| + i..] == a + (b[..i] + m + b[i..]) + z
  {
    assert (a + b + z)[..|a| + i] == a + b[..i];
    assert (a + b + z)[|a| + i..] == b[i..] + z;
  }

  /** Entering into the middle part of a sequence. */
  lemma {:induction false} EnterMiddle<K>(a: seq<Slot<K>>, b: seq<Slot<K>>, z: seq<Slot<K>>, p: K -> int, key: K,
          w: Payload)
    requires forall x :: x in a ==> p(x.key) < 0
    requires z == [] || Lub(b, p) < |b|
    ensures Enter(a + b + z, p, key, w) == a + Enter(b, p, key, w) + z
  {
    hide Lub, Enter;
    var l := Lub(b, p);
    LubMiddle(a, b, z, p);
    if l < |b| {
      assert (a + b + z)[|a| + l] == b[l];
    }
    if l < |b| && p(b[l].key) == 0 {
      var b' := if b[l].live then b else b[l := Slot(b[l].key, true, w)];
      EnterPresent(b, p, key, w, l, b');
      UpdateMiddle(a, b, z, l, Slot(b[l].key, true, w));
      EnterPresent(a + b + z, p, key, w, |a| + l, a + b' + z);
    } else {
      EnterAbsent(b, p, key, w, l, b[..l] + [Slot(key, true, w)] + b[l..]);
      SpliceMiddle(a, b, z, l, [Slot(key, true, w)]);
      EnterAbsent(a + b + z, p, key, w, |a| + l, a + (b[..l] + [Slot(key, true, w)] + b[l..]) + z);
    }
  }

  /** The greatest key after entering, when the probe is not beyond the last one. */
  lemma {:induction false} EnterKeepsEnd<K>(s: seq<Slot<K>>, p: K -> int, key: K, w: Payload, k: K)
    requires Ends(s, k) && Lub(s, p) < |s|
    ensures Ends(Enter(s, p, key, w), k)
  {
  }

  /** Entering `key` below a tree enters it in the tree's physical sequence, and
      keeps the separators exact. */
  lemma {:induction false} InsertPhys<K>(t: Tree<K>, p: K -> int, key: K, w: Payload, n: nat, h: nat, c: Caps)
    requires Shape(t, h, c) && c.leaf >= 3 && c.node >= 3
    requires Exact(t) && Monotone(p, Phys(t))
    ensures var t' := Insert(t, p, key, w, n, h, c).0;
      Phys(t') == Enter(Phys(t), p, key, w) && Exact(t')
    decreases h
  {
    hide Lub, Enter, Graft, SepAfter, Pick, Monotone, Shape;
    ShapeTop(t, h, c);
    if h > 0 {
      var j := Pick(t, p);
      ShapeKid(t, h, c, j);
      PickSplits(t, p);
      assert ExactEntry(t.entries[j]);
      InsertPhys(t.entries[j].kid, p, key, w, n, h - 1, c);
      var (son, m) := Insert(t.entries[j].kid, p, key, w, n, h - 1, c);
      GraftEnters(t, p, key, w, j, son, m, c);
    }
  }

  lemma {:induction false} GraftEnters<K>(t: Tree<K>, p: K -> int, key: K, w: Payload, j: nat, son: Tree<K>, m: nat,
          c: Caps)
    requires t.Node? && |t.entries| > 0 && Exact(t) && Monotone(p, Phys(t))
    requires j == Pick(t, p)
    requires Exact(son) && son.Count() > 0 && Cap(son, c) >= 3
    requires Phys(son) == Enter(Phys(t.entries[j].kid), p, key, w)
    ensures var sep := SepAfter(t, p, son);
      var t' := Graft(t, j, sep, son, m, c).0;
      Phys(t') == Enter(Phys(t), p, key, w) && Exact(t')
  {
    var es := t.entries;
    var a, b, z := PhysAll(es[..j]), Phys(es[j].kid), PhysAll(es[j + 1..]);
    var sep := SepAfter(t, p, son);
    PickSplits(t, p);
    assert Ends(Phys(son), sep) by {
      MaxKeyIsLast(son);
      if Lub(t.Items(), p) < |es| {
        assert ExactEntry(es[j]);
        EnterKeepsEnd(b, p, key, w, sep);
      }
    }
    EnterMiddle(a, b, z, p, key, w);
    GraftPhys(t, j, sep, son, m, c);
    GraftExact(t, j, sep, son, m, c);
  }

  // Separators as keys of the physical sequence

  function EndOf<K>(es: seq<Entry<K>>, i: nat): nat
    requires i < |es|
  {
    |PhysAll(es[..i + 1])|
  }

  /** Separator `i` is the physical key just before place `EndOf(es, i)`. */
  lemma SeparatorPlace<K>(es: seq<Entry<K>>, i: nat)
    requires forall e :: e in es ==> ExactEntry(e)
    requires i < |es|
    ensures EndOf(es, i) == |PhysAll(es[..i])| + |Phys(es[i].kid)|
    ensures |PhysAll(es[..i])| < EndOf(es, i) <= |PhysAll(es)|
    ensures PhysAll(es)[EndOf(es, i) - 1].key == es[i].sep
  {
    assert ExactEntry(es[i]);
    var a := es[..i + 1];
    PhysAround(a, i);
    assert a[..i] == es[..i] && a[i + 1..] == [];
    PhysConcat(a, es[i + 1..]);
    assert es == a + es[i + 1..];
  }

  lemma SeparatorOrder<K>(es: seq<Entry<K>>, i: nat, j: nat)
    requires forall e :: e in es ==> ExactEntry(e)
    requires i < j < |es|
    ensures EndOf(es, i) <= |PhysAll(es[..j])| < EndOf(es, j)
  {
    SeparatorPlace(es, j);
    assert es[..j] == es[..i + 1] + es[i + 1..j];
    PhysConcat(es[..i + 1], es[i + 1..j]);
  }

  /** A probe monotone along the physical keys is monotone in every node. */
  lemma ItemsMonotone<K>(t: Tree<K>, p: K -> int)
    requires Exact(t) && Monotone(p, Phys(t))
    ensures Monotone(p, t.Items())
  {
    if t.Node? {
      forall i, j | 0 <= i < j < |t.entries| && p(t.Items()[i].key) >= 0
        ensures p(t.Items()[j].key) > 0
      {
        SeparatorPlace(t.entries, i);
        SeparatorPlace(t.entries, j);
        SeparatorOrder(t.entries, i, j);
      }
    }
  }

  lemma ItemsSorted<K>(t: Tree<K>, cmp: (K, K) -> int)
    requires Exact(t) && Sorted(cmp, Phys(t))
    ensures Sorted(cmp, t.Items())
  {
    if t.Node? {
      forall i, j | 0 <= i < j < |t.entries|
        ensures cmp(t.Items()[i].key, t.Items()[j].key) < 0
      {
        SeparatorPlace(t.entries, i);
        SeparatorPlace(t.entries, j);
        SeparatorOrder(t.entries, i, j);
      }
    }
  }

  /** The new greatest key of a split child belongs just before its old separator. */
  lemma {:induction false} SplitLub<K(!new)>(t: Tree<K>, j: nat, m: nat, cmp: (K, K) -> int, s: seq<Slot<K>>)
    requires TotalOrder(cmp) && t.Node? && Exact(t) && Sorted(cmp, Phys(t))
    requires j < |t.entries| && t.entries[j].kid.Count() >= 2
    requires |s| == |t.entries| && forall i :: 0 <= i < |s| ==> s[i].key == t.entries[i].sep
    ensures var k := Split(t.entries[j].kid, m).0.MaxKey();
      Monotone(At(cmp, k), s) && Lub(s, At(cmp, k)) == j
  {
    hide Lub;
    var k := Split(t.entries[j].kid, m).0.MaxKey();
    ItemsSorted(t, cmp);
    forall a, b | 0 <= a < b < |s| ensures cmp(s[a].key, s[b].key) < 0 {
      assert t.Items()[a].key == s[a].key && t.Items()[b].key == s[b].key;
    }
    AtIsMonotone(cmp, k, s);
    forall i | 0 <= i <= j ensures if i < j then cmp(s[i].key, k) < 0 else cmp(s[i].key, k) > 0 {
      SplitKeyPlace(t, j, m, cmp, i);
    }
    LubUnique(s, At(cmp, k), j);
  }

  lemma SplitKeyPlace<K(!new)>(t: Tree<K>, j: nat, m: nat, cmp: (K, K) -> int, i: nat)
    requires TotalOrder(cmp) && t.Node? && Exact(t) && Sorted(cmp, Phys(t))
    requires i <= j < |t.entries| && t.entries[j].kid.Count() >= 2
    ensures var k := Split(t.entries[j].kid, m).0.MaxKey();
      if i < j then cmp(t.entries[i].sep, k) < 0 else cmp(t.entries[i].sep, k) > 0
  {
    var at := SplitKeyAt(t, j, m);
    SeparatorPlace(t.entries, i);
    SeparatorPlace(t.entries, j);
    if i < j {
      SeparatorOrder(t.entries, i, j);
    }
  }

  /** Where the greatest key of the lower half stands in the physical sequence. */
  lemma SplitKeyAt<K>(t: Tree<K>, j: nat, m: nat) returns (at: nat)
    requires t.Node? && Exact(t) && j < |t.entries| && t.entries[j].kid.Count() >= 2
    ensures |PhysAll(t.entries[..j])| <= at < |PhysAll(t.entries[..j])| + |Phys(t.entries[j].kid)| - 1
    ensures at < |Phys(t)| && Phys(t)[at].key == Split(t.entries[j].kid, m).0.MaxKey()
  {
    var es := t.entries;
    var (l, r) := Split(es[j].kid, m);
    assert ExactEntry(es[j]);
    SplitExact(es[j].kid, m);
    SplitPhys(es[j].kid, m);
    MaxKeyIsLast(l);
    MaxKeyIsLast(r);
    PhysAround(es, j);
    at := |PhysAll(es[..j])| + |Phys(l)| - 1;
  }

  // One step of the descent

  ghost predicate Ordered<K(!new)>(cmp: (K, K) -> int, t: Tree<K>) {
    TotalOrder(cmp) && Exact(t) && Sorted(cmp, Phys(t))
  }

  /** The picked child is in order like the whole tree, and holds the key searched for
      if the tree does. */
  lemma {:induction false} PickedKid<K(!new)>(cmp: (K, K) -> int, t: Tree<K>, key: K)
    requires t.Node? && |t.entries| > 0 && Ordered(cmp, t)
    ensures Monotone(At(cmp, key), t.Items())
    ensures var e := t.entries[Pick(t, At(cmp, key))];
      && Ordered(cmp, e.kid)
      && (Live(Phys(t), At(cmp, key)) <==> Live(Phys(e.kid), At(cmp, key)))
      && forall x :: x in Phys(e.kid) ==> x in Phys(t)
  {
    hide Lub, Sorted, Monotone, TotalOrder, Live;
    var p := At(cmp, key);
    AtIsMonotone(cmp, key, Phys(t));
    ItemsMonotone(t, p);
    PickSplits(t, p);
    var j := Pick(t, p);
    var a, b, z := PhysAll(t.entries[..j]), Phys(t.entries[j].kid), PhysAll(t.entries[j + 1..]);
    assert ExactEntry(t.entries[j]);
    SortedMiddle(cmp, a, b, z);
    LiveMiddle(a, b, z, p);
  }

  lemma {:induction false} LiveMiddle<K>(a: seq<Slot<K>>, b: seq<Slot<K>>, z: seq<Slot<K>>, p: K -> int)
    requires forall x :: x in a ==> p(x.key) < 0
    requires z == [] || Lub(b, p) < |b|
    ensures Live(a + b + z, p) <==> Live(b, p)
  {
    hide Lub;
    LubMiddle(a, b, z, p);
    if Lub(b, p) < |b| {
      assert (a + b + z)[|a| + Lub(b, p)] == b[Lub(b, p)];
    }
  }

  lemma SortedMiddle<K>(cmp: (K, K) -> int, a: seq<Slot<K>>, b: seq<Slot<K>>, z: seq<Slot<K>>)
    requires Sorted(cmp, a + b + z)
    ensures Sorted(cmp, b)
  {
    assert forall i :: 0 <= i < |b| ==> b[i] == (a + b + z)[|a| + i];
  }

  /** With the changed child in place the parent is in order again. */
  lemma {:induction false} ReplacedOrdered<K(!new)>(cmp: (K, K) -> int, t: Tree<K>, key: K, w: Payload, j: nat,
          sep: K, son: Tree<K>)
    requires t.Node? && |t.entries| > 0 && Ordered(cmp, t)
    requires j == Pick(t, At(cmp, key))
    requires Exact(son) && son.Count() > 0 && Phys(son) == Enter(Phys(t.entries[j].kid), At(cmp, key), key, w)
    requires sep == SepAfter(t, At(cmp, key), son)
    ensures Ordered(cmp, ReplaceKid(t, j, sep, son))
  {
    hide Lub;
    var c := Caps(son.Count() + 3, son.Count() + 3);
    AtIsMonotone(cmp, key, Phys(t));
    GraftEnters(t, At(cmp, key), key, w, j, son, 0, c);
    EnterSorted(cmp, Phys(t), key, w);
  }

  /** After an insertion below the picked child, the parent with the child in place is
      in order. */
  lemma {:induction false} InsertOrdered<K(!new)>(cmp: (K, K) -> int, t: Tree<K>, key: K, w: Payload, n: nat, h: nat,
          c: Caps, son: Tree<K>)
    requires Shape(t, h, c) && h > 0 && c.leaf >= 3 && c.node >= 3 && Ordered(cmp, t)
    requires son == Insert(t.entries[Pick(t, At(cmp, key))].kid, At(cmp, key), key, w, n, h - 1, c).0
    ensures Ordered(cmp, ReplaceKid(t, Pick(t, At(cmp, key)), SepAfter(t, At(cmp, key), son), son))
  {
    hide Lub, Insert, SepAfter, Pick, Ordered;
    var p := At(cmp, key);
    var kid := t.entries[Pick(t, p)].kid;
    PickedKid(cmp, t, key);
    OrderedMonotone(cmp, kid, key);
    InsertPhys(kid, p, key, w, n, h - 1, c);
    ReplacedOrdered(cmp, t, key, w, Pick(t, p), SepAfter(t, p, son), son);
  }

  lemma OrderedMonotone<K(!new)>(cmp: (K, K) -> int, t: Tree<K>, key: K)
    requires Ordered(cmp, t)
    ensures Exact(t) && Monotone(At(cmp, key), Phys(t))
  {
    AtIsMonotone(cmp, key, Phys(t));
  }

  // The root

  /** A full root is split: its upper half goes to block `n + 1`, and block `n` becomes
      the new root over the two halves. */
  function GrowRoot<K>(t: Tree<K>, n: nat): Tree<K>
    requires t.Count() >= 2
  {
    var (l, r) := Split(t, n + 1);
    Node(n, [Entry(l.MaxKey(), l), Entry(t.MaxKey(), r)])
  }

  /** BTree::put on a tree in which `key` is not live: the new tree, the next unused
      block index, and the new height. */
  function Put<K>(t: Tree<K>, p: K -> int, key: K, w: Payload, n: nat, h: nat, c: Caps): (Tree<K>, nat, nat)
    requires Shape(t, h, c) && c.leaf >= 3 && c.node >= 3
  {
    var (t', m) := Insert(t, p, key, w, n, h, c);
    if t'.Count() == Cap(t', c) then (GrowRoot(t', m), m + 2, h + 1) else (t', m, h)
  }

  lemma GrowRootShape<K>(t: Tree<K>, n: nat, h: nat, c: Caps)
    requires Shape(t, h, c) && t.Count() == Cap(t, c) >= 3
    ensures Shape(GrowRoot(t, n), h + 1, c)
  {
    SplitShape(t, n + 1, h, c);
  }

  lemma SplitMaxKey<K>(t: Tree<K>, id: nat)
    requires t.Count() >= 2
    ensures Split(t, id).1.Count() > 0 && Split(t, id).1.MaxKey() == t.MaxKey()
  {
  }

  lemma PairOrder<K>(id: nat, a: Entry<K>, b: Entry<K>)
    requires ExactEntry(a) && ExactEntry(b)
    ensures Phys(Node(id, [a, b])) == Phys(a.kid) + Phys(b.kid) && Exact(Node(id, [a, b]))
  {
    PhysPair(a, b);
  }

  /** The halves of a tree under their greatest keys. */
  lemma HalfEntries<K>(t: Tree<K>, n: nat)
    requires Exact(t) && t.Count() >= 2
    ensures var (l, r) := Split(t, n);
      l.Count() > 0 && ExactEntry(Entry(l.MaxKey(), l)) && ExactEntry(Entry(t.MaxKey(), r))
  {
    SplitExact(t, n);
    SplitMaxKey(t, n);
    MaxKeyIsLast(Split(t, n).0);
    MaxKeyIsLast(Split(t, n).1);
  }

  lemma GrowRootOrder<K>(t: Tree<K>, n: nat)
    requires Exact(t) && t.Count() >= 2
    ensures Phys(GrowRoot(t, n)) == Phys(t) && Exact(GrowRoot(t, n))
  {
    hide Split, Exact, ExactEntry, Phys;
    HalfEntries(t, n + 1);
    var (l, r) := Split(t, n + 1);
    SplitPhys(t, n + 1);
    PairOrder(n, Entry(l.MaxKey(), l), Entry(t.MaxKey(), r));
  }

  /** The keys a root split reads from the old root's block. */
  lemma RootKeys<K>(t: Tree<K>, id: nat)
    requires t.Count() >= 2
    ensures Split(t, id).0.Count() > 0
    ensures Split(t, id).0.MaxKey() == t.Items()[(t.Count() + 1) / 2 - 1].key
    ensures t.MaxKey() == t.Items()[t.Count() - 1].key
  {
  }

  lemma GrowRootOrdered<K(!new)>(cmp: (K, K) -> int, t: Tree<K>, n: nat)
    requires Ordered(cmp, t) && t.Count() >= 2
    ensures Ordered(cmp, GrowRoot(t, n))
  {
    GrowRootOrder(t, n);
  }

  lemma {:induction false} InsertedOrdered<K(!new)>(cmp: (K, K) -> int, t: Tree<K>, key: K, w: Payload, n: nat,
          h: nat, c: Caps)
    requires Shape(t, h, c) && c.leaf >= 3 && c.node >= 3 && Ordered(cmp, t)
    ensures var t' := Insert(t, At(cmp, key), key, w, n, h, c).0;
      Ordered(cmp, t') && Phys(t') == Enter(Phys(t), At(cmp, key), key, w)
  {
    hide Lub, Insert, Enter;
    OrderedMonotone(cmp, t, key);
    InsertPhys(t, At(cmp, key), key, w, n, h, c);
    EnterSorted(cmp, Phys(t), key, w);
  }

  /** A put enters the key in the physical sequence and keeps order, separators, balance
      and node sizes. */
  lemma {:induction false} PutKeeps<K(!new)>(cmp: (K, K) -> int, t: Tree<K>, key: K, w: Payload, n: nat, h: nat,
          c: Caps)
    requires Shape(t, h, c) && c.leaf >= 3 && c.node >= 3 && Ordered(cmp, t)
    requires t.Count() < Cap(t, c) && (t.Node? ==> t.Count() >= 2)
    ensures var (t', n', h') := Put(t, At(cmp, key), key, w, n, h, c);
      && Phys(t') == Enter(Phys(t), At(cmp, key), key, w)
      && Ordered(cmp, t') && Shape(t', h', c)
      && t'.Count() < Cap(t', c) && (t'.Node? ==> t'.Count() >= 2)
  {
    hide Lub, Enter, Insert, GrowRoot;
    InsertedOrdered(cmp, t, key, w, n, h, c);
    var (t1, m) := Insert(t, At(cmp, key), key, w, n, h, c);
    ShapeTop(t, h, c);
    ShapeTop(t1, h, c);
    if t1.Count() == Cap(t1, c) {
      GrowRootShape(t1, m, h, c);
      GrowRootOrder(t1, m);
      GrowRootCount(t1, m);
    }
  }

  lemma GrowRootCount<K>(t: Tree<K>, n: nat)
    requires t.Count() >= 2
    ensures GrowRoot(t, n).Node? && GrowRoot(t, n).Count() == 2
  {
  }
}
