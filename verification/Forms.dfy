/** Changes of single entries in place: what they leave as it is.

    Clearing the flag of an entry and reviving a removed key change one flag and one
    value.  Keys, separators, nodes and their block indices stay. */
module Forms {
  import opened Slots
  import opened Trees
  import opened Blocks
  import opened Layout
  import opened Leaves

  ghost predicate SameKeys<K>(s: seq<Slot<K>>, s': seq<Slot<K>>) {
    |s| == |s'| && forall i :: 0 <= i < |s| ==> s[i].key == s'[i].key
  }

  /** Only removals happened between `s` and `s'`. */
  ghost predicate OnlyRemoved<K>(s: seq<Slot<K>>, s': seq<Slot<K>>) {
    SameKeys(s, s') && forall i :: 0 <= i < |s| && s'[i].live ==> s[i].live
  }

  /** A removal removes only. */
  lemma KillRemoves<K>(s: seq<Slot<K>>, i: nat)
    requires i < |s|
    ensures OnlyRemoved(s, Kill(s, i))
  {
  }

  /** The same nodes in the same blocks with the same keys in the same places. */
  ghost predicate SameForm<K>(t: Tree<K>, t': Tree<K>)
    decreases t
  {
    && t.id == t'.id && (t.Leaf? <==> t'.Leaf?)
    && if t.Leaf? then SameKeys(t.slots, t'.slots)
       else |t.entries| == |t'.entries| && forall i :: 0 <= i < |t.entries| ==> SameEntry(t.entries[i], t'.entries[i])
  }

  ghost predicate SameEntry<K>(e: Entry<K>, e': Entry<K>)
    decreases e
  {
    e.sep == e'.sep && SameForm(e.kid, e'.kid)
  }

  lemma {:induction false} FormSelf<K>(t: Tree<K>)
    ensures SameForm(t, t)
    decreases t
  {
    if t.Node? {
      forall i | 0 <= i < |t.entries| ensures SameEntry(t.entries[i], t.entries[i]) {
        FormSelf(t.entries[i].kid);
      }
    }
  }

  lemma {:induction false} FormTrans<K>(t: Tree<K>, t': Tree<K>, t'': Tree<K>)
    requires SameForm(t, t') && SameForm(t', t'')
    ensures SameForm(t, t'')
    decreases t
  {
    if t.Node? {
      forall i | 0 <= i < |t.entries| ensures SameEntry(t.entries[i], t''.entries[i]) {
        assert SameEntry(t.entries[i], t'.entries[i]) && SameEntry(t'.entries[i], t''.entries[i]);
        FormTrans(t.entries[i].kid, t'.entries[i].kid, t''.entries[i].kid);
      }
    }
  }

  lemma {:induction false} FormPhys<K>(t: Tree<K>, t': Tree<K>)
    requires SameForm(t, t')
    ensures SameKeys(Phys(t), Phys(t'))
    decreases t
  {
    if t.Node? {
      FormPhysAll(t.entries, t'.entries);
    }
  }

  lemma {:induction false} FormPhysAll<K>(es: seq<Entry<K>>, es': seq<Entry<K>>)
    requires |es| == |es'| && forall i :: 0 <= i < |es| ==> SameEntry(es[i], es'[i])
    ensures SameKeys(PhysAll(es), PhysAll(es'))
    decreases es
  {
    if es != [] {
      FormPhysBelow(es[0], es'[0]);
      FormPhysAll(es[1..], es'[1..]);
    }
  }

  lemma {:induction false} FormPhysBelow<K>(e: Entry<K>, e': Entry<K>)
    requires SameEntry(e, e')
    ensures SameKeys(Below(e), Below(e'))
    decreases e
  {
    FormPhys(e.kid, e'.kid);
  }

  /** Balance, node sizes and exact separators are a matter of form. */
  lemma {:induction false} FormShape<K>(t: Tree<K>, t': Tree<K>, h: nat, c: Caps)
    requires SameForm(t, t') && Shape(t, h, c)
    ensures Shape(t', h, c) && t'.Count() == t.Count()
    decreases h
  {
    if h > 0 {
      forall i | 0 <= i < |t.entries|
        ensures Shape(t'.entries[i].kid, h - 1, c) && t'.entries[i].kid.Count() == t.entries[i].kid.Count()
        ensures t'.entries[i].kid.Leaf? == t.entries[i].kid.Leaf?
      {
        assert SameEntry(t.entries[i], t'.entries[i]);
        FormShape(t.entries[i].kid, t'.entries[i].kid, h - 1, c);
      }
    }
  }

  lemma {:induction false} FormExact<K>(t: Tree<K>, t': Tree<K>)
    requires SameForm(t, t') && Exact(t)
    ensures Exact(t')
    decreases t
  {
    if t.Node? {
      forall i | 0 <= i < |t.entries| ensures ExactEntry(t'.entries[i]) {
        assert SameEntry(t.entries[i], t'.entries[i]) && ExactEntry(t.entries[i]);
        FormExact(t.entries[i].kid, t'.entries[i].kid);
        FormPhys(t.entries[i].kid, t'.entries[i].kid);
      }
    }
  }

  lemma FormOrdered<K(!new)>(cmp: (K, K) -> int, t: Tree<K>, t': Tree<K>)
    requires SameForm(t, t') && Ordered(cmp, t)
    ensures Ordered(cmp, t')
  {
    FormExact(t, t');
    FormPhys(t, t');
  }

  lemma {:induction false} FormLevel<K>(t: Tree<K>, t': Tree<K>, h: nat, l: nat)
    requires SameForm(t, t') && l <= h
    ensures Level(t, h, l) == Level(t', h, l)
    decreases h, 0
  {
    if l < h && t.Node? {
      FormLevelAll(t.entries, t'.entries, h - 1, l);
    }
  }

  lemma {:induction false} FormLevelAll<K>(es: seq<Entry<K>>, es': seq<Entry<K>>, h: nat, l: nat)
    requires |es| == |es'| && l <= h && forall i :: 0 <= i < |es| ==> SameEntry(es[i], es'[i])
    ensures LevelAll(es, h, l) == LevelAll(es', h, l)
    decreases h, 1, |es|
  {
    if es != [] {
      assert SameEntry(es[0], es'[0]);
      FormLevel(es[0].kid, es'[0].kid, h, l);
      FormLevelAll(es[1..], es'[1..], h, l);
    }
  }

  lemma {:induction false} FormIds<K>(t: Tree<K>, t': Tree<K>)
    requires SameForm(t, t')
    ensures Ids(t) == Ids(t')
    decreases t
  {
    if t.Node? {
      forall i | 0 <= i < |t.entries| ensures IdsBelow(t.entries[i]) == IdsBelow(t'.entries[i]) {
        assert SameEntry(t.entries[i], t'.entries[i]);
        FormIds(t.entries[i].kid, t'.entries[i].kid);
      }
      forall x ensures x in Ids(t) <==> x in Ids(t') {
        if e :| e in t.entries && x in IdsBelow(e) {
          var i :| 0 <= i < |t.entries| && t.entries[i] == e;
          assert t'.entries[i] in t'.entries;
        }
        if e :| e in t'.entries && x in IdsBelow(e) {
          var i :| 0 <= i < |t'.entries| && t'.entries[i] == e;
          assert t.entries[i] in t.entries;
        }
      }
    }
  }

  lemma {:induction false} FormDistinct<K>(t: Tree<K>, t': Tree<K>)
    requires SameForm(t, t') && Distinct(t)
    ensures Distinct(t')
    decreases t
  {
    if t.Node? {
      forall i | 0 <= i < |t.entries|
        ensures IdsBelow(t'.entries[i]) == IdsBelow(t.entries[i])
        ensures DistinctBelow(t'.entries[i]) && t'.id !in IdsBelow(t'.entries[i])
      {
        assert SameEntry(t.entries[i], t'.entries[i]) && t.entries[i] in t.entries;
        FormIds(t.entries[i].kid, t'.entries[i].kid);
        FormDistinct(t.entries[i].kid, t'.entries[i].kid);
      }
    }
  }

  // The leaves

  /** Leaf `a` is in the same block and as long as before. */
  ghost predicate SameLeaf<K>(l: Tree<K>, l': Tree<K>) {
    l.id == l'.id && l.Leaf? && l'.Leaf? && |l.slots| == |l'.slots|
  }

  ghost predicate SameLeaves<K>(ls: seq<Tree<K>>, ls': seq<Tree<K>>) {
    |ls| == |ls'| && forall a :: 0 <= a < |ls| ==> SameLeaf(ls[a], ls'[a])
  }

  lemma {:induction false} FormLeaves<K>(t: Tree<K>, t': Tree<K>)
    requires SameForm(t, t')
    ensures SameLeaves(LeavesOf(t), LeavesOf(t'))
    decreases t
  {
    if t.Node? {
      FormLeavesAll(t.entries, t'.entries);
    }
  }

  lemma {:induction false} FormLeavesAll<K>(es: seq<Entry<K>>, es': seq<Entry<K>>)
    requires |es| == |es'| && forall i :: 0 <= i < |es| ==> SameEntry(es[i], es'[i])
    ensures SameLeaves(LeavesAll(es), LeavesAll(es'))
    decreases es
  {
    if es != [] {
      FormLeavesBelow(es[0], es'[0]);
      FormLeavesAll(es[1..], es'[1..]);
    }
  }

  lemma {:induction false} FormLeavesBelow<K>(e: Entry<K>, e': Entry<K>)
    requires SameEntry(e, e')
    ensures SameLeaves(LeavesBelow(e), LeavesBelow(e'))
    decreases e
  {
    FormLeaves(e.kid, e'.kid);
  }

  /** The leaves begin at the same places. */
  lemma {:induction false} FormStart<K>(ls: seq<Tree<K>>, ls': seq<Tree<K>>, a: nat)
    requires SameLeaves(ls, ls') && a <= |ls|
    ensures Start(ls, a) == Start(ls', a)
  {
    if a > 0 {
      FormStart(ls, ls', a - 1);
      assert SameLeaf(ls[a - 1], ls'[a - 1]);
      StartNext(ls, a - 1);
      StartNext(ls', a - 1);
    }
  }

  // Rewriting one entry

  /** The tree with entry `k` of leaf number `a` replaced by `x`. */
  function Rewrite<K>(t: Tree<K>, a: nat, k: nat, x: Slot<K>): Tree<K>
    decreases t
  {
    if t.Node? then Node(t.id, RewriteAll(t.entries, a, k, x))
    else if k < |t.slots| then Leaf(t.id, t.slots[k := x])
    else t
  }

  function RewriteAll<K>(es: seq<Entry<K>>, a: nat, k: nat, x: Slot<K>): seq<Entry<K>>
    decreases es
  {
    if es == [] then []
    else if a < |LeavesBelow(es[0])| then [RewriteBelow(es[0], a, k, x)] + es[1..]
    else [es[0]] + RewriteAll(es[1..], a - |LeavesBelow(es[0])|, k, x)
  }

  function RewriteBelow<K>(e: Entry<K>, a: nat, k: nat, x: Slot<K>): Entry<K>
    decreases e
  {
    Entry(e.sep, Rewrite(e.kid, a, k, x))
  }

  ghost predicate CanRewrite<K>(ls: seq<Tree<K>>, a: nat, k: nat, x: Slot<K>) {
    a < |ls| && ls[a].Leaf? && k < |ls[a].slots| && ls[a].slots[k].key == x.key
  }

  function RewrittenLeaf<K>(l: Tree<K>, k: nat, x: Slot<K>): Tree<K>
    requires l.Leaf? && k < |l.slots|
  {
    Leaf(l.id, l.slots[k := x])
  }

  lemma {:induction false} RewriteForm<K>(t: Tree<K>, a: nat, k: nat, x: Slot<K>)
    requires CanRewrite(LeavesOf(t), a, k, x)
    ensures SameForm(t, Rewrite(t, a, k, x))
    ensures LeavesOf(Rewrite(t, a, k, x)) == LeavesOf(t)[a := RewrittenLeaf(LeavesOf(t)[a], k, x)]
    decreases t
  {
    if t.Node? {
      RewriteAllForm(t.entries, a, k, x);
    }
  }

  lemma {:induction false} RewriteAllForm<K>(es: seq<Entry<K>>, a: nat, k: nat, x: Slot<K>)
    requires CanRewrite(LeavesAll(es), a, k, x)
    ensures var es' := RewriteAll(es, a, k, x);
      && |es| == |es'| && (forall i :: 0 <= i < |es| ==> SameEntry(es[i], es'[i]))
      && LeavesAll(es') == LeavesAll(es)[a := RewrittenLeaf(LeavesAll(es)[a], k, x)]
    decreases es
  {
    var n := |LeavesBelow(es[0])|;
    if a < n {
      RewriteBelowForm(es[0], a, k, x);
      FormAll(es[1..]);
      assert RewriteAll(es, a, k, x)[1..] == es[1..];
    } else {
      FormSelf(es[0].kid);
      RewriteAllForm(es[1..], a - n, k, x);
      assert RewriteAll(es, a, k, x)[1..] == RewriteAll(es[1..], a - n, k, x);
    }
  }

  lemma {:induction false} RewriteBelowForm<K>(e: Entry<K>, a: nat, k: nat, x: Slot<K>)
    requires CanRewrite(LeavesBelow(e), a, k, x)
    ensures SameEntry(e, RewriteBelow(e, a, k, x))
    ensures LeavesBelow(RewriteBelow(e, a, k, x)) == LeavesBelow(e)[a := RewrittenLeaf(LeavesBelow(e)[a], k, x)]
    decreases e
  {
    RewriteForm(e.kid, a, k, x);
  }

  lemma {:induction false} FormAll<K>(es: seq<Entry<K>>)
    ensures forall i :: 0 <= i < |es| ==> SameEntry(es[i], es[i])
  {
    forall i | 0 <= i < |es| ensures SameEntry(es[i], es[i]) {
      FormSelf(es[i].kid);
    }
  }

  lemma JoinedRewrite<K>(ls: seq<Tree<K>>, a: nat, k: nat, x: Slot<K>)
    requires CanRewrite(ls, a, k, x)
    ensures Start(ls, a) + k < |Joined(ls)| && Joined(ls)[Start(ls, a) + k] == ls[a].slots[k]
    ensures Joined(ls[a := RewrittenLeaf(ls[a], k, x)]) == Joined(ls)[Start(ls, a) + k := x]
  {
    var ls' := ls[a := RewrittenLeaf(ls[a], k, x)];
    hide Joined;
    LeafPart(ls, a);
    LeafPart(ls', a);
    assert ls'[..a] == ls[..a] && ls'[a + 1..] == ls[a + 1..];
    UpdateMiddle(Joined(ls[..a]), ls[a].slots, Joined(ls[a + 1..]), k, x);
  }

  /** In the physical sequence exactly that entry is replaced. */
  lemma {:induction false} RewritePhys<K>(t: Tree<K>, a: nat, k: nat, x: Slot<K>)
    requires CanRewrite(LeavesOf(t), a, k, x)
    ensures var i := Start(LeavesOf(t), a) + k;
      i < |Phys(t)| && Phys(t)[i] == LeavesOf(t)[a].slots[k] && Phys(Rewrite(t, a, k, x)) == Phys(t)[i := x]
  {
    hide Joined, LeavesOf, Rewrite, Phys;
    RewriteForm(t, a, k, x);
    JoinedLeaves(t);
    JoinedLeaves(Rewrite(t, a, k, x));
    JoinedRewrite(LeavesOf(t), a, k, x);
  }

  /** The blocks after the entry is overwritten. */
  ghost function RewriteImage<K>(img: Image<K>, id: nat, k: nat, x: Slot<K>): Image<K>
    requires id in img && k < |img[id].items|
  {
    img[id := img[id].(items := img[id].items[k := x])]
  }

  lemma {:induction false} LeafId<K>(t: Tree<K>, a: nat)
    requires a < |LeavesOf(t)|
    ensures LeavesOf(t)[a].id in Ids(t)
    ensures t.Node? ==> exists e :: e in t.entries && LeavesOf(t)[a].id in IdsBelow(e)
    decreases t
  {
    if t.Node? {
      var e := LeafIdAll(t.entries, a);
    }
  }

  lemma {:induction false} LeafIdAll<K>(es: seq<Entry<K>>, a: nat) returns (e: Entry<K>)
    requires a < |LeavesAll(es)|
    ensures e in es && LeavesAll(es)[a].id in IdsBelow(e)
    decreases es
  {
    if a < |LeavesBelow(es[0])| {
      e := es[0];
      LeafIdBelow(e, a);
    } else {
      e := LeafIdAll(es[1..], a - |LeavesBelow(es[0])|);
    }
  }

  lemma {:induction false} LeafIdBelow<K>(e: Entry<K>, a: nat)
    requires a < |LeavesBelow(e)|
    ensures LeavesBelow(e)[a].id in IdsBelow(e)
    decreases e
  {
    LeafId(e.kid, a);
  }

  /** The rewritten tree lies in the rewritten blocks. */
  lemma {:induction false} RewriteRep<K>(img: Image<K>, img': Image<K>, t: Tree<K>, a: nat, k: nat, x: Slot<K>)
    requires Rep(img, t) && Distinct(t) && CanRewrite(LeavesOf(t), a, k, x)
    requires var id := LeavesOf(t)[a].id; id in img && k < |img[id].items| && img' == RewriteImage(img, id, k, x)
    ensures Rep(img', Rewrite(t, a, k, x))
    decreases t
  {
    if t.Node? {
      assert forall e :: e in t.entries ==> RepEntry(img, e);
      LeafId(t, a);
      RewriteForm(t, a, k, x);
      RewriteRepAll(img, img', t.entries, a, k, x);
      FormItems(t, Rewrite(t, a, k, x));
    }
  }

  lemma FormTop<K>(t: Tree<K>, t': Tree<K>)
    requires SameForm(t, t')
    ensures t.id == t'.id && (t.Leaf? <==> t'.Leaf?)
  {
  }

  lemma FormItems<K>(t: Tree<K>, t': Tree<K>)
    requires SameForm(t, t') && t.Node?
    ensures t.Items() == t'.Items()
  {
    forall i | 0 <= i < |t.entries| ensures t.Items()[i] == t'.Items()[i] {
      assert SameEntry(t.entries[i], t'.entries[i]);
      FormTop(t.entries[i].kid, t'.entries[i].kid);
    }
  }

  lemma {:induction false} RewriteRepAll<K>(img: Image<K>, img': Image<K>, es: seq<Entry<K>>, a: nat, k: nat,
          x: Slot<K>)
    requires forall e :: e in es ==> RepEntry(img, e) && DistinctBelow(e)
    requires forall i, j :: 0 <= i < j < |es| ==> IdsBelow(es[i]) !! IdsBelow(es[j])
    requires CanRewrite(LeavesAll(es), a, k, x)
    requires var id := LeavesAll(es)[a].id; id in img && k < |img[id].items| && img' == RewriteImage(img, id, k, x)
    ensures forall e :: e in RewriteAll(es, a, k, x) ==> RepEntry(img', e)
    decreases es
  {
    var n := |LeavesBelow(es[0])|;
    assert forall i, j :: 0 <= i < j < |es[1..]| ==> es[1..][i] == es[1 + i] && es[1..][j] == es[1 + j];
    if a < n {
      RewriteRepBelow(img, img', es[0], a, k, x);
      LeafIdBelow(es[0], a);
      forall e | e in es[1..] ensures RepEntry(img', e) {
        var i :| 1 <= i < |es| && es[i] == e;
        assert IdsBelow(es[0]) !! IdsBelow(es[i]);
        EntryFrame(img, img', e, k, x, LeavesAll(es)[a].id);
      }
    } else {
      RewriteRepAll(img, img', es[1..], a - n, k, x);
      var e := LeafIdAll(es[1..], a - n);
      var i :| 1 <= i < |es| && es[i] == e;
      assert IdsBelow(es[0]) !! IdsBelow(es[i]);
      EntryFrame(img, img', es[0], k, x, LeavesAll(es)[a].id);
    }
  }

  lemma EntryFrame<K>(img: Image<K>, img': Image<K>, e: Entry<K>, k: nat, x: Slot<K>, id: nat)
    requires RepEntry(img, e) && id !in IdsBelow(e)
    requires id in img && k < |img[id].items| && img' == RewriteImage(img, id, k, x)
    ensures RepEntry(img', e)
  {
    RepIds(img, e.kid);
    RepFrame(img, img', e.kid);
  }

  lemma {:induction false} RewriteRepBelow<K>(img: Image<K>, img': Image<K>, e: Entry<K>, a: nat, k: nat, x: Slot<K>)
    requires RepEntry(img, e) && DistinctBelow(e) && CanRewrite(LeavesBelow(e), a, k, x)
    requires var id := LeavesBelow(e)[a].id; id in img && k < |img[id].items| && img' == RewriteImage(img, id, k, x)
    ensures RepEntry(img', RewriteBelow(e, a, k, x))
    decreases e
  {
    RewriteRep(img, img', e.kid, a, k, x);
  }

  lemma {:induction false} RewriteLies<K>(img: Image<K>, levels: seq<seq<nat>>, t: Tree<K>, h: nat, a: nat, k: nat,
          x: Slot<K>)
    requires LiesWhole(img, levels, t, h) && CanRewrite(LeavesOf(t), a, k, x)
    requires var id := LeavesOf(t)[a].id; id in img && k < |img[id].items|
    ensures LiesWhole(RewriteImage(img, LeavesOf(t)[a].id, k, x), levels, Rewrite(t, a, k, x), h)
  {
    var t' := Rewrite(t, a, k, x);
    var img' := RewriteImage(img, LeavesOf(t)[a].id, k, x);
    RewriteForm(t, a, k, x);
    RewriteRep(img, img', t, a, k, x);
    FormDistinct(t, t');
    forall l | 0 <= l <= h ensures levels[l] == Level(t', h, l) {
      FormLevel(t, t', h, l);
    }
    hide Rewrite;
    RewriteChained(img, img', levels, LeavesOf(t)[a].id, k, x);
  }

  lemma RewriteChained<K>(img: Image<K>, img': Image<K>, levels: seq<seq<nat>>, id: nat, k: nat, x: Slot<K>)
    requires Chained(img, levels) && id in img && k < |img[id].items| && img' == RewriteImage(img, id, k, x)
    ensures Chained(img', levels)
  {
    forall l, i | 0 <= l < |levels| && 0 <= i < |levels[l]| ensures ChainedAt(img', levels[l], i) {
      assert ChainedAt(img, levels[l], i);
    }
  }

  // Reviving a removed key

  /** A key that is present is not beyond the last entry. */
  lemma {:induction false} PresentEnd<K>(s: seq<Slot<K>>, k: K, p: K -> int)
    requires Ends(s, k) && Monotone(p, s) && Present(s, p)
    ensures p(k) >= 0
  {
    hide Lub;
    if Lub(s, p) < |s| - 1 {
      assert p(s[|s| - 1].key) > 0;
    }
  }

  /** A key that is present is not beyond the last separator. */
  lemma {:induction false} PresentPick<K>(t: Tree<K>, p: K -> int)
    requires t.Node? && |t.entries| > 0 && Exact(t) && Monotone(p, Phys(t)) && Present(Phys(t), p)
    ensures Lub(t.Items(), p) < |t.entries|
    ensures Present(Phys(t.entries[Pick(t, p)].kid), p)
  {
    hide Lub, Monotone;
    var j := Pick(t, p);
    PickSplits(t, p);
    var a, b, z := PhysAll(t.entries[..j]), Phys(t.entries[j].kid), PhysAll(t.entries[j + 1..]);
    LubMiddle(a, b, z, p);
    var l := Lub(b, p);
    assert l < |b| && Phys(t)[|a| + l] == b[l];
    assert ExactEntry(t.entries[j]);
    PresentEnd(b, t.entries[j].sep, p);
    assert t.Items()[j].key == t.entries[j].sep;
  }

  /** Entering a key that is present splits nothing and moves nothing. */
  lemma {:induction false} ReviveForm<K>(t: Tree<K>, p: K -> int, key: K, w: Payload, n: nat, h: nat, c: Caps)
    requires Shape(t, h, c) && c.leaf >= 3 && c.node >= 3
    requires Exact(t) && Monotone(p, Phys(t)) && Present(Phys(t), p)
    ensures var (t', m) := Insert(t, p, key, w, n, h, c); SameForm(t, t') && m == n
    decreases h
  {
    hide Lub, Pick, SepAfter, Present, Monotone, Shape;
    ShapeTop(t, h, c);
    if h == 0 {
      EnterForm(t.slots, p, key, w);
    } else {
      var j := Pick(t, p);
      ShapeKid(t, h, c, j);
      PresentPick(t, p);
      PickSplits(t, p);
      assert ExactEntry(t.entries[j]);
      var kid := t.entries[j].kid;
      ReviveForm(kid, p, key, w, n, h - 1, c);
      var son := Insert(kid, p, key, w, n, h - 1, c).0;
      FormShape(kid, son, h - 1, c);
      ReviveSep(t, p, son);
      FormAll(t.entries);
    }
  }

  lemma ReviveSep<K>(t: Tree<K>, p: K -> int, son: Tree<K>)
    requires t.Node? && |t.entries| > 0 && son.Count() > 0 && Lub(t.Items(), p) < |t.entries|
    ensures SepAfter(t, p, son) == t.entries[Pick(t, p)].sep
  {
  }

  lemma EnterForm<K>(s: seq<Slot<K>>, p: K -> int, key: K, w: Payload)
    requires Present(s, p)
    ensures SameKeys(s, Enter(s, p, key, w))
  {
  }

  /** A put of a key that is present, live or removed: no key, separator, node or block
      index changes, and no block is added to the tree. */
  lemma {:induction false} RevivePut<K(!new)>(cmp: (K, K) -> int, t: Tree<K>, key: K, w: Payload, n: nat, h: nat,
          c: Caps)
    requires Shape(t, h, c) && c.leaf >= 3 && c.node >= 3 && Ordered(cmp, t) && t.Count() < Cap(t, c)
    requires Present(Phys(t), At(cmp, key))
    ensures var (t', n', h') := Put(t, At(cmp, key), key, w, n, h, c); SameForm(t, t') && n' == n && h' == h
  {
    hide Insert, Present, Shape;
    OrderedMonotone(cmp, t, key);
    ReviveForm(t, At(cmp, key), key, w, n, h, c);
    FormShape(t, Insert(t, At(cmp, key), key, w, n, h, c).0, h, c);
  }
}
