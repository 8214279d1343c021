/** The leaves of a tree from left to right, and places in its physical sequence. */
module Leaves {
  import opened Slots
  import opened Trees
  import opened Blocks
  import opened Layout

  function LeavesOf<K>(t: Tree<K>): seq<Tree<K>>
    decreases t
  {
    if t.Leaf? then [t] else LeavesAll(t.entries)
  }

  function LeavesAll<K>(es: seq<Entry<K>>): seq<Tree<K>>
    decreases es
  {
    if es == [] then [] else LeavesBelow(es[0]) + LeavesAll(es[1..])
  }

  function LeavesBelow<K>(e: Entry<K>): seq<Tree<K>>
    decreases e
  {
    LeavesOf(e.kid)
  }

  /** The entries of leaves one after the other. */
  function Joined<K>(ls: seq<Tree<K>>): seq<Slot<K>> {
    if ls == [] then [] else (if ls[0].Leaf? then ls[0].slots else []) + Joined(ls[1..])
  }

  lemma {:induction false} JoinedConcat<K>(a: seq<Tree<K>>, b: seq<Tree<K>>)
    ensures Joined(a + b) == Joined(a) + Joined(b)
  {
    if a == [] {
      assert a + b == b;
    } else {
      assert (a + b)[0] == a[0] && (a + b)[1..] == a[1..] + b;
      JoinedConcat(a[1..], b);
    }
  }

  lemma {:induction false} JoinedLeaves<K>(t: Tree<K>)
    ensures Joined(LeavesOf(t)) == Phys(t)
    decreases t
  {
    if t.Leaf? {
      assert Joined([t]) == t.slots + [];
    } else {
      JoinedAll(t.entries);
    }
  }

  lemma {:induction false} JoinedAll<K>(es: seq<Entry<K>>)
    ensures Joined(LeavesAll(es)) == PhysAll(es)
    decreases es
  {
    if es != [] {
      JoinedBelow(es[0]);
      JoinedConcat(LeavesBelow(es[0]), LeavesAll(es[1..]));
      JoinedAll(es[1..]);
    }
  }

  lemma {:induction false} JoinedBelow<K>(e: Entry<K>)
    ensures Joined(LeavesBelow(e)) == Phys(e.kid)
    decreases e
  {
    JoinedLeaves(e.kid);
  }

  function Idents<K>(ls: seq<Tree<K>>): seq<nat> {
    seq(|ls|, i requires 0 <= i < |ls| => ls[i].id)
  }

  /** The lowest level lists the leaves. */
  lemma {:induction false} LeavesLevel<K>(t: Tree<K>, h: nat, c: Caps)
    requires Shape(t, h, c)
    ensures Level(t, h, 0) == Idents(LeavesOf(t))
    decreases h, 0
  {
    if h > 0 {
      LeavesLevelAll(t.entries, h - 1, c);
    }
  }

  lemma {:induction false} LeavesLevelAll<K>(es: seq<Entry<K>>, h: nat, c: Caps)
    requires forall i :: 0 <= i < |es| ==> Shape(es[i].kid, h, c)
    ensures LevelAll(es, h, 0) == Idents(LeavesAll(es))
    decreases h, 1, |es|
  {
    if es != [] {
      LeavesLevel(es[0].kid, h, c);
      LeavesLevelAll(es[1..], h, c);
      assert LeavesAll(es) == LeavesOf(es[0].kid) + LeavesAll(es[1..]);
      assert Idents(LeavesAll(es)) == Idents(LeavesOf(es[0].kid)) + Idents(LeavesAll(es[1..]));
    }
  }

  /** Every leaf is a leaf, lies in its block, and has an entry unless it is the root. */
  ghost predicate LeafOK<K>(img: Image<K>, l: Tree<K>) {
    l.Leaf? && l.id in img && img[l.id].leaf && img[l.id].items == l.slots
  }

  lemma {:induction false} LeavesRep<K>(img: Image<K>, t: Tree<K>)
    requires Rep(img, t)
    ensures forall l :: l in LeavesOf(t) ==> LeafOK(img, l)
    decreases t
  {
    if t.Node? {
      assert forall e :: e in t.entries ==> RepEntry(img, e);
      LeavesRepAll(img, t.entries);
    }
  }

  lemma {:induction false} LeavesRepAll<K>(img: Image<K>, es: seq<Entry<K>>)
    requires forall e :: e in es ==> RepEntry(img, e)
    ensures forall l :: l in LeavesAll(es) ==> LeafOK(img, l)
    decreases es
  {
    if es != [] {
      LeavesRepBelow(img, es[0]);
      LeavesRepAll(img, es[1..]);
    }
  }

  lemma {:induction false} LeavesRepBelow<K>(img: Image<K>, e: Entry<K>)
    requires RepEntry(img, e)
    ensures forall l :: l in LeavesBelow(e) ==> LeafOK(img, l)
    decreases e
  {
    LeavesRep(img, e.kid);
  }

  lemma {:induction false} LeavesFilled<K>(t: Tree<K>, h: nat, c: Caps)
    requires Shape(t, h, c) && c.leaf >= 3 && c.node >= 3 && t.Count() > 0
    ensures LeavesOf(t) != [] && forall l :: l in LeavesOf(t) ==> l.Leaf? && l.slots != []
    decreases h, 0
  {
    if h > 0 {
      LeavesFilledAll(t.entries, h - 1, c);
    }
  }

  lemma {:induction false} LeavesFilledAll<K>(es: seq<Entry<K>>, h: nat, c: Caps)
    requires c.leaf >= 3 && c.node >= 3
    requires forall i :: 0 <= i < |es| ==> Shape(es[i].kid, h, c) && es[i].kid.Count() > 0
    ensures |LeavesAll(es)| >= |es| && forall l :: l in LeavesAll(es) ==> l.Leaf? && l.slots != []
    decreases h, 1, |es|
  {
    if es != [] {
      LeavesFilled(es[0].kid, h, c);
      LeavesFilledAll(es[1..], h, c);
    }
  }

  /** The place of the first entry of leaf `a` in the physical sequence. */
  function Start<K>(ls: seq<Tree<K>>, a: nat): nat
    requires a <= |ls|
  {
    |Joined(ls[..a])|
  }

  lemma JoinedOne<K>(l: Tree<K>)
    requires l.Leaf?
    ensures Joined([l]) == l.slots
  {
    assert Joined([l]) == l.slots + [];
  }

  lemma StartNext<K>(ls: seq<Tree<K>>, a: nat)
    requires a < |ls| && ls[a].Leaf?
    ensures Start(ls, a + 1) == Start(ls, a) + |ls[a].slots|
    ensures Joined(ls[..a + 1]) == Joined(ls[..a]) + ls[a].slots
  {
    hide Joined;
    assert ls[..a + 1] == ls[..a] + [ls[a]];
    JoinedConcat(ls[..a], [ls[a]]);
    JoinedOne(ls[a]);
  }

  /** The entries of leaf `a` as part of the physical sequence. */
  lemma LeafPart<K>(ls: seq<Tree<K>>, a: nat)
    requires a < |ls| && ls[a].Leaf?
    ensures Joined(ls) == Joined(ls[..a]) + ls[a].slots + Joined(ls[a + 1..])
  {
    hide Joined;
    assert ls == ls[..a + 1] + ls[a + 1..];
    JoinedConcat(ls[..a + 1], ls[a + 1..]);
    StartNext(ls, a);
  }

  lemma {:induction false} LeavesConcat<K>(a: seq<Entry<K>>, b: seq<Entry<K>>)
    ensures LeavesAll(a + b) == LeavesAll(a) + LeavesAll(b)
  {
    if a == [] {
      assert a + b == b;
    } else {
      assert (a + b)[0] == a[0] && (a + b)[1..] == a[1..] + b;
      LeavesConcat(a[1..], b);
    }
  }

  lemma LeavesAround<K>(es: seq<Entry<K>>, j: nat)
    requires j < |es|
    ensures LeavesAll(es) == LeavesAll(es[..j]) + LeavesOf(es[j].kid) + LeavesAll(es[j + 1..])
  {
    hide LeavesOf;
    assert es == es[..j] + es[j..] && es[j..][1..] == es[j + 1..];
    LeavesConcat(es[..j], es[j..]);
  }

  // The way from the root down to a leaf

  /** Subtree `s` of `t`, with the leaves to its left and to its right. */
  ghost predicate Part<K>(img: Image<K>, c: Caps, t: Tree<K>, s: Tree<K>, h: nat, before: seq<Tree<K>>,
          after: seq<Tree<K>>) {
    && LeavesOf(t) == before + LeavesOf(s) + after
    && Rep(img, s) && Shape(s, h, c) && Exact(s)
  }

  lemma PartKid<K>(img: Image<K>, c: Caps, t: Tree<K>, s: Tree<K>, h: nat, before: seq<Tree<K>>, after: seq<Tree<K>>,
          j: nat)
    requires Part(img, c, t, s, h, before, after) && h > 0 && s.Node? && j < |s.entries|
    ensures Part(img, c, t, s.entries[j].kid, h - 1, before + LeavesAll(s.entries[..j]),
      LeavesAll(s.entries[j + 1..]) + after)
    ensures Joined(before + LeavesAll(s.entries[..j])) == Joined(before) + PhysAll(s.entries[..j])
    ensures Joined(LeavesAll(s.entries[j + 1..]) + after) == PhysAll(s.entries[j + 1..]) + Joined(after)
    ensures s.id in img && img[s.id].items == s.Items() && s.Items()[j].payload == Child(s.entries[j].kid.id)
  {
    PartLeaves(s, j, before, after);
    assert RepEntry(img, s.entries[j]) && ExactEntry(s.entries[j]);
    hide Joined, LeavesAll, LeavesOf;
    JoinedConcat(before, LeavesAll(s.entries[..j]));
    JoinedConcat(LeavesAll(s.entries[j + 1..]), after);
    JoinedAll(s.entries[..j]);
    JoinedAll(s.entries[j + 1..]);
  }

  lemma PartLeaves<K>(s: Tree<K>, j: nat, before: seq<Tree<K>>, after: seq<Tree<K>>)
    requires s.Node? && j < |s.entries|
    ensures before + LeavesOf(s) + after
      == (before + LeavesAll(s.entries[..j])) + LeavesOf(s.entries[j].kid) + (LeavesAll(s.entries[j + 1..]) + after)
  {
    LeavesAround(s.entries, j);
    hide LeavesAll;
  }

  lemma PartWhole<K>(img: Image<K>, c: Caps, t: Tree<K>, h: nat)
    requires Rep(img, t) && Shape(t, h, c) && Exact(t)
    ensures Part(img, c, t, t, h, [], [])
  {
    assert LeavesOf(t) == [] + LeavesOf(t) + [];
  }

  /** The search for `p` has not gone wrong: everything to the left is below the probe, and
      unless nothing is to the right, the probe is not beyond the subtree. */
  ghost predicate OnTrack<K>(s: Tree<K>, before: seq<Tree<K>>, after: seq<Tree<K>>, p: K -> int) {
    && Monotone(p, Phys(s))
    && (forall x :: x in Joined(before) ==> p(x.key) < 0)
    && (Joined(after) == [] || Lub(Phys(s), p) < |Phys(s)|)
  }

  lemma {:induction false} TrackKid<K>(s: Tree<K>, before: seq<Tree<K>>, after: seq<Tree<K>>, p: K -> int,
          before': seq<Tree<K>>, after': seq<Tree<K>>)
    requires s.Node? && |s.entries| > 0 && Exact(s) && OnTrack(s, before, after, p)
    requires Joined(before') == Joined(before) + PhysAll(s.entries[..Pick(s, p)])
    requires Joined(after') == PhysAll(s.entries[Pick(s, p) + 1..]) + Joined(after)
    ensures OnTrack(s.entries[Pick(s, p)].kid, before', after', p)
    ensures Monotone(p, s.Items())
  {
    hide Lub, Joined, Pick;
    var j := Pick(s, p);
    ItemsMonotone(s, p);
    PickSplits(s, p);
    var a, b, z := PhysAll(s.entries[..j]), Phys(s.entries[j].kid), PhysAll(s.entries[j + 1..]);
    if z == [] && Joined(after) != [] {
      LubMiddle(a, b, z, p);
    }
  }

  lemma TrackRoot<K>(t: Tree<K>, p: K -> int)
    requires Monotone(p, Phys(t))
    ensures OnTrack(t, [], [], p)
  {
  }

  lemma TrackLeaf<K>(s: Tree<K>, before: seq<Tree<K>>, after: seq<Tree<K>>, p: K -> int)
    requires OnTrack(s, before, after, p) && s.Leaf?
    ensures Monotone(p, s.slots)
    ensures forall x :: x in Joined(before) ==> p(x.key) < 0
    ensures Joined(after) == [] || Lub(s.slots, p) < |s.slots|
  {
  }

  /** The place a search finds in the right leaf is the place it finds in the whole. */
  lemma {:induction false} SearchPlace<K>(ls: seq<Tree<K>>, a: nat, p: K -> int)
    requires a < |ls| && ls[a].Leaf?
    requires forall x :: x in Joined(ls[..a]) ==> p(x.key) < 0
    requires Joined(ls[a + 1..]) == [] || Lub(ls[a].slots, p) < |ls[a].slots|
    ensures Lub(Joined(ls), p) == Start(ls, a) + Lub(ls[a].slots, p)
    ensures Lub(ls[a].slots, p) == |ls[a].slots| ==> Lub(Joined(ls), p) == |Joined(ls)|
  {
    hide Lub, Joined;
    LeafPart(ls, a);
    LubMiddle(Joined(ls[..a]), ls[a].slots, Joined(ls[a + 1..]), p);
  }

  lemma FirstPart<K>(es: seq<Entry<K>>)
    requires es != []
    ensures [] + LeavesAll(es[..0]) == []
  {
  }

  lemma LastPart<K>(es: seq<Entry<K>>)
    requires es != []
    ensures LeavesAll(es[|es| - 1 + 1..]) + [] == []
  {
  }
}
