/** How a tree lies in node blocks, and how the blocks of one level are chained. */
module Layout {
  import opened Slots
  import opened Trees
  import opened Blocks

  type Image<K> = map<nat, Content<K>>

  /** Every node of `t` is held by the block with its index. */
  ghost predicate Rep<K>(img: Image<K>, t: Tree<K>)
    decreases t
  {
    && t.id in img && img[t.id].leaf == t.Leaf? && img[t.id].items == t.Items()
    && (t.Node? ==> forall e :: e in t.entries ==> RepEntry(img, e))
  }

  ghost predicate RepEntry<K>(img: Image<K>, e: Entry<K>)
    decreases e
  {
    Rep(img, e.kid)
  }

  /** The block indices of the nodes of `t`. */
  ghost function Ids<K>(t: Tree<K>): set<nat>
    decreases t
  {
    {t.id} + if t.Leaf? then {} else set e, x | e in t.entries && x in IdsBelow(e) :: x
  }

  ghost function IdsBelow<K>(e: Entry<K>): set<nat>
    decreases e
  {
    Ids(e.kid)
  }

  /** No two nodes of `t` have the same block index. */
  ghost predicate Distinct<K>(t: Tree<K>)
    decreases t
  {
    t.Node? ==>
      && (forall e :: e in t.entries ==> DistinctBelow(e) && t.id !in IdsBelow(e))
      && (forall i, j :: 0 <= i < j < |t.entries| ==> IdsBelow(t.entries[i]) !! IdsBelow(t.entries[j]))
  }

  ghost predicate DistinctBelow<K>(e: Entry<K>)
    decreases e
  {
    Distinct(e.kid)
  }

  ghost predicate SameNode<K>(img: Image<K>, img': Image<K>, x: nat) {
    x in img && x in img' && img[x].leaf == img'[x].leaf && img[x].items == img'[x].items
  }

  lemma IdsOfKid<K>(t: Tree<K>, e: Entry<K>)
    requires t.Node? && e in t.entries
    ensures Ids(e.kid) <= Ids(t)
  {
    assert forall x :: x in IdsBelow(e) ==> x in Ids(t);
  }

  lemma {:induction false} RepFrame<K>(img: Image<K>, img': Image<K>, t: Tree<K>)
    requires Rep(img, t)
    requires forall x :: x in Ids(t) ==> SameNode(img, img', x)
    ensures Rep(img', t)
    decreases t
  {
    assert SameNode(img, img', t.id);
    if t.Node? {
      forall e | e in t.entries ensures RepEntry(img', e) {
        assert RepEntry(img, e);
        IdsOfKid(t, e);
        RepFrame(img, img', e.kid);
      }
    }
  }

  lemma {:induction false} RepIds<K>(img: Image<K>, t: Tree<K>)
    requires Rep(img, t)
    ensures Ids(t) <= img.Keys
    decreases t
  {
    if t.Node? {
      forall e | e in t.entries ensures IdsBelow(e) <= img.Keys {
        assert RepEntry(img, e);
        RepIds(img, e.kid);
      }
    }
  }

  /** The block indices of the nodes `l` levels above the leaves, from left to right. */
  function Level<K>(t: Tree<K>, h: nat, l: nat): seq<nat>
    requires l <= h
    decreases h, 0
  {
    if l == h then [t.id]
    else if t.Leaf? then []
    else LevelAll(t.entries, h - 1, l)
  }

  function LevelAll<K>(es: seq<Entry<K>>, h: nat, l: nat): seq<nat>
    requires l <= h
    decreases h, 1, |es|
  {
    if es == [] then [] else Level(es[0].kid, h, l) + LevelAll(es[1..], h, l)
  }

  lemma {:induction false} LevelConcat<K>(a: seq<Entry<K>>, b: seq<Entry<K>>, h: nat, l: nat)
    requires l <= h
    ensures LevelAll(a + b, h, l) == LevelAll(a, h, l) + LevelAll(b, h, l)
  {
    if a == [] {
      assert a + b == b;
    } else {
      assert (a + b)[0] == a[0] && (a + b)[1..] == a[1..] + b;
      LevelConcat(a[1..], b, h, l);
    }
  }

  lemma LevelAround<K>(es: seq<Entry<K>>, j: nat, h: nat, l: nat)
    requires j < |es| && l <= h
    ensures LevelAll(es, h, l) == LevelAll(es[..j], h, l) + Level(es[j].kid, h, l) + LevelAll(es[j + 1..], h, l)
  {
    assert es == es[..j] + es[j..] && es[j..][1..] == es[j + 1..];
    LevelConcat(es[..j], es[j..], h, l);
  }

  /** At the level of the children themselves the sequence lists them in order. */
  lemma {:induction false} LevelOfKids<K>(es: seq<Entry<K>>, h: nat)
    ensures |LevelAll(es, h, h)| == |es|
    ensures forall i :: 0 <= i < |es| ==> LevelAll(es, h, h)[i] == es[i].kid.id
  {
    if es != [] {
      LevelOfKids(es[1..], h);
    }
  }

  // Chains

  function After(s: seq<nat>, i: nat): nat {
    if i + 1 < |s| then s[i + 1] else 0
  }

  function Before(s: seq<nat>, i: nat): nat
    requires i <= |s|
  {
    if i > 0 then s[i - 1] else 0
  }

  /** The blocks of every level are chained both ways in the order of the level,
      with 0 at both ends. */
  ghost predicate Chained<K>(img: Image<K>, levels: seq<seq<nat>>) {
    forall l, i :: 0 <= l < |levels| && 0 <= i < |levels[l]| ==> ChainedAt(img, levels[l], i)
  }

  ghost predicate ChainedAt<K>(img: Image<K>, s: seq<nat>, i: nat)
    requires i < |s|
  {
    s[i] != 0 && s[i] in img && img[s[i]].next == After(s, i) && img[s[i]].last == Before(s, i)
  }

  ghost predicate NoRepeat(levels: seq<seq<nat>>) {
    forall l, i, l', i' ::
      0 <= l < |levels| && 0 <= i < |levels[l]| && 0 <= l' < |levels| && 0 <= i' < |levels[l']| ==>
        (levels[l][i] == levels[l'][i'] ==> l == l' && i == i')
  }

  function Inserted(s: seq<nat>, b: nat, m: nat): seq<nat>
    requires b < |s|
  {
    s[..b + 1] + [m] + s[b + 1..]
  }

  /** `img'` is `img` with block `m` linked in after the block at place `b` of `s`. */
  ghost predicate LinkedIn<K>(img: Image<K>, img': Image<K>, s: seq<nat>, b: nat, m: nat)
    requires b < |s|
  {
    && m in img' && img'[m].next == After(s, b) && img'[m].last == s[b]
    && forall x :: x in img ==> x in img' && (x != m ==>
      && img'[x].next == (if x == s[b] then m else img[x].next)
      && img'[x].last == (if b + 1 < |s| && x == s[b + 1] then m else img[x].last))
  }

  /** The four link writes that chain block `m` after block `s`. */
  ghost function LinkImage<K>(img: Image<K>, s: nat, m: nat): Image<K>
    requires s in img && m in img && (img[s].next != 0 ==> img[s].next in img)
  {
    var o := img[s].next;
    var img1 := if o != 0 then LinkOld(img, o, m) else img;
    var img2 := img1[s := img1[s].(next := m)];
    img2[m := img2[m].(last := s)]
  }

  ghost function LinkOld<K>(img: Image<K>, o: nat, m: nat): Image<K>
    requires o in img && m in img
  {
    var img0 := img[o := img[o].(last := m)];
    img0[m := img0[m].(next := o)]
  }

  lemma LinkImageKeepsNodes<K>(img: Image<K>, s: nat, m: nat)
    requires s in img && m in img && (img[s].next != 0 ==> img[s].next in img)
    ensures LinkImage(img, s, m).Keys == img.Keys
    ensures forall x :: x in img ==> SameNode(img, LinkImage(img, s, m), x)
  {
  }

  lemma LinkImageLinksIn<K>(img0: Image<K>, img: Image<K>, levels: seq<seq<nat>>, a: nat, b: nat, m: nat)
    requires Chained(img0, levels) && NoRepeat(levels) && SameLinks(img0, img)
    requires a < |levels| && b < |levels[a]| && m !in img0 && m in img && img[m].next == 0 && m != 0
    ensures var s := levels[a][b];
      && s in img && (img[s].next != 0 ==> img[s].next in img)
      && LinkedIn(img0, LinkImage(img, s, m), levels[a], b, m)
  {
    assert ChainedAt(img0, levels[a], b);
    if b + 1 < |levels[a]| {
      assert ChainedAt(img0, levels[a], b + 1);
    }
  }

  ghost predicate SameLinks<K>(img: Image<K>, img': Image<K>) {
    forall x :: x in img ==> x in img' && img'[x].next == img[x].next && img'[x].last == img[x].last
  }

  /** Linking a new block in keeps every level chained. */
  lemma LinkAfter<K>(img: Image<K>, img': Image<K>, levels: seq<seq<nat>>, a: nat, b: nat, m: nat)
    requires Chained(img, levels) && NoRepeat(levels)
    requires a < |levels| && b < |levels[a]| && m !in img && m != 0
    requires LinkedIn(img, img', levels[a], b, m)
    ensures Chained(img', levels[a := Inserted(levels[a], b, m)])
  {
    var levels' := levels[a := Inserted(levels[a], b, m)];
    forall l, i | 0 <= l < |levels'| && 0 <= i < |levels'[l]|
      ensures ChainedAt(img', levels'[l], i)
    {
      if l == a {
        LinkAfterHere(img, img', levels, a, b, m, i);
      } else {
        assert ChainedAt(img, levels[l], i);
        assert levels[l][i] != levels[a][b];
        assert b + 1 < |levels[a]| ==> levels[l][i] != levels[a][b + 1];
      }
    }
  }

  lemma LinkAfterHere<K>(img: Image<K>, img': Image<K>, levels: seq<seq<nat>>, a: nat, b: nat, m: nat, i: nat)
    requires Chained(img, levels) && NoRepeat(levels)
    requires a < |levels| && b < |levels[a]| && m !in img && m != 0
    requires LinkedIn(img, img', levels[a], b, m)
    requires i <= |levels[a]|
    ensures ChainedAt(img', Inserted(levels[a], b, m), i)
  {
    var s := levels[a];
    assert ChainedAt(img, s, b);
    if i <= b {
      assert ChainedAt(img, s, i);
    } else if i > b + 1 {
      assert ChainedAt(img, s, i - 1);
    }
    assert b + 1 < |s| ==> ChainedAt(img, s, b + 1);
  }

  lemma InsertNoRepeat<K>(img: Image<K>, levels: seq<seq<nat>>, a: nat, b: nat, m: nat)
    requires Chained(img, levels) && NoRepeat(levels)
    requires a < |levels| && b < |levels[a]| && m !in img
    ensures NoRepeat(levels[a := Inserted(levels[a], b, m)])
  {
    var levels' := levels[a := Inserted(levels[a], b, m)];
    forall l, i | 0 <= l < |levels| && 0 <= i < |levels[l]|
      ensures levels[l][i] != m
    {
      assert ChainedAt(img, levels[l], i);
    }
    forall l, i, l', i' |
      0 <= l < |levels'| && 0 <= i < |levels'[l]| && 0 <= l' < |levels'| && 0 <= i' < |levels'[l']|
      && levels'[l][i] == levels'[l'][i']
      ensures l == l' && i == i'
    {
      var x := OldPlace(levels, a, b, m, l, i);
      var x' := OldPlace(levels, a, b, m, l', i');
    }
  }

  /** Where an entry of the levels after an insertion was before it. */
  lemma OldPlace(levels: seq<seq<nat>>, a: nat, b: nat, m: nat, l: nat, i: nat) returns (x: nat)
    requires a < |levels| && b < |levels[a]| && l < |levels|
    requires i < |levels[a := Inserted(levels[a], b, m)][l]|
    ensures x == if l == a && i > b then i - 1 else i
    ensures l == a && i == b + 1 ==> levels[a := Inserted(levels[a], b, m)][l][i] == m
    ensures !(l == a && i == b + 1) ==>
      x < |levels[l]| && levels[a := Inserted(levels[a], b, m)][l][i] == levels[l][x]
  {
    x := if l == a && i > b then i - 1 else i;
  }

  // Splitting a child

  /** What halving `son` into block `m` leaves in the blocks, apart from its parent's. */
  ghost predicate HalvesDone<K>(img: Image<K>, img': Image<K>, son: Tree<K>, m: nat, parent: nat) {
    var (l, r) := Split(son, m);
    && son.id in img' && img'[son.id].leaf == son.Leaf? && img'[son.id].items == l.Items()
    && m in img' && img'[m].leaf == son.Leaf? && img'[m].items == r.Items()
    && forall x :: x in img && x != son.id && x != parent ==> SameNode(img, img', x)
  }

  /** What splitting child `j` of `t` into block `m` leaves in the blocks. */
  ghost predicate SplitDone<K>(img: Image<K>, img': Image<K>, t: Tree<K>, j: nat, m: nat)
    requires t.Node? && j < |t.entries| && t.entries[j].kid.Count() > 0
  {
    && HalvesDone(img, img', t.entries[j].kid, m, t.id)
    && t.id in img' && !img'[t.id].leaf && img'[t.id].items == SplitKid(t, j, m).Items()
  }

  lemma SplitRep<K>(img: Image<K>, img': Image<K>, t: Tree<K>, j: nat, m: nat)
    requires t.Node? && j < |t.entries| && t.entries[j].kid.Count() > 0
    requires Rep(img, t) && Distinct(t)
    requires SplitDone(img, img', t, j, m)
    ensures Rep(img', SplitKid(t, j, m))
  {
    var son := t.entries[j].kid;
    var (l, r) := Split(son, m);
    var t' := SplitKid(t, j, m);
    assert RepEntry(img, t.entries[j]) && DistinctBelow(t.entries[j]) && t.id !in IdsBelow(t.entries[j]);
    HalvesRep(img, img', son, m, t.id);
    forall e | e in t'.entries ensures RepEntry(img', e) {
      if e.kid != l && e.kid != r {
        var i :| 0 <= i < |t.entries| && i != j && t.entries[i] == e;
        assert RepEntry(img, e);
        OtherKids(img, img', t, i, j);
      }
    }
  }

  /** A child other than `j` is left alone by what happens to child `j` and `t` itself. */
  lemma OtherKids<K>(img: Image<K>, img': Image<K>, t: Tree<K>, i: nat, j: nat)
    requires t.Node? && i < |t.entries| && j < |t.entries| && i != j
    requires Rep(img, t.entries[i].kid) && Distinct(t)
    requires forall x :: x in img && x !in Ids(t.entries[j].kid) && x != t.id ==> SameNode(img, img', x)
    ensures Rep(img', t.entries[i].kid)
  {
    var e := t.entries[i];
    assert IdsBelow(e) !! IdsBelow(t.entries[j]);
    RepIds(img, e.kid);
    RepFrame(img, img', e.kid);
  }

  lemma HalvesRep<K>(img: Image<K>, img': Image<K>, son: Tree<K>, m: nat, parent: nat)
    requires Rep(img, son) && Distinct(son) && parent !in Ids(son)
    requires HalvesDone(img, img', son, m, parent)
    ensures var (l, r) := Split(son, m); Rep(img', l) && Rep(img', r)
  {
    if son.Node? {
      forall e | e in son.entries ensures RepEntry(img', e) {
        assert RepEntry(img, e) && DistinctBelow(e) && son.id !in IdsBelow(e);
        IdsOfKid(son, e);
        RepIds(img, e.kid);
        RepFrame(img, img', e.kid);
      }
    }
  }

  lemma SplitIds<K>(t: Tree<K>, id: nat)
    ensures var (l, r) := Split(t, id); Ids(l) + Ids(r) == Ids(t) + {id}
  {
    var (l, r) := Split(t, id);
    if t.Node? {
      var k := (|t.entries| + 1) / 2;
      assert t.entries == l.entries + r.entries;
      assert forall e :: e in t.entries <==> e in l.entries || e in r.entries;
      forall x ensures x in Ids(l) + Ids(r) <==> x in Ids(t) + {id} {
        if x in Ids(t) && x != t.id {
          var e :| e in t.entries && x in IdsBelow(e);
        }
      }
    }
  }

  lemma SplitDistinct<K>(t: Tree<K>, id: nat)
    requires Distinct(t) && id !in Ids(t)
    ensures var (l, r) := Split(t, id); Distinct(l) && Distinct(r) && Ids(l) !! Ids(r)
  {
    var (l, r) := Split(t, id);
    if t.Node? {
      var k := (|t.entries| + 1) / 2;
      forall x | x in Ids(l) && x in Ids(r) ensures false {
        HalvesApart(t, id, x);
      }
      forall e | e in r.entries ensures DistinctBelow(e) && id !in IdsBelow(e) {
        IdsOfKid(t, e);
      }
    }
  }

  lemma HalvesApart<K>(t: Tree<K>, id: nat, x: nat)
    requires t.Node? && Distinct(t) && id !in Ids(t)
    requires x in Ids(Split(t, id).0)
    ensures x !in Ids(Split(t, id).1)
  {
    SplitIds(t, id);
  }

  /** Replacing a child by one that uses its indices and new ones only. */
  lemma ReplaceDistinct<K>(t: Tree<K>, j: nat, sep: K, son: Tree<K>)
    requires t.Node? && j < |t.entries| && Distinct(t) && Distinct(son)
    requires forall x :: x in Ids(son) && x in Ids(t) ==> x in Ids(t.entries[j].kid)
    ensures Distinct(ReplaceKid(t, j, sep, son))
    ensures Ids(ReplaceKid(t, j, sep, son)) <= Ids(t) + Ids(son)
  {
    var es := t.entries;
    var t' := ReplaceKid(t, j, sep, son);
    assert DistinctBelow(t'.entries[j]) && es[j] in es;
    forall i | 0 <= i < |es| && i != j
      ensures IdsBelow(es[i]) !! Ids(son)
    {
      assert es[i] in es;
      IdsOfKid(t, es[i]);
      assert IdsBelow(es[i]) !! IdsBelow(es[j]);
    }
    assert forall e :: e in t'.entries ==> e == t'.entries[j] || e in es;
    assert forall x :: x in Ids(t') ==> x in Ids(t) + Ids(son);
  }

  lemma SplitKidEntry<K>(t: Tree<K>, j: nat, m: nat, i: nat)
    requires t.Node? && j < |t.entries| && t.entries[j].kid.Count() > 0 && i <= |t.entries|
    ensures var (l, r) := Split(t.entries[j].kid, m);
      SplitKid(t, j, m).entries[i] ==
        if i < j then t.entries[i] else if i == j then Entry(l.MaxKey(), l)
          else if i == j + 1 then Entry(t.entries[j].sep, r) else t.entries[i - 1]
  {
  }

  /** The halves of a child use its indices and the new one. */
  lemma HalvesIds<K>(t: Tree<K>, m: nat)
    requires Distinct(t) && m !in Ids(t)
    ensures var (l, r) := Split(t, m); Distinct(l) && Distinct(r) && Ids(l) <= Ids(t) && Ids(r) <= Ids(t) + {m}
  {
    hide Split, Ids, Distinct;
    SplitIds(t, m);
    SplitDistinct(t, m);
    LowerHalfIds(t, m);
  }

  /** The child of the split tree at place `i`, and the child it comes from. */
  lemma SplitKidAt<K>(t: Tree<K>, j: nat, m: nat, i: nat)
    requires t.Node? && j < |t.entries| && t.entries[j].kid.Count() > 0
    requires Distinct(t) && m !in Ids(t) && i <= |t.entries|
    ensures var e, o := SplitKid(t, j, m).entries[i], t.entries[if i <= j then i else i - 1];
      && DistinctBelow(e) && t.id !in IdsBelow(e)
      && IdsBelow(o) <= Ids(t) && IdsBelow(e) <= IdsBelow(o) + if i == j + 1 then {m} else {}
  {
    var o := t.entries[if i <= j then i else i - 1];
    assert DistinctBelow(o) && t.id !in IdsBelow(o) && t.id in Ids(t);
    IdsOfKid(t, o);
    SplitKidEntry(t, j, m, i);
    hide Split, SplitKid, Ids, Distinct;
    if i == j || i == j + 1 {
      HalvesIds(o.kid, m);
    }
  }

  lemma LowerHalfIds<K>(t: Tree<K>, id: nat)
    ensures Ids(Split(t, id).0) <= Ids(t)
  {
    if t.Node? {
      assert forall e :: e in Split(t, id).0.entries ==> e in t.entries;
    }
  }

  lemma SplitKidApart<K>(t: Tree<K>, j: nat, m: nat, a: nat, b: nat)
    requires t.Node? && j < |t.entries| && t.entries[j].kid.Count() > 0
    requires Distinct(t) && m !in Ids(t) && a < b <= |t.entries|
    ensures IdsBelow(SplitKid(t, j, m).entries[a]) !! IdsBelow(SplitKid(t, j, m).entries[b])
  {
    SplitKidAt(t, j, m, a);
    SplitKidAt(t, j, m, b);
    if a == j && b == j + 1 {
      assert DistinctBelow(t.entries[j]);
      SplitDistinct(t.entries[j].kid, m);
    } else {
      assert IdsBelow(t.entries[if a <= j then a else a - 1]) !! IdsBelow(t.entries[if b <= j then b else b - 1]);
    }
  }

  lemma SplitKidDistinct<K>(t: Tree<K>, j: nat, m: nat)
    requires t.Node? && j < |t.entries| && t.entries[j].kid.Count() > 0
    requires Distinct(t) && m !in Ids(t)
    ensures Distinct(SplitKid(t, j, m)) && Ids(SplitKid(t, j, m)) <= Ids(t) + {m}
  {
    var t' := SplitKid(t, j, m);
    forall e | e in t'.entries
      ensures DistinctBelow(e) && t.id !in IdsBelow(e) && IdsBelow(e) <= Ids(t) + {m}
    {
      var i :| 0 <= i < |t'.entries| && t'.entries[i] == e;
      SplitKidAt(t, j, m, i);
    }
    forall a, b | 0 <= a < b < |t'.entries|
      ensures IdsBelow(t'.entries[a]) !! IdsBelow(t'.entries[b])
    {
      SplitKidApart(t, j, m, a, b);
    }
  }

  // Levels of a subtree within the levels of the whole tree

  /** Level by level below the top of `t`, the nodes of `t` stand between `pre` and `post`. */
  ghost predicate Within<K>(levels: seq<seq<nat>>, t: Tree<K>, h: nat, pre: seq<seq<nat>>, post: seq<seq<nat>>) {
    && |pre| == |post| == h <= |levels|
    && forall l :: 0 <= l < h ==> levels[l] == pre[l] + Level(t, h, l) + post[l]
  }

  function PreOf<K>(t: Tree<K>, h: nat, pre: seq<seq<nat>>, j: nat): seq<seq<nat>>
    requires t.Node? && 0 < h == |pre| && j < |t.entries|
  {
    seq(h - 1, l requires 0 <= l < h - 1 => pre[l] + LevelAll(t.entries[..j], h - 1, l))
  }

  function PostOf<K>(t: Tree<K>, h: nat, post: seq<seq<nat>>, j: nat): seq<seq<nat>>
    requires t.Node? && 0 < h == |post| && j < |t.entries|
  {
    seq(h - 1, l requires 0 <= l < h - 1 => LevelAll(t.entries[j + 1..], h - 1, l) + post[l])
  }

  lemma LevelNode<K>(t: Tree<K>, h: nat, l: nat)
    requires t.Node? && l < h
    ensures Level(t, h, l) == LevelAll(t.entries, h - 1, l)
  {
  }

  lemma LevelTop<K>(t: Tree<K>, h: nat)
    ensures Level(t, h, h) == [t.id]
  {
  }

  lemma Regroup<T>(pre: seq<T>, a: seq<T>, b: seq<T>, z: seq<T>, post: seq<T>)
    ensures pre + (a + b + z) + post == (pre + a) + b + (z + post)
  {
  }

  lemma WithinKid<K>(levels: seq<seq<nat>>, t: Tree<K>, h: nat, pre: seq<seq<nat>>, post: seq<seq<nat>>, j: nat)
    requires t.Node? && h > 0 && j < |t.entries| && Within(levels, t, h, pre, post)
    ensures Within(levels, t.entries[j].kid, h - 1, PreOf(t, h, pre, j), PostOf(t, h, post, j))
  {
    hide Level, LevelAll;
    forall l | 0 <= l < h - 1
      ensures levels[l] == PreOf(t, h, pre, j)[l] + Level(t.entries[j].kid, h - 1, l) + PostOf(t, h, post, j)[l]
    {
      LevelNode(t, h, l);
      LevelAround(t.entries, j, h - 1, l);
      Regroup(pre[l], LevelAll(t.entries[..j], h - 1, l), Level(t.entries[j].kid, h - 1, l),
        LevelAll(t.entries[j + 1..], h - 1, l), post[l]);
    }
  }

  lemma ReplaceLevel<K>(t: Tree<K>, j: nat, sep: K, son: Tree<K>, h: nat, l: nat)
    requires t.Node? && j < |t.entries| && l < h
    ensures Level(ReplaceKid(t, j, sep, son), h, l)
      == LevelAll(t.entries[..j], h - 1, l) + Level(son, h - 1, l) + LevelAll(t.entries[j + 1..], h - 1, l)
  {
    hide Level, LevelAll;
    var es := t.entries[j := Entry(sep, son)];
    LevelNode(ReplaceKid(t, j, sep, son), h, l);
    LevelAround(es, j, h - 1, l);
    assert es[..j] == t.entries[..j] && es[j + 1..] == t.entries[j + 1..];
  }

  lemma WithinBack<K>(levels: seq<seq<nat>>, levels': seq<seq<nat>>, t: Tree<K>, h: nat, pre: seq<seq<nat>>,
          post: seq<seq<nat>>, j: nat, sep: K, son: Tree<K>)
    requires t.Node? && h > 0 && j < |t.entries| && Within(levels, t, h, pre, post)
    requires |levels'| == |levels| && levels'[h - 1] == levels[h - 1]
    requires Within(levels', son, h - 1, PreOf(t, h, pre, j), PostOf(t, h, post, j))
    requires son.id == t.entries[j].kid.id
    ensures Within(levels', ReplaceKid(t, j, sep, son), h, pre, post)
  {
    hide Level, LevelAll;
    forall l | 0 <= l < h
      ensures levels'[l] == pre[l] + Level(ReplaceKid(t, j, sep, son), h, l) + post[l]
    {
      ReplaceLevel(t, j, sep, son, h, l);
      if l == h - 1 {
        LevelNode(t, h, l);
        LevelAround(t.entries, j, h - 1, l);
        LevelTop(son, h - 1);
        LevelTop(t.entries[j].kid, h - 1);
      } else {
        Regroup(pre[l], LevelAll(t.entries[..j], h - 1, l), Level(son, h - 1, l),
          LevelAll(t.entries[j + 1..], h - 1, l), post[l]);
      }
    }
  }

  lemma SplitLevelBelow<K>(t: Tree<K>, id: nat, h: nat, l: nat)
    requires l < h
    ensures var (a, b) := Split(t, id); Level(a, h, l) + Level(b, h, l) == Level(t, h, l)
  {
    if t.Node? {
      SplitLevelNode(t, id, h, l);
    }
  }

  lemma SplitLevelNode<K>(t: Tree<K>, id: nat, h: nat, l: nat)
    requires l < h && t.Node?
    ensures var (a, b) := Split(t, id); Level(a, h, l) + Level(b, h, l) == Level(t, h, l)
  {
    hide Level, LevelAll;
    var (a, b) := Split(t, id);
    LevelNode(a, h, l);
    LevelNode(b, h, l);
    LevelNode(t, h, l);
    LevelConcat(a.entries, b.entries, h - 1, l);
    assert t.entries == a.entries + b.entries;
  }

  lemma LevelPair<K>(a: Entry<K>, b: Entry<K>, h: nat, l: nat)
    requires l <= h
    ensures LevelAll([a, b], h, l) == Level(a.kid, h, l) + Level(b.kid, h, l)
  {
    assert LevelAll([b], h, l) == Level(b.kid, h, l) + [];
    assert [a, b][1..] == [b];
  }

  lemma SplitKidLevel<K>(t: Tree<K>, j: nat, m: nat, h: nat, l: nat)
    requires t.Node? && j < |t.entries| && t.entries[j].kid.Count() > 0 && l < h
    ensures var (a, b) := Split(t.entries[j].kid, m);
      Level(SplitKid(t, j, m), h, l)
      == LevelAll(t.entries[..j], h - 1, l) + (Level(a, h - 1, l) + Level(b, h - 1, l)) +
         LevelAll(t.entries[j + 1..], h - 1, l)
  {
    hide Level, LevelAll;
    var es := t.entries;
    var (a, b) := Split(es[j].kid, m);
    var mid := [Entry(a.MaxKey(), a), Entry(es[j].sep, b)];
    LevelNode(SplitKid(t, j, m), h, l);
    LevelPair(mid[0], mid[1], h - 1, l);
    LevelConcat(es[..j] + mid, es[j + 1..], h - 1, l);
    LevelConcat(es[..j], mid, h - 1, l);
  }

  lemma SplicePlace<T>(pre: seq<T>, a: seq<T>, son: T, z: seq<T>, post: seq<T>, m: T)
    ensures var s := pre + (a + [son] + z) + post; var b := |pre| + |a|;
      s[b] == son && s[..b + 1] + [m] + s[b + 1..] == pre + (a + ([son] + [m]) + z) + post
  {
    var s := pre + (a + [son] + z) + post;
    var b := |pre| + |a|;
    assert s == (pre + a + [son]) + (z + post);
    assert s[..b + 1] == pre + a + [son];
    assert s[b + 1..] == z + post;
  }

  /** Splitting child `j` puts the new block after it on the children's level. */
  lemma WithinSplit<K>(levels: seq<seq<nat>>, t: Tree<K>, h: nat, pre: seq<seq<nat>>, post: seq<seq<nat>>, j: nat,
          m: nat)
    requires t.Node? && h > 0 && j < |t.entries| && t.entries[j].kid.Count() > 0
    requires Within(levels, t, h, pre, post)
    ensures var b := |pre[h - 1]| + j;
      && b < |levels[h - 1]| && levels[h - 1][b] == t.entries[j].kid.id
      && Within(levels[h - 1 := Inserted(levels[h - 1], b, m)], SplitKid(t, j, m), h, pre, post)
  {
    var es := t.entries;
    var b := |pre[h - 1]| + j;
    SplitTopLevel(t, j, m, h);
    hide Level, LevelAll;
    LevelOfKids(es[..j], h - 1);
    SplicePlace(pre[h - 1], LevelAll(es[..j], h - 1, h - 1), es[j].kid.id, LevelAll(es[j + 1..], h - 1, h - 1),
      post[h - 1], m);
    var levels' := levels[h - 1 := Inserted(levels[h - 1], b, m)];
    forall l | 0 <= l < h
      ensures levels'[l] == pre[l] + Level(SplitKid(t, j, m), h, l) + post[l]
    {
      if l < h - 1 {
        SplitKeepsLevel(t, j, m, h, l);
      }
    }
  }

  lemma SplitTopLevel<K>(t: Tree<K>, j: nat, m: nat, h: nat)
    requires t.Node? && j < |t.entries| && t.entries[j].kid.Count() > 0 && h > 0
    ensures var a, z := LevelAll(t.entries[..j], h - 1, h - 1), LevelAll(t.entries[j + 1..], h - 1, h - 1);
      && Level(t, h, h - 1) == a + [t.entries[j].kid.id] + z
      && Level(SplitKid(t, j, m), h, h - 1) == a + ([t.entries[j].kid.id] + [m]) + z
  {
    LevelAround(t.entries, j, h - 1, h - 1);
    SplitKidLevel(t, j, m, h, h - 1);
    LevelNode(t, h, h - 1);
  }

  /** Below the children's level nothing moves. */
  lemma SplitKeepsLevel<K>(t: Tree<K>, j: nat, m: nat, h: nat, l: nat)
    requires t.Node? && j < |t.entries| && t.entries[j].kid.Count() > 0 && l + 1 < h
    ensures Level(SplitKid(t, j, m), h, l) == Level(t, h, l)
  {
    hide Level, LevelAll, Split, SplitKid;
    LevelNode(t, h, l);
    SplitKidLevel(t, j, m, h, l);
    SplitLevelBelow(t.entries[j].kid, m, h - 1, l);
    LevelAround(t.entries, j, h - 1, l);
  }

  /** The entries of the split tree, as two writes to the old entries make them. */
  lemma SplitItems<K>(t: Tree<K>, j: nat, m: nat)
    requires t.Node? && j < |t.entries| && t.entries[j].kid.Count() > 0
    ensures var k := Split(t.entries[j].kid, m).0.MaxKey();
      var s := t.Items()[j := Slot(t.entries[j].sep, true, Child(m))];
      SplitKid(t, j, m).Items() == s[..j] + [Slot(k, true, Child(t.entries[j].kid.id))] + s[j..]
  {
  }

  lemma SplitHalves<K>(t: Tree<K>, id: nat)
    ensures var (l, r) := Split(t, id); var k := (t.Count() + 1) / 2;
      l.Items() == t.Items()[..k] && r.Items() == t.Items()[k..]
  {
  }

  // What the steps of a split leave in the blocks

  /** Block `m` is added and takes the upper half of the entries of block `s`. */
  ghost function HalveImage<K>(img: Image<K>, s: nat, m: nat): Image<K>
    requires s in img
  {
    var c := img[s];
    var k := (|c.items| + 1) / 2;
    img[m := Content(c.leaf, c.items[k..], 0, 0)][s := c.(items := c.items[..k])]
  }

  /** In block `t`, entry `j` is redirected to block `m`, and an entry for block `s`
      under `k` is put at `at`. */
  ghost function EnterImage<K>(img: Image<K>, t: nat, j: nat, m: nat, k: K, s: nat, at: nat): Image<K>
    requires t in img && j < |img[t].items| && at <= |img[t].items|
  {
    var c := img[t];
    var items := c.items[j := Overwritten(c.items[j], None, Some(Child(m)), true)];
    img[t := c.(items := items[..at] + [Slot(k, true, Child(s))] + items[at..])]
  }

  /** All the writes of a split: block `s` is halved into `m`, `m` chained after it,
      and both entered in block `t` in place of entry `j`. */
  ghost function SplitImage<K>(img: Image<K>, t: nat, j: nat, s: nat, m: nat, k: K): Image<K>
    requires CanWriteSplit(img, t, j, s, m)
  {
    EnterImage(LinkImage(HalveImage(img, s, m), s, m), t, j, m, k, s, j)
  }

  ghost predicate CanWriteSplit<K>(img: Image<K>, t: nat, j: nat, s: nat, m: nat) {
    && s in img && t in img && s != t && s != m && t != m && (img[s].next != 0 ==> img[s].next in img)
    && j < |img[t].items|
  }

  ghost predicate SplitImageReady<K>(img: Image<K>, t: Tree<K>, j: nat, m: nat) {
    && t.Node? && j < |t.entries| && t.entries[j].kid.Count() >= 2
    && Rep(img, t) && Distinct(t) && m !in img
    && var s := t.entries[j].kid.id; s in img && (img[s].next != 0 ==> img[s].next in img)
  }

  /** After the halving and the chaining the halves are in place, and every other node is as
      it was. */
  lemma HalvesLinked<K>(img: Image<K>, son: Tree<K>, m: nat)
    requires Rep(img, son) && m !in img && (img[son.id].next != 0 ==> img[son.id].next in img)
    ensures var img1 := LinkImage(HalveImage(img, son.id, m), son.id, m);
      HalvesDone(img, img1, son, m, son.id) && forall x :: x in img && x != son.id ==> SameNode(img, img1, x)
  {
    hide Split, LinkImage;
    var img0 := HalveImage(img, son.id, m);
    SplitHalves(son, m);
    LinkImageKeepsNodes(img0, son.id, m);
    assert SameNode(img0, LinkImage(img0, son.id, m), son.id) && SameNode(img0, LinkImage(img0, son.id, m), m);
    forall x | x in img && x != son.id ensures SameNode(img, LinkImage(img0, son.id, m), x) {
      assert SameNode(img0, LinkImage(img0, son.id, m), x);
    }
  }

  /** Then entering both halves in the parent's block completes the split. */
  lemma EnterDone<K>(img: Image<K>, img1: Image<K>, t: Tree<K>, j: nat, m: nat, k: K)
    requires t.Node? && j < |t.entries| && t.entries[j].kid.Count() >= 2
    requires HalvesDone(img, img1, t.entries[j].kid, m, t.id) && t.id != t.entries[j].kid.id && t.id != m
    requires t.id in img1 && !img1[t.id].leaf && img1[t.id].items == t.Items()
    requires k == Split(t.entries[j].kid, m).0.MaxKey()
    ensures SplitDone(img, EnterImage(img1, t.id, j, m, k, t.entries[j].kid.id, j), t, j, m)
  {
    SplitItems(t, j, m);
    hide Split, SplitKid;
    assert Overwritten(t.Items()[j], None, Some(Child(m)), true) == Slot(t.entries[j].sep, true, Child(m));
  }

  lemma SplitImageDone<K>(img: Image<K>, t: Tree<K>, j: nat, m: nat)
    requires SplitImageReady(img, t, j, m)
    ensures var s := t.entries[j].kid.id; var k := Split(t.entries[j].kid, m).0.MaxKey();
      var img1 := LinkImage(HalveImage(img, s, m), s, m);
      && t.id in img1 && img1[t.id].items == t.Items() && s in img1 && m in img1
      && img1[s].items == Split(t.entries[j].kid, m).0.Items()
      && SplitDone(img, EnterImage(img1, t.id, j, m, k, s, j), t, j, m)
  {
    var son := t.entries[j].kid;
    assert RepEntry(img, t.entries[j]) && t.id !in IdsBelow(t.entries[j]);
    assert Rep(img, son) && son.id != t.id;
    RepTop(img, t);
    hide Rep, Distinct, Split, SplitKid, LinkImage, HalveImage, SplitDone, EnterImage;
    HalvesLinked(img, son, m);
    var img1 := LinkImage(HalveImage(img, son.id, m), son.id, m);
    assert SameNode(img, img1, t.id);
    EnterDone(img, img1, t, j, m, Split(son, m).0.MaxKey());
  }

  lemma RepTop<K>(img: Image<K>, t: Tree<K>)
    requires Rep(img, t)
    ensures t.id in img && img[t.id].leaf == t.Leaf? && img[t.id].items == t.Items()
  {
  }

  /** The subtree `t` lies in the blocks, and its levels are part of the chained levels. */
  ghost predicate Lies<K>(img: Image<K>, levels: seq<seq<nat>>, t: Tree<K>, h: nat, pre: seq<seq<nat>>,
          post: seq<seq<nat>>) {
    && Rep(img, t) && Distinct(t)
    && Chained(img, levels) && NoRepeat(levels) && Within(levels, t, h, pre, post)
  }

  ghost predicate CanSplit<K>(img: Image<K>, levels: seq<seq<nat>>, t: Tree<K>, h: nat, pre: seq<seq<nat>>,
          post: seq<seq<nat>>, j: nat, m: nat) {
    && Lies(img, levels, t, h, pre, post)
    && t.Node? && h > 0 && j < |t.entries| && t.entries[j].kid.Count() >= 3
    && m !in img && m != 0
  }

  lemma SplitReady<K>(img: Image<K>, levels: seq<seq<nat>>, t: Tree<K>, h: nat, pre: seq<seq<nat>>,
          post: seq<seq<nat>>, j: nat, m: nat)
    requires CanSplit(img, levels, t, h, pre, post, j, m)
    ensures SplitImageReady(img, t, j, m)
    ensures var s := t.entries[j].kid.id; s != t.id && Rep(img, t.entries[j].kid)
  {
    WithinSplit(levels, t, h, pre, post, j, m);
    var b := |pre[h - 1]| + j;
    assert ChainedAt(img, levels[h - 1], b);
    assert b + 1 < |levels[h - 1]| ==> ChainedAt(img, levels[h - 1], b + 1);
    assert img[t.entries[j].kid.id].next == After(levels[h - 1], b);
    assert RepEntry(img, t.entries[j]) && t.id !in IdsBelow(t.entries[j]) && DistinctBelow(t.entries[j]);
    assert t.entries[j].kid.id in Ids(t.entries[j].kid);
  }

  /** The levels after child `j` is split. */
  function LevelsAfterSplit(levels: seq<seq<nat>>, h: nat, pre: seq<seq<nat>>, j: nat, m: nat): seq<seq<nat>>
    requires 0 < h <= |levels| && h <= |pre| && |pre[h - 1]| + j < |levels[h - 1]|
  {
    levels[h - 1 := Inserted(levels[h - 1], |pre[h - 1]| + j, m)]
  }

  /** After all the writes of a split the new tree lies in the blocks. */
  lemma SplitLies<K>(img: Image<K>, levels: seq<seq<nat>>, t: Tree<K>, h: nat, pre: seq<seq<nat>>,
          post: seq<seq<nat>>, j: nat, m: nat, img': Image<K>)
    requires CanSplit(img, levels, t, h, pre, post, j, m) && SplitImageReady(img, t, j, m)
    requires var s := t.entries[j].kid.id; CanWriteSplit(img, t.id, j, s, m)
    requires img' == SplitImage(img, t.id, j, t.entries[j].kid.id, m, Split(t.entries[j].kid, m).0.MaxKey())
    ensures SplitDone(img, img', t, j, m)
    ensures 0 < h == |pre| <= |levels| && |pre[h - 1]| + j < |levels[h - 1]|
    ensures Lies(img', LevelsAfterSplit(levels, h, pre, j, m), SplitKid(t, j, m), h, pre, post)
  {
    hide SplitKid, LinkImage, HalveImage, EnterImage, SplitDone, Rep;
    var b := |pre[h - 1]| + j;
    RepIds(img, t);
    SplitImageDone(img, t, j, m);
    SplitRep(img, img', t, j, m);
    SplitKidDistinct(t, j, m);
    WithinSplit(levels, t, h, pre, post, j, m);
    SplitChained(img, levels, h - 1, b, m, img', t.id, j, Split(t.entries[j].kid, m).0.MaxKey());
    InsertNoRepeat(img, levels, h - 1, b, m);
  }

  lemma SplitChained<K>(img: Image<K>, levels: seq<seq<nat>>, a: nat, b: nat, m: nat, img': Image<K>, t: nat, j: nat,
          k: K)
    requires Chained(img, levels) && NoRepeat(levels) && a < |levels| && b < |levels[a]| && m !in img && m != 0
    requires var s := levels[a][b];
      && s in img && (img[s].next != 0 ==> img[s].next in img)
      && var img1 := LinkImage(HalveImage(img, s, m), s, m);
      && t in img1 && j < |img1[t].items| && img' == EnterImage(img1, t, j, m, k, s, j)
    ensures Chained(img', levels[a := Inserted(levels[a], b, m)])
  {
    var s := levels[a][b];
    LinkImageLinksIn(img, HalveImage(img, s, m), levels, a, b, m);
    LinkAfter(img, img', levels, a, b, m);
  }

  /** What the writes of a split find in the blocks they touch. */
  lemma SplitFacts<K(!new)>(img: Image<K>, levels: seq<seq<nat>>, t: Tree<K>, h: nat, pre: seq<seq<nat>>,
          post: seq<seq<nat>>, j: nat, m: nat, cmp: (K, K) -> int) returns (k: K)
    requires CanSplit(img, levels, t, h, pre, post, j, m)
    requires TotalOrder(cmp) && Exact(t) && Sorted(cmp, Phys(t))
    ensures k == Split(t.entries[j].kid, m).0.MaxKey()
    ensures SplitImageReady(img, t, j, m)
    ensures var s := t.entries[j].kid.id;
      && CanWriteSplit(img, t.id, j, s, m) && img[t.id].items == t.Items()
      && var half := img[s].items[..(|img[s].items| + 1) / 2]; half != [] && half[|half| - 1].key == k
    ensures var s := t.Items()[j := Overwritten(t.Items()[j], None, Some(Child(m)), true)];
      Monotone(At(cmp, k), s) && Lub(s, At(cmp, k)) == j
  {
    hide Lub;
    SplitReady(img, levels, t, h, pre, post, j, m);
    SplitHalves(t.entries[j].kid, m);
    k := Split(t.entries[j].kid, m).0.MaxKey();
    SplitLub(t, j, m, cmp, t.Items()[j := Overwritten(t.Items()[j], None, Some(Child(m)), true)]);
  }

  // Putting a changed child back

  /** Entry `j` of block `t` gets the separator `sep`. */
  ghost function KeyImage<K>(img: Image<K>, t: nat, j: nat, sep: K): Image<K>
    requires t in img && j < |img[t].items|
  {
    img[t := img[t].(items := img[t].items[j := Slot(sep, true, img[t].items[j].payload)])]
  }

  /** Only the blocks of the tree at `ids` and new blocks have changed their entries. */
  ghost predicate OnlyBelow<K>(img: Image<K>, img': Image<K>, ids: set<nat>) {
    img.Keys <= img'.Keys && forall x :: x in img && x !in ids ==> SameNode(img, img', x)
  }

  /** The nodes of `t` are in the blocks `ids` and in blocks not in `img`. */
  ghost predicate NewIds<K>(img: Image<K>, t: Tree<K>, ids: set<nat>) {
    forall x :: x in Ids(t) && x in img ==> x in ids
  }

  lemma ReplaceRep<K>(img0: Image<K>, img: Image<K>, t: Tree<K>, j: nat, sep: K, son: Tree<K>)
    requires t.Node? && j < |t.entries| && Rep(img0, t) && Distinct(t) && Rep(img, son)
    requires son.id == t.entries[j].kid.id
    requires OnlyBelow(img0, img, Ids(t.entries[j].kid)) && NewIds(img0, son, Ids(t.entries[j].kid))
    ensures t.id in img && j < |img[t.id].items|
    ensures Rep(KeyImage(img, t.id, j, sep), ReplaceKid(t, j, sep, son))
  {
    var t' := ReplaceKid(t, j, sep, son);
    assert t.id !in IdsBelow(t.entries[j]);
    assert SameNode(img0, img, t.id);
    var img' := KeyImage(img, t.id, j, sep);
    assert img'[t.id].items == t'.Items();
    forall e | e in t'.entries ensures RepEntry(img', e) {
      if e == t'.entries[j] {
        RepIds(img, son);
        RepFrame(img, img', son);
      } else {
        var i :| 0 <= i < |t.entries| && i != j && t.entries[i] == e;
        assert RepEntry(img0, e) && t.id !in IdsBelow(e);
        OtherKids(img0, img', t, i, j);
      }
    }
  }

  lemma ReplaceLies<K>(img0: Image<K>, levels0: seq<seq<nat>>, img: Image<K>, levels: seq<seq<nat>>,
                       t: Tree<K>, h: nat, pre: seq<seq<nat>>, post: seq<seq<nat>>, j: nat, sep: K, son: Tree<K>)
    requires t.Node? && h > 0 && j < |t.entries| && Lies(img0, levels0, t, h, pre, post)
    requires Lies(img, levels, son, h - 1, PreOf(t, h, pre, j), PostOf(t, h, post, j))
    requires son.id == t.entries[j].kid.id
    requires OnlyBelow(img0, img, Ids(t.entries[j].kid)) && NewIds(img0, son, Ids(t.entries[j].kid))
    requires |levels| == |levels0| && levels[h - 1] == levels0[h - 1]
    ensures t.id in img && j < |img[t.id].items|
    ensures Lies(KeyImage(img, t.id, j, sep), levels, ReplaceKid(t, j, sep, son), h, pre, post)
  {
    ReplaceRep(img0, img, t, j, sep, son);
    RepIds(img0, t);
    ReplaceDistinct(t, j, sep, son);
    WithinBack(levels0, levels, t, h, pre, post, j, sep, son);
    KeyChained(img, levels, t.id, j, sep);
  }

  lemma KeyChained<K>(img: Image<K>, levels: seq<seq<nat>>, t: nat, j: nat, sep: K)
    requires t in img && j < |img[t].items| && Chained(img, levels)
    ensures Chained(KeyImage(img, t, j, sep), levels)
  {
    forall l, i | 0 <= l < |levels| && 0 <= i < |levels[l]|
      ensures ChainedAt(KeyImage(img, t, j, sep), levels[l], i)
    {
      assert ChainedAt(img, levels[l], i);
    }
  }

  lemma KidLies<K>(img: Image<K>, levels: seq<seq<nat>>, t: Tree<K>, h: nat, pre: seq<seq<nat>>, post: seq<seq<nat>>,
          j: nat)
    requires t.Node? && h > 0 && j < |t.entries| && Lies(img, levels, t, h, pre, post)
    ensures Lies(img, levels, t.entries[j].kid, h - 1, PreOf(t, h, pre, j), PostOf(t, h, post, j))
  {
    assert RepEntry(img, t.entries[j]) && DistinctBelow(t.entries[j]);
    WithinKid(levels, t, h, pre, post, j);
  }

  lemma KeyImageSame<K>(img: Image<K>, t: nat, j: nat)
    requires t in img && j < |img[t].items| && img[t].items[j].live
    ensures KeyImage(img, t, j, img[t].items[j].key) == img
  {
    assert img[t].items[j := img[t].items[j]] == img[t].items;
    assert img[t := img[t]] == img;
  }

  /** The subtree `t` has become `t'`; nothing outside its blocks and below its level
      has changed, except for links. */
  ghost predicate Became<K>(img0: Image<K>, levels0: seq<seq<nat>>, img: Image<K>, levels: seq<seq<nat>>,
                            t: Tree<K>, t': Tree<K>, h: nat, pre: seq<seq<nat>>, post: seq<seq<nat>>) {
    && Lies(img, levels, t', h, pre, post) && t'.id == t.id
    && OnlyBelow(img0, img, Ids(t)) && NewIds(img0, t', Ids(t))
    && |levels| == |levels0| && forall l :: h <= l < |levels| ==> levels[l] == levels0[l]
  }

  /** A child has been inserted into, and its parent is still to be adjusted. */
  ghost predicate KidChanged<K>(img0: Image<K>, levels0: seq<seq<nat>>, img: Image<K>, levels: seq<seq<nat>>,
                                t: Tree<K>, h: nat, pre: seq<seq<nat>>, post: seq<seq<nat>>, j: nat, son: Tree<K>) {
    && t.Node? && h > 0 && j < |t.entries| && Lies(img0, levels0, t, h, pre, post)
    && Became(img0, levels0, img, levels, t.entries[j].kid, son, h - 1, PreOf(t, h, pre, j), PostOf(t, h, post, j))
  }

  lemma KidChangedFacts<K>(img0: Image<K>, levels0: seq<seq<nat>>, img: Image<K>, levels: seq<seq<nat>>,
                           t: Tree<K>, h: nat, pre: seq<seq<nat>>, post: seq<seq<nat>>, j: nat, son: Tree<K>)
    requires KidChanged(img0, levels0, img, levels, t, h, pre, post, j, son)
    ensures t.id in img && son.id in img && t.id != son.id
    ensures t.Node? && h > 0 && j < |t.entries|
    ensures img[t.id].items == t.Items() && img[t.id].items[j] == Slot(t.entries[j].sep, true, Child(son.id))
    ensures img[son.id].items == son.Items() && img[son.id].leaf == son.Leaf?
  {
    assert t.id !in IdsBelow(t.entries[j]) && t.id in Ids(t);
    assert SameNode(img0, img, t.id);
    RepIds(img, son);
  }

  /** With the separator adjusted, the parent has the changed child in place. */
  lemma SeparatorFixed<K>(img0: Image<K>, levels0: seq<seq<nat>>, img: Image<K>, levels: seq<seq<nat>>,
                          t: Tree<K>, h: nat, pre: seq<seq<nat>>, post: seq<seq<nat>>, j: nat, sep: K, son: Tree<K>)
    requires KidChanged(img0, levels0, img, levels, t, h, pre, post, j, son)
    ensures t.id in img && j < |img[t.id].items|
    ensures Became(img0, levels0, KeyImage(img, t.id, j, sep), levels, t, ReplaceKid(t, j, sep, son), h, pre, post)
  {
    ReplaceLies(img0, levels0, img, levels, t, h, pre, post, j, sep, son);
    IdsOfKid(t, t.entries[j]);
    RepIds(img0, t);
    ReplaceDistinct(t, j, sep, son);
  }

  /** Splitting a child of the changed subtree. */
  lemma SplitBecame<K>(img0: Image<K>, levels0: seq<seq<nat>>, img: Image<K>, levels: seq<seq<nat>>, img': Image<K>,
          levels': seq<seq<nat>>,
                       t: Tree<K>, t': Tree<K>, h: nat, pre: seq<seq<nat>>, post: seq<seq<nat>>, j: nat, m: nat)
    requires Became(img0, levels0, img, levels, t, t', h, pre, post)
    requires CanSplit(img, levels, t', h, pre, post, j, m)
    requires Lies(img', levels', SplitKid(t', j, m), h, pre, post) && SplitDone(img, img', t', j, m)
    requires 0 < h == |pre| <= |levels| && |pre[h - 1]| + j < |levels[h - 1]|
    requires levels' == LevelsAfterSplit(levels, h, pre, j, m)
    ensures Became(img0, levels0, img', levels', t, SplitKid(t', j, m), h, pre, post)
  {
    RepIds(img, t');
    SplitFrame(img0, img, img', t', j, m, Ids(t));
  }

  lemma SplitFrame<K>(img0: Image<K>, img: Image<K>, img': Image<K>, t: Tree<K>, j: nat, m: nat, ids: set<nat>)
    requires t.Node? && j < |t.entries| && t.entries[j].kid.Count() > 0
    requires OnlyBelow(img0, img, ids) && NewIds(img0, t, ids) && Distinct(t) && m !in img && m !in Ids(t)
    requires SplitDone(img, img', t, j, m)
    ensures OnlyBelow(img0, img', ids) && NewIds(img0, SplitKid(t, j, m), ids)
  {
    IdsOfKid(t, t.entries[j]);
    SplitKidDistinct(t, j, m);
    assert t.id in Ids(t) && t.entries[j].kid.id in Ids(t.entries[j].kid);
    assert forall x :: x in img0 ==> x in img;
    forall x | x in img0 && x !in ids ensures SameNode(img0, img', x) {
      assert SameNode(img0, img, x);
      assert x != t.id && x != t.entries[j].kid.id;
      assert SameNode(img, img', x);
    }
    forall x | x in img0 ensures x in img' {
      if x != t.id && x != t.entries[j].kid.id {
        assert SameNode(img, img', x);
      }
    }
  }

  /** Changing the entries of a leaf. */
  lemma LeafBecame<K>(img: Image<K>, levels: seq<seq<nat>>, t: Tree<K>, slots: seq<Slot<K>>)
    requires t.Leaf? && Lies(img, levels, t, 0, [], [])
    ensures Became(img, levels, img[t.id := img[t.id].(items := slots)], levels, t, Leaf(t.id, slots), 0, [], [])
  {
    var img' := img[t.id := img[t.id].(items := slots)];
    forall l, i | 0 <= l < |levels| && 0 <= i < |levels[l]|
      ensures ChainedAt(img', levels[l], i)
    {
      assert ChainedAt(img, levels[l], i);
    }
  }

  // The whole tree

  /** `levels` lists the nodes of `t` level by level, leaves first. */
  ghost predicate IsLevels<K>(levels: seq<seq<nat>>, t: Tree<K>, h: nat) {
    |levels| == h + 1 && forall l :: 0 <= l <= h ==> levels[l] == Level(t, h, l)
  }

  function Empties(h: nat): seq<seq<nat>> {
    seq(h, _ => [])
  }

  lemma WholeWithin<K>(levels: seq<seq<nat>>, t: Tree<K>, h: nat)
    requires |levels| == h + 1
    ensures IsLevels(levels, t, h) <==> Within(levels, t, h, Empties(h), Empties(h)) && levels[h] == [t.id]
  {
    assert forall l :: 0 <= l < h ==> Empties(h)[l] + Level(t, h, l) + Empties(h)[l] == Level(t, h, l);
  }

  /** The whole tree lies in the blocks and its levels are chained. */
  ghost predicate LiesWhole<K>(img: Image<K>, levels: seq<seq<nat>>, t: Tree<K>, h: nat) {
    && Rep(img, t) && Distinct(t)
    && Chained(img, levels) && NoRepeat(levels) && IsLevels(levels, t, h)
  }

  /** The levels after the root has grown. */
  function LevelsAfterGrowth(levels: seq<seq<nat>>, m: nat, n: nat): seq<seq<nat>>
    requires |levels| > 0 && |levels[|levels| - 1]| > 0
  {
    levels[|levels| - 1 := Inserted(levels[|levels| - 1], 0, m)] + [[n]]
  }

  /** The blocks after root block `s` was halved into `m` and both put under the new block `n`. */
  ghost function RootImage<K>(img: Image<K>, s: nat, n: nat, m: nat, k0: K, k1: K): Image<K>
    requires s in img && s != m && img[s].next == 0
  {
    LinkImage(HalveImage(img, s, m), s, m)
      [n := Content(false, [Slot(k0, true, Child(s)), Slot(k1, true, Child(m))], 0, 0)]
  }

  ghost predicate CanGrow<K>(img: Image<K>, levels: seq<seq<nat>>, t: Tree<K>, h: nat, n: nat) {
    && LiesWhole(img, levels, t, h) && t.Count() >= 2
    && n !in img && n + 1 !in img && n != 0
  }

  lemma GrowFacts<K>(img: Image<K>, levels: seq<seq<nat>>, t: Tree<K>, h: nat, n: nat)
    requires CanGrow(img, levels, t, h, n)
    ensures t.id in img && img[t.id].next == 0 && img[t.id].items == t.Items() && t.id != n + 1 && t.id != n
    ensures levels[h] == [t.id]
  {
    assert levels[h] == Level(t, h, h) == [t.id];
    assert ChainedAt(img, levels[h], 0);
  }

  lemma GrowHalves<K>(img: Image<K>, t: Tree<K>, n: nat, k0: K, k1: K)
    requires t.id in img && t.id != n + 1 && t.id != n && img[t.id].next == 0 && n !in img && n + 1 !in img
    requires img[t.id].leaf == t.Leaf? && img[t.id].items == t.Items()
    ensures HalvesDone(img, RootImage(img, t.id, n, n + 1, k0, k1), t, n + 1, n)
  {
    var m := n + 1;
    var img1 := HalveImage(img, t.id, m);
    SplitHalves(t, m);
    hide Split, LinkImage;
    LinkImageKeepsNodes(img1, t.id, m);
    assert SameNode(img1, LinkImage(img1, t.id, m), t.id);
    assert SameNode(img1, LinkImage(img1, t.id, m), m);
    assert forall x :: x in img && x != t.id ==> x in img1 && img1[x] == img[x];
    assert forall x :: x in img1 ==> SameNode(img1, LinkImage(img1, t.id, m), x);
  }

  lemma GrowRep<K>(img: Image<K>, img': Image<K>, t: Tree<K>, n: nat)
    requires t.Count() >= 2 && Rep(img, t) && Distinct(t) && n !in Ids(t)
    requires HalvesDone(img, img', t, n + 1, n)
    requires n in img' && !img'[n].leaf
    requires img'[n].items == [Slot(Split(t, n + 1).0.MaxKey(), true, Child(t.id)),
      Slot(t.MaxKey(), true, Child(n + 1))]
    ensures Rep(img', GrowRoot(t, n))
  {
    hide Split, Rep, Distinct, HalvesDone;
    HalvesRep(img, img', t, n + 1, n);
    SplitIndex(t, n + 1);
    var (l, r) := Split(t, n + 1);
    PairRep(img', n, Entry(l.MaxKey(), l), Entry(t.MaxKey(), r));
  }

  lemma SplitIndex<K>(t: Tree<K>, id: nat)
    requires t.Count() >= 2
    ensures Split(t, id).0.id == t.id && Split(t, id).1.id == id && Split(t, id).0.Count() > 0
  {
  }

  lemma PairRep<K>(img: Image<K>, n: nat, a: Entry<K>, b: Entry<K>)
    requires Rep(img, a.kid) && Rep(img, b.kid) && n in img && !img[n].leaf
    requires img[n].items == [Slot(a.sep, true, Child(a.kid.id)), Slot(b.sep, true, Child(b.kid.id))]
    ensures Rep(img, Node(n, [a, b]))
  {
    assert RepEntry(img, a) && RepEntry(img, b);
  }

  lemma GrowDistinct<K>(t: Tree<K>, n: nat)
    requires Distinct(t) && t.Count() >= 2 && n !in Ids(t) && n + 1 !in Ids(t)
    ensures Distinct(GrowRoot(t, n))
  {
    var es := GrowRoot(t, n).entries;
    SplitDistinct(t, n + 1);
    SplitIds(t, n + 1);
    assert DistinctBelow(es[0]) && DistinctBelow(es[1]);
    assert n !in IdsBelow(es[0]) && n !in IdsBelow(es[1]);
  }

  lemma GrowLevels<K>(levels: seq<seq<nat>>, t: Tree<K>, h: nat, n: nat)
    requires IsLevels(levels, t, h) && t.Count() >= 2
    ensures |levels[h]| > 0 && IsLevels(LevelsAfterGrowth(levels, n + 1, n), GrowRoot(t, n), h + 1)
  {
    var t' := GrowRoot(t, n);
    var levels' := LevelsAfterGrowth(levels, n + 1, n);
    forall l | 0 <= l <= h ensures levels'[l] == Level(t', h + 1, l) {
      LevelPair(t'.entries[0], t'.entries[1], h, l);
      if l < h {
        SplitLevelBelow(t, n + 1, h, l);
      }
    }
  }

  lemma GrowChained<K>(img: Image<K>, levels: seq<seq<nat>>, t: Tree<K>, h: nat, n: nat, k0: K, k1: K)
    requires CanGrow(img, levels, t, h, n)
    ensures t.id in img && t.id != n + 1 && img[t.id].next == 0 && |levels[h]| > 0
    ensures Chained(RootImage(img, t.id, n, n + 1, k0, k1), LevelsAfterGrowth(levels, n + 1, n))
  {
    GrowFacts(img, levels, t, h, n);
    var m := n + 1;
    var img1 := LinkImage(HalveImage(img, t.id, m), t.id, m);
    var levels1 := levels[h := Inserted(levels[h], 0, m)];
    LinkImageLinksIn(img, HalveImage(img, t.id, m), levels, h, 0, m);
    LinkAfter(img, img1, levels, h, 0, m);
    AddTop(img1, levels1, n, Content(false, [Slot(k0, true, Child(t.id)), Slot(k1, true, Child(m))], 0, 0));
  }

  lemma AddTop<K>(img: Image<K>, levels: seq<seq<nat>>, n: nat, c: Content<K>)
    requires Chained(img, levels) && n !in img && n != 0 && c.next == c.last == 0
    ensures Chained(img[n := c], levels + [[n]])
  {
    var levels', img' := levels + [[n]], img[n := c];
    forall l, i | 0 <= l < |levels'| && 0 <= i < |levels'[l]|
      ensures ChainedAt(img', levels'[l], i)
    {
      if l < |levels| {
        assert ChainedAt(img, levels[l], i);
      }
    }
  }

  lemma GrowNoRepeat<K>(img: Image<K>, levels: seq<seq<nat>>, t: Tree<K>, h: nat, n: nat)
    requires CanGrow(img, levels, t, h, n)
    ensures |levels[h]| > 0 && NoRepeat(LevelsAfterGrowth(levels, n + 1, n))
  {
    GrowFacts(img, levels, t, h, n);
    InsertNoRepeat(img, levels, h, 0, n + 1);
    var levels1 := levels[h := Inserted(levels[h], 0, n + 1)];
    forall l, i | 0 <= l < |levels1| && 0 <= i < |levels1[l]| ensures levels1[l][i] != n {
      var x := OldPlace(levels, h, 0, n + 1, l, i);
      if !(l == h && i == 1) {
        assert ChainedAt(img, levels[l], x);
      }
    }
  }

  /** When the root has grown the new tree lies in the blocks. */
  lemma GrowLies<K>(img: Image<K>, levels: seq<seq<nat>>, t: Tree<K>, h: nat, n: nat)
    requires CanGrow(img, levels, t, h, n)
    ensures t.id in img && t.id != n + 1 && img[t.id].next == 0 && |levels[h]| > 0
    ensures LiesWhole(RootImage(img, t.id, n, n + 1, Split(t, n + 1).0.MaxKey(), t.MaxKey()),
                      LevelsAfterGrowth(levels, n + 1, n), GrowRoot(t, n), h + 1)
  {
    GrowFacts(img, levels, t, h, n);
    RepIds(img, t);
    GrowHalves(img, t, n, Split(t, n + 1).0.MaxKey(), t.MaxKey());
    GrowRep(img, RootImage(img, t.id, n, n + 1, Split(t, n + 1).0.MaxKey(), t.MaxKey()), t, n);
    GrowDistinct(t, n);
    GrowLevels(levels, t, h, n);
    GrowChained(img, levels, t, h, n, Split(t, n + 1).0.MaxKey(), t.MaxKey());
    GrowNoRepeat(img, levels, t, h, n);
  }

  /** Block `s` halved into the empty block `m`, and the two chained. */
  ghost function RootHalves<K>(img: Image<K>, s: nat, m: nat): Image<K>
    requires s in img && m in img
  {
    var c := img[s];
    var k := (|c.items| + 1) / 2;
    var img2 := img[m := img[m].(items := c.items[k..])][s := c.(items := c.items[..k])];
    var img3 := img2[s := img2[s].(next := m)];
    img3[m := img3[m].(last := s)]
  }

  /** The image of a root split, from the writes in the order they are made. */
  lemma RootImageSteps<K>(img: Image<K>, s: nat, n: nat, m: nat, k0: K, k1: K)
    requires s in img && img[s].next == 0 && n !in img && m !in img && n != m
    ensures var img1 := img[n := Content(false, [], 0, 0)][m := Content(img[s].leaf, [], 0, 0)];
      var img4 := RootHalves(img1, s, m);
      img4[n := img4[n].(items := [Slot(k0, true, Child(s)), Slot(k1, true, Child(m))])] ==
        RootImage(img, s, n, m, k0, k1)
  {
  }

  lemma WholeLies<K>(img: Image<K>, levels: seq<seq<nat>>, t: Tree<K>, h: nat)
    requires LiesWhole(img, levels, t, h)
    ensures Lies(img, levels, t, h, Empties(h), Empties(h)) && levels[h] == [t.id]
  {
    WholeWithin(levels, t, h);
  }

  lemma BecameWhole<K>(img0: Image<K>, levels0: seq<seq<nat>>, img: Image<K>, levels: seq<seq<nat>>, t: Tree<K>,
          t': Tree<K>, h: nat)
    requires LiesWhole(img0, levels0, t, h) && Became(img0, levels0, img, levels, t, t', h, Empties(h), Empties(h))
    ensures LiesWhole(img, levels, t', h) && |levels| == h + 1
  {
    WholeWithin(levels0, t, h);
    WholeWithin(levels, t', h);
  }

  /** A new tree: one empty leaf. */
  lemma EmptyTreeLies<K>(img: Image<K>, id: nat)
    requires id in img && img[id] == Content(true, [], 0, 0) && id != 0
    ensures LiesWhole(img, [[id]], Leaf(id, []), 0)
  {
  }
}
