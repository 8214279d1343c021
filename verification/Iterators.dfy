/** BTree::Iterator: positioned lookup and movement over the live entries. */
module Iterators {
  import opened Slots
  import opened Trees
  import opened Blocks
  import opened Leaves
  import opened Forms
  import opened BTrees
  import Pool
  import Runs

  datatype IterFlag = EXACT_KEY | KEY_OR_NEXT | KEY_OR_PREV | AFTER_KEY | BEFORE_KEY

  // What a scan looks for in the physical sequence

  /** Place `q` is the first live one from place `i` on. */
  ghost predicate FirstLive<K>(s: seq<Slot<K>>, i: int, q: int) {
    i <= q < |s| && 0 <= q && s[q].live && forall j :: i <= j < q && 0 <= j < |s| ==> !s[j].live
  }

  ghost predicate NoneLive<K>(s: seq<Slot<K>>, i: int, j: int) {
    forall q :: i <= q < j && 0 <= q < |s| ==> !s[q].live
  }

  /** Place `q` is the last live one before place `i`. */
  ghost predicate LastLive<K>(s: seq<Slot<K>>, i: int, q: int) {
    0 <= q < i <= |s| && s[q].live && forall j :: q < j < i ==> !s[j].live
  }

  // What a lookup asks for

  /** Which keys a lookup accepts, by how they compare with the key probed for. */
  predicate Wanted(flag: IterFlag, order: int) {
    match flag
    case EXACT_KEY => order == 0
    case KEY_OR_NEXT => order >= 0
    case KEY_OR_PREV => order <= 0
    case AFTER_KEY => order > 0
    case BEFORE_KEY => order < 0
  }

  /** Place `q` is a live entry the lookup accepts, and the nearest one to the key: the
      first in order for lookups to the right, the last for lookups to the left. */
  ghost predicate Found<K>(flag: IterFlag, p: K -> int, s: seq<Slot<K>>, q: int) {
    && 0 <= q < |s| && s[q].live && Wanted(flag, p(s[q].key))
    && forall j :: 0 <= j < |s| && j != q && s[j].live && Wanted(flag, p(s[j].key)) ==>
         if flag.KEY_OR_PREV? || flag.BEFORE_KEY? then j < q else !flag.EXACT_KEY? && q < j
  }

  ghost predicate NotFound<K>(flag: IterFlag, p: K -> int, s: seq<Slot<K>>) {
    forall j :: 0 <= j < |s| && s[j].live ==> !Wanted(flag, p(s[j].key))
  }

  /** The same among the live keys: `k` is accepted, and nearest to the key probed for. */
  ghost predicate Nearest<K(!new)>(cmp: (K, K) -> int, flag: IterFlag, p: K -> int, keys: set<K>, k: K) {
    && k in keys && Wanted(flag, p(k))
    && forall k' :: k' in keys && k' != k && Wanted(flag, p(k')) ==>
         if flag.KEY_OR_PREV? || flag.BEFORE_KEY? then cmp(k', k) < 0 else !flag.EXACT_KEY? && cmp(k, k') < 0
  }

  lemma FoundKey<K(!new)>(cmp: (K, K) -> int, flag: IterFlag, p: K -> int, s: seq<Slot<K>>, q: int)
    requires Sorted(cmp, s)
    ensures Found(flag, p, s, q) ==> Nearest(cmp, flag, p, LiveKeys(s), s[q].key)
    ensures NotFound(flag, p, s) ==> forall k :: k in LiveKeys(s) ==> !Wanted(flag, p(k))
  {
    if Found(flag, p, s, q) {
      assert s[q] in s;
      forall k' | k' in LiveKeys(s) && k' != s[q].key && Wanted(flag, p(k'))
        ensures if flag.KEY_OR_PREV? || flag.BEFORE_KEY? then cmp(k', s[q].key) < 0
          else !flag.EXACT_KEY? && cmp(s[q].key, k') < 0
      {
        var j :| 0 <= j < |s| && s[j].live && s[j].key == k';
      }
    }
  }

  /** Among the keys `k` is the first one after `last`, or the first of all. */
  ghost predicate IsNext<K(!new)>(cmp: (K, K) -> int, keys: set<K>, last: Option<K>, k: K) {
    && k in keys && (last.Some? ==> cmp(last.value, k) < 0)
    && forall k' :: k' in keys && k' != k && (last.Some? ==> cmp(last.value, k') < 0) ==> cmp(k, k') < 0
  }

  /** The last one before `last`, or the last of all. */
  ghost predicate IsPrev<K(!new)>(cmp: (K, K) -> int, keys: set<K>, last: Option<K>, k: K) {
    && k in keys && (last.Some? ==> cmp(k, last.value) < 0)
    && forall k' :: k' in keys && k' != k && (last.Some? ==> cmp(k', last.value) < 0) ==> cmp(k', k) < 0
  }

  /** No key is after `last`, or there is none at all. */
  ghost predicate NoNext<K(!new)>(cmp: (K, K) -> int, keys: set<K>, last: Option<K>) {
    forall k :: k in keys ==> last.Some? && !(cmp(last.value, k) < 0)
  }

  ghost predicate NoPrev<K(!new)>(cmp: (K, K) -> int, keys: set<K>, last: Option<K>) {
    forall k :: k in keys ==> last.Some? && !(cmp(k, last.value) < 0)
  }

  /** The first live entry from place `i` on has the least live key not before place `i`. */
  lemma FirstLiveKey<K(!new)>(cmp: (K, K) -> int, s: seq<Slot<K>>, i: int, q: int)
    requires TotalOrder(cmp) && Sorted(cmp, s) && 0 <= i <= |s|
    ensures var last := if i == 0 then None else Some(s[i - 1].key);
      && (FirstLive(s, i, q) ==> IsNext(cmp, LiveKeys(s), last, s[q].key))
      && (NoneLive(s, i, |s|) ==> NoNext(cmp, LiveKeys(s), last))
  {
    hide TotalOrder;
    var last := if i == 0 then None else Some(s[i - 1].key);
    forall k | k in LiveKeys(s)
      ensures FirstLive(s, i, q) && k != s[q].key && (last.Some? ==> cmp(last.value, k) < 0) ==> cmp(s[q].key, k) < 0
      ensures NoneLive(s, i, |s|) ==> last.Some? && !(cmp(last.value, k) < 0)
    {
      var j :| 0 <= j < |s| && s[j].live && s[j].key == k;
      NotBefore(cmp, s, i, j);
    }
  }

  /** The last live entry before place `i` has the greatest live key before place `i`. */
  lemma LastLiveKey<K(!new)>(cmp: (K, K) -> int, s: seq<Slot<K>>, i: int, q: int)
    requires TotalOrder(cmp) && Sorted(cmp, s) && 0 <= i <= |s|
    ensures var last := if i == |s| then None else Some(s[i].key);
      && (LastLive(s, i, q) ==> IsPrev(cmp, LiveKeys(s), last, s[q].key))
      && (NoneLive(s, 0, i) ==> NoPrev(cmp, LiveKeys(s), last))
  {
    hide TotalOrder;
    var last := if i == |s| then None else Some(s[i].key);
    forall k | k in LiveKeys(s)
      ensures LastLive(s, i, q) && k != s[q].key && (last.Some? ==> cmp(k, last.value) < 0) ==> cmp(k, s[q].key) < 0
      ensures NoneLive(s, 0, i) ==> last.Some? && !(cmp(k, last.value) < 0)
    {
      var j :| 0 <= j < |s| && s[j].live && s[j].key == k;
      NotAfter(cmp, s, i, j);
    }
  }

  lemma NotAfter<K(!new)>(cmp: (K, K) -> int, s: seq<Slot<K>>, i: int, j: int)
    requires TotalOrder(cmp) && Sorted(cmp, s) && 0 <= i <= |s| && 0 <= j < |s|
    ensures i < |s| && cmp(s[j].key, s[i].key) < 0 <==> j < i < |s|
  {
    if i < |s| && j > i {
      assert cmp(s[i].key, s[j].key) < 0;
    }
  }

  lemma NotBefore<K(!new)>(cmp: (K, K) -> int, s: seq<Slot<K>>, i: int, j: int)
    requires TotalOrder(cmp) && Sorted(cmp, s) && 0 <= i <= |s| && 0 <= j < |s|
    ensures i > 0 && cmp(s[i - 1].key, s[j].key) < 0 <==> 0 < i <= j
  {
    if 0 < i && j < i - 1 {
      assert cmp(s[j].key, s[i - 1].key) < 0;
    }
  }

  /** Before the least upper bound the probe is negative, after it positive. */
  lemma ProbeAround<K>(p: K -> int, s: seq<Slot<K>>, j: nat)
    requires Monotone(p, s) && j < |s|
    ensures var l := Slots.Lub(s, p);
      if j < l then p(s[j].key) < 0 else if j == l then p(s[j].key) >= 0 else p(s[j].key) > 0
  {
  }

  lemma {:induction false} ExactPlace<K>(p: K -> int, s: seq<Slot<K>>)
    requires Monotone(p, s)
    ensures var l := Slots.Lub(s, p);
      if l < |s| && p(s[l].key) == 0 && s[l].live then Found(EXACT_KEY, p, s, l) else NotFound(EXACT_KEY, p, s)
  {
    hide Slots.Lub;
    forall j | 0 <= j < |s| && p(s[j].key) == 0 ensures j == Slots.Lub(s, p) {
      ProbeAround(p, s, j);
    }
  }

  /** Where a search to the right starts looking for a live entry. */
  function RightFrom<K>(flag: IterFlag, p: K -> int, s: seq<Slot<K>>): int {
    var l := Slots.Lub(s, p);
    if flag.AFTER_KEY? && l < |s| && p(s[l].key) == 0 then l + 1 else l
  }

  lemma {:induction false} RightPlace<K>(flag: IterFlag, p: K -> int, s: seq<Slot<K>>, q: int)
    requires Monotone(p, s) && (flag.KEY_OR_NEXT? || flag.AFTER_KEY?)
    ensures FirstLive(s, RightFrom(flag, p, s), q) ==> Found(flag, p, s, q)
    ensures NoneLive(s, RightFrom(flag, p, s), |s|) ==> NotFound(flag, p, s)
  {
    hide Slots.Lub;
    forall j | 0 <= j < |s| ensures Wanted(flag, p(s[j].key)) <==> j >= RightFrom(flag, p, s) {
      ProbeAround(p, s, j);
    }
  }

  /** The place before which a search to the left looks for a live entry. */
  function LeftFrom<K>(flag: IterFlag, p: K -> int, s: seq<Slot<K>>): int {
    var l := Slots.Lub(s, p);
    if flag.KEY_OR_PREV? && l < |s| && p(s[l].key) == 0 then l + 1 else l
  }

  lemma {:induction false} LeftPlace<K>(flag: IterFlag, p: K -> int, s: seq<Slot<K>>, q: int)
    requires Monotone(p, s) && (flag.KEY_OR_PREV? || flag.BEFORE_KEY?)
    ensures LastLive(s, LeftFrom(flag, p, s), q) ==> Found(flag, p, s, q)
    ensures NoneLive(s, 0, LeftFrom(flag, p, s)) ==> NotFound(flag, p, s)
  {
    hide Slots.Lub;
    forall j | 0 <= j < |s| ensures Wanted(flag, p(s[j].key)) <==> j < LeftFrom(flag, p, s) {
      ProbeAround(p, s, j);
    }
  }

  class Iterator<K(==, 0, !new)> {
    var btree: BTree<K>
    var cur: NodeBlock?<K>
    var index: int

    // Which leaf `cur` is, from the left.
    ghost var leaf: nat

    constructor (b: BTree<K>)
      ensures btree == b && cur == null
    {
      btree, cur, index, leaf := b, null, -1, 0;
    }

    method SetBTree(b: BTree<K>)
      modifies this
      ensures btree == b
    {
      btree := b;
    }

    /** The iterator is no part of the tree it moves over, and the tree is valid. */
    ghost predicate Ready()
      reads this, btree, btree.pool, btree.pool.objs, btree.data, btree.data.objs
    {
      btree.Valid() && this !in btree.pool.objs && this !in btree.data.objs
    }

    /** The iterator is on the live entry of key `k`. */
    ghost predicate OnKey(k: K)
      reads this, btree`tree, btree.pool`nodes
    {
      On() && 0 <= Pos() < |Places()| && Places()[Pos()].live && Places()[Pos()].key == k
    }

    /** The iterator is on the entry of key `k`, live or removed. */
    ghost predicate AtKey(k: K)
      reads this, btree`tree, btree.pool`nodes
    {
      On() && 0 <= Pos() < |Places()| && Places()[Pos()].key == k
    }

    /** The current block is marked, so that it may be changed.  It is after a lookup, until the
        tree is saved. */
    ghost predicate Fetched()
      reads this, btree.pool`marked
    {
      cur != null && cur.index in btree.pool.marked
    }

    /** What every movement of the iterator keeps. */
    twostate predicate Moved()
      reads this, btree.pool`marked
    {
      && btree == old(btree) && old(btree.pool.marked) <= btree.pool.marked
      && (old(Fetched()) ==> Fetched())
    }

    lemma Apart()
      requires Ready()
      ensures btree.Valid()
      ensures {this, btree, btree.pool, btree.data} !! btree.pool.objs
      ensures {this, btree, btree.pool, btree.data} !! btree.data.objs
    {
    }

    ghost function Places(): seq<Slot<K>>
      reads this`btree, btree`tree
    {
      Phys(btree.tree)
    }

    /** The iterator is on an entry, live or removed. */
    ghost predicate On()
      reads this, btree`tree, btree.pool`nodes
    {
      && cur != null && btree.IsLeaf(leaf, cur)
      && 0 <= index < |LeavesOf(btree.tree)[leaf].slots|
    }

    /** The place of that entry in the physical sequence. */
    ghost function Pos(): int
      reads this, btree`tree
    {
      if leaf <= |LeavesOf(btree.tree)| then Start(LeavesOf(btree.tree), leaf) + index else -1
    }

    lemma OnFacts()
      requires Ready() && On()
      ensures 0 <= Pos() < |Places()| && cur.index in btree.pool.img && cur.Holds(btree.pool.img[cur.index])
      ensures index < cur.count == |btree.pool.img[cur.index].items|
      ensures btree.pool.img[cur.index].items[index] == Places()[Pos()]
      ensures cur.count == |LeavesOf(btree.tree)[leaf].slots| && btree.pool.Valid()
      ensures cur.next == 0 <==> leaf + 1 == |LeavesOf(btree.tree)|
      ensures leaf + 1 == |LeavesOf(btree.tree)| && index == cur.count - 1 ==> Pos() == |Places()| - 1
      ensures cur.last == 0 <==> leaf == 0
      ensures leaf == 0 ==> Pos() == index
    {
      hide BTree.Valid, Pool.NodePool.Valid, NodeBlock.Holds, Phys;
      ReadyPool();
      btree.LeafFacts(leaf, cur);
      if leaf + 1 < |LeavesOf(btree.tree)| {
        btree.LeafBlock(leaf + 1);
      } else {
        assert LeavesOf(btree.tree)[leaf + 1..] == [];
      }
      if leaf > 0 {
        btree.LeafBlock(leaf - 1);
      }
    }

    lemma CurBlock()
      requires Ready() && On()
      ensures cur != null && cur.kv in btree.pool.objs
    {
      ReadyPool();
      btree.pool.Known(cur);
    }

    lemma ReadyPool()
      requires Ready()
      ensures btree.pool.Valid()
    {
    }

    /** The next block, when there is one. */
    lemma NextLeaf()
      requires Ready() && On() && cur.next != 0
      ensures leaf + 1 < |LeavesOf(btree.tree)| && cur.next in btree.pool.nodes
      ensures btree.IsLeaf(leaf + 1, btree.pool.nodes[cur.next]) && LeavesOf(btree.tree)[leaf + 1].slots != []
      ensures index == cur.count - 1 ==> Start(LeavesOf(btree.tree), leaf + 1) == Pos() + 1
    {
      hide BTree.Valid;
      btree.LeafFacts(leaf, cur);
      StartNext(LeavesOf(btree.tree), leaf);
      btree.LeafBlock(leaf + 1);
      NotEmpty();
    }

    lemma PrevLeaf()
      requires Ready() && On() && cur.last != 0
      ensures leaf > 0 && cur.last in btree.pool.nodes
      ensures btree.IsLeaf(leaf - 1, btree.pool.nodes[cur.last]) && LeavesOf(btree.tree)[leaf - 1].slots != []
      ensures index == 0 ==> Start(LeavesOf(btree.tree), leaf - 1) + |LeavesOf(btree.tree)[leaf - 1].slots| == Pos()
    {
      hide BTree.Valid;
      btree.LeafFacts(leaf, cur);
      btree.LeafBlock(leaf - 1);
      StartNext(LeavesOf(btree.tree), leaf - 1);
      NotEmpty();
    }

    lemma NotEmpty()
      requires Ready() && On()
      ensures btree.tree.Count() > 0
    {
      if btree.tree.Leaf? {
        assert LeavesOf(btree.tree) == [btree.tree];
      }
    }

    /** NodeBlock::removed for the current entry. */
    method Removed() returns (r: bool)
      requires Ready() && On()
      ensures 0 <= Pos() < |Places()| && r == !Places()[Pos()].live
    {
      hide BTree.Valid, Ready, Pos, Places, Phys, LeavesOf;
      OnFacts();
      var e := cur.Entry(index, btree.pool.img[cur.index]);
      r := !e.live;
    }

    /** One entry forward, over the end of a block; false at the last entry. */
    method Forward() returns (moved: bool)
      requires Ready() && On()
      modifies this, btree.pool`marked
      ensures Moved()
      ensures btree == old(btree) && Ready() && On()
      ensures if moved then Pos() == old(Pos()) + 1 else Pos() == old(Pos()) == |Places()| - 1
    {
      hide BTree.Valid, Pool.NodePool.Valid, LeavesOf, Phys, Start;
      OnFacts();
      if index < cur.count - 1 {
        index := index + 1;
      } else {
        if cur.next == 0 {
          return false;
        }
        NextLeaf();
        cur := btree.GetNodeBlock(cur.next);
        index := 0;
        leaf := leaf + 1;
      }
      moved := true;
    }

    /** One entry back, over the start of a block; false at the first entry. */
    method Back() returns (moved: bool)
      requires Ready() && On()
      modifies this, btree.pool`marked
      ensures Moved()
      ensures btree == old(btree) && Ready() && On()
      ensures if moved then Pos() == old(Pos()) - 1 else Pos() == old(Pos()) == 0
    {
      hide BTree.Valid, Pool.NodePool.Valid, LeavesOf, Phys, Start;
      OnFacts();
      if index > 0 {
        index := index - 1;
      } else {
        if cur.last == 0 {
          return false;
        }
        PrevLeaf();
        cur := btree.GetNodeBlock(cur.last);
        leaf := leaf - 1;
        LastEntry();
        index := cur.count - 1;
      }
      moved := true;
    }

    lemma LastEntry()
      requires Ready() && cur != null && btree.IsLeaf(leaf, cur)
      ensures cur.count == |LeavesOf(btree.tree)[leaf].slots|
    {
      btree.LeafFacts(leaf, cur);
    }

    /** Moves to the next live entry; 0 if there is none. */
    method Next() returns (r: int)
      requires Ready() && On()
      modifies this, btree.pool`marked
      ensures Moved()
      ensures btree == old(btree) && Ready() && On()
      ensures r == 0 || r == 1
      ensures if r == 1 then FirstLive(Places(), old(Pos()) + 1, Pos())
        else NoneLive(Places(), old(Pos()) + 1, |Places()|)
    {
      hide BTree.Valid, Pos, Phys, LeavesOf, Places, Ready, On;
      ghost var from := PosOn();
      var moved := Forward();
      if !moved {
        return 0;
      }
      var removed := Removed();
      while removed
        invariant Moved()
        invariant btree == old(btree) && Ready() && On()
        invariant from < Pos() < |Places()|
        invariant removed == !Places()[Pos()].live && NoneLive(Places(), from + 1, Pos())
        decreases |Places()| - Pos()
      {
        moved := Forward();
        if !moved {
          return 0;
        }
        removed := Removed();
      }
      r := 1;
    }

    ghost method PosOn() returns (pos: int)
      requires Ready() && On()
      ensures pos == Pos() && 0 <= pos < |Places()|
    {
      OnFacts();
      pos := Pos();
    }

    /** Moves to the previous live entry; 0 if there is none. */
    method Prev() returns (r: int)
      requires Ready() && On()
      modifies this, btree.pool`marked
      ensures Moved()
      ensures btree == old(btree) && Ready() && On()
      ensures r == 0 || r == 1
      ensures if r == 1 then LastLive(Places(), old(Pos()), Pos()) else NoneLive(Places(), 0, old(Pos()))
      decreases Pos()
    {
      hide BTree.Valid, Pos, Phys, LeavesOf, Places, Ready, On;
      ghost var from := PosOn();
      var moved := Back();
      if !moved {
        return 0;
      }
      var removed := Removed();
      if removed {
        r := Prev();
        return;
      }
      r := 1;
    }

    /** To the first entry, live or removed, if there is any. */
    method ToFirst() returns (any: bool)
      requires Ready()
      modifies this, btree.pool`marked
      ensures Moved()
      ensures any ==> Fetched()
      ensures btree == old(btree) && Ready()
      ensures any <==> |Places()| > 0
      ensures any ==> On() && Pos() == 0
    {
      hide BTree.Valid, Phys, LeavesOf;
      cur := btree.GetFirstLeaf();
      leaf := 0;
      EdgeFacts();
      if cur.count == 0 {
        return false;
      }
      index := 0;
      any := true;
      OnFacts();
    }

    method ToLast() returns (any: bool)
      requires Ready()
      modifies this, btree.pool`marked
      ensures Moved()
      ensures any ==> Fetched()
      ensures btree == old(btree) && Ready()
      ensures any <==> |Places()| > 0
      ensures any ==> On() && Pos() == |Places()| - 1
    {
      hide BTree.Valid, Phys, LeavesOf;
      ghost var a;
      cur, a := btree.GetLastLeaf();
      leaf := a;
      EdgeFacts();
      if cur.count == 0 {
        return false;
      }
      index := cur.count - 1;
      any := true;
      OnFacts();
    }

    /** BTree::Iterator::first */
    method First() returns (r: int)
      requires Ready()
      modifies this, btree.pool`marked
      ensures Moved()
      ensures r == 1 ==> Fetched()
      ensures btree == old(btree) && Ready()
      ensures r == 0 || r == 1
      ensures if r == 1 then On() && FirstLive(Places(), 0, Pos()) else NoneLive(Places(), 0, |Places()|)
    {
      hide BTree.Valid, Ready, On, Pos, Places, Phys;
      var any := ToFirst();
      if !any {
        return 0;
      }
      var removed := Removed();
      if removed {
        r := Next();
        return;
      }
      r := 1;
    }

    /** BTree::Iterator::last */
    method Last() returns (r: int)
      requires Ready()
      modifies this, btree.pool`marked
      ensures Moved()
      ensures r == 1 ==> Fetched()
      ensures btree == old(btree) && Ready()
      ensures r == 0 || r == 1
      ensures if r == 1 then On() && LastLive(Places(), |Places()|, Pos()) else NoneLive(Places(), 0, |Places()|)
    {
      hide BTree.Valid, Ready, On, Pos, Places, Phys;
      var any := ToLast();
      if !any {
        return 0;
      }
      var removed := Removed();
      if removed {
        r := Prev();
        return;
      }
      r := 1;
    }

    /** The iterator is just beyond the last entry of the last leaf. */
    ghost predicate PastEnd()
      reads this, btree`tree, btree.pool`nodes, cur
    {
      && cur != null && btree.IsLeaf(leaf, cur) && index == cur.count == |LeavesOf(btree.tree)[leaf].slots|
      && (cur.count == 0 <==> |Places()| == 0) && (cur.count > 0 ==> Pos() == |Places()|)
    }

    /** What BTree::Iterator::locate finds, in terms of the whole tree: the least upper
        bound of the probe, or no entry if that is the end. */
    method Search(p: K -> int) returns (past: bool)
      requires Ready() && Monotone(p, Places())
      modifies this, btree.pool`marked
      ensures Moved()
      ensures Fetched()
      ensures btree == old(btree) && Ready()
      ensures past <==> Slots.Lub(Places(), p) == |Places()|
      ensures !past ==> On() && Pos() == Slots.Lub(Places(), p)
      ensures past ==> PastEnd()
    {
      hide BTree.Valid, Phys, LeavesOf, Slots.Lub, Joined;
      ghost var a;
      cur, a := btree.GetLeaf(p);
      leaf := a;
      SearchFacts(p);
      index := cur.Lub(p, btree.pool.img[cur.index]);
      past := index == cur.count;
    }

    /** Back from beyond the last entry onto it. */
    method StepBack()
      requires Ready() && PastEnd() && |Places()| > 0
      modifies this
      ensures cur == old(cur)
      ensures btree == old(btree) && Ready() && On() && Pos() == |Places()| - 1
    {
      hide BTree.Valid, Phys, LeavesOf;
      index := index - 1;
    }

    /** BTree::Iterator::compare */
    method Compare(p: K -> int) returns (r: int)
      requires Ready() && On()
      ensures 0 <= Pos() < |Places()| && r == p(Places()[Pos()].key)
    {
      hide BTree.Valid, Ready, Pos, Places, Phys, LeavesOf;
      OnFacts();
      var e := cur.Entry(index, btree.pool.img[cur.index]);
      r := p(e.key);
    }

    /** Stays on the current entry, or moves on to the next live one if the entry is
        removed or to be skipped. */
    method SettleForward(skip: bool) returns (r: int)
      requires Ready() && On()
      modifies this, btree.pool`marked
      ensures Moved()
      ensures btree == old(btree) && Ready() && On()
      ensures r == 0 || r == 1
      ensures var from := old(Pos()) + if skip then 1 else 0;
        if r == 1 then FirstLive(Places(), from, Pos()) else NoneLive(Places(), from, |Places()|)
    {
      hide BTree.Valid, Ready, On, Pos, Places, Phys;
      var removed := Removed();
      r := 1;
      if skip || removed {
        r := Next();
      }
    }

    method SettleBack(skip: bool) returns (r: int)
      requires Ready() && On()
      modifies this, btree.pool`marked
      ensures Moved()
      ensures btree == old(btree) && Ready() && On()
      ensures r == 0 || r == 1
      ensures var from := old(Pos()) + if skip then 0 else 1;
        if r == 1 then LastLive(Places(), from, Pos()) else NoneLive(Places(), 0, from)
    {
      hide BTree.Valid, Ready, On, Pos, Places, Phys;
      var removed := Removed();
      r := 1;
      if skip || removed {
        r := Prev();
      }
    }

    /** BTree::Iterator::locate.  1: the iterator is on the entry asked for; 0: there is
        no such entry. */
    method Locate(p: K -> int, flag: IterFlag) returns (r: int)
      requires Ready() && Monotone(p, Places())
      modifies this, btree.pool`marked
      ensures Moved()
      ensures r == 1 ==> Fetched()
      ensures btree == old(btree) && Ready()
      ensures r == 0 || r == 1
      ensures if r == 1 then On() && Found(flag, p, Places(), Pos()) else NotFound(flag, p, Places())
    {
      hide BTree.Valid, Ready, On, Pos, Places, Phys, Slots.Lub, FirstLive, LastLive, NoneLive, Found, NotFound,
        PastEnd, Monotone;
      var past := Search(p);
      if past {
        r := LocatePast(p, flag);
        return;
      }
      var res := Compare(p);
      match flag
      case EXACT_KEY =>
        var removed := Removed();
        ExactPlace(p, Places());
        r := if res == 0 && !removed then 1 else 0;
      case KEY_OR_NEXT =>
        r := SettleForward(false);
        RightPlace(flag, p, Places(), Pos());
      case KEY_OR_PREV =>
        r := SettleBack(res != 0);
        LeftPlace(flag, p, Places(), Pos());
      case AFTER_KEY =>
        r := SettleForward(res == 0);
        RightPlace(flag, p, Places(), Pos());
      case BEFORE_KEY =>
        r := Prev();
        LeftPlace(flag, p, Places(), Pos());
    }

    /** The key probed for is beyond the last one, or the tree is empty. */
    method LocatePast(p: K -> int, flag: IterFlag) returns (r: int)
      requires Ready() && Monotone(p, Places())
      requires Slots.Lub(Places(), p) == |Places()| && PastEnd()
      modifies this, btree.pool`marked
      ensures Moved()
      ensures old(Fetched()) ==> Fetched()
      ensures btree == old(btree) && Ready()
      ensures r == 0 || r == 1
      ensures if r == 1 then On() && Found(flag, p, Places(), Pos()) else NotFound(flag, p, Places())
    {
      hide BTree.Valid, Ready, On, Pos, Places, Phys, Slots.Lub;
      ExactPlace(p, Places());
      if cur.count == 0 {
        return 0;
      }
      if flag.KEY_OR_PREV? || flag.BEFORE_KEY? {
        StepBack();
        r := SettleBack(false);
        LeftPlace(flag, p, Places(), Pos());
      } else {
        r := 0;
        if !flag.EXACT_KEY? {
          RightPlace(flag, p, Places(), 0);
        }
      }
    }

    lemma SearchFacts(p: K -> int)
      requires Ready() && cur != null && btree.IsLeaf(leaf, cur)
      requires var ls := LeavesOf(btree.tree);
        && (forall x :: x in Joined(ls[..leaf]) ==> p(x.key) < 0)
        && (Joined(ls[leaf + 1..]) == [] || Slots.Lub(ls[leaf].slots, p) < |ls[leaf].slots|)
      ensures var ls := LeavesOf(btree.tree);
        && cur.index in btree.pool.img && cur.Holds(btree.pool.img[cur.index]) &&
          btree.pool.img[cur.index].items == ls[leaf].slots
        && cur.count == |ls[leaf].slots| && (cur.count == 0 <==> |Places()| == 0)
        && Slots.Lub(Places(), p) == Start(ls, leaf) + Slots.Lub(ls[leaf].slots, p)
        && Start(ls, leaf) + |ls[leaf].slots| <= |Places()|
        && (Slots.Lub(ls[leaf].slots, p) == cur.count ==> Slots.Lub(Places(), p) == |Places()|)
    {
      hide Slots.Lub, Joined, LeavesOf, Phys;
      btree.LeafFacts(leaf, cur);
      SearchPlace(LeavesOf(btree.tree), leaf, p);
      JoinedLeaves(btree.tree);
      EdgeFacts();
    }

    /** The iterator's block and index name an entry of the tree `t`. */
    ghost predicate OnTree(t: Tree<K>)
      reads this
    {
      && cur != null && leaf < |LeavesOf(t)| && LeavesOf(t)[leaf].Leaf? && cur.index == LeavesOf(t)[leaf].id
      && 0 <= index < |LeavesOf(t)[leaf].slots|
    }

    ghost function PosIn(t: Tree<K>): int
      reads this
    {
      if leaf <= |LeavesOf(t)| then Start(LeavesOf(t), leaf) + index else -1
    }

    lemma OnParts()
      requires On()
      ensures OnTree(btree.tree) && PosIn(btree.tree) == Pos() && cur != null && btree.pool.Owns(cur)
    {
    }

    /** A change of the tree that keeps its form moves no iterator: its block and index name
        the entry in the same place with the same key. */
    lemma StaysOn(t: Tree<K>)
      requires SameForm(t, btree.tree) && OnTree(t) && cur != null && btree.pool.Owns(cur)
      ensures On() && Pos() == PosIn(t)
      ensures SameKeys(Phys(t), Places())
    {
      FormLeaves(t, btree.tree);
      assert SameLeaf(LeavesOf(t)[leaf], LeavesOf(btree.tree)[leaf]);
      FormStart(LeavesOf(t), LeavesOf(btree.tree), leaf);
      FormPhys(t, btree.tree);
    }

    /** So does any other iterator over the tree. */
    lemma StaysAtKey(t: Tree<K>, k: K)
      requires SameForm(t, btree.tree) && OnTree(t) && cur != null && btree.pool.Owns(cur)
      requires 0 <= PosIn(t) < |Phys(t)| && Phys(t)[PosIn(t)].key == k
      ensures AtKey(k)
    {
      hide SameForm, On, OnTree, Pos, PosIn, Phys;
      StaysOn(t);
    }

    lemma AtKeyParts(k: K)
      requires AtKey(k)
      ensures OnTree(btree.tree) && cur != null && btree.pool.Owns(cur)
      ensures 0 <= PosIn(btree.tree) < |Phys(btree.tree)| && Phys(btree.tree)[PosIn(btree.tree)].key == k
    {
      OnParts();
    }

    lemma NotInTree()
      requires Ready()
      ensures this !in btree.pool.objs && this !in btree.data.objs
    {
    }

    lemma GetReady()
      requires btree.Valid() && this !in btree.pool.objs && this !in btree.data.objs
      ensures Ready()
    {
    }

    /** The key of the entry the iterator is on is present in the tree, live or removed. */
    lemma HerePresent()
      requires Ready() && On() && 0 <= Pos() < |Places()|
      ensures Present(Places(), At(btree.cmp, Places()[Pos()].key)) && btree.Readable()
    {
      hide Ready, On, Pos, Slots.Lub, BTree.Valid;
      Apart();
      btree.ValidReadable();
      FoundAt(btree.cmp, Places(), Pos());
    }

    /** BTree::Iterator::getKey */
    method GetKey() returns (key: K)
      requires Ready() && On()
      ensures 0 <= Pos() < |Places()| && key == Places()[Pos()].key
    {
      hide BTree.Valid, Ready, Pos, Places, Phys, LeavesOf;
      OnFacts();
      var e := cur.Entry(index, btree.pool.img[cur.index]);
      key := e.key;
    }

    /** BTree::Iterator::getValue: bytes that begin with the value of the current entry; a
        value of constant size is all of them. */
    method GetValue() returns (r: Option<seq<Byte>>)
      requires Ready() && On()
      ensures 0 <= Pos() < |Places()| && btree.PayloadOK(Places()[Pos()].payload)
      ensures r.Some? && btree.ValueOf(Places()[Pos()].payload) <= r.value
      ensures btree.isConstValueSize ==> btree.ValueOf(Places()[Pos()].payload) == r.value
    {
      hide BTree.Valid, Ready, Pos, Places, Phys, LeavesOf, Pool.DataPool.Valid, DataBlock.Holds;
      OnFacts();
      EntryReadable();
      var e := cur.Entry(index, btree.pool.img[cur.index]);
      if btree.isConstValueSize {
        r := Some(e.payload.bytes);
      } else {
        r := btree.GetValue(e.payload.loc);
      }
    }

    lemma EntryReadable()
      requires Ready()
      ensures btree.data.Valid()
      ensures 0 <= Pos() < |Places()| ==> btree.PayloadOK(Places()[Pos()].payload)
    {
    }

    /** No block but the current one changed. */
    twostate predicate OneChange()
      reads this, btree.pool`img
    {
      && btree == old(btree) && cur != null && cur.index in old(btree.pool.img) && cur.index in btree.pool.img
      && btree.pool.img == old(btree.pool.img)[cur.index := btree.pool.img[cur.index]]
    }

    /** The write of a removal. */
    method ClearCurrent()
      requires Ready() && On()
      modifies btree`tree, btree.pool`img, cur.kv
      ensures btree.Sound() && On() && Pos() == old(Pos()) && SameForm(old(btree.tree), btree.tree)
      ensures 0 <= Pos() < |old(Places())| && Places() == Kill(old(Places()), Pos())
      ensures Ready() <==> Fetched() || !old(Places())[Pos()].live
      ensures btree == old(btree) && cur == old(cur) && btree.levels == old(btree.levels)
      ensures btree.countOfBlock == old(btree.countOfBlock) && btree.countOfItem == old(btree.countOfItem)
      ensures btree.pool.marked == old(btree.pool.marked) && btree.pool.nodes == old(btree.pool.nodes)
      ensures btree.data.stored == old(btree.data.stored) && btree.pool.objs == old(btree.pool.objs)
      ensures btree.root == old(btree.root) && btree.rootIndex == old(btree.rootIndex)
      ensures OneChange()
    {
      hide BTree.Valid, BTree.Sound, Phys, LeavesOf, SameForm, Kill;
      Apart();
      OnFacts();
      ghost var t := btree.tree;
      ghost var place := btree.ClearFlag(cur, index, leaf);
      StaysOn(t);
    }

    /** BTree::Iterator::remove: the flag of the current entry is cleared, and nothing else
        changes.  The tree is in step with its file afterwards exactly when the block was
        marked, or the entry was removed already. */
    method Remove()
      requires Ready() && On()
      modifies btree`tree, btree.pool`img, cur.kv
      ensures btree == old(btree) && cur == old(cur) && btree.pool.marked == old(btree.pool.marked)
      ensures btree.pool.nodes == old(btree.pool.nodes) && btree.pool.objs == old(btree.pool.objs)
      ensures btree.levels == old(btree.levels) && btree.root == old(btree.root) && OneChange()
      ensures btree.Sound() && On() && Pos() == old(Pos()) && SameForm(old(btree.tree), btree.tree)
      ensures 0 <= Pos() < |old(Places())| && Places() == Kill(old(Places()), Pos())
      ensures Ready() <==> Fetched() || !old(Places())[Pos()].live
      ensures old(btree.Readable()) && btree.Readable()
      ensures btree.Contents() == old(btree.Contents()) - {old(Places())[Pos()].key}
      ensures old(Places())[Pos()].live ==>
        Runs.IsRemove(btree.cmp, old(btree.Snapshot()), old(Places())[Pos()].key, btree.Snapshot())
    {
      hide BTree.Valid, BTree.Sound, Ready, On, Pos, Phys, SameForm, Kill, Ordered, BTree.ContentsOf, BTree.PayloadsOK;
      hide Runs.IsRemove, Exact;
      Apart();
      ghost var t, before := btree.tree, btree.Snapshot();
      btree.ValidReadable();
      assert Ordered(btree.cmp, t) && btree.PayloadsOK(Phys(t));
      ClearCurrent();
      btree.SoundFacts();
      btree.KilledTree(t, Pos());
      if Phys(t)[Pos()].live {
        Runs.EntryRemoved(btree.cmp, before, Pos(), btree.Snapshot());
      }
    }

    lemma EdgeFacts()
      requires Ready() && cur != null && btree.IsLeaf(leaf, cur)
      ensures cur.count == |LeavesOf(btree.tree)[leaf].slots|
      ensures cur.count == 0 ==> Places() == []
    {
      btree.LeafFacts(leaf, cur);
      btree.LeafBlock(leaf);
      if cur.count == 0 {
        EmptyTree(btree.tree);
      }
    }
  }

  lemma EmptyTree<K>(t: Tree<K>)
    requires t.Count() == 0
    ensures Phys(t) == []
  {
  }

  /** A put of the key an iterator is on: the iterator stays on its entry, whether the put
      revives it, finds it live, or fails. */
  method PutUnder<K(==, 0, !new)>(it: Iterator<K>, key: K, value: seq<Byte>) returns (res: int)
    requires it.Ready() && it.On() && it.btree.Storable(value)
    requires 0 <= it.Pos() < |it.Places()| && it.Places()[it.Pos()].key == key
    modifies it.btree, it.btree.pool, it.btree.pool.objs, it.btree.data, it.btree.data.objs
    ensures it.btree == old(it.btree) && it.Ready() && it.On() && it.Pos() == old(it.Pos())
    ensures old(it.Fetched()) ==> it.Fetched()
    ensures SameKeys(old(it.Places()), it.Places())
    ensures fresh(it.btree.pool.objs - old(it.btree.pool.objs)) && fresh(it.btree.data.objs - old(it.btree.data.objs))
    ensures old(it.btree.Readable()) && it.btree.Readable() && (res == 0 || res == 1 || res == -1)
    ensures res == 0 <==> key in old(it.btree.Contents())
    ensures res == -1 ==> old(it.btree.data.spare) == 0
    ensures it.btree.data.spare <= old(it.btree.data.spare) <= it.btree.data.spare + 1
    ensures it.btree.Contents() == if res == 1 then old(it.btree.Contents())[key := value] else old(it.btree.Contents())
  {
    hide BTree.Valid, Iterator.Ready, Iterator.On, Iterator.Pos, Iterator.OnTree, Iterator.PosIn, Phys,
      BTree.Contents, BTree.Readable, SameForm, Present, BTree.Snapshot, Runs.IsStep, BTree.PutDone, Slots.Lub,
      Enter, BTree.PayloadOK, BTree.ValueOf;
    ghost var t := it.btree.tree;
    it.Apart();
    it.OnParts();
    it.HerePresent();
    ghost var w, n;
    res, w, n := it.btree.Put(key, value);
    it.GetReady();
    it.StaysOn(t);
  }

  /** Iterator::first in terms of the live keys. */
  method FirstKey<K(==, 0, !new)>(it: Iterator<K>) returns (r: int, ghost k: K)
    requires it.Ready()
    modifies it, it.btree.pool`marked
    ensures it.Moved() && it.btree == old(it.btree) && it.Ready() && it.btree.Readable() && (r == 0 || r == 1)
    ensures if r == 1 then it.OnKey(k) && IsNext(it.btree.cmp, it.btree.Contents().Keys, None, k)
            else NoNext(it.btree.cmp, it.btree.Contents().Keys, None)
  {
    hide BTree.Valid, Iterator.Ready, Iterator.On, Iterator.Pos, Phys, BTree.Contents, BTree.PayloadsOK, TotalOrder,
      Sorted, LiveKeys, IsNext, NoNext, NoneLive;
    it.Apart();
    it.btree.ValidReadable();
    r := it.First();
    k := *;
    if r == 1 {
      k := it.Places()[it.Pos()].key;
    }
    FirstLiveKey(it.btree.cmp, it.Places(), 0, it.Pos());
    it.btree.ContentsKeys();
  }

  /** Iterator::last in terms of the live keys. */
  method LastKey<K(==, 0, !new)>(it: Iterator<K>) returns (r: int, ghost k: K)
    requires it.Ready()
    modifies it, it.btree.pool`marked
    ensures it.Moved() && it.btree == old(it.btree) && it.Ready() && it.btree.Readable() && (r == 0 || r == 1)
    ensures if r == 1 then it.OnKey(k) && IsPrev(it.btree.cmp, it.btree.Contents().Keys, None, k)
            else NoPrev(it.btree.cmp, it.btree.Contents().Keys, None)
  {
    hide BTree.Valid, Iterator.Ready, Iterator.On, Iterator.Pos, Phys, BTree.Contents, BTree.PayloadsOK, TotalOrder,
      Sorted, LiveKeys, IsPrev, NoPrev, NoneLive;
    it.Apart();
    it.btree.ValidReadable();
    r := it.Last();
    k := *;
    if r == 1 {
      k := it.Places()[it.Pos()].key;
    }
    LastLiveKey(it.btree.cmp, it.Places(), |it.Places()|, it.Pos());
    it.btree.ContentsKeys();
  }

  /** Iterator::next, from the entry of `last`, which may have been removed. */
  method NextKey<K(==, 0, !new)>(it: Iterator<K>, ghost last: K) returns (r: int, ghost k: K)
    requires it.Ready() && it.AtKey(last)
    modifies it, it.btree.pool`marked
    ensures it.Moved() && it.btree == old(it.btree) && it.Ready() && it.btree.Readable() && (r == 0 || r == 1)
    ensures if r == 1 then it.OnKey(k) && IsNext(it.btree.cmp, it.btree.Contents().Keys, Some(last), k)
            else NoNext(it.btree.cmp, it.btree.Contents().Keys, Some(last))
  {
    hide BTree.Valid, Iterator.Ready, Iterator.On, Iterator.Pos, Phys, BTree.Contents, BTree.PayloadsOK, TotalOrder,
      Sorted, LiveKeys, IsNext, NoNext, NoneLive;
    it.Apart();
    it.btree.ValidReadable();
    ghost var i := it.Pos();
    r := it.Next();
    k := *;
    if r == 1 {
      k := it.Places()[it.Pos()].key;
    }
    FirstLiveKey(it.btree.cmp, it.Places(), i + 1, it.Pos());
    it.btree.ContentsKeys();
  }

  /** Iterator::prev, the same to the left. */
  method PrevKey<K(==, 0, !new)>(it: Iterator<K>, ghost last: K) returns (r: int, ghost k: K)
    requires it.Ready() && it.AtKey(last)
    modifies it, it.btree.pool`marked
    ensures it.Moved() && it.btree == old(it.btree) && it.Ready() && it.btree.Readable() && (r == 0 || r == 1)
    ensures if r == 1 then it.OnKey(k) && IsPrev(it.btree.cmp, it.btree.Contents().Keys, Some(last), k)
            else NoPrev(it.btree.cmp, it.btree.Contents().Keys, Some(last))
  {
    hide BTree.Valid, Iterator.Ready, Iterator.On, Iterator.Pos, Phys, BTree.Contents, BTree.PayloadsOK, TotalOrder,
      Sorted, LiveKeys, IsPrev, NoPrev, NoneLive;
    it.Apart();
    it.btree.ValidReadable();
    ghost var i := it.Pos();
    r := it.Prev();
    k := *;
    if r == 1 {
      k := it.Places()[it.Pos()].key;
    }
    LastLiveKey(it.btree.cmp, it.Places(), i, it.Pos());
    it.btree.ContentsKeys();
  }

  /** Iterator::locate in terms of the live keys. */
  method LocateNear<K(==, 0, !new)>(it: Iterator<K>, p: K -> int, flag: IterFlag) returns (r: int, ghost k: K)
    requires it.Ready() && Monotone(p, it.Places())
    modifies it, it.btree.pool`marked
    ensures it.Moved() && (r == 1 ==> it.Fetched())
    ensures it.btree == old(it.btree) && it.Ready() && it.btree.Readable() && (r == 0 || r == 1)
    ensures r == 1 ==> it.OnKey(k) && Nearest(it.btree.cmp, flag, p, it.btree.Contents().Keys, k)
    ensures r == 0 ==> forall k :: k in it.btree.Contents() ==> !Wanted(flag, p(k))
  {
    hide BTree.Valid, Iterator.Ready, Iterator.On, Iterator.Pos, Phys, BTree.Contents, NotFound, Monotone, Sorted,
      Nearest, BTree.PayloadsOK, TotalOrder;
    it.Apart();
    it.btree.ValidReadable();
    r := it.Locate(p, flag);
    k := *;
    if r == 1 {
      k := it.Places()[it.Pos()].key;
    }
    FoundKey(it.btree.cmp, flag, p, it.Places(), it.Pos());
    it.btree.ContentsKeys();
  }

  /** Iterator::locate of a key itself: finds it exactly when it is live. */
  method LocateKey<K(==, 0, !new)>(it: Iterator<K>, key: K) returns (r: int)
    requires it.Ready()
    modifies it, it.btree.pool`marked
    ensures it.Moved() && (r == 1 ==> it.Fetched())
    ensures it.btree == old(it.btree) && it.Ready() && it.btree.Readable() && (r == 0 || r == 1)
    ensures r == 1 <==> key in it.btree.Contents()
    ensures r == 1 ==> it.OnKey(key)
  {
    hide BTree.Valid, Iterator.Ready, Iterator.On, Iterator.Pos, Phys, BTree.Contents, Monotone, Sorted,
      BTree.PayloadsOK;
    it.Apart();
    it.btree.ValidReadable();
    AtIsMonotone(it.btree.cmp, key, it.Places());
    ghost var k;
    r, k := LocateNear(it, At(it.btree.cmp, key), EXACT_KEY);
    if r == 0 {
      assert key in it.btree.Contents() ==> !Wanted(EXACT_KEY, At(it.btree.cmp, key)(key));
    }
  }

  /** Removal of a key through an iterator. */
  method RemoveKey<K(==, 0, !new)>(it: Iterator<K>, key: K) returns (r: int)
    requires it.Ready()
    modifies it, it.btree`tree, it.btree.pool`img, it.btree.pool`marked, it.btree.pool.objs
    ensures old(it.btree.pool.marked) <= it.btree.pool.marked
    ensures it.btree == old(it.btree) && it.btree.pool.objs == old(it.btree.pool.objs) && it.Ready()
    ensures old(it.btree.Readable()) && it.btree.Readable() && (r == 0 || r == 1)
    ensures r == 1 <==> key in old(it.btree.Contents())
    ensures it.btree.Contents() == old(it.btree.Contents()) - {key}
    ensures SameForm(old(it.btree.tree), it.btree.tree) && it.btree.pool.nodes == old(it.btree.pool.nodes)
    ensures OnlyRemoved(old(it.Places()), it.Places())
  {
    hide BTree.Valid, Iterator.Ready, Iterator.On, Iterator.Pos, Phys, BTree.Contents, BTree.Readable, SameForm,
      Runs.IsRemove, BTree.Snapshot, Kill;
    it.Apart();
    FormSelf(it.btree.tree);
    r := LocateKey(it, key);
    it.Apart();
    if r == 1 {
      it.CurBlock();
      KillRemoves(it.Places(), it.Pos());
      it.Remove();
    }
  }
}
