/** Scans with first and next, and back with prev, over a physical sequence. */
module Scans {
  import opened Slots
  import opened Trees
  import opened BTrees
  import opened Forms
  import opened Iterators

  /** From a live entry, next and then prev come back to it. */
  lemma NextThenPrev<K>(s: seq<Slot<K>>, i: nat, q: int, q': int)
    requires i < |s| && s[i].live && FirstLive(s, i + 1, q)
    ensures LastLive(s, q, q') <==> q' == i
  {
    if q' == i {
      assert forall j :: i < j < q ==> !s[j].live;
    }
  }

  lemma PrevThenNext<K>(s: seq<Slot<K>>, i: nat, q: int, q': int)
    requires i < |s| && s[i].live && LastLive(s, i, q)
    ensures FirstLive(s, q + 1, q') <==> q' == i
  {
    if q' == i {
      assert forall j :: q + 1 <= j < i ==> !s[j].live;
    }
  }

  /** A scan: `ss[i]` are the entries when the scan reaches place `qs[i]`, by first and then by
      next, and the last of `ss` those when next finds no more.  Between these moments any
      entries may be removed, the current one included. */
  ghost predicate IsScan<K>(ss: seq<seq<Slot<K>>>, qs: seq<int>) {
    IsScanSoFar(ss, qs) && NoneLive(ss[|qs|], After(qs, |qs|), |ss[|qs|]|)
  }

  ghost predicate IsScanSoFar<K>(ss: seq<seq<Slot<K>>>, qs: seq<int>) {
    && |ss| == |qs| + 1
    && (forall i :: 0 <= i < |qs| ==> OnlyRemoved(ss[i], ss[i + 1]))
    && (forall i :: 0 <= i < |qs| ==> FirstLive(ss[i], After(qs, i), qs[i]))
  }

  function After(qs: seq<int>, i: nat): int
    requires i <= |qs|
  {
    if i == 0 then 0 else qs[i - 1] + 1
  }

  lemma {:induction false} RemovedBetween<K>(ss: seq<seq<Slot<K>>>, qs: seq<int>, i: nat, j: nat)
    requires IsScan(ss, qs) && i <= j <= |qs|
    ensures OnlyRemoved(ss[i], ss[j])
    decreases j - i
  {
    if i < j {
      assert OnlyRemoved(ss[i], ss[i + 1]);
      RemovedBetween(ss, qs, i + 1, j);
    }
  }

  lemma ScanPlace<K>(ss: seq<seq<Slot<K>>>, qs: seq<int>, i: nat)
    requires IsScan(ss, qs) && i < |qs|
    ensures FirstLive(ss[i], After(qs, i), qs[i])
  {
  }

  /** The places of a scan increase. */
  lemma {:induction false} ScanIncreases<K>(ss: seq<seq<Slot<K>>>, qs: seq<int>, i: nat, j: nat)
    requires IsScan(ss, qs) && i < j < |qs|
    ensures 0 <= qs[i] < qs[j] < |ss[j]|
    decreases j - i
  {
    hide IsScan;
    ScanPlace(ss, qs, i);
    ScanPlace(ss, qs, j);
    if i + 1 < j {
      ScanIncreases(ss, qs, i, j - 1);
    }
  }

  /** An entry that is live to the end of the scan is one of its places. */
  lemma {:induction false} ScanComplete<K>(ss: seq<seq<Slot<K>>>, qs: seq<int>, x: nat)
    requires IsScan(ss, qs) && x < |ss[|qs|]| && ss[|qs|][x].live
    ensures x in qs
  {
    if x !in qs {
      NotPassed(ss, qs, x, |qs|);
    }
  }

  lemma {:induction false} NotPassed<K>(ss: seq<seq<Slot<K>>>, qs: seq<int>, x: nat, i: nat)
    requires IsScan(ss, qs) && i <= |qs| && x < |ss[|qs|]| && ss[|qs|][x].live && x !in qs
    ensures After(qs, i) <= x
    decreases i
  {
    hide IsScan;
    if i > 0 {
      NotPassed(ss, qs, x, i - 1);
      RemovedBetween(ss, qs, i - 1, |qs|);
      ScanPlace(ss, qs, i - 1);
    }
  }

  /** A scan interleaved with any removals: its keys are strictly increasing, each is live when
      it is reached, and every key that stays live throughout is reached. */
  lemma {:induction false} ScanExact<K(!new)>(cmp: (K, K) -> int, ss: seq<seq<Slot<K>>>, qs: seq<int>)
    requires IsScan(ss, qs) && Sorted(cmp, ss[0])
    ensures forall i :: 0 <= i < |qs| ==> 0 <= qs[i] < |ss[i]| && ss[i][qs[i]].live
    ensures forall i, j :: 0 <= i < j < |qs| ==>
      0 <= qs[i] < |ss[0]| && 0 <= qs[j] < |ss[0]| && cmp(ss[0][qs[i]].key, ss[0][qs[j]].key) < 0
    ensures forall x :: 0 <= x < |ss[|qs|]| && ss[|qs|][x].live ==> x in qs
  {
    forall i | 0 <= i < |qs| ensures 0 <= qs[i] < |ss[i]| && ss[i][qs[i]].live {
      assert FirstLive(ss[i], After(qs, i), qs[i]);
    }
    forall i, j | 0 <= i < j < |qs|
      ensures 0 <= qs[i] < |ss[0]| && 0 <= qs[j] < |ss[0]| && cmp(ss[0][qs[i]].key, ss[0][qs[j]].key) < 0
    {
      ScanIncreases(ss, qs, i, j);
      RemovedBetween(ss, qs, 0, j);
    }
    forall x | 0 <= x < |ss[|qs|]| && ss[|qs|][x].live ensures x in qs {
      ScanComplete(ss, qs, x);
    }
  }

  // Without removals in between

  /** The live entries in order. */
  function LiveSlots<K>(s: seq<Slot<K>>): seq<Slot<K>> {
    if s == [] then [] else (if s[0].live then [s[0]] else []) + LiveSlots(s[1..])
  }

  ghost predicate AllPlaces<K>(s: seq<Slot<K>>, qs: seq<int>) {
    forall i :: 0 <= i < |qs| ==> 0 <= qs[i] < |s|
  }

  /** The entries at the places reached. */
  function Reached<K>(s: seq<Slot<K>>, qs: seq<int>): (r: seq<Slot<K>>)
    requires forall i :: 0 <= i < |qs| ==> 0 <= qs[i] < |s|
    ensures |r| == |qs| && forall i :: 0 <= i < |qs| ==> r[i] == s[qs[i]]
  {
    seq(|qs|, i requires 0 <= i < |qs| => s[qs[i]])
  }

  /** A scan by first and next that has come to place `qs[i]` after `i` steps. */
  ghost predicate IsPlainScan<K>(s: seq<Slot<K>>, qs: seq<int>) {
    forall i :: 0 <= i < |qs| ==> FirstLive(s, After(qs, i), qs[i])
  }

  lemma {:induction false} LiveConcat<K>(a: seq<Slot<K>>, b: seq<Slot<K>>)
    ensures LiveSlots(a + b) == LiveSlots(a) + LiveSlots(b)
  {
    if a == [] {
      assert a + b == b;
    } else {
      assert (a + b)[0] == a[0] && (a + b)[1..] == a[1..] + b;
      LiveConcat(a[1..], b);
    }
  }

  lemma {:induction false} NoLive<K>(s: seq<Slot<K>>)
    requires forall i :: 0 <= i < |s| ==> !s[i].live
    ensures LiveSlots(s) == []
  {
    if s != [] {
      NoLive(s[1..]);
    }
  }

  /** A scan has reached exactly the live entries up to its last place, in order, each once. */
  lemma {:induction false} PlainPrefix<K>(s: seq<Slot<K>>, qs: seq<int>, n: nat)
    requires IsPlainScan(s, qs) && n <= |qs|
    ensures AllPlaces(s, qs) && After(qs, n) <= |s|
    ensures Reached(s, qs[..n]) == LiveSlots(s[..After(qs, n)])
  {
    hide LiveSlots, IsPlainScan, FirstLive;
    PlainPlaces(s, qs);
    if n == 0 {
      NoLive(s[..0]);
    } else {
      PlainPrefix(s, qs, n - 1);
      PlainStep(s, qs, n - 1);
      NextPart(s, After(qs, n - 1), qs[n - 1]);
      ReachedMore(s, qs, n - 1);
    }
  }

  lemma PlainPlaces<K>(s: seq<Slot<K>>, qs: seq<int>)
    requires IsPlainScan(s, qs)
    ensures AllPlaces(s, qs)
  {
    forall i | 0 <= i < |qs| ensures 0 <= qs[i] < |s| {
      assert FirstLive(s, After(qs, i), qs[i]);
    }
  }

  lemma PlainStep<K>(s: seq<Slot<K>>, qs: seq<int>, i: nat)
    requires IsPlainScan(s, qs) && i < |qs|
    ensures FirstLive(s, After(qs, i), qs[i])
  {
  }

  lemma ReachedMore<K>(s: seq<Slot<K>>, qs: seq<int>, n: nat)
    requires AllPlaces(s, qs) && n < |qs|
    ensures AllPlaces(s, qs[..n]) && AllPlaces(s, qs[..n + 1])
    ensures Reached(s, qs[..n + 1]) == Reached(s, qs[..n]) + [s[qs[n]]]
  {
  }

  lemma NextPart<K>(s: seq<Slot<K>>, from: nat, q: nat)
    requires FirstLive(s, from, q)
    ensures LiveSlots(s[..q + 1]) == LiveSlots(s[..from]) + [s[q]]
  {
    var z := s[from..q];
    assert s[..q + 1] == s[..from] + (z + [s[q]]);
    LiveConcat(s[..from], z + [s[q]]);
    LiveConcat(z, [s[q]]);
    NoLive(z);
    assert [s[q]][1..] == [];
  }

  /** first and then next until the end reach exactly the live entries, in order, each once. */
  lemma {:induction false} PlainScanExact<K>(s: seq<Slot<K>>, qs: seq<int>)
    requires IsPlainScan(s, qs) && NoneLive(s, After(qs, |qs|), |s|)
    ensures AllPlaces(s, qs) && Reached(s, qs) == LiveSlots(s)
  {
    hide LiveSlots, IsPlainScan;
    PlainPrefix(s, qs, |qs|);
    assert qs[..|qs|] == qs;
    LivePrefix(s, After(qs, |qs|));
  }

  lemma LivePrefix<K>(s: seq<Slot<K>>, n: nat)
    requires n <= |s| && NoneLive(s, n, |s|)
    ensures LiveSlots(s) == LiveSlots(s[..n])
  {
    hide LiveSlots;
    LiveConcat(s[..n], s[n..]);
    NoLive(s[n..]);
    assert s == s[..n] + s[n..];
  }

  // Backwards

  function Before(n: nat, qs: seq<int>, i: nat): int
    requires i <= |qs|
  {
    if i == 0 then n else qs[i - 1]
  }

  ghost predicate IsBackScan<K>(s: seq<Slot<K>>, qs: seq<int>) {
    forall i :: 0 <= i < |qs| ==> LastLive(s, Before(|s|, qs, i), qs[i])
  }

  function Reversed<T>(s: seq<T>): seq<T> {
    if s == [] then [] else Reversed(s[1..]) + [s[0]]
  }

  lemma {:induction false} BackPrefix<K>(s: seq<Slot<K>>, qs: seq<int>, n: nat)
    requires IsBackScan(s, qs) && n <= |qs|
    ensures AllPlaces(s, qs) && 0 <= Before(|s|, qs, n) <= |s|
    ensures Reached(s, qs[..n]) == Reversed(LiveSlots(s[Before(|s|, qs, n)..]))
  {
    hide LiveSlots, IsBackScan, LastLive, Reversed;
    BackPlaces(s, qs);
    if n == 0 {
      NoLive(s[|s|..]);
      NoneReversed<Slot<K>>();
    } else {
      BackPrefix(s, qs, n - 1);
      BackStep(s, qs, n - 1);
      PrevPart(s, Before(|s|, qs, n - 1), qs[n - 1]);
      ReversedMore(s[qs[n - 1]], LiveSlots(s[Before(|s|, qs, n - 1)..]));
      ReachedMore(s, qs, n - 1);
    }
  }

  lemma BackPlaces<K>(s: seq<Slot<K>>, qs: seq<int>)
    requires IsBackScan(s, qs)
    ensures AllPlaces(s, qs)
  {
    forall i | 0 <= i < |qs| ensures 0 <= qs[i] < |s| {
      assert LastLive(s, Before(|s|, qs, i), qs[i]);
    }
  }

  lemma BackStep<K>(s: seq<Slot<K>>, qs: seq<int>, i: nat)
    requires IsBackScan(s, qs) && i < |qs|
    ensures LastLive(s, Before(|s|, qs, i), qs[i])
  {
  }

  lemma NoneReversed<T>()
    ensures Reversed<T>([]) == []
  {
  }

  lemma ReversedMore<T>(x: T, s: seq<T>)
    ensures Reversed([x] + s) == Reversed(s) + [x]
  {
    assert ([x] + s)[1..] == s;
  }

  lemma PrevPart<K>(s: seq<Slot<K>>, to: nat, q: nat)
    requires to <= |s| && LastLive(s, to, q)
    ensures LiveSlots(s[q..]) == [s[q]] + LiveSlots(s[to..])
  {
    var z := s[q + 1..to];
    assert s[q..] == [s[q]] + (z + s[to..]);
    LiveConcat([s[q]], z + s[to..]);
    LiveConcat(z, s[to..]);
    NoLive(z);
    assert [s[q]][1..] == [];
  }

  /** last and then prev until the start reach the live entries in reverse order. */
  lemma {:induction false} BackScanExact<K>(s: seq<Slot<K>>, qs: seq<int>)
    requires IsBackScan(s, qs) && NoneLive(s, 0, Before(|s|, qs, |qs|))
    ensures AllPlaces(s, qs) && Reached(s, qs) == Reversed(LiveSlots(s))
  {
    hide LiveSlots, Reversed, IsBackScan;
    BackPrefix(s, qs, |qs|);
    assert qs[..|qs|] == qs;
    LiveSuffix(s, Before(|s|, qs, |qs|));
  }

  lemma LiveSuffix<K>(s: seq<Slot<K>>, n: nat)
    requires n <= |s| && NoneLive(s, 0, n)
    ensures LiveSlots(s) == LiveSlots(s[n..])
  {
    hide LiveSlots;
    LiveConcat(s[..n], s[n..]);
    NoLive(s[..n]);
    assert s == s[..n] + s[n..];
  }

  // The loops themselves, over a tree

  ghost predicate KeysAre<K>(keys: seq<K>, s: seq<Slot<K>>) {
    |keys| == |s| && forall i :: 0 <= i < |s| ==> keys[i] == s[i].key
  }

  /** The scan has come to the places `qs`, and found these keys there. */
  ghost predicate Walked<K>(s: seq<Slot<K>>, qs: seq<int>, keys: seq<K>) {
    && IsPlainScan(s, qs) && |keys| == |qs|
    && forall i :: 0 <= i < |qs| ==> 0 <= qs[i] < |s| && keys[i] == s[qs[i]].key
  }

  lemma PlainOn<K>(s: seq<Slot<K>>, qs: seq<int>, q: int)
    requires IsPlainScan(s, qs) && FirstLive(s, After(qs, |qs|), q)
    ensures IsPlainScan(s, qs + [q]) && After(qs + [q], |qs| + 1) == q + 1
  {
    hide FirstLive;
    forall i | 0 <= i < |qs| + 1 ensures FirstLive(s, After(qs + [q], i), (qs + [q])[i]) {
      if i < |qs| {
        PlainStep(s, qs, i);
        assert After(qs + [q], i) == After(qs, i);
      }
    }
  }

  lemma WalkedOn<K>(s: seq<Slot<K>>, qs: seq<int>, keys: seq<K>, q: int)
    requires Walked(s, qs, keys) && FirstLive(s, After(qs, |qs|), q)
    ensures 0 <= q < |s| && Walked(s, qs + [q], keys + [s[q].key]) && After(qs + [q], |qs| + 1) == q + 1
  {
    hide IsPlainScan, After;
    PlainOn(s, qs, q);
  }

  lemma WalkedAll<K>(s: seq<Slot<K>>, qs: seq<int>, keys: seq<K>)
    requires Walked(s, qs, keys) && NoneLive(s, After(qs, |qs|), |s|)
    ensures KeysAre(keys, LiveSlots(s))
  {
    hide LiveSlots, IsPlainScan, NoneLive;
    PlainScanExact(s, qs);
  }

  lemma NotWalked<K>(s: seq<Slot<K>>)
    ensures Walked(s, [], []) && After([], 0) == 0
  {
  }

  lemma {:induction false} LiveSlotsAll<K>(s: seq<Slot<K>>)
    ensures forall x :: x in LiveSlots(s) <==> x in s && x.live
  {
    if s != [] {
      LiveSlotsAll(s[1..]);
    }
  }

  lemma {:induction false} LiveSlotsSorted<K(!new)>(cmp: (K, K) -> int, s: seq<Slot<K>>)
    requires Sorted(cmp, s)
    ensures Sorted(cmp, LiveSlots(s))
  {
    if s != [] {
      LiveSlotsSorted(cmp, s[1..]);
      LiveSlotsAll(s[1..]);
      forall x | x in LiveSlots(s[1..]) ensures cmp(s[0].key, x.key) < 0 {
        var j :| 0 <= j < |s[1..]| && s[1..][j] == x;
        assert s[j + 1] == x;
      }
    }
  }

  ghost predicate Ascending<K>(cmp: (K, K) -> int, keys: seq<K>) {
    forall i, j :: 0 <= i < j < |keys| ==> cmp(keys[i], keys[j]) < 0
  }

  lemma AscendingMore<K(!new)>(cmp: (K, K) -> int, keys: seq<K>, key: K)
    requires TotalOrder(cmp) && Ascending(cmp, keys) && (keys != [] ==> cmp(keys[|keys| - 1], key) < 0)
    ensures Ascending(cmp, keys + [key]) && key !in keys
  {
    forall i | 0 <= i < |keys| ensures cmp(keys[i], key) < 0 {
      if i < |keys| - 1 {
        assert cmp(keys[i], keys[|keys| - 1]) < 0;
      }
    }
  }

  lemma KeysOfLive<K(!new)>(cmp: (K, K) -> int, s: seq<Slot<K>>, keys: seq<K>)
    requires Sorted(cmp, s) && KeysAre(keys, LiveSlots(s))
    ensures Ascending(cmp, keys) && forall k :: k in keys <==> k in LiveKeys(s)
  {
    hide LiveSlots, LiveKeys;
    LiveSlotsSorted(cmp, s);
    forall k ensures k in keys <==> k in LiveKeys(s) {
      KeyOfLive(s, keys, k);
    }
  }

  lemma KeyOfLive<K(!new)>(s: seq<Slot<K>>, keys: seq<K>, k: K)
    requires KeysAre(keys, LiveSlots(s))
    ensures k in keys <==> k in LiveKeys(s)
  {
    hide LiveSlots;
    LiveSlotsAll(s);
    if k in keys {
      var i :| 0 <= i < |keys| && keys[i] == k;
      assert LiveSlots(s)[i] in LiveSlots(s);
    }
    if k in LiveKeys(s) {
      var j :| 0 <= j < |s| && s[j].live && s[j].key == k;
      assert s[j] in LiveSlots(s);
      var i :| 0 <= i < |LiveSlots(s)| && LiveSlots(s)[i] == s[j];
      assert keys[i] == k;
    }
  }

  /** The keys of the live entries in order are the live keys, strictly increasing. */
  lemma LiveKeysInOrder<K(0, !new)>(b: BTree<K>, keys: seq<K>)
    requires b.Valid() && KeysAre(keys, LiveSlots(Phys(b.tree)))
    ensures b.Readable() && Ascending(b.cmp, keys) && forall k :: k in keys <==> k in b.Contents()
  {
    hide BTree.Valid, BTree.Contents, LiveSlots, LiveKeys, Phys, TotalOrder, Sorted, KeysAre, Ascending;
    b.ValidReadable();
    KeysOfLive(b.cmp, Phys(b.tree), keys);
    b.ContentsKeys();
  }

  /** first, and next until the end: the live keys in order. */
  method ScanForward<K(==, 0, !new)>(it: Iterator<K>) returns (keys: seq<K>)
    requires it.Ready()
    modifies it, it.btree.pool`marked
    ensures it.btree == old(it.btree) && it.Ready() && it.Places() == old(it.Places())
    ensures KeysAre(keys, LiveSlots(it.Places()))
    ensures it.btree.Readable() && Ascending(it.btree.cmp, keys) && forall k :: k in keys <==> k in it.btree.Contents()
  {
    hide BTree.Valid, Iterator.Ready, Iterator.On, Iterator.Pos, Iterator.Places, LiveSlots, FirstLive, NoneLive,
      Walked, After, KeysAre, BTree.Readable, BTree.Contents, Phys, Ascending;
    keys := [];
    ghost var s, qs := it.Places(), [];
    it.Apart();
    NotWalked(s);
    var r := it.First();
    while r == 1
      invariant it.btree == old(it.btree) && it.Ready() && it.Places() == s && (r == 0 || r == 1)
      invariant Walked(s, qs, keys)
      invariant if r == 1 then it.On() && FirstLive(s, After(qs, |qs|), it.Pos()) else NoneLive(s, After(qs, |qs|), |s|)
      decreases if r == 1 then |s| - it.Pos() else -1
    {
      it.Apart();
      WalkedOn(s, qs, keys, it.Pos());
      var key := it.GetKey();
      keys, qs := keys + [key], qs + [it.Pos()];
      ghost var q := it.Pos();
      r := it.Next();
      if r == 1 {
        FirstLiveAfter(s, q + 1, it.Pos());
      }
    }
    WalkedAll(s, qs, keys);
    it.Apart();
    PlacesOf(it);
    LiveKeysInOrder(it.btree, keys);
  }

  lemma PlacesOf<K(0, !new)>(it: Iterator<K>)
    ensures it.Places() == Phys(it.btree.tree)
  {
  }

  lemma FirstLiveAfter<K>(s: seq<Slot<K>>, from: int, q: int)
    requires FirstLive(s, from, q)
    ensures from <= q < |s|
  {
  }

  /** The scan back has come to the places `qs`, and found these keys there. */
  ghost predicate WalkedBack<K>(s: seq<Slot<K>>, qs: seq<int>, keys: seq<K>) {
    && IsBackScan(s, qs) && |keys| == |qs|
    && forall i :: 0 <= i < |qs| ==> 0 <= qs[i] < |s| && keys[i] == s[qs[i]].key
  }

  lemma BackOn<K>(s: seq<Slot<K>>, qs: seq<int>, q: int)
    requires IsBackScan(s, qs) && LastLive(s, Before(|s|, qs, |qs|), q)
    ensures IsBackScan(s, qs + [q]) && Before(|s|, qs + [q], |qs| + 1) == q
  {
    hide LastLive;
    forall i | 0 <= i < |qs| + 1 ensures LastLive(s, Before(|s|, qs + [q], i), (qs + [q])[i]) {
      if i < |qs| {
        BackStep(s, qs, i);
        assert Before(|s|, qs + [q], i) == Before(|s|, qs, i);
      }
    }
  }

  lemma WalkedBackOn<K>(s: seq<Slot<K>>, qs: seq<int>, keys: seq<K>, q: int)
    requires WalkedBack(s, qs, keys) && LastLive(s, Before(|s|, qs, |qs|), q)
    ensures 0 <= q < |s| && WalkedBack(s, qs + [q], keys + [s[q].key]) && Before(|s|, qs + [q], |qs| + 1) == q
  {
    hide IsBackScan, Before;
    BackOn(s, qs, q);
  }

  lemma WalkedBackAll<K>(s: seq<Slot<K>>, qs: seq<int>, keys: seq<K>)
    requires WalkedBack(s, qs, keys) && NoneLive(s, 0, Before(|s|, qs, |qs|))
    ensures KeysAre(keys, Reversed(LiveSlots(s)))
  {
    hide LiveSlots, IsBackScan, NoneLive, Reversed;
    BackScanExact(s, qs);
  }

  lemma NotWalkedBack<K>(s: seq<Slot<K>>)
    ensures WalkedBack(s, [], []) && Before(|s|, [], 0) == |s|
  {
  }

  /** last, and prev until the start: the live keys in reverse order. */
  method ScanBackward<K(==, 0, !new)>(it: Iterator<K>) returns (keys: seq<K>)
    requires it.Ready()
    modifies it, it.btree.pool`marked
    ensures it.btree == old(it.btree) && it.Ready() && it.Places() == old(it.Places())
    ensures KeysAre(keys, Reversed(LiveSlots(it.Places())))
  {
    hide BTree.Valid, Iterator.Ready, Iterator.On, Iterator.Pos, Iterator.Places, LiveSlots, LastLive, NoneLive,
      WalkedBack, Before, KeysAre, Reversed;
    keys := [];
    ghost var s, qs := it.Places(), [];
    it.Apart();
    NotWalkedBack(s);
    var r := it.Last();
    while r == 1
      invariant it.btree == old(it.btree) && it.Ready() && it.Places() == s && (r == 0 || r == 1)
      invariant WalkedBack(s, qs, keys)
      invariant if r == 1 then it.On() && LastLive(s, Before(|s|, qs, |qs|), it.Pos())
                else NoneLive(s, 0, Before(|s|, qs, |qs|))
      decreases if r == 1 then it.Pos() else -1
    {
      it.Apart();
      WalkedBackOn(s, qs, keys, it.Pos());
      var key := it.GetKey();
      keys, qs := keys + [key], qs + [it.Pos()];
      ghost var q := it.Pos();
      r := it.Prev();
      if r == 1 {
        LastLiveBefore(s, q, it.Pos());
      }
    }
    WalkedBackAll(s, qs, keys);
  }

  lemma LastLiveBefore<K>(s: seq<Slot<K>>, to: int, q: int)
    requires LastLive(s, to, q)
    ensures 0 <= q < to
  {
  }

  /** From a live entry next, and then prev: back on that entry. */
  method ForthAndBack<K(==, 0, !new)>(it: Iterator<K>, ghost k: K) returns (forth: int, back: int)
    requires it.Ready() && it.OnKey(k)
    modifies it, it.btree.pool`marked
    ensures it.btree == old(it.btree) && it.Ready() && it.On() && (forth == 0 || forth == 1)
    ensures forth == 1 ==> back == 1 && it.Pos() == old(it.Pos()) && it.OnKey(k)
  {
    hide BTree.Valid, Iterator.Ready, Iterator.On, Iterator.Pos, Phys, FirstLive, LastLive, NoneLive;
    ghost var s, i := it.Places(), it.Pos();
    it.Apart();
    back := 0;
    forth := it.Next();
    if forth == 1 {
      it.Apart();
      ghost var q := it.Pos();
      NextThenPrev(s, i, q, i);
      back := it.Prev();
      NextThenPrev(s, i, q, it.Pos());
      SomeLive(s, q, i);
    }
  }

  /** The same the other way round. */
  method BackAndForth<K(==, 0, !new)>(it: Iterator<K>, ghost k: K) returns (back: int, forth: int)
    requires it.Ready() && it.OnKey(k)
    modifies it, it.btree.pool`marked
    ensures it.btree == old(it.btree) && it.Ready() && it.On() && (back == 0 || back == 1)
    ensures back == 1 ==> forth == 1 && it.Pos() == old(it.Pos()) && it.OnKey(k)
  {
    hide BTree.Valid, Iterator.Ready, Iterator.On, Iterator.Pos, Phys, FirstLive, LastLive, NoneLive;
    ghost var s, i := it.Places(), it.Pos();
    it.Apart();
    forth := 0;
    back := it.Prev();
    if back == 1 {
      it.Apart();
      ghost var q := it.Pos();
      PrevThenNext(s, i, q, i);
      forth := it.Next();
      PrevThenNext(s, i, q, it.Pos());
      SomeLiveAfter(s, q + 1, i);
    }
  }

  lemma SomeLive<K>(s: seq<Slot<K>>, to: int, q: int)
    requires LastLive(s, to, q)
    ensures !NoneLive(s, 0, to)
  {
  }

  lemma SomeLiveAfter<K>(s: seq<Slot<K>>, from: int, q: int)
    requires FirstLive(s, from, q)
    ensures !NoneLive(s, from, |s|)
  {
  }

  // A scan with removals through another iterator in between

  lemma ScanOn<K>(ss: seq<seq<Slot<K>>>, qs: seq<int>, q: int, s: seq<Slot<K>>)
    requires IsScanSoFar(ss, qs) && FirstLive(ss[|qs|], After(qs, |qs|), q) && OnlyRemoved(ss[|qs|], s)
    ensures IsScanSoFar(ss + [s], qs + [q]) && After(qs + [q], |qs| + 1) == q + 1
  {
    hide FirstLive, OnlyRemoved;
    forall i | 0 <= i < |qs| + 1
      ensures OnlyRemoved((ss + [s])[i], (ss + [s])[i + 1])
      ensures FirstLive((ss + [s])[i], After(qs + [q], i), (qs + [q])[i])
    {
      if i < |qs| {
        assert OnlyRemoved(ss[i], ss[i + 1]) && FirstLive(ss[i], After(qs, i), qs[i]);
        assert After(qs + [q], i) == After(qs, i);
      }
    }
  }

  ghost predicate KeysAt<K>(ss: seq<seq<Slot<K>>>, qs: seq<int>, keys: seq<K>) {
    && |keys| == |qs| <= |ss|
    && forall i :: 0 <= i < |qs| ==> 0 <= qs[i] < |ss[i]| && keys[i] == ss[i][qs[i]].key
  }

  /** The keys such a scan returns. */
  lemma ScanKeys<K(!new)>(cmp: (K, K) -> int, ss: seq<seq<Slot<K>>>, qs: seq<int>, keys: seq<K>)
    requires IsScan(ss, qs) && KeysAt(ss, qs, keys) && Sorted(cmp, ss[0])
    ensures Ascending(cmp, keys)
    ensures forall k :: k in LiveKeys(ss[|qs|]) ==> k in keys
  {
    hide FirstLive, NoneLive;
    ScanExact(cmp, ss, qs);
    forall i | 0 <= i < |qs| ensures qs[i] < |ss[0]| && keys[i] == ss[0][qs[i]].key {
      RemovedBetween(ss, qs, 0, i);
    }
    forall k | k in LiveKeys(ss[|qs|]) ensures k in keys {
      var x :| 0 <= x < |ss[|qs|]| && ss[|qs|][x].live && ss[|qs|][x].key == k;
      var i :| 0 <= i < |qs| && qs[i] == x;
      RemovedBetween(ss, qs, 0, |qs|);
      assert keys[i] == k;
    }
  }

  /** A key is removed through another iterator. */
  method RemoveOther<K(==, 0, !new)>(it: Iterator<K>, other: Iterator<K>, key: K)
    requires it != other && it.btree == other.btree && it.Ready() && other.Ready() && it.On()
    modifies other, it.btree`tree, it.btree.pool`img, it.btree.pool`marked, it.btree.pool.objs
    ensures it.btree == other.btree == old(it.btree) && it.Ready() && other.Ready() && it.On()
    ensures it.Pos() == old(it.Pos())
    ensures it.btree.pool.objs == old(it.btree.pool.objs)
    ensures OnlyRemoved(old(it.Places()), it.Places())
    ensures old(it.btree.Readable()) && it.btree.Readable() && it.btree.Contents() == old(it.btree.Contents()) - {key}
  {
    hide BTree.Valid, Iterator.Ready, Iterator.On, Iterator.Pos, Iterator.OnTree, Iterator.PosIn, Phys, BTree.Contents,
      BTree.Readable, SameForm, OnlyRemoved;
    ghost var t := it.btree.tree;
    it.Apart();
    other.Apart();
    it.OnParts();
    it.NotInTree();
    var r := RemoveKey(other, key);
    other.Apart();
    it.GetReady();
    it.StaysOn(t);
  }

  /** Keys are removed through another iterator. */
  method RemoveOthers<K(==, 0, !new)>(it: Iterator<K>, other: Iterator<K>, gone: seq<K>)
    requires it != other && it.btree == other.btree && it.Ready() && other.Ready() && it.On() && it.btree.Readable()
    modifies other, it.btree`tree, it.btree.pool`img, it.btree.pool`marked, it.btree.pool.objs
    ensures it.btree == other.btree == old(it.btree) && it.Ready() && other.Ready() && it.On()
    ensures it.Pos() == old(it.Pos())
    ensures it.btree.pool.objs == old(it.btree.pool.objs)
    ensures OnlyRemoved(old(it.Places()), it.Places())
    ensures it.btree.Readable() && it.btree.Contents() == old(it.btree.Contents()) - set k | k in gone
  {
    hide BTree.Valid, Iterator.Ready, Iterator.On, Iterator.Pos, Iterator.Places, Phys, BTree.Contents,
      BTree.Readable, OnlyRemoved;
    RemovedSame(it.Places());
    for i := 0 to |gone|
      invariant it.btree == other.btree == old(it.btree) && it.Ready() && other.Ready() && it.On()
      invariant it.Pos() == old(it.Pos())
      invariant it.btree.pool.objs == old(it.btree.pool.objs) && OnlyRemoved(old(it.Places()), it.Places())
      invariant it.btree.Readable() && it.btree.Contents() == old(it.btree.Contents()) - set k | k in gone[..i]
    {
      ghost var s := it.Places();
      RemoveOther(it, other, gone[i]);
      RemovedTrans(old(it.Places()), s, it.Places());
    }
    assert gone[..|gone|] == gone;
  }

  lemma RemovedSame<K>(s: seq<Slot<K>>)
    ensures OnlyRemoved(s, s)
  {
  }

  lemma RemovedTrans<K>(s: seq<Slot<K>>, s1: seq<Slot<K>>, s2: seq<Slot<K>>)
    requires OnlyRemoved(s, s1) && OnlyRemoved(s1, s2)
    ensures OnlyRemoved(s, s2)
  {
  }

  /** The keys that were removed before step `i` of the scan. */
  ghost predicate GoneBefore<K(!new)>(gone: seq<seq<K>>, i: nat, k: K) {
    exists j :: 0 <= j < i && j < |gone| && k in gone[j]
  }

  /** What is left: all but the keys removed before. */
  ghost predicate Remains<K(!new)>(gone: seq<seq<K>>, i: nat, m0: map<K, seq<Byte>>, m: map<K, seq<Byte>>) {
    m == map k | k in m0 && !GoneBefore(gone, i, k) :: m0[k]
  }

  lemma RemainsNext<K(!new)>(gone: seq<seq<K>>, i: nat, m0: map<K, seq<Byte>>, m: map<K, seq<Byte>>,
          m': map<K, seq<Byte>>)
    requires Remains(gone, i, m0, m) && m' == m - set k | k in StepOf(gone, i)
    ensures Remains(gone, i + 1, m0, m')
  {
    forall k ensures GoneBefore(gone, i + 1, k) <==> GoneBefore(gone, i, k) || k in StepOf(gone, i) {
    }
  }

  function StepOf<K>(gone: seq<seq<K>>, i: nat): seq<K> {
    if i < |gone| then gone[i] else []
  }

  /** None of the keys found had been removed when the scan came to it, and all had been live. */
  ghost predicate FoundLive<K(!new)>(gone: seq<seq<K>>, m0: map<K, seq<Byte>>, keys: seq<K>) {
    forall i :: 0 <= i < |keys| ==> keys[i] in m0 && !GoneBefore(gone, i, keys[i])
  }

  /** first and next to the end, while after step `i` the keys `gone[i]` are removed through
      another iterator, be they before the scan, under it, or still ahead: the keys returned are
      strictly increasing, none was removed before the scan came to it, and every key that is
      still live at the end is among them. */
  method ScanRemoving<K(==, 0, !new)>(it: Iterator<K>, other: Iterator<K>, gone: seq<seq<K>>) returns (keys: seq<K>)
    requires it != other && it.btree == other.btree && it.Ready() && other.Ready()
    modifies it, other, it.btree`tree, it.btree.pool`img, it.btree.pool`marked, it.btree.pool.objs
    ensures it.btree == other.btree == old(it.btree) && it.Ready() && other.Ready()
    ensures old(it.btree.Readable()) && it.btree.Readable()
    ensures Ascending(it.btree.cmp, keys) && FoundLive(gone, old(it.btree.Contents()), keys)
    ensures Remains(gone, |keys|, old(it.btree.Contents()), it.btree.Contents())
    ensures forall k :: k in it.btree.Contents() ==> k in keys
  {
    hide BTree.Valid, Iterator.Ready, Iterator.On, Iterator.Pos, Iterator.Places, Phys, BTree.Contents, BTree.Readable,
      IsScanSoFar, FirstLive, NoneLive, KeysAt, Remains, FoundLive, After, Ascending;
    it.Apart();
    it.btree.ValidReadable();
    ghost var m0 := it.btree.Contents();
    ScanStart(it.Places(), gone, m0);
    keys := [];
    ghost var ss, qs := [it.Places()], [];
    var r := Begin(it, other);
    while r == 1
      invariant it.btree == other.btree == old(it.btree) && it.Ready() && other.Ready()
      invariant it.btree.pool.objs == old(it.btree.pool.objs) && it.btree.Readable()
      invariant ScanState(it, gone, m0, ss, qs, keys) && Reaches(it, ss, qs, r)
      invariant r == 1 ==> it.Pos() < |it.Places()|
      decreases if r == 1 then |it.Places()| - it.Pos() else -1
    {
      var key: K;
      ghost var q: int;
      r, key, q := ScanStep(it, other, gone, m0, ss, qs, keys);
      keys, qs, ss := keys + [key], qs + [q], ss + [it.Places()];
    }
    PlacesOf(it);
    EndScan(it.btree, ss, qs, keys);
  }

  ghost predicate ScanState<K(!new, 0)>(it: Iterator<K>, gone: seq<seq<K>>, m0: map<K, seq<Byte>>,
          ss: seq<seq<Slot<K>>>, qs: seq<int>, keys: seq<K>)
    reads it, it.btree`tree, it.btree.data`stored
  {
    && IsScanSoFar(ss, qs) && |ss| == |qs| + 1 && |keys| == |qs| && ss[|qs|] == it.Places() && KeysAt(ss, qs, keys)
    && it.btree.Readable() && Remains(gone, |keys|, m0, it.btree.Contents()) && FoundLive(gone, m0, keys)
  }

  /** What first or next found. */
  ghost predicate Reaches<K(!new, 0)>(it: Iterator<K>, ss: seq<seq<Slot<K>>>, qs: seq<int>, r: int)
    requires |ss| == |qs| + 1
    reads it, it.btree`tree, it.btree.pool`nodes
  {
    if r == 1 then it.On() && FirstLive(ss[|qs|], After(qs, |qs|), it.Pos())
      else NoneLive(ss[|qs|], After(qs, |qs|), |ss[|qs|]|)
  }

  method Begin<K(==, 0, !new)>(it: Iterator<K>, other: Iterator<K>) returns (r: int)
    requires it != other && it.btree == other.btree && it.Ready() && other.Ready()
    modifies it, it.btree.pool`marked
    ensures it.btree == old(it.btree) && it.Ready() && other.Ready()
    ensures if r == 1 then it.On() && FirstLive(it.Places(), 0, it.Pos()) else NoneLive(it.Places(), 0, |it.Places()|)
    ensures r == 1 ==> it.Pos() < |it.Places()|
  {
    hide BTree.Valid, Iterator.Ready, Iterator.On, Iterator.Pos, Phys, FirstLive, NoneLive;
    it.Apart();
    other.NotInTree();
    r := it.First();
    it.Apart();
    other.GetReady();
    if r == 1 {
      FirstLiveAfter(it.Places(), 0, it.Pos());
    }
  }

  /** One turn: the key is read, others are removed, and the scan goes on. */
  method ScanStep<K(==, 0, !new)>(it: Iterator<K>, other: Iterator<K>, gone: seq<seq<K>>, ghost m0: map<K, seq<Byte>>,
          ghost ss: seq<seq<Slot<K>>>, ghost qs: seq<int>, keys: seq<K>) returns (r: int, key: K, ghost q: int)
    requires it != other && it.btree == other.btree && it.Ready() && other.Ready()
    requires ScanState(it, gone, m0, ss, qs, keys) && Reaches(it, ss, qs, 1)
    modifies it, other, it.btree`tree, it.btree.pool`img, it.btree.pool`marked, it.btree.pool.objs
    ensures it.btree == other.btree == old(it.btree) && it.Ready() && other.Ready()
    ensures it.btree.pool.objs == old(it.btree.pool.objs)
    ensures ScanState(it, gone, m0, ss + [it.Places()], qs + [q], keys + [key])
    ensures Reaches(it, ss + [it.Places()], qs + [q], r) && |it.Places()| == |old(it.Places())|
    ensures r == 1 ==> old(it.Pos()) < it.Pos() < |it.Places()|
  {
    hide BTree.Valid, Iterator.Ready, Iterator.On, Iterator.Pos, Iterator.Places, Phys, BTree.Contents, BTree.Readable,
      OnlyRemoved, IsScanSoFar, FirstLive, NoneLive, KeysAt, Remains, FoundLive, After;
    ghost var s, m := it.Places(), it.btree.Contents();
    q := it.Pos();
    key := it.GetKey();
    HereLive(it, After(qs, |qs|));
    FoundMore(gone, m0, m, keys, key);
    RemoveOthers(it, other, StepOf(gone, |keys|));
    RemainsNext(gone, |keys|, m0, m, it.btree.Contents());
    ScanOn(ss, qs, q, it.Places());
    KeysAtMore(ss, qs, keys, q, it.Places());
    SameLength(s, it.Places());
    r := Advance(it, other);
    if r == 1 {
      FirstLiveAfter(it.Places(), q + 1, it.Pos());
    }
  }

  method Advance<K(==, 0, !new)>(it: Iterator<K>, other: Iterator<K>) returns (r: int)
    requires it != other && it.btree == other.btree && it.Ready() && other.Ready() && it.On()
    modifies it, it.btree.pool`marked
    ensures it.btree == old(it.btree) && it.Ready() && other.Ready() && it.On()
    ensures if r == 1 then FirstLive(it.Places(), old(it.Pos()) + 1, it.Pos())
            else NoneLive(it.Places(), old(it.Pos()) + 1, |it.Places()|)
  {
    hide BTree.Valid, Iterator.Ready, Iterator.On, Iterator.Pos, Phys, FirstLive, NoneLive;
    it.Apart();
    other.NotInTree();
    r := it.Next();
    it.Apart();
    other.GetReady();
  }

  lemma ScanStart<K(!new)>(s: seq<Slot<K>>, gone: seq<seq<K>>, m0: map<K, seq<Byte>>)
    ensures IsScanSoFar([s], []) && KeysAt<K>([s], [], []) && After([], 0) == 0
    ensures Remains(gone, 0, m0, m0) && FoundLive(gone, m0, [])
  {
  }

  lemma HereLive<K(0, !new)>(it: Iterator<K>, from: int)
    requires it.Ready() && it.On() && FirstLive(it.Places(), from, it.Pos()) && it.btree.Readable()
    ensures it.Places()[it.Pos()].key in it.btree.Contents()
  {
    hide BTree.Valid, BTree.Contents, Phys, Iterator.On, Iterator.Pos;
    it.btree.EntryInContents(it.Pos());
  }

  lemma FoundMore<K(!new)>(gone: seq<seq<K>>, m0: map<K, seq<Byte>>, m: map<K, seq<Byte>>, keys: seq<K>, key: K)
    requires FoundLive(gone, m0, keys) && Remains(gone, |keys|, m0, m) && key in m
    ensures FoundLive(gone, m0, keys + [key])
  {
    hide GoneBefore;
  }

  lemma KeysAtMore<K>(ss: seq<seq<Slot<K>>>, qs: seq<int>, keys: seq<K>, q: int, s: seq<Slot<K>>)
    requires |ss| == |qs| + 1 && KeysAt(ss, qs, keys) && 0 <= q < |ss[|qs|]|
    ensures KeysAt(ss + [s], qs + [q], keys + [ss[|qs|][q].key])
  {
  }

  lemma SameLength<K>(s: seq<Slot<K>>, s': seq<Slot<K>>)
    requires OnlyRemoved(s, s')
    ensures |s| == |s'|
  {
  }

  lemma EndScan<K(0, !new)>(b: BTree<K>, ss: seq<seq<Slot<K>>>, qs: seq<int>, keys: seq<K>)
    requires b.Readable() && IsScanSoFar(ss, qs) && |ss| == |qs| + 1 && ss[|qs|] == Phys(b.tree)
    requires NoneLive(ss[|qs|], After(qs, |qs|), |ss[|qs|]|) && KeysAt(ss, qs, keys)
    ensures Ascending(b.cmp, keys) && forall k :: k in b.Contents() ==> k in keys
  {
    hide BTree.Contents, Phys, IsScanSoFar, NoneLive, KeysAt, TotalOrder;
    assert IsScan(ss, qs);
    RemovedBetween(ss, qs, 0, |qs|);
    SortedBefore(b.cmp, ss[0], ss[|qs|]);
    ScanKeys(b.cmp, ss, qs, keys);
    b.ContentsKeys();
  }

  lemma SortedBefore<K>(cmp: (K, K) -> int, s: seq<Slot<K>>, s': seq<Slot<K>>)
    requires OnlyRemoved(s, s') && Sorted(cmp, s')
    ensures Sorted(cmp, s)
  {
  }
}
