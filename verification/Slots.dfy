/** The entries of a node block and the searches over them, as values.

    A node block of lib/btree.cpp is an array of (key, flag, value) entries in
    strictly increasing key order.  Everything a search does with a key goes
    through `cmp(stored, key)`, so a search is modelled by a probe: the function
    that compares a stored key with the key searched for. */
module Slots {
  type Byte = x: int | 0 <= x < 256

  /** Where a value of variable size is kept: a data block and a directory entry in it. */
  datatype Location = Location(index: nat, position: nat)

  /** The value bytes of an entry: the block index of a child in an interior
      node, and in a leaf the value itself or the location of the value. */
  datatype Payload = Child(index: nat) | Inline(bytes: seq<Byte>) | Stored(loc: Location)

  /** `live` is the flag byte; a removed entry stays in place with the flag cleared. */
  datatype Slot<K> = Slot(key: K, live: bool, payload: Payload)

  /** What the comparison callback of a tree has to be on the keys stored in it. */
  ghost predicate TotalOrder<K(!new)>(cmp: (K, K) -> int) {
    && (forall a, b :: cmp(a, b) == 0 <==> a == b)
    && (forall a, b :: cmp(a, b) < 0 <==> cmp(b, a) > 0)
    && (forall a, b, c :: cmp(a, b) < 0 && cmp(b, c) < 0 ==> cmp(a, c) < 0)
  }

  ghost predicate Sorted<K>(cmp: (K, K) -> int, s: seq<Slot<K>>) {
    forall i, j :: 0 <= i < j < |s| ==> cmp(s[i].key, s[j].key) < 0
  }

  /** Along `s` the probe is first negative, then zero at most once, then positive. */
  ghost predicate Monotone<K>(p: K -> int, s: seq<Slot<K>>) {
    forall i, j :: 0 <= i < j < |s| && p(s[i].key) >= 0 ==> p(s[j].key) > 0
  }

  /** The probe that compares stored keys with `key` itself. */
  function At<K>(cmp: (K, K) -> int, key: K): K -> int {
    (k: K) => cmp(k, key)
  }

  lemma AtIsMonotone<K(!new)>(cmp: (K, K) -> int, key: K, s: seq<Slot<K>>)
    requires TotalOrder(cmp) && Sorted(cmp, s)
    ensures Monotone(At(cmp, key), s)
  {
    forall i, j | 0 <= i < j < |s| && At(cmp, key)(s[i].key) >= 0
      ensures At(cmp, key)(s[j].key) > 0
    {
      assert cmp(s[i].key, s[j].key) < 0 && cmp(s[j].key, s[i].key) > 0;
      assert cmp(key, s[i].key) <= 0;
    }
  }

  /** The number of leading entries whose key is less than the one probed for. */
  function Lub<K>(s: seq<Slot<K>>, p: K -> int): (r: nat)
    ensures r <= |s|
    ensures forall i :: 0 <= i < r ==> p(s[i].key) < 0
    ensures r < |s| ==> p(s[r].key) >= 0
  {
    if s == [] || p(s[0].key) >= 0 then 0 else 1 + Lub(s[1..], p)
  }

  /** Any split point of that kind in monotone entries is the least upper bound. */
  lemma LubUnique<K>(s: seq<Slot<K>>, p: K -> int, r: nat)
    requires r <= |s|
    requires forall i :: 0 <= i < r ==> p(s[i].key) < 0
    requires r < |s| ==> p(s[r].key) >= 0
    ensures Lub(s, p) == r
  {
  }

  /** Whether the key probed for is among the entries, live or removed. */
  predicate Present<K>(s: seq<Slot<K>>, p: K -> int) {
    var i := Lub(s, p);
    i < |s| && p(s[i].key) == 0
  }

  predicate Live<K>(s: seq<Slot<K>>, p: K -> int) {
    Present(s, p) && s[Lub(s, p)].live
  }

  /** Entering `key`: a live entry stays, a removed one is revived with the new
      payload, and a key not present is inserted at its place. */
  function Enter<K>(s: seq<Slot<K>>, p: K -> int, key: K, w: Payload): seq<Slot<K>> {
    var i := Lub(s, p);
    if i < |s| && p(s[i].key) == 0 then
      if s[i].live then s else s[i := Slot(s[i].key, true, w)]
    else
      s[..i] + [Slot(key, true, w)] + s[i..]
  }

  lemma EnterPresent<K>(s: seq<Slot<K>>, p: K -> int, key: K, w: Payload, i: nat, r: seq<Slot<K>>)
    requires i == Lub(s, p) < |s| && p(s[i].key) == 0
    requires r == if s[i].live then s else s[i := Slot(s[i].key, true, w)]
    ensures Enter(s, p, key, w) == r
  {
    hide Lub;
  }

  lemma EnterAbsent<K>(s: seq<Slot<K>>, p: K -> int, key: K, w: Payload, i: nat, r: seq<Slot<K>>)
    requires i == Lub(s, p) && (i < |s| ==> p(s[i].key) != 0)
    requires r == s[..i] + [Slot(key, true, w)] + s[i..]
    ensures Enter(s, p, key, w) == r
  {
    hide Lub;
  }

  lemma SortedUpdate<K>(cmp: (K, K) -> int, s: seq<Slot<K>>, i: nat, x: Slot<K>)
    requires Sorted(cmp, s) && i < |s| && x.key == s[i].key
    ensures Sorted(cmp, s[i := x])
  {
  }

  lemma SortedInsert<K>(cmp: (K, K) -> int, s: seq<Slot<K>>, l: nat, x: Slot<K>)
    requires Sorted(cmp, s) && l <= |s|
    requires forall i :: 0 <= i < |s| ==> if i < l then cmp(s[i].key, x.key) < 0 else cmp(x.key, s[i].key) < 0
    ensures Sorted(cmp, s[..l] + [x] + s[l..])
  {
    var r := s[..l] + [x] + s[l..];
    forall i, j | 0 <= i < j < |r| ensures cmp(r[i].key, r[j].key) < 0 {
      assert r[i] == if i < l then s[i] else if i == l then x else s[i - 1];
      assert r[j] == if j < l then s[j] else if j == l then x else s[j - 1];
    }
  }

  /** The keys on both sides of a place a key is entered at. */
  lemma EnterSides<K(!new)>(cmp: (K, K) -> int, s: seq<Slot<K>>, key: K)
    requires TotalOrder(cmp) && Sorted(cmp, s)
    ensures var l := Lub(s, At(cmp, key));
      if l < |s| && cmp(s[l].key, key) == 0 then s[l].key == key
      else forall i :: 0 <= i < |s| ==> if i < l then cmp(s[i].key, key) < 0 else cmp(key, s[i].key) < 0
  {
    hide Lub;
    AtIsMonotone(cmp, key, s);
    var p := At(cmp, key);
    var l := Lub(s, p);
    if !(l < |s| && cmp(s[l].key, key) == 0) {
      forall i | 0 <= i < |s| ensures if i < l then cmp(s[i].key, key) < 0 else cmp(key, s[i].key) < 0 {
        if i < l {
          assert p(s[i].key) < 0;
        } else {
          assert p(s[l].key) > 0;
          assert p(s[i].key) > 0;
        }
      }
    }
  }

  /** Entering a key keeps the entries in strictly increasing order. */
  lemma {:induction false} EnterSorted<K(!new)>(cmp: (K, K) -> int, s: seq<Slot<K>>, key: K, w: Payload)
    requires TotalOrder(cmp) && Sorted(cmp, s)
    ensures Sorted(cmp, Enter(s, At(cmp, key), key, w))
  {
    hide Lub, Enter, Sorted, TotalOrder;
    EnterSides(cmp, s, key);
    var l := Lub(s, At(cmp, key));
    if l < |s| && cmp(s[l].key, key) == 0 {
      var x := Slot(s[l].key, true, w);
      EnterPresent(s, At(cmp, key), key, w, l, if s[l].live then s else s[l := x]);
      SortedUpdate(cmp, s, l, x);
    } else {
      var x := Slot(key, true, w);
      EnterAbsent(s, At(cmp, key), key, w, l, s[..l] + [x] + s[l..]);
      SortedInsert(cmp, s, l, x);
    }
  }

  lemma EnterMembers<K>(s: seq<Slot<K>>, p: K -> int, key: K, w: Payload)
    ensures forall x :: x in Enter(s, p, key, w) ==> x in s || x.payload == w
  {
  }

  // Entries as a map

  ghost function LiveKeys<K>(s: seq<Slot<K>>): set<K> {
    set x | x in s && x.live :: x.key
  }

  /** The live entries as a map from keys to payloads. */
  ghost function PayloadMap<K(!new)>(cmp: (K, K) -> int, s: seq<Slot<K>>): map<K, Payload>
    requires TotalOrder(cmp) && Sorted(cmp, s)
  {
    map k | k in LiveKeys(s) :: (LiveKeyFound(cmp, s, k); s[Lub(s, At(cmp, k))].payload)
  }

  /** In sorted entries a search for a key stops at its entry. */
  lemma {:induction false} FoundAt<K(!new)>(cmp: (K, K) -> int, s: seq<Slot<K>>, i: nat)
    requires TotalOrder(cmp) && Sorted(cmp, s) && i < |s|
    ensures Lub(s, At(cmp, s[i].key)) == i
  {
    hide Lub;
    LubUnique(s, At(cmp, s[i].key), i);
  }

  lemma LiveKeyFound<K(!new)>(cmp: (K, K) -> int, s: seq<Slot<K>>, k: K)
    requires TotalOrder(cmp) && Sorted(cmp, s)
    ensures k in LiveKeys(s) <==> Live(s, At(cmp, k))
  {
    hide Lub;
    if k in LiveKeys(s) {
      var i :| 0 <= i < |s| && s[i].live && s[i].key == k;
      FoundAt(cmp, s, i);
    }
    if Live(s, At(cmp, k)) {
      assert s[Lub(s, At(cmp, k))] in s;
    }
  }

  ghost predicate Maps<K>(m: map<K, Payload>, k: K, w: Payload) {
    k in m && m[k] == w
  }

  /** A key is mapped to `w` exactly when there is a live entry of that key and payload. */
  lemma MapIff<K(!new)>(cmp: (K, K) -> int, s: seq<Slot<K>>, k: K, w: Payload)
    requires TotalOrder(cmp) && Sorted(cmp, s)
    ensures Maps(PayloadMap(cmp, s), k, w) <==> Slot(k, true, w) in s
  {
    hide Lub;
    LiveKeyFound(cmp, s, k);
    if k in LiveKeys(s) {
      assert s[Lub(s, At(cmp, k))] == Slot(k, true, PayloadMap(cmp, s)[k]);
    }
    if Slot(k, true, w) in s {
      var i :| 0 <= i < |s| && s[i] == Slot(k, true, w);
      FoundAt(cmp, s, i);
      assert k in LiveKeys(s);
    }
  }

  /** Two maps with the same pairs are equal. */
  lemma SameMap<K(!new)>(m: map<K, Payload>, m': map<K, Payload>)
    requires forall k, w :: Maps(m, k, w) <==> Maps(m', k, w)
    ensures m == m'
  {
    forall k ensures k in m <==> k in m' {
      if k in m { assert Maps(m, k, m[k]); }
      if k in m' { assert Maps(m', k, m'[k]); }
    }
    forall k | k in m ensures m[k] == m'[k] {
      assert Maps(m, k, m[k]);
    }
  }

  lemma UpdateSlot<K(!new)>(cmp: (K, K) -> int, s: seq<Slot<K>>, i: nat, x: Slot<K>, k: K, v: Payload)
    requires TotalOrder(cmp) && Sorted(cmp, s) && i < |s| && x.key == s[i].key && x.live
    ensures Slot(k, true, v) in s[i := x] <==> if k == x.key then v == x.payload else Slot(k, true, v) in s
  {
    var s' := s[i := x];
    assert s'[i] == x;
    if k != x.key && Slot(k, true, v) in s {
      var j :| 0 <= j < |s| && s[j] == Slot(k, true, v);
      assert s'[j] == s[j];
    }
    if Slot(k, true, v) in s' {
      var j :| 0 <= j < |s'| && s'[j] == Slot(k, true, v);
      assert j != i ==> s'[j] == s[j] && cmp(s[j].key, s[i].key) != 0;
    }
  }

  lemma InsertSlot<K(!new)>(cmp: (K, K) -> int, s: seq<Slot<K>>, l: nat, x: Slot<K>, k: K, v: Payload)
    requires TotalOrder(cmp) && l <= |s| && x.live
    requires forall i :: 0 <= i < |s| ==> if i < l then cmp(s[i].key, x.key) < 0 else cmp(x.key, s[i].key) < 0
    ensures Slot(k, true, v) in s[..l] + [x] + s[l..] <==> if k == x.key then v == x.payload else Slot(k, true, v) in s
  {
    assert s == s[..l] + s[l..];
    forall y | y in s ensures y.key != x.key {
      var i :| 0 <= i < |s| && s[i] == y;
      assert cmp(y.key, x.key) != 0 || cmp(x.key, y.key) != 0;
    }
  }

  /** The live entries after entering a key that was not live. */
  lemma {:induction false} EnterSlot<K(!new)>(cmp: (K, K) -> int, s: seq<Slot<K>>, key: K, w: Payload, k: K, v: Payload)
    requires TotalOrder(cmp) && Sorted(cmp, s) && !Live(s, At(cmp, key))
    ensures Slot(k, true, v) in Enter(s, At(cmp, key), key, w) <==> if k == key then v == w else Slot(k, true, v) in s
  {
    hide Lub, Enter, Sorted, TotalOrder;
    EnterSides(cmp, s, key);
    var l := Lub(s, At(cmp, key));
    if l < |s| && cmp(s[l].key, key) == 0 {
      var x := Slot(s[l].key, true, w);
      EnterPresent(s, At(cmp, key), key, w, l, s[l := x]);
      UpdateSlot(cmp, s, l, x, k, v);
    } else {
      var x := Slot(key, true, w);
      EnterAbsent(s, At(cmp, key), key, w, l, s[..l] + [x] + s[l..]);
      InsertSlot(cmp, s, l, x, k, v);
    }
  }

  lemma {:induction false} EnterMap<K(!new)>(cmp: (K, K) -> int, s: seq<Slot<K>>, key: K, w: Payload)
    requires TotalOrder(cmp) && Sorted(cmp, s) && !Live(s, At(cmp, key))
    ensures Sorted(cmp, Enter(s, At(cmp, key), key, w))
    ensures PayloadMap(cmp, Enter(s, At(cmp, key), key, w)) == PayloadMap(cmp, s)[key := w]
  {
    hide Lub, PayloadMap;
    EnterSorted(cmp, s, key, w);
    var s' := Enter(s, At(cmp, key), key, w);
    var m, m' := PayloadMap(cmp, s)[key := w], PayloadMap(cmp, s');
    forall k, v ensures Maps(m, k, v) <==> Maps(m', k, v) {
      EnterSlot(cmp, s, key, w, k, v);
      MapIff(cmp, s, k, v);
      MapIff(cmp, s', k, v);
      assert k != key ==> (Maps(m, k, v) <==> Maps(PayloadMap(cmp, s), k, v));
    }
    SameMap(m, m');
  }

  /** Clearing the flag of entry `i`. */
  function Kill<K>(s: seq<Slot<K>>, i: nat): seq<Slot<K>>
    requires i < |s|
  {
    s[i := s[i].(live := false)]
  }

  lemma KillSlot<K(!new)>(cmp: (K, K) -> int, s: seq<Slot<K>>, i: nat, k: K, v: Payload)
    requires TotalOrder(cmp) && Sorted(cmp, s) && i < |s|
    ensures Slot(k, true, v) in Kill(s, i) <==> k != s[i].key && Slot(k, true, v) in s
  {
    var s' := Kill(s, i);
    if Slot(k, true, v) in s' {
      var j :| 0 <= j < |s'| && s'[j] == Slot(k, true, v);
      assert s[j] == s'[j] && j != i;
    }
    if k != s[i].key && Slot(k, true, v) in s {
      var j :| 0 <= j < |s| && s[j] == Slot(k, true, v);
      assert s'[j] == s[j];
    }
  }

  lemma KillSorted<K>(cmp: (K, K) -> int, s: seq<Slot<K>>, i: nat)
    requires Sorted(cmp, s) && i < |s|
    ensures Sorted(cmp, Kill(s, i))
  {
  }

  lemma {:induction false} KillMap<K(!new)>(cmp: (K, K) -> int, s: seq<Slot<K>>, i: nat)
    requires TotalOrder(cmp) && Sorted(cmp, s) && i < |s|
    ensures Sorted(cmp, Kill(s, i))
    ensures PayloadMap(cmp, Kill(s, i)) == PayloadMap(cmp, s) - {s[i].key}
  {
    hide Lub, PayloadMap, Kill, Sorted, TotalOrder;
    KillSorted(cmp, s, i);
    var m, m' := PayloadMap(cmp, s) - {s[i].key}, PayloadMap(cmp, Kill(s, i));
    forall k, v ensures Maps(m, k, v) <==> Maps(m', k, v) {
      KillSlot(cmp, s, i, k, v);
      MapIff(cmp, s, k, v);
      MapIff(cmp, Kill(s, i), k, v);
      assert k != s[i].key ==> (Maps(m, k, v) <==> Maps(PayloadMap(cmp, s), k, v));
    }
    SameMap(m, m');
  }

  lemma MapKeys<K(!new)>(cmp: (K, K) -> int, s: seq<Slot<K>>)
    requires TotalOrder(cmp) && Sorted(cmp, s)
    ensures PayloadMap(cmp, s).Keys == LiveKeys(s)
  {
  }
}
