/** The keys of a table's two trees and how they compare: ha_example.cc. */
module SecKeys {
  import opened Slots

  /** `fcmp(index, part, x, y)` compares two values of one part of one index. */
  ghost predicate FieldOrder<F(!new)>(fcmp: (nat, nat, F, F) -> int) {
    && (forall n, i, x, y :: fcmp(n, i, x, y) == 0 <==> x == y)
    && (forall n, i, x, y :: fcmp(n, i, x, y) < 0 <==> fcmp(n, i, y, x) > 0)
    && (forall n, i, x, y, z :: fcmp(n, i, x, y) < 0 && fcmp(n, i, y, z) < 0 ==> fcmp(n, i, x, z) < 0)
  }

  /** Keys compare by their first parts that differ. */
  function Lex<F>(fcmp: (nat, nat, F, F) -> int, n: nat, i: nat, a: seq<F>, b: seq<F>): int
    decreases |a|
  {
    if a == [] then (if b == [] then 0 else -1)
    else if b == [] then 1
    else
      var c := fcmp(n, i, a[0], b[0]);
      if c != 0 then c else Lex(fcmp, n, i + 1, a[1..], b[1..])
  }

  /** In the first part in which the keys differ, `a` has the lesser value. */
  ghost predicate Before<F>(fcmp: (nat, nat, F, F) -> int, n: nat, a: seq<F>, b: seq<F>) {
    exists d: nat :: d < |a| && d < |b| && a[..d] == b[..d] && fcmp(n, d, a[d], b[d]) < 0
  }

  /** The same for keys that may differ in length: the beginning of a key comes before it. */
  ghost predicate KeyBefore<F>(fcmp: (nat, nat, F, F) -> int, n: nat, a: seq<F>, b: seq<F>) {
    Before(fcmp, n, a, b) || a < b
  }

  /** The parts before `d` are passed if they are equal. */
  lemma {:induction false} LexPasses<F(!new)>(fcmp: (nat, nat, F, F) -> int, n: nat, i: nat, a: seq<F>, b: seq<F>,
          d: nat)
    requires FieldOrder(fcmp) && d <= |a| && d <= |b| && a[..d] == b[..d]
    ensures Lex(fcmp, n, i, a, b) == Lex(fcmp, n, i + d, a[d..], b[d..])
    decreases d
  {
    if d > 0 {
      assert a[0] == a[..d][0] == b[..d][0] == b[0];
      assert a[1..][..d - 1] == a[..d][1..] == b[..d][1..] == b[1..][..d - 1];
      LexPasses(fcmp, n, i + 1, a[1..], b[1..], d - 1);
      assert a[1..][d - 1..] == a[d..] && b[1..][d - 1..] == b[d..];
    }
  }

  /** Two keys of which none is the beginning of the other differ in a first part. */
  lemma {:induction false} FirstDifference<F>(a: seq<F>, b: seq<F>) returns (d: nat)
    ensures d <= |a| && d <= |b| && a[..d] == b[..d]
    ensures d < |a| && d < |b| ==> a[d] != b[d]
    ensures d == |a| || d == |b| || a != b
  {
    d := 0;
    while d < |a| && d < |b| && a[d] == b[d]
      invariant d <= |a| && d <= |b| && a[..d] == b[..d]
    {
      d := d + 1;
    }
  }

  /** The order is decided by the first part that differs. */
  lemma LexFirst<F(!new)>(fcmp: (nat, nat, F, F) -> int, n: nat, a: seq<F>, b: seq<F>)
    requires FieldOrder(fcmp)
    ensures Lex(fcmp, n, 0, a, b) < 0 <==> KeyBefore(fcmp, n, a, b)
  {
    if Before(fcmp, n, a, b) {
      var d: nat :| d < |a| && d < |b| && a[..d] == b[..d] && fcmp(n, d, a[d], b[d]) < 0;
      LexPasses(fcmp, n, 0, a, b, d);
    } else {
      var d := FirstDifference(a, b);
      LexPasses(fcmp, n, 0, a, b, d);
    }
  }

  /** The same for keys of as many parts, in both directions. */
  lemma LexMeans<F(!new)>(fcmp: (nat, nat, F, F) -> int, n: nat, a: seq<F>, b: seq<F>)
    requires FieldOrder(fcmp) && |a| == |b|
    ensures Lex(fcmp, n, 0, a, b) < 0 <==> Before(fcmp, n, a, b)
    ensures Lex(fcmp, n, 0, a, b) > 0 <==> Before(fcmp, n, b, a)
    ensures Lex(fcmp, n, 0, a, b) == 0 <==> a == b
  {
    hide FieldOrder, Lex, Before;
    LexFirst(fcmp, n, a, b);
    LexFirst(fcmp, n, b, a);
    LexFlip(fcmp, n, 0, b, a);
    LexEqual(fcmp, n, 0, a, b);
  }

  /** primary_key_compare, and the loop over the parts in second_key_compare: the first part in
      which the keys differ decides. */
  method CompareParts<F(!new)>(fcmp: (nat, nat, F, F) -> int, n: nat, a: seq<F>, b: seq<F>, parts: nat)
    returns (r: int)
    requires |a| == |b| == parts
    ensures r == Lex(fcmp, n, 0, a, b)
    ensures FieldOrder(fcmp) ==> (r < 0 <==> Before(fcmp, n, a, b)) && (r > 0 <==> Before(fcmp, n, b, a))
    ensures FieldOrder(fcmp) ==> (r == 0 <==> a == b)
  {
    hide FieldOrder, Before;
    if FieldOrder(fcmp) {
      LexMeans(fcmp, n, a, b);
    }
    var i := 0;
    while i < parts
      invariant i <= parts
      invariant Lex(fcmp, n, 0, a, b) == Lex(fcmp, n, i, a[i..], b[i..])
    {
      var cmp := fcmp(n, i, a[i], b[i]);
      if cmp != 0 {
        return cmp;
      }
      assert a[i..][1..] == a[i + 1..] && b[i..][1..] == b[i + 1..];
      i := i + 1;
    }
    r := 0;
  }

  lemma {:induction false} LexEqual<F(!new)>(fcmp: (nat, nat, F, F) -> int, n: nat, i: nat, a: seq<F>, b: seq<F>)
    requires FieldOrder(fcmp)
    ensures Lex(fcmp, n, i, a, b) == 0 <==> a == b
    decreases |a|
  {
    if a != [] && b != [] {
      LexEqual(fcmp, n, i + 1, a[1..], b[1..]);
      assert a == [a[0]] + a[1..] && b == [b[0]] + b[1..];
    }
  }

  lemma {:induction false} LexFlip<F(!new)>(fcmp: (nat, nat, F, F) -> int, n: nat, i: nat, a: seq<F>, b: seq<F>)
    requires FieldOrder(fcmp)
    ensures Lex(fcmp, n, i, a, b) < 0 <==> Lex(fcmp, n, i, b, a) > 0
    decreases |a|
  {
    if a != [] && b != [] {
      LexFlip(fcmp, n, i + 1, a[1..], b[1..]);
      assert fcmp(n, i, a[0], b[0]) == 0 <==> fcmp(n, i, b[0], a[0]) == 0;
    }
  }

  lemma {:induction false} LexTrans<F(!new)>(fcmp: (nat, nat, F, F) -> int, n: nat, i: nat, a: seq<F>, b: seq<F>,
          c: seq<F>)
    requires FieldOrder(fcmp)
    requires Lex(fcmp, n, i, a, b) < 0 && Lex(fcmp, n, i, b, c) < 0
    ensures Lex(fcmp, n, i, a, c) < 0
    decreases |a|
  {
    if a != [] && b != [] && c != [] {
      if fcmp(n, i, a[0], b[0]) == 0 && fcmp(n, i, b[0], c[0]) == 0 {
        LexTrans(fcmp, n, i + 1, a[1..], b[1..], c[1..]);
      }
    }
  }

  function PrimaryOrder<F>(fcmp: (nat, nat, F, F) -> int): (seq<F>, seq<F>) -> int {
    (a: seq<F>, b: seq<F>) => Lex(fcmp, 0, 0, a, b)
  }

  lemma PrimaryTotal<F(!new)>(fcmp: (nat, nat, F, F) -> int)
    requires FieldOrder(fcmp)
    ensures TotalOrder(PrimaryOrder(fcmp))
  {
    hide Lex, FieldOrder;
    var cmp := PrimaryOrder(fcmp);
    forall a, b ensures (cmp(a, b) == 0 <==> a == b) && (cmp(a, b) < 0 <==> cmp(b, a) > 0) {
      LexEqual(fcmp, 0, 0, a, b);
      LexFlip(fcmp, 0, 0, a, b);
    }
    forall a, b, c | cmp(a, b) < 0 && cmp(b, c) < 0 ensures cmp(a, c) < 0 {
      LexTrans(fcmp, 0, 0, a, b, c);
    }
  }

  /** An entry of the tree all secondary indexes share: the index number, the key in that
      index, and the primary key of the row. */
  datatype SecKey<F> = SecKey(idx: nat, sec: seq<F>, pk: seq<F>)

  function SecCompare<F>(fcmp: (nat, nat, F, F) -> int, a: SecKey<F>, b: SecKey<F>): int {
    if a.idx != b.idx then a.idx - b.idx
    else
      var c := Lex(fcmp, a.idx, 0, a.sec, b.sec);
      if c != 0 then c else Lex(fcmp, 0, 0, a.pk, b.pk)
  }

  function SecOrder<F>(fcmp: (nat, nat, F, F) -> int): (SecKey<F>, SecKey<F>) -> int {
    (a: SecKey<F>, b: SecKey<F>) => SecCompare(fcmp, a, b)
  }

  lemma {:induction false} SecEqualFlip<F(!new)>(fcmp: (nat, nat, F, F) -> int, a: SecKey<F>, b: SecKey<F>)
    requires FieldOrder(fcmp)
    ensures SecCompare(fcmp, a, b) == 0 <==> a == b
    ensures SecCompare(fcmp, a, b) < 0 <==> SecCompare(fcmp, b, a) > 0
  {
    hide Lex, FieldOrder;
    LexEqual(fcmp, a.idx, 0, a.sec, b.sec);
    LexEqual(fcmp, b.idx, 0, b.sec, a.sec);
    LexEqual(fcmp, 0, 0, a.pk, b.pk);
    LexFlip(fcmp, a.idx, 0, a.sec, b.sec);
    LexFlip(fcmp, 0, 0, a.pk, b.pk);
  }

  lemma {:induction false} SecTrans<F(!new)>(fcmp: (nat, nat, F, F) -> int, a: SecKey<F>, b: SecKey<F>, c: SecKey<F>)
    requires FieldOrder(fcmp)
    requires SecCompare(fcmp, a, b) < 0 && SecCompare(fcmp, b, c) < 0
    ensures SecCompare(fcmp, a, c) < 0
  {
    hide Lex, FieldOrder;
    if a.idx == b.idx == c.idx {
      LexEqual(fcmp, a.idx, 0, a.sec, b.sec);
      LexEqual(fcmp, a.idx, 0, b.sec, c.sec);
      if a.sec == b.sec && b.sec == c.sec {
        LexTrans(fcmp, 0, 0, a.pk, b.pk, c.pk);
      } else if a.sec != b.sec && b.sec != c.sec {
        LexTrans(fcmp, a.idx, 0, a.sec, b.sec, c.sec);
      }
    }
  }

  /** The index number decides first, then the key in that index, then the primary key, whose
      parts compare as those of index 0. */
  ghost predicate SecBefore<F>(fcmp: (nat, nat, F, F) -> int, a: SecKey<F>, b: SecKey<F>) {
    || a.idx < b.idx
    || (a.idx == b.idx && Before(fcmp, a.idx, a.sec, b.sec))
    || (a.idx == b.idx && a.sec == b.sec && Before(fcmp, 0, a.pk, b.pk))
  }

  lemma SecMeans<F(!new)>(fcmp: (nat, nat, F, F) -> int, a: SecKey<F>, b: SecKey<F>)
    requires FieldOrder(fcmp) && |a.pk| == |b.pk| && (a.idx == b.idx ==> |a.sec| == |b.sec|)
    ensures SecCompare(fcmp, a, b) < 0 <==> SecBefore(fcmp, a, b)
    ensures SecCompare(fcmp, a, b) > 0 <==> SecBefore(fcmp, b, a)
  {
    hide FieldOrder, Lex, Before;
    if a.idx == b.idx {
      LexMeans(fcmp, a.idx, a.sec, b.sec);
      LexMeans(fcmp, 0, a.pk, b.pk);
      NotBefore(fcmp, a.idx, a.sec);
    }
  }

  lemma NotBefore<F(!new)>(fcmp: (nat, nat, F, F) -> int, n: nat, a: seq<F>)
    requires FieldOrder(fcmp)
    ensures !Before(fcmp, n, a, a)
  {
  }

  lemma SecTotal<F(!new)>(fcmp: (nat, nat, F, F) -> int)
    requires FieldOrder(fcmp)
    ensures TotalOrder(SecOrder(fcmp))
  {
    hide SecCompare, FieldOrder;
    var cmp := SecOrder(fcmp);
    forall a, b ensures (cmp(a, b) == 0 <==> a == b) && (cmp(a, b) < 0 <==> cmp(b, a) > 0) {
      SecEqualFlip(fcmp, a, b);
    }
    forall a, b, c | cmp(a, b) < 0 && cmp(b, c) < 0 ensures cmp(a, c) < 0 {
      SecTrans(fcmp, a, b, c);
    }
  }

  // Probes

  /** The flag bits of a search key: 0x80 puts it before all entries with its key, 0x40
      after all of them. */
  datatype Edge = BEFORE_ALL | AFTER_ALL

  /** second_key_compare with a flagged search key. */
  function EdgeCompare<F>(fcmp: (nat, nat, F, F) -> int, k: SecKey<F>, idx: nat, sec: seq<F>, edge: Edge): int {
    if k.idx != idx then k.idx - idx
    else
      var c := Lex(fcmp, idx, 0, k.sec, sec);
      if c != 0 then c else if edge.AFTER_ALL? then -1 else 1
  }

  /** A flagged key comes after all entries with its key, or before all of them. */
  lemma EdgeMeans<F(!new)>(fcmp: (nat, nat, F, F) -> int, k: SecKey<F>, idx: nat, sec: seq<F>, edge: Edge)
    requires FieldOrder(fcmp) && (k.idx == idx ==> |k.sec| == |sec|)
    ensures EdgeCompare(fcmp, k, idx, sec, edge) < 0 <==>
      || k.idx < idx || (k.idx == idx && Before(fcmp, idx, k.sec, sec))
      || (k.idx == idx && k.sec == sec && edge.AFTER_ALL?)
    ensures EdgeCompare(fcmp, k, idx, sec, edge) > 0 <==>
      || k.idx > idx || (k.idx == idx && Before(fcmp, idx, sec, k.sec))
      || (k.idx == idx && k.sec == sec && edge.BEFORE_ALL?)
  {
    hide FieldOrder, Lex, Before;
    if k.idx == idx {
      LexMeans(fcmp, idx, k.sec, sec);
      NotBefore(fcmp, idx, sec);
    }
  }

  /** second_key_compare: `b` is a stored key, or a search key with one of the flag bits,
      whose primary key is not looked at. */
  method SecondKeyCompare<F(!new)>(fcmp: (nat, nat, F, F) -> int, a: SecKey<F>, b: SecKey<F>, first: bool, last: bool)
    returns (r: int)
    requires !(first && last) && |a.pk| == |b.pk| && (a.idx == b.idx ==> |a.sec| == |b.sec|)
    ensures r == if last then EdgeCompare(fcmp, a, b.idx, b.sec, AFTER_ALL)
                 else if first then EdgeCompare(fcmp, a, b.idx, b.sec, BEFORE_ALL)
                 else SecCompare(fcmp, a, b)
    ensures FieldOrder(fcmp) && !first && !last ==>
      (r < 0 <==> SecBefore(fcmp, a, b)) && (r > 0 <==> SecBefore(fcmp, b, a))
    ensures FieldOrder(fcmp) && (first || last) ==>
      (r < 0 <==> a.idx < b.idx || (a.idx == b.idx && (Before(fcmp, b.idx, a.sec, b.sec) || (a.sec == b.sec && last))))
  {
    hide FieldOrder, Lex, Before, SecBefore;
    if FieldOrder(fcmp) {
      SecMeans(fcmp, a, b);
      EdgeMeans(fcmp, a, b.idx, b.sec, if last then AFTER_ALL else BEFORE_ALL);
    }
    if a.idx != b.idx {
      return a.idx - b.idx;
    }
    r := CompareParts(fcmp, a.idx, a.sec, b.sec, |a.sec|);
    if r != 0 {
      return;
    }
    if last {
      return -1;
    } else if first {
      return 1;
    }
    r := CompareParts(fcmp, 0, a.pk, b.pk, |a.pk|);
  }

  function EdgeProbe<F>(fcmp: (nat, nat, F, F) -> int, idx: nat, sec: seq<F>, edge: Edge): SecKey<F> -> int {
    (k: SecKey<F>) => EdgeCompare(fcmp, k, idx, sec, edge)
  }

  lemma {:induction false} EdgeKeepsOrder<F(!new)>(fcmp: (nat, nat, F, F) -> int, a: SecKey<F>, b: SecKey<F>,
          idx: nat, sec: seq<F>, edge: Edge)
    requires FieldOrder(fcmp) && SecCompare(fcmp, a, b) < 0 && EdgeCompare(fcmp, a, idx, sec, edge) >= 0
    ensures EdgeCompare(fcmp, b, idx, sec, edge) > 0
  {
    hide Lex, FieldOrder;
    if a.idx == b.idx == idx {
      LexEqual(fcmp, idx, 0, a.sec, b.sec);
      LexEqual(fcmp, idx, 0, a.sec, sec);
      LexEqual(fcmp, idx, 0, b.sec, sec);
      LexFlip(fcmp, idx, 0, sec, a.sec);
      LexFlip(fcmp, idx, 0, sec, b.sec);
      LexFlip(fcmp, idx, 0, b.sec, sec);
      if a.sec != b.sec && a.sec != sec {
        LexTrans(fcmp, idx, 0, sec, a.sec, b.sec);
      }
    }
  }

  /** A flagged key equals no entry, and compares along the stored order like one that
      stands between two of them: the searches of the tree work for it. */
  lemma {:induction false} EdgeMonotone<F(!new)>(fcmp: (nat, nat, F, F) -> int, s: seq<Slot<SecKey<F>>>, idx: nat,
          sec: seq<F>, edge: Edge)
    requires FieldOrder(fcmp) && Sorted(SecOrder(fcmp), s)
    ensures Monotone(EdgeProbe(fcmp, idx, sec, edge), s)
    ensures forall k :: EdgeProbe(fcmp, idx, sec, edge)(k) != 0
  {
    hide SecCompare, FieldOrder;
    var p := EdgeProbe(fcmp, idx, sec, edge);
    forall i, j | 0 <= i < j < |s| && p(s[i].key) >= 0 ensures p(s[j].key) > 0 {
      assert SecOrder(fcmp)(s[i].key, s[j].key) < 0;
      EdgeKeepsOrder(fcmp, s[i].key, s[j].key, idx, sec, edge);
    }
  }
}
