/** The ones-complement checksum over the words of a block: lib/block.cpp. */
module Checksums {
  type Word = x: int | 0 <= x < 0x1_0000

  const WORDS: nat := 2048

  // Header: magic (two words), type and reserved, then the checksum.
  const CHECKSUM_AT: nat := 3

  function Sum(w: seq<Word>): (s: nat)
    ensures s <= 0xffff * |w|
  {
    if w == [] then 0 else w[0] + Sum(w[1..])
  }

  lemma {:induction false} SumSnoc(w: seq<Word>, x: Word)
    ensures Sum(w + [x]) == Sum(w) + x
  {
    if w == [] {
      assert Sum([x]) == x + Sum([]);
    } else {
      assert (w + [x])[1..] == w[1..] + [x];
      SumSnoc(w[1..], x);
    }
  }

  lemma {:induction false} SumUpdate(w: seq<Word>, i: nat, x: Word)
    requires i < |w|
    ensures Sum(w[i := x]) == Sum(w) - w[i] + x
  {
    if i == 0 {
      assert w[0 := x][1..] == w[1..];
    } else {
      assert w[i := x][1..] == w[1..][i - 1 := x];
      SumUpdate(w[1..], i - 1, x);
    }
  }

  lemma {:induction false} SumAtLeast(w: seq<Word>, i: nat)
    requires i < |w|
    ensures Sum(w) >= w[i]
  {
    if i > 0 {
      SumAtLeast(w[1..], i - 1);
    }
  }

  /** A folded sum: 16 bits that keep the remainder by 0xffff, and 0 only for 0. */
  ghost predicate Folds(n: nat, r: nat) {
    r <= 0xffff && r % 0xffff == n % 0xffff && (r == 0 <==> n == 0)
  }

  lemma FoldStep(n: nat)
    requires n >= 0x1_0000
    ensures n % 0x1_0000 + n / 0x1_0000 < n
    ensures (n % 0x1_0000 + n / 0x1_0000) % 0xffff == n % 0xffff && n % 0x1_0000 + n / 0x1_0000 > 0
  {
    var q, r := n / 0x1_0000, n % 0x1_0000;
    assert n == 0xffff * q + (q + r);
    SameRemainder(q, q + r);
  }

  lemma SameRemainder(q: nat, m: nat)
    ensures (0xffff * q + m) % 0xffff == m % 0xffff
    decreases q
  {
    if q > 0 {
      SameRemainder(q - 1, m);
      assert 0xffff * q + m == (0xffff * (q - 1) + m) + 0xffff;
    }
  }

  /** The summing loop: no sum exceeds 32 bits. */
  method AddUp(w: array<Word>) returns (sum: nat)
    requires w.Length == WORDS
    ensures sum == Sum(w[..]) && sum < 0x1_0000_0000
  {
    sum := 0;
    var i := 0;
    while i < WORDS
      invariant i <= WORDS && sum == Sum(w[..i]) && sum <= 0xffff * i
    {
      assert w[..i + 1] == w[..i] + [w[i]];
      SumSnoc(w[..i], w[i]);
      sum := sum + w[i];
      i := i + 1;
    }
    assert w[..] == w[..i];
  }

  /** The folding loop. */
  method Fold(n: nat) returns (sum: nat)
    ensures Folds(n, sum)
  {
    sum := n;
    while sum / 0x1_0000 != 0
      invariant sum % 0xffff == n % 0xffff && (sum == 0 <==> n == 0)
      decreases sum
    {
      FoldStep(sum);
      sum := sum % 0x1_0000 + sum / 0x1_0000;
    }
  }

  /** BlockHeader::check.  The verdict is positive exactly when the sum of the words is
      positive and divisible by 0xffff. */
  method Check(w: array<Word>) returns (ok: bool)
    requires w.Length == WORDS
    ensures ok <==> Good(w[..])
  {
    var sum := AddUp(w);
    sum := Fold(sum);
    ok := sum == 0xffff;
  }

  predicate Good(w: seq<Word>) {
    Sum(w) > 0 && Sum(w) % 0xffff == 0
  }

  /** BlockHeader::compute: sets the checksum, and no other word. */
  method Compute(w: array<Word>) returns (checksum: Word)
    requires w.Length == WORDS
    modifies w
    ensures Good(w[..])
    ensures w[..] == old(w[..])[CHECKSUM_AT := checksum]
  {
    var sum := AddUp(w);
    SumAtLeast(w[..], CHECKSUM_AT);
    ghost var rest := sum - w[CHECKSUM_AT];
    sum := Fold(sum - w[CHECKSUM_AT]);
    checksum := 0xffff - sum;
    SumUpdate(w[..], CHECKSUM_AT, checksum);
    ComplementGood(rest, sum);
    w[CHECKSUM_AT] := checksum;
  }

  lemma ComplementGood(n: nat, r: nat)
    requires Folds(n, r)
    ensures n + (0xffff - r) > 0 && (n + (0xffff - r)) % 0xffff == 0
  {
    var q := n / 0xffff;
    assert n == 0xffff * q + n % 0xffff;
    if r == 0xffff {
      assert n == 0xffff * q;
      SameRemainder(q, 0);
    } else {
      assert r == n % 0xffff;
      assert n + (0xffff - r) == 0xffff * (q + 1) + 0;
      SameRemainder(q + 1, 0);
    }
  }

  /** After compute, changing one word is noticed unless the change is between 0 and 0xffff
      and leaves some word that is not 0. */
  lemma ChangeNoticed(w: seq<Word>, i: nat, x: Word)
    requires Good(w) && i < |w| && x != w[i]
    ensures Good(w[i := x]) <==> {x, w[i]} == {0, 0xffff} && Sum(w[i := x]) > 0
  {
    SumUpdate(w, i, x);
    SumAtLeast(w, i);
    var n, d := Sum(w), x - w[i];
    var q := n / 0xffff;
    assert n == 0xffff * q;
    if d == 0xffff {
      SameRemainder(q + 1, 0);
    } else if d == -0xffff {
      assert q >= 1;
      SameRemainder(q - 1, 0);
    } else if d > 0 {
      SameRemainder(q, d);
    } else {
      assert q >= 1;
      SameRemainder(q - 1, 0xffff + d);
    }
    assert {x, w[i]} == {0, 0xffff} <==> d == 0xffff || d == -0xffff by {
      if {x, w[i]} == {0, 0xffff} {
        assert x in {0, 0xffff} && w[i] in {0, 0xffff};
      }
    }
  }

  /** The two bytes of a word swapped. */
  function Swap(x: Word): Word {
    x % 0x100 * 0x100 + x / 0x100
  }

  function SwapAll(w: seq<Word>): (r: seq<Word>)
    ensures |r| == |w|
  {
    if w == [] then [] else [Swap(w[0])] + SwapAll(w[1..])
  }

  lemma {:induction false} SwapSum(w: seq<Word>)
    ensures exists k: nat :: 0x100 * Sum(w) == Sum(SwapAll(w)) + 0xffff * k
    ensures Sum(SwapAll(w)) == 0 <==> Sum(w) == 0
  {
    if w == [] {
      assert 0x100 * Sum(w) == Sum(SwapAll(w)) + 0xffff * 0;
    } else {
      SwapSum(w[1..]);
      var k: nat :| 0x100 * Sum(w[1..]) == Sum(SwapAll(w[1..])) + 0xffff * k;
      assert SwapAll(w)[1..] == SwapAll(w[1..]);
      var x: int, y: int := w[0], Swap(w[0]);
      assert 0x100 * x == y + 0xffff * (x / 0x100);
      assert 0x100 * Sum(w) == Sum(SwapAll(w)) + 0xffff * (k + x / 0x100);
    }
  }

  /** Swapping the bytes of every word keeps the verdict: the checksum does not depend on the
      byte order of the machine. */
  lemma SwapKeepsVerdict(w: seq<Word>)
    ensures Good(SwapAll(w)) <==> Good(w)
  {
    SwapSum(w);
    var n, m := Sum(w), Sum(SwapAll(w));
    var k: nat :| 0x100 * n == m + 0xffff * k;
    if n % 0xffff == 0 {
      var q := n / 0xffff;
      assert n == 0xffff * q;
      Divides(m, 0x100 * q - k);
    }
    if m % 0xffff == 0 {
      var q := m / 0xffff;
      assert m == 0xffff * q;
      assert 0x1_0000 * n == 0x100 * m + 0xffff * (0x100 * k);
      Divides(n, 0x100 * q + 0x100 * k - n);
    }
  }

  lemma Divides(m: nat, q: int)
    requires m == 0xffff * q
    ensures m % 0xffff == 0
  {
    SameRemainder(q, 0);
  }
}
