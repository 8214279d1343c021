/** The blocks of a tree file: node blocks and data blocks. */
module Blocks {
  import opened Slots

  datatype Option<T> = None | Some(value: T)

  const BLOCK_SIZE: nat := 4096

  // Header (20 bytes), count, keySize, valSize and the back pointer.
  const NODE_HEADER_SIZE: nat := 34

  /** NodeBlock::size(): how many entries fit in a node block. */
  function NodeCapacity(keySize: nat, valSize: nat): int {
    (BLOCK_SIZE - NODE_HEADER_SIZE) / (keySize + valSize + 1)
  }

  /** `n` entries fit exactly when they end within the block. */
  lemma EntriesFit(keySize: nat, valSize: nat, n: nat)
    ensures n <= NodeCapacity(keySize, valSize) <==> NODE_HEADER_SIZE + n * (keySize + valSize + 1) <= BLOCK_SIZE
  {
    var d := keySize + valSize + 1;
    var q := NodeCapacity(keySize, valSize);
    assert q * d <= 4062 < (q + 1) * d by { DivisionBounds(4062, d); }
    if n <= q {
      assert n * d <= q * d;
    } else {
      assert (q + 1) * d <= n * d;
    }
  }

  /** Three entries fit exactly when key, value and flag take at most 1354 bytes. */
  lemma ThreeFit(keySize: nat, valSize: nat)
    ensures NodeCapacity(keySize, valSize) >= 3 <==> keySize + valSize + 1 <= 1354
  {
    EntriesFit(keySize, valSize, 3);
  }

  lemma DivisionBounds(a: nat, d: nat)
    requires d > 0
    ensures (a / d) * d <= a < (a / d + 1) * d
  {
  }

  /** What a node block holds: its kind, its entries, and its neighbours on the
      same level of the tree, where 0 stands for no neighbour. */
  datatype Content<K> = Content(leaf: bool, items: seq<Slot<K>>, next: nat, last: nat)

  class NodeBlock<K(0)> {
    const index: nat
    const leaf: bool
    var next: nat
    var last: nat
    var count: nat
    const kv: array<Slot<K>>

    constructor (index: nat, leaf: bool, size: nat)
      ensures this.index == index && this.leaf == leaf && kv.Length == size && fresh(kv)
      ensures Holds(Content(leaf, [], 0, 0))
    {
      this.index, this.leaf, next, last, count := index, leaf, 0, 0, 0;
      kv := new Slot<K>[size];
    }

    /** A block read from the file. */
    constructor Read(index: nat, size: nat, c: Content<K>)
      requires |c.items| <= size
      ensures this.index == index && this.leaf == c.leaf && kv.Length == size && fresh(kv)
      ensures Holds(c)
    {
      this.index, this.leaf, next, last, count := index, c.leaf, c.next, c.last, |c.items|;
      kv := new Slot<K>[size];
      new;
      forall j | 0 <= j < |c.items| {
        kv[j] := c.items[j];
      }
      assert kv[..count] == c.items;
    }

    /** The block as it is written to the file. */
    function AsContent(): (c: Content<K>)
      requires count <= kv.Length
      reads this, kv
      ensures Holds(c)
    {
      Content(leaf, kv[..count], next, last)
    }

    ghost predicate Holds(c: Content<K>)
      reads this, kv
    {
      && leaf == c.leaf && next == c.next && last == c.last
      && count <= kv.Length && kv[..count] == c.items
    }

    /** Binary search for a key equal to the probe; -1 if there is none. */
    method Find(p: K -> int, ghost c: Content<K>) returns (r: int)
      requires Holds(c) && Monotone(p, c.items)
      ensures if Present(c.items, p) then r == Slots.Lub(c.items, p) else r == -1
    {
      var lo, hi := 0, count;
      while lo < hi
        invariant lo <= hi <= |c.items|
        invariant forall i :: 0 <= i < lo ==> p(c.items[i].key) < 0
        invariant forall i :: hi <= i < |c.items| ==> p(c.items[i].key) > 0
      {
        var mid := (lo + hi) / 2;
        assert kv[mid] == c.items[mid];
        var res := p(kv[mid].key);
        if res == 0 {
          LubUnique(c.items, p, mid);
          return mid;
        } else if res > 0 {
          hi := mid;
        } else {
          lo := mid + 1;
        }
      }
      LubUnique(c.items, p, lo);
      r := -1;
    }

    /** Binary search for the first key not less than the one probed for. */
    method Lub(p: K -> int, ghost c: Content<K>) returns (lo: nat)
      requires Holds(c) && Monotone(p, c.items)
      ensures lo == Slots.Lub(c.items, p)
    {
      lo := 0;
      var hi := count;
      while lo < hi
        invariant lo <= hi <= |c.items|
        invariant forall i :: 0 <= i < lo ==> p(c.items[i].key) < 0
        invariant hi < |c.items| ==> p(c.items[hi].key) >= 0
      {
        var mid := (lo + hi) / 2;
        assert kv[mid] == c.items[mid];
        if p(kv[mid].key) < 0 {
          lo := mid + 1;
        } else {
          hi := mid;
        }
      }
      LubUnique(c.items, p, lo);
    }

    /** NodeBlock::maxKey */
    method MaxKey(ghost c: Content<K>) returns (k: K)
      requires Holds(c) && c.items != []
      ensures k == c.items[|c.items| - 1].key
    {
      k := kv[count - 1].key;
    }

    /** Entry `i` of the block: its key, flag and value. */
    method Entry(i: nat, ghost c: Content<K>) returns (s: Slot<K>)
      requires Holds(c) && i < |c.items|
      ensures s == c.items[i]
    {
      s := kv[i];
    }

    /** Makes room at `at` and enters a live entry there. */
    method Insert(key: K, payload: Payload, at: nat, ghost c: Content<K>)
      requires Holds(c) && at <= |c.items| < kv.Length
      modifies `count, kv
      ensures Holds(c.(items := c.items[..at] + [Slot(key, true, payload)] + c.items[at..]))
    {
      forall j | at <= j < count {
        kv[j + 1] := kv[j];
      }
      kv[at] := Slot(key, true, payload);
      count := count + 1;
    }

    /** Overwrites entry `at`; a key or payload not given stays as it is. */
    method Set(at: nat, key: Option<K>, payload: Option<Payload>, live: bool, ghost c: Content<K>)
      requires Holds(c) && at < kv.Length
      modifies kv
      ensures kv[..] == old(kv[..])[at := Overwritten(old(kv[at]), key, payload, live)]
      ensures Holds(if at < |c.items| then c.(items := c.items[at := Overwritten(c.items[at], key, payload, live)])
        else c)
    {
      kv[at] := Overwritten(kv[at], key, payload, live);
    }

    method SetCount(k: nat, ghost c: Content<K>)
      requires Holds(c) && k <= kv.Length
      modifies `count
      ensures Holds(c.(items := kv[..k]))
    {
      count := k;
    }

    method SetNext(i: nat, ghost c: Content<K>)
      requires Holds(c)
      modifies `next
      ensures Holds(c.(next := i))
    {
      next := i;
    }

    method SetLast(i: nat, ghost c: Content<K>)
      requires Holds(c)
      modifies `last
      ensures Holds(c.(last := i))
    {
      last := i;
    }

    /** The two steps of a split: the upper half of the entries is copied to
        `other`, then given up here. */
    method CopyUpper(other: NodeBlock<K>, ghost c: Content<K>, ghost d: Content<K>)
      requires Holds(c) && other.Holds(d) && other.kv.Length == kv.Length && other.kv != kv && other != this
      modifies other`count, other.kv
      ensures other.Holds(d.(items := c.items[(|c.items| + 1) / 2..]))
    {
      var mid := (count + 1) / 2;
      forall j | 0 <= j < count / 2 {
        other.kv[j] := kv[mid + j];
      }
      other.count := count / 2;
    }

    method Halve(ghost c: Content<K>)
      requires Holds(c)
      modifies `count
      ensures Holds(c.(items := c.items[..(|c.items| + 1) / 2]))
    {
      count := (count + 1) / 2;
    }
  }

  function Overwritten<K>(s: Slot<K>, key: Option<K>, payload: Option<Payload>, live: bool): Slot<K> {
    Slot(if key.Some? then key.value else s.key, live, if payload.Some? then payload.value else s.payload)
  }

  // Header (20 bytes), count and free.
  const DATA_HEADER_SIZE: nat := 24

  /** The bytes that values take: each is followed by two unused ones. */
  function Taken(vals: seq<seq<Byte>>): nat {
    if vals == [] then 0 else Taken(vals[..|vals| - 1]) + |vals[|vals| - 1]| + 2
  }

  lemma TakenMore(vals: seq<seq<Byte>>, v: seq<Byte>)
    ensures Taken(vals + [v]) == Taken(vals) + |v| + 2
  {
    assert (vals + [v])[..|vals|] == vals;
  }

  /** Values stored one below the other from the end of the block: value `i` starts
      at `dir[i]`, followed by two unused bytes, and ends before the one stored
      before it; the directory grows up from the header and stays below them all. */
  ghost predicate Packed(vals: seq<seq<Byte>>, dir: seq<nat>, bytes: seq<Byte>, free: nat) {
    && |vals| == |dir| && |bytes| == BLOCK_SIZE
    && DATA_HEADER_SIZE + 2 * |dir| + 2 <= free == BLOCK_SIZE - Taken(vals)
    && (forall i :: 0 <= i < |dir| ==> free <= dir[i] && Written(vals[i], dir[i], bytes))
    && (forall i :: 0 < i < |dir| ==> dir[i] + |vals[i]| + 2 <= dir[i - 1])
  }

  ghost predicate Written(v: seq<Byte>, at: nat, bytes: seq<Byte>) {
    at + |v| + 2 <= |bytes| && bytes[at..at + |v|] == v
  }

  /** Writing one more value below `free` leaves the values above it alone. */
  lemma PackMore(vals: seq<seq<Byte>>, dir: seq<nat>, bytes: seq<Byte>, free: nat, v: seq<Byte>, bytes': seq<Byte>)
    requires Packed(vals, dir, bytes, free)
    requires |v| <= free - (DATA_HEADER_SIZE + 2 * (|dir| + 1)) - 4
    requires |bytes'| == |bytes| && Written(v, free - (|v| + 2), bytes')
    requires forall j :: free <= j < |bytes| ==> bytes'[j] == bytes[j]
    ensures Packed(vals + [v], dir + [free - (|v| + 2)], bytes', free - (|v| + 2))
  {
    TakenMore(vals, v);
    forall i | 0 <= i < |vals|
      ensures Written(vals[i], dir[i], bytes')
    {
      assert Written(vals[i], dir[i], bytes);
      assert bytes'[dir[i]..dir[i] + |vals[i]|] == bytes[dir[i]..dir[i] + |vals[i]|];
    }
  }

  /** The bytes of a data block in the file. */
  datatype Page = Page(free: nat, directory: seq<nat>, bytes: seq<Byte>)

  /** The page holds these values. */
  ghost predicate OnPage(page: Page, vals: seq<seq<Byte>>) {
    Packed(vals, page.directory, page.bytes, page.free)
  }

  /** A slotted page.  The directory is kept apart from the byte area here; that
      the two do not meet in the block is part of `Packed`. */
  class DataBlock {
    const index: nat
    // DataBlock::init clears header.next, and nothing ever sets it.
    const next: nat := 0
    var free: nat
    var directory: seq<nat>
    const bytes: array<Byte>

    constructor (index: nat)
      ensures this.index == index && fresh(bytes)
      ensures Holds([])
      ensures FreeSize() == 4066
    {
      this.index, free, directory := index, BLOCK_SIZE, [];
      bytes := new Byte[BLOCK_SIZE];
    }

    /** A block read from the file. */
    constructor Read(index: nat, page: Page)
      requires |page.bytes| == BLOCK_SIZE
      ensures this.index == index && fresh(bytes) && AsPage() == page
      ensures forall vals :: OnPage(page, vals) ==> Holds(vals)
    {
      this.index, free, directory := index, page.free, page.directory;
      bytes := new Byte[BLOCK_SIZE](i requires 0 <= i < BLOCK_SIZE => page.bytes[i]);
      new;
      assert bytes[..] == page.bytes;
    }

    ghost predicate Holds(vals: seq<seq<Byte>>)
      reads this, bytes
    {
      Packed(vals, directory, bytes[..], free)
    }

    /** The block as it is written to the file. */
    function AsPage(): Page
      reads this, bytes
    {
      Page(free, directory, bytes[..])
    }

    /** The size of the largest value that still fits; may be negative. */
    function FreeSize(): int
      reads this
    {
      free - (DATA_HEADER_SIZE + 2 * (|directory| + 1)) - 2 - 2
    }

    /** An empty block has room for 4066 bytes, and every value takes four more than its length. */
    lemma FreeSizeExact(vals: seq<seq<Byte>>)
      requires Holds(vals)
      ensures FreeSize() == 4066 - Taken(vals) - 2 * |vals|
    {
    }

    method Insert(value: seq<Byte>, ghost vals: seq<seq<Byte>>) returns (ok: bool, position: nat)
      requires Holds(vals)
      modifies `directory, `free, bytes
      ensures ok <==> |value| <= old(FreeSize())
      ensures if ok then position == |vals| && Holds(vals + [value]) else Holds(vals)
    {
      if |value| > FreeSize() {
        return false, 0;
      }
      free := free - (|value| + 2);
      forall j | 0 <= j < |value| {
        bytes[free + j] := value[j];
      }
      assert Written(value, free, bytes[..]);
      PackMore(vals, directory, old(bytes[..]), old(free), value, bytes[..]);
      position := |directory|;
      directory := directory + [free];
      ok := true;
    }

    /** The bytes from where entry `position` points to. */
    function Get(position: nat): (r: Option<seq<Byte>>)
      requires position < |directory| ==> directory[position] <= bytes.Length
      reads this, bytes
    {
      if position >= |directory| then None
      else if directory[position] == 0 then None
      else Some(bytes[directory[position]..])
    }
  }

  /** A stored value is found, whatever was stored after it. */
  lemma GetFindsValue(b: DataBlock, vals: seq<seq<Byte>>, position: nat)
    requires b.Holds(vals) && position < |vals|
    ensures b.directory[position] <= b.bytes.Length
    ensures var r := b.Get(position); r.Some? && vals[position] <= r.value
  {
    assert Written(vals[position], b.directory[position], b.bytes[..]);
  }
}
