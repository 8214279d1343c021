/** Saving, closing and opening a tree file: what of the operations on the tree is found again. */
module Files {
  import opened Slots
  import opened Trees
  import opened Blocks
  import opened BTrees
  import opened Forms
  import opened Iterators
  import Pool

  /** Two trees over the same values have the same contents. */
  lemma SameContents<K(0, !new)>(t: BTree<K>, b: BTree<K>)
    requires t.Readable() && b.Readable() && t.cmp == b.cmp && t.tree == b.tree
    requires t.isConstValueSize == b.isConstValueSize && t.data.stored == b.data.stored
    ensures t.Contents() == b.Contents()
  {
    hide PayloadMap, TotalOrder, Sorted, Phys;
    t.PayloadsReadable(Phys(t.tree));
    b.PayloadsReadable(Phys(b.tree));
  }

  /** ~BTree, and BTree::open of its file: the same tree with the same contents and counters.  It
      is there exactly if no write of a marked block fails. */
  method CloseAndOpen<K(==, 0, !new)>(t: BTree<K>, keySize: nat, valueSize: nat, bad: set<nat>)
    returns (b: BTree?<K>)
    requires NodeCapacity(keySize, LeafValueSize(valueSize)) >= 3 && NodeCapacity(keySize, CHILD_SIZE) >= 3
    requires t.Valid() && t.Format() == FormatOf(keySize, valueSize)
    modifies t`metaMarked, t`fileMeta, t.pool`marked, t.pool`file, t.data`marked, t.data`file
    ensures t.Readable() && t.Contents() == old(t.Contents())
    ensures b != null <==> old(t.Dirty()) !! bad
    ensures b != null ==> fresh(b) && b.Valid() && b.Readable() && b.Contents() == t.Contents()
    ensures b != null ==> b.tree == t.tree && b.CurrentMeta() == old(t.CurrentMeta()) && b.cmp == t.cmp
    ensures b != null ==> b.data.spare == old(t.data.spare)
  {
    hide BTree.Valid, BTree.Sound, BTree.Contents, FileHolds, NodeCapacity, BTree.Readable, BTree.Dirty;
    t.ValidReadable();
    t.ValidSound();
    var closed := t.Close(bad);
    if !closed {
      return null;
    }
    b := new BTree.Open(keySize, t.cmp, valueSize, t.data.spare, t.AsFile(), t.tree, t.levels, t.data.stored);
    b.ValidReadable();
    SameContents(t, b);
  }

  /** A removal, and the last save.  The file holds the tree without the entry if the block was
      fetched, that is marked, when the entry was removed; otherwise it holds the tree as it was
      before. */
  method RemoveAndClose<K(==, 0, !new)>(it: Iterator<K>, bad: set<nat>) returns (closed: bool)
    requires it.Ready() && it.On()
    modifies it.btree`tree, it.btree.pool`img, it.cur.kv
    modifies it.btree`metaMarked, it.btree`fileMeta, it.btree.pool`marked, it.btree.pool`file,
      it.btree.data`marked, it.btree.data`file
    ensures it.btree == old(it.btree) && 0 <= old(it.Pos()) < |old(it.Places())|
    ensures Phys(it.btree.tree) == Kill(old(it.Places()), old(it.Pos()))
    ensures closed <==> old(it.btree.Dirty()) !! bad
    ensures closed ==> FileHolds(it.btree.cmp, it.btree.Format(), it.btree.AsFile(),
      if old(it.Fetched()) then it.btree.tree else old(it.btree.tree), old(it.btree.levels), it.btree.data.stored)
  {
    hide BTree.Valid, BTree.Sound, FileHolds, TreeIn, Counted, Iterator.On, Iterator.Ready, Iterator.Pos, Phys,
      BTree.Contents, BTree.Readable, BTree.Dirty, BTree.Snapshot, Pool.Agrees, Pool.Flushed, Kill, SameForm;
    it.Apart();
    var b := it.btree;
    b.ValidSound();
    b.MemoryHolds();
    it.OnParts();
    ghost var img, i := b.pool.img, it.cur.index;
    b.AgreesValid();
    it.Remove();
    if it.Fetched() {
      it.Apart();
    }
    closed := b.Close(bad);
    if closed && !old(it.Fetched()) {
      Pool.ChangeLost(img, old(b.pool.marked), old(b.pool.file), i, b.pool.img[i]);
      b.FileAsMemory(img, old(b.tree), old(b.levels));
    }
  }

  /** The same right after a save: only the root is marked then, so a removal through an iterator
      located before the save is lost when the file is closed, unless it is in the root. */
  method RemoveAfterSave<K(==, 0, !new)>(it: Iterator<K>, bad: set<nat>, badLater: set<nat>)
    returns (saved: bool, closed: bool)
    requires it.Ready() && it.On()
    modifies it.btree`tree, it.btree.pool`img, it.cur.kv
    modifies it.btree`metaMarked, it.btree`fileMeta, it.btree.pool`marked, it.btree.pool`file,
      it.btree.data`marked, it.btree.data`file
    ensures it.btree == old(it.btree) && it.btree.root == old(it.btree.root)
    ensures saved <==> old(it.btree.Dirty()) !! bad
    ensures closed <==> saved && {0, it.btree.root.index} !! badLater
    ensures closed ==> FileHolds(it.btree.cmp, it.btree.Format(), it.btree.AsFile(),
      if it.cur == it.btree.root then it.btree.tree else old(it.btree.tree), old(it.btree.levels), it.btree.data.stored)
  {
    hide BTree.Valid, BTree.Sound, BTree.Dirty, FileHolds, Iterator.On, Iterator.Ready, Phys, Pool.Flushed;
    it.Apart();
    it.OnParts();
    it.btree.ValidSound();
    it.btree.RootOwned();
    ghost var left;
    saved, left := it.btree.Save(bad);
    it.GetReady();
    closed := false;
    if saved {
      it.btree.ValidSound();
      it.btree.DirtyMarks();
      assert it.btree.Dirty() == {0, it.btree.root.index};
      closed := RemoveAndClose(it, badLater);
    }
  }

  // A session: puts, removals and saves in any order, then the close

  datatype Command<K> = PutKey(key: K, value: seq<Byte>) | RemoveKey(key: K) |
    SaveFile(bad: set<nat>)

  /** What a command does to the contents, whether writes to the file succeed or not.  If it is
      `sure` that a data block can be allocated, or none is needed, every new key is entered. */
  ghost predicate Does<K(!new)>(m: map<K, seq<Byte>>, c: Command<K>, sure: bool, m': map<K, seq<Byte>>) {
    match c
    case PutKey(key, value) =>
      if key in m then m' == m else m' == m[key := value] || (!sure && m' == m)
    case RemoveKey(key) => m' == m - {key}
    case SaveFile(_) => m' == m
  }

  ghost predicate IsHistory<K(!new)>(cs: seq<Command<K>>, sure: bool, ms: seq<map<K, seq<Byte>>>) {
    |ms| == |cs| + 1 && forall i :: 0 <= i < |cs| ==> Does(ms[i], cs[i], sure, ms[i + 1])
  }

  lemma HistoryMore<K(!new)>(cs: seq<Command<K>>, sure: bool, ms: seq<map<K, seq<Byte>>>, c: Command<K>,
          m: map<K, seq<Byte>>)
    requires IsHistory(cs, sure, ms) && Does(ms[|cs|], c, sure, m)
    ensures IsHistory(cs + [c], sure, ms + [m])
  {
    hide Does;
    forall i | 0 <= i < |cs| + 1 ensures Does((ms + [m])[i], (cs + [c])[i], sure, (ms + [m])[i + 1]) {
      if i < |cs| {
        assert Does(ms[i], cs[i], sure, ms[i + 1]);
      }
    }
  }

  lemma NoHistory<K(!new)>(sure: bool, m: map<K, seq<Byte>>)
    ensures IsHistory([], sure, [m])
  {
  }

  lemma DoesLess<K(!new)>(m: map<K, seq<Byte>>, c: Command<K>, certain: bool, sure: bool, m': map<K, seq<Byte>>)
    requires Does(m, c, certain, m') && (sure ==> certain)
    ensures Does(m, c, sure, m')
  {
  }

  /** One command; a removal goes to its key first. */
  method Perform<K(==, 0, !new)>(it: Iterator<K>, c: Command<K>)
    requires it.Ready() && (c.PutKey? ==> it.btree.Storable(c.value))
    modifies it, it.btree, it.btree.pool, it.btree.pool.objs, it.btree.data, it.btree.data.objs
    ensures it.btree == old(it.btree) && it.Ready() && old(it.btree.Readable()) && it.btree.Readable()
    ensures fresh(it.btree.pool.objs - old(it.btree.pool.objs)) && fresh(it.btree.data.objs - old(it.btree.data.objs))
    ensures it.btree.data == old(it.btree.data)
    ensures old(it.btree.data.spare) - 1 <= it.btree.data.spare <= old(it.btree.data.spare)
    ensures Does(old(it.btree.Contents()), c, it.btree.isConstValueSize || old(it.btree.data.spare) > 0,
      it.btree.Contents())
  {
    hide BTree.Valid, BTree.Sound, BTree.Contents, BTree.Readable, Iterator.Ready, Iterator.On, Phys, SameForm,
      BTree.Snapshot, BTree.PutDone, Pool.Flushed, BTree.PayloadOK, BTree.ValueOf;
    it.Apart();
    it.btree.ValidReadable();
    match c {
      case PutKey(key, value) =>
        ghost var w, n;
        var res: int;
        res, w, n := it.btree.Put(key, value);
        it.GetReady();
      case RemoveKey(key) =>
        var res := Iterators.RemoveKey(it, key);
      case SaveFile(bad) =>
        it.btree.ValidSound();
        ghost var left;
        var res: bool;
        res, left := it.btree.Save(bad);
        it.GetReady();
    }
  }

  method PerformAll<K(==, 0, !new)>(it: Iterator<K>, cs: seq<Command<K>>) returns (ghost ms: seq<map<K, seq<Byte>>>)
    requires it.Ready() && forall c :: c in cs && c.PutKey? ==> it.btree.Storable(c.value)
    modifies it, it.btree, it.btree.pool, it.btree.pool.objs, it.btree.data, it.btree.data.objs
    ensures it.btree == old(it.btree) && it.Ready() && old(it.btree.Readable()) && it.btree.Readable()
    ensures IsHistory(cs, it.btree.isConstValueSize || old(it.btree.data.spare) >= |cs|, ms) && |ms| == |cs| + 1
    ensures ms[0] == old(it.btree.Contents()) && ms[|cs|] == it.btree.Contents()
  {
    hide BTree.Valid, BTree.Contents, BTree.Readable, Iterator.Ready, Does, BTree.Storable, IsHistory;
    it.Apart();
    it.btree.ValidReadable();
    ms := [it.btree.Contents()];
    ghost var sure := it.btree.isConstValueSize || it.btree.data.spare >= |cs|;
    NoHistory(sure, it.btree.Contents());
    for i := 0 to |cs|
      invariant it.btree == old(it.btree) && it.Ready() && it.btree.Readable()
      invariant fresh(it.btree.pool.objs - old(it.btree.pool.objs))
      invariant fresh(it.btree.data.objs - old(it.btree.data.objs))
      invariant it.btree.data == old(it.btree.data) && it.btree.data.spare >= old(it.btree.data.spare) - i
      invariant IsHistory(cs[..i], sure, ms) && |ms| == i + 1
      invariant ms[0] == old(it.btree.Contents()) && ms[i] == it.btree.Contents()
    {
      assert cs[i] in cs;
      ghost var m, certain := it.btree.Contents(), it.btree.isConstValueSize || it.btree.data.spare > 0;
      Perform(it, cs[i]);
      DoesLess(m, cs[i], certain, sure, it.btree.Contents());
      HistoryMore(cs[..i], sure, ms, cs[i], it.btree.Contents());
      assert cs[..i] + [cs[i]] == cs[..i + 1];
      ms := ms + [it.btree.Contents()];
    }
    assert cs[..|cs|] == cs;
  }

  /** Any commands, with saves that succeed or fail anywhere between them, and then the close.  With
      a data block to spare for each command all of them take effect.  If no write of the close
      fails, the file can be opened again, and has the contents the commands left. */
  method Session<K(==, 0, !new)>(it: Iterator<K>, cs: seq<Command<K>>, keySize: nat, valueSize: nat, bad: set<nat>)
    returns (b: BTree?<K>, ghost ms: seq<map<K, seq<Byte>>>)
    requires NodeCapacity(keySize, LeafValueSize(valueSize)) >= 3 && NodeCapacity(keySize, CHILD_SIZE) >= 3
    requires it.Ready() && it.btree.Format() == FormatOf(keySize, valueSize)
    requires forall c :: c in cs && c.PutKey? ==> it.btree.Storable(c.value)
    modifies it, it.btree, it.btree.pool, it.btree.pool.objs, it.btree.data, it.btree.data.objs
    ensures it.btree == old(it.btree) && old(it.btree.Readable())
    ensures IsHistory(cs, it.btree.isConstValueSize || old(it.btree.data.spare) >= |cs|, ms)
    ensures |ms| == |cs| + 1 && ms[0] == old(it.btree.Contents())
    ensures bad == {} ==> b != null
    ensures b != null ==> fresh(b) && b.Valid() && b.Readable() && b.Contents() == ms[|cs|]
  {
    hide BTree.Valid, BTree.Contents, BTree.Readable, Iterator.Ready, Does, NodeCapacity, BTree.Storable, IsHistory;
    ms := PerformAll(it, cs);
    it.Apart();
    b := CloseAndOpen(it.btree, keySize, valueSize, bad);
  }
}
