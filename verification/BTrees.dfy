/** The B+tree: insertion into its blocks, proved against `Trees.Insert`. */
module BTrees {
  import opened Slots
  import opened Trees
  import opened Blocks
  import opened Layout
  import opened Leaves
  import opened Forms
  import Pool
  import Runs

  // sizeof(NodeValue), the index of a child block, and sizeof(Location)
  const CHILD_SIZE: nat := 4
  const LOCATION_SIZE: nat := 6

  function LeafValueSize(valueSize: nat): nat {
    if valueSize >= 256 then LOCATION_SIZE else valueSize
  }

  /** A pool with one empty leaf in block 1. */
  method NewPool<K(0)>(leafSize: nat, nodeSize: nat) returns (p: Pool.NodePool<K>, block: NodeBlock<K>)
    ensures p.Valid() && fresh(p) && fresh(p.objs) && p.leafSize == leafSize && p.nodeSize == nodeSize
    ensures p.objs == {block, block.kv} && p.Held(block) && block.index == 1 && p.nodes.Keys == {1}
    ensures p.file.Keys == {1}
    ensures p.img == map[1 := Content(true, [], 0, 0)]
  {
    hide NodeBlock.Holds;
    p := new Pool.NodePool(leafSize, nodeSize);
    block := new NodeBlock(1, true, leafSize);
    p.Register(block, Content(true, [], 0, 0));
    p.file := map[1 := Content(true, [], 0, 0)];
  }

  /** The metadata block: the root's index and the counters. */
  datatype Meta = Meta(root: nat, countOfItem: nat, countOfBlock: nat, numberOfBlock: nat)

  // The file of a tree

  /** A tree file: the metadata block, and the node and data blocks by index. */
  datatype TreeFile<K> = TreeFile(meta: Meta, nodes: map<nat, Content<K>>, pages: map<nat, Page>)

  /** How many entries leaves and interior nodes hold, and how values are kept. */
  datatype FileFormat = FileFormat(leafSize: nat, nodeSize: nat, isConst: bool, valueSize: nat)

  function FormatOf(keySize: nat, valueSize: nat): FileFormat
    requires NodeCapacity(keySize, LeafValueSize(valueSize)) >= 3 && NodeCapacity(keySize, CHILD_SIZE) >= 3
  {
    FileFormat(NodeCapacity(keySize, LeafValueSize(valueSize)), NodeCapacity(keySize, CHILD_SIZE),
               valueSize < 256, LeafValueSize(valueSize))
  }

  ghost predicate CanRead(f: FileFormat, stored: map<nat, seq<seq<Byte>>>, w: Payload) {
    if f.isConst then w.Inline? && |w.bytes| == f.valueSize
    else w.Stored? && w.loc.index in stored && w.loc.position < |stored[w.loc.index]|
  }

  /** A tree that lies in these blocks in order, balanced, and with all its values. */
  ghost predicate TreeIn<K(!new)>(cmp: (K, K) -> int, f: FileFormat, img: Image<K>, stored: map<nat, seq<seq<Byte>>>,
          t: Tree<K>, levels: seq<seq<nat>>) {
    var caps := Caps.Caps(f.leafSize, f.nodeSize);
    && |levels| > 0 && f.leafSize >= 3 && f.nodeSize >= 3
    && LiesWhole(img, levels, t, |levels| - 1) && Ordered(cmp, t) && Shape(t, |levels| - 1, caps)
    && t.Count() < Cap(t, caps) && (t.Node? ==> t.Count() >= 2)
    && (forall x :: x in Phys(t) ==> CanRead(f, stored, x.payload))
    && (forall i :: i in img ==> |img[i].items| <= if img[i].leaf then f.leafSize else f.nodeSize)
  }

  /** Every index below the block counter but 0 is that of one node or data block. */
  ghost predicate Counted(meta: Meta, nodes: set<nat>, pages: set<nat>) {
    && 0 < meta.countOfBlock <= meta.numberOfBlock
    && (forall i :: i in nodes ==> 0 < i < meta.countOfBlock && i !in pages)
    && (forall i :: i in pages ==> 0 < i < meta.countOfBlock)
    && (forall i :: 0 < i < meta.countOfBlock ==> i in nodes || i in pages)
  }

  /** The file holds the tree. */
  ghost predicate FileHolds<K(!new)>(cmp: (K, K) -> int, f: FileFormat, file: TreeFile<K>, t: Tree<K>,
          levels: seq<seq<nat>>, stored: map<nat, seq<seq<Byte>>>) {
    && file.meta.root == t.id && Counted(file.meta, file.nodes.Keys, file.pages.Keys)
    && TreeIn(cmp, f, file.nodes, stored, t, levels)
    && stored.Keys == file.pages.Keys && forall i :: i in stored ==> OnPage(file.pages[i], stored[i])
  }

  lemma FileFacts<K(!new)>(cmp: (K, K) -> int, f: FileFormat, file: TreeFile<K>, t: Tree<K>,
          levels: seq<seq<nat>>, stored: map<nat, seq<seq<Byte>>>)
    requires FileHolds(cmp, f, file, t, levels, stored)
    ensures file.meta.root in file.nodes && stored.Keys == file.pages.Keys
    ensures forall i :: i in file.nodes ==>
      |file.nodes[i].items| <= if file.nodes[i].leaf then f.leafSize else f.nodeSize
    ensures forall i :: i in file.pages ==> OnPage(file.pages[i], stored[i])
  {
    hide LiesWhole;
    RootStored(file.nodes, levels, t, |levels| - 1);
  }

  lemma RootStored<K>(img: Image<K>, levels: seq<seq<nat>>, t: Tree<K>, h: nat)
    requires LiesWhole(img, levels, t, h)
    ensures t.id in img
  {
  }

  /** The node blocks of a file in memory, and the root among them. */
  method OpenNodes<K(0)>(leafSize: nat, nodeSize: nat, content: map<nat, Content<K>>, rootIndex: nat)
    returns (p: Pool.NodePool<K>, root: NodeBlock<K>)
    requires rootIndex in content
    requires forall i :: i in content ==> |content[i].items| <= if content[i].leaf then leafSize else nodeSize
    ensures p.Valid() && fresh(p) && fresh(p.objs) && p !in p.objs && p.leafSize == leafSize && p.nodeSize == nodeSize
    ensures p.nodes.Keys == content.Keys && p.img == p.file == content
    ensures p.Held(root) && root.index == rootIndex && p.marked == {rootIndex}
  {
    hide Pool.NodePool.Valid;
    p := new Pool.NodePool(leafSize, nodeSize);
    p.Load(content);
    root := p.Fetch(rootIndex);
    p.Parts();
  }

  /** The data blocks of a file in memory. */
  method OpenDatas(pages: map<nat, Page>, spare: nat, ghost stored: map<nat, seq<seq<Byte>>>) returns (d: Pool.DataPool)
    requires stored.Keys == pages.Keys && forall i :: i in pages ==> OnPage(pages[i], stored[i])
    ensures d.Valid() && fresh(d) && fresh(d.objs) && d !in d.objs
    ensures d.file == pages && d.stored == stored && d.datas.Keys == stored.Keys && d.marked == {} && d.spare == spare
  {
    hide Pool.DataPool.Valid, OnPage;
    d := new Pool.DataPool(spare);
    d.Load(pages, stored);
    d.Known();
  }

  class BTree<K(==, 0, !new)> {
    const cmp: (K, K) -> int
    // Whether values are kept in the leaves; if so, how many bytes they have.
    const isConstValueSize: bool
    const leafValueSize: nat

    const pool: Pool.NodePool<K>
    const data: Pool.DataPool

    // The metadata block: the index of the root block, and the counters.
    var rootIndex: nat
    var countOfItem: nat
    var countOfBlock: nat
    var numberOfBlock: nat
    // Whether the metadata block is marked, and what the file holds of it.
    var metaMarked: bool
    var fileMeta: Meta

    var root: NodeBlock<K>

    // The tree the blocks stand for, and the block indices of its levels, leaves first.
    ghost var tree: Tree<K>
    ghost var levels: seq<seq<nat>>

    /** BTree::create and BTree::open: an empty leaf in block 1 of a file of 32 blocks.
        Values of 256 bytes or more, or of variable size, are kept in data blocks. */
    constructor (keySize: nat, cmp: (K, K) -> int, valueSize: nat, spare: nat)
      requires TotalOrder(cmp)
      requires NodeCapacity(keySize, LeafValueSize(valueSize)) >= 3 && NodeCapacity(keySize, CHILD_SIZE) >= 3
      ensures Valid() && tree == Leaf(1, []) && this.cmp == cmp
      ensures fresh(pool) && fresh(pool.objs) && fresh(data) && fresh(data.objs)
      ensures isConstValueSize == (valueSize < 256) && leafValueSize == LeafValueSize(valueSize)
      ensures countOfItem == 0 && countOfBlock == 2 && numberOfBlock == 32 && data.spare == spare
      ensures Readable() && Contents() == map[]
    {
      hide Pool.NodePool.Valid, Pool.DataPool.Valid, NodeBlock.Holds, LiesWhole, PayloadMap, NodeCapacity, TotalOrder;
      this.cmp := cmp;
      isConstValueSize, leafValueSize := valueSize < 256, LeafValueSize(valueSize);
      var p, block := NewPool<K>(NodeCapacity(keySize, LeafValueSize(valueSize)), NodeCapacity(keySize, CHILD_SIZE));
      pool, root := p, block;
      var d := new Pool.DataPool(spare);
      data := d;
      rootIndex, countOfItem, countOfBlock, numberOfBlock := 1, 0, 2, 32;
      metaMarked, fileMeta := true, Meta(1, 0, 2, 32);
      tree, levels := Leaf(1, []), [[1]];
      new;
      EmptyTreeLies(pool.img, 1);
      EmptyContents();
    }

    /** BTree::open on a file that holds a tree: the metadata block and the root are marked. */
    constructor Open(keySize: nat, cmp: (K, K) -> int, valueSize: nat, spare: nat, file: TreeFile<K>,
                     ghost t: Tree<K>, ghost levels: seq<seq<nat>>, ghost stored: map<nat, seq<seq<Byte>>>)
      requires NodeCapacity(keySize, LeafValueSize(valueSize)) >= 3 && NodeCapacity(keySize, CHILD_SIZE) >= 3
      requires FileHolds(cmp, FormatOf(keySize, valueSize), file, t, levels, stored)
      ensures Valid() && tree == t && this.levels == levels && data.stored == stored && this.cmp == cmp
      ensures fresh(pool) && fresh(pool.objs) && fresh(data) && fresh(data.objs)
      ensures Format() == FormatOf(keySize, valueSize) && AsFile() == file && CurrentMeta() == file.meta
      ensures pool.marked == {root.index} && data.marked == {} && data.spare == spare
    {
      hide Pool.NodePool.Valid, Pool.DataPool.Valid, Valid, FileHolds, NodeCapacity, OnPage;
      this.cmp := cmp;
      isConstValueSize, leafValueSize := valueSize < 256, LeafValueSize(valueSize);
      FileFacts(cmp, FormatOf(keySize, valueSize), file, t, levels, stored);
      var p, top := OpenNodes(NodeCapacity(keySize, LeafValueSize(valueSize)), NodeCapacity(keySize, CHILD_SIZE),
                              file.nodes, file.meta.root);
      var d := OpenDatas(file.pages, spare, stored);
      pool, data, root := p, d, top;
      rootIndex, countOfItem := file.meta.root, file.meta.countOfItem;
      countOfBlock, numberOfBlock := file.meta.countOfBlock, file.meta.numberOfBlock;
      metaMarked, fileMeta := true, file.meta;
      tree, this.levels := t, levels;
      new;
      Opened(file);
    }

    lemma Opened(file: TreeFile<K>)
      requires FileHolds(cmp, Format(), file, tree, levels, data.stored)
      requires pool.Valid() && data.Valid() && pool.Held(root) && root.index == file.meta.root && metaMarked
      requires {this, pool, data} !! pool.objs && {this, pool, data} !! data.objs && pool.objs !! data.objs
      requires pool.nodes.Keys == file.nodes.Keys && pool.img == pool.file == file.nodes
      requires data.file == file.pages && data.datas.Keys == data.stored.Keys && CurrentMeta() == file.meta
      ensures Valid()
    {
      hide Pool.NodePool.Valid, Pool.DataPool.Valid, LiesWhole, Ordered, Shape, OnPage;
    }

    /** The metadata block, and the blocks as the file has them. */
    function CurrentMeta(): Meta
      reads `rootIndex, `countOfItem, `countOfBlock, `numberOfBlock
    {
      Meta(rootIndex, countOfItem, countOfBlock, numberOfBlock)
    }

    function AsFile(): TreeFile<K>
      reads `fileMeta, pool`file, data`file
    {
      TreeFile(fileMeta, pool.file, data.file)
    }

    function Format(): FileFormat {
      FileFormat(pool.leafSize, pool.nodeSize, isConstValueSize, leafValueSize)
    }

    lemma EmptyContents()
      requires Readable() && Phys(tree) == []
      ensures Contents() == map[]
    {
    }

    /** Block 0 is the metadata block; every other index below `countOfBlock` has
        been handed out once, to a node block or to a data block.  The objects of
        the two pools are apart. */
    ghost predicate Frame()
      reads this`countOfBlock, this`numberOfBlock, this`metaMarked, pool`nodes, pool`objs, pool`file,
        data`datas, data`objs, data`file
    {
      Placed() && metaMarked && pool.file.Keys <= pool.nodes.Keys && data.file.Keys <= data.datas.Keys
    }

    ghost predicate Placed()
      reads this`countOfBlock, this`numberOfBlock, pool`nodes, pool`objs, data`datas, data`objs
    {
      && {this, pool, data} !! pool.objs && {this, pool, data} !! data.objs && pool.objs !! data.objs
      && pool.leafSize >= 3 && pool.nodeSize >= 3
      && 0 < countOfBlock <= numberOfBlock
      && (forall i :: i in pool.nodes ==> 0 < i < countOfBlock && i !in data.datas)
      && (forall i :: i in data.datas ==> 0 < i < countOfBlock)
      && (forall i :: 0 < i < countOfBlock ==> i in pool.nodes || i in data.datas)
    }

    /** All objects of the tree. */
    ghost function Repr(): set<object>
      reads pool`objs, data`objs
    {
      {this, pool, data} + pool.objs + data.objs
    }

    /** Only new objects and blocks were added to the node pool, no mark was taken away, and
        nothing was written to the file. */
    twostate predicate Grown()
      reads pool`nodes, pool`objs, pool`marked, pool`file
    {
      && old(pool.marked) <= pool.marked && pool.file == old(pool.file)
      && fresh(pool.objs - old(pool.objs)) && old(pool.objs) <= pool.objs
      && forall i :: i in old(pool.nodes) ==> i in pool.nodes && pool.nodes[i] == old(pool.nodes)[i]
    }

    method GetFreeNodeBlock(leaf: bool) returns (n: NodeBlock<K>)
      requires pool.Valid() && Frame()
      modifies this`countOfBlock, this`numberOfBlock, pool
      ensures pool.Valid() && Frame() && Grown() && pool.Held(n) && n.leaf == leaf
      ensures n.index == old(countOfBlock) && countOfBlock == old(countOfBlock) + 1
      ensures numberOfBlock == if old(numberOfBlock == countOfBlock) then 2 * old(countOfBlock) else old(numberOfBlock)
      ensures n.index !in old(pool.nodes) && fresh(n) && fresh(n.kv)
      ensures pool.img == old(pool.img)[n.index := Content(leaf, [], 0, 0)]
    {
      hide NodeBlock.Holds, Pool.NodePool.Valid;
      GrowFile();
      n := new NodeBlock(countOfBlock, leaf, if leaf then pool.leafSize else pool.nodeSize);
      pool.Register(n, Content(leaf, [], 0, 0));
      countOfBlock := countOfBlock + 1;
    }

    /** BTree::getNodeBlock; the index is below `countOfBlock`. */
    method GetNodeBlock(index: nat) returns (n: NodeBlock<K>)
      requires pool.Valid() && index in pool.nodes
      modifies pool`marked
      ensures pool.Valid() && pool.Held(n) && n.index == index && pool.marked == old(pool.marked) + {index}
      ensures old(Valid()) ==> Valid()
    {
      hide Pool.NodePool.Valid, Valid, Steady;
      ValidParts();
      if Steady() {
        SteadyApart();
      }
      n := pool.Fetch(index);
      ValidParts();
    }

    lemma SteadyApart()
      requires Steady()
      ensures {this, pool, data} !! data.objs
    {
    }

    /** Chains the new block `next` after `son`. */
    method Chain(son: NodeBlock<K>, next: NodeBlock<K>)
      requires pool.Valid() && pool.Held(son) && pool.Held(next)
      requires {this, pool, data} !! pool.objs
      requires pool.img[son.index].next != 0 ==> pool.img[son.index].next in pool.img
      modifies pool`img, pool`marked, pool.objs
      ensures old(pool.marked) <= pool.marked
      ensures pool.Valid() && pool.img == LinkImage(old(pool.img), son.index, next.index)
    {
      hide Pool.NodePool.Valid;
      pool.Known(son);
      pool.Known(next);
      if son.next != 0 {
        ChainOld(son.next, next);
      }
      pool.SetNext(son, next.index);
      pool.SetLast(next, son.index);
    }

    method ChainOld(index: nat, next: NodeBlock<K>)
      requires pool.Valid() && index in pool.nodes && pool.Held(next)
      requires {this, pool, data} !! pool.objs
      modifies pool`img, pool`marked, pool.objs
      ensures old(pool.marked) <= pool.marked
      ensures pool.Valid() && pool.img == LinkOld(old(pool.img), index, next.index)
    {
      hide Pool.NodePool.Valid;
      var oldnext := GetNodeBlock(index);
      pool.Known(oldnext);
      pool.Known(next);
      pool.SetLast(oldnext, next.index);
      pool.SetNext(next, index);
    }

    /** Moves the upper half of a full node block to a new one. */
    method HalveOff(son: NodeBlock<K>) returns (next: NodeBlock<K>)
      requires pool.Valid() && Frame() && pool.Held(son)
      modifies this`countOfBlock, this`numberOfBlock, pool, pool.objs
      ensures pool.Valid() && Frame() && Grown() && pool.Held(next)
      ensures next.index == old(countOfBlock) && countOfBlock == old(countOfBlock) + 1
      ensures next.index !in old(pool.img)
      ensures pool.img == HalveImage(old(pool.img), son.index, next.index)
    {
      hide Pool.NodePool.Valid;
      pool.Known(son);
      next := GetFreeNodeBlock(son.leaf);
      pool.SplitInto(son, next);
    }

    /** Splits a full node block and chains the new block after it. */
    method SplitOff(son: NodeBlock<K>) returns (next: NodeBlock<K>)
      requires pool.Valid() && Frame() && pool.Held(son) && son.index in pool.img
      requires pool.img[son.index].next != 0 ==> pool.img[son.index].next in pool.img
      modifies this`countOfBlock, this`numberOfBlock, pool, pool.objs
      ensures pool.Valid() && Frame() && Grown() && pool.Held(next)
      ensures next.index == old(countOfBlock) && countOfBlock == old(countOfBlock) + 1
      ensures next.index !in old(pool.img)
      ensures pool.img == LinkImage(HalveImage(old(pool.img), son.index, next.index), son.index, next.index)
    {
      hide Pool.NodePool.Valid;
      next := HalveOff(son);
      Chain(son, next);
    }

    /** Redirects entry `j` of `cur` to block `m`, and enters `son` under its greatest key. */
    method EnterLower(cur: NodeBlock<K>, j: nat, son: NodeBlock<K>, m: nat, ghost k: K, ghost at: nat)
      requires pool.Valid() && pool.Held(cur) && pool.Held(son) && {this, pool, data} !! pool.objs
      requires cur.index != son.index && {cur.index, son.index} <= pool.img.Keys
      requires j < |pool.img[cur.index].items| < cur.kv.Length
      requires pool.img[son.index].items != [] && k == pool.img[son.index].items[|pool.img[son.index].items| - 1].key
      requires var c := pool.img[cur.index].items;
        var s := c[j := Overwritten(c[j], None, Some(Child(m)), true)];
        Monotone(At(cmp, k), s) && at == Slots.Lub(s, At(cmp, k))
      modifies pool`img, pool.objs
      ensures pool.Valid() && pool.img == EnterImage(old(pool.img), cur.index, j, m, k, son.index, at)
    {
      hide Pool.NodePool.Valid, Slots.Lub;
      pool.Known(cur);
      pool.SetAt(cur, j, None, Some(Child(m)), true);
      EnterSon(cur, son, k);
    }

    /** NodeBlock::insert of a child under its greatest key. */
    method EnterSon(cur: NodeBlock<K>, son: NodeBlock<K>, ghost k: K)
      requires pool.Valid() && pool.Held(cur) && pool.Held(son) && {this, pool, data} !! pool.objs
      requires {cur.index, son.index} <= pool.img.Keys && |pool.img[cur.index].items| < cur.kv.Length
      requires pool.img[son.index].items != [] && k == pool.img[son.index].items[|pool.img[son.index].items| - 1].key
      requires Monotone(At(cmp, k), pool.img[cur.index].items)
      modifies pool`img, pool.objs
      ensures pool.Valid()
      ensures var c := old(pool.img[cur.index]);
        var at := Slots.Lub(c.items, At(cmp, k));
        pool.img == old(pool.img)[cur.index :=
          c.(items := c.items[..at] + [Slot(k, true, Child(son.index))] + c.items[at..])]
    {
      hide Pool.NodePool.Valid, Slots.Lub;
      pool.Known(cur);
      pool.Known(son);
      var key := son.MaxKey(pool.img[son.index]);
      var place := cur.Lub(At(cmp, key), pool.img[cur.index]);
      pool.InsertAt(cur, key, Child(son.index), place);
    }

    lemma FrameFacts()
      requires Frame()
      ensures {this, pool, data} !! pool.objs && {this, pool, data} !! data.objs && pool.objs !! data.objs
      ensures pool.leafSize >= 3 && pool.nodeSize >= 3 && 0 < countOfBlock
      ensures countOfBlock !in pool.nodes && countOfBlock !in data.datas
    {
    }

    /** The writes of a split. */
    method WriteSplit(cur: NodeBlock<K>, j: nat, son: NodeBlock<K>, ghost k: K)
      requires pool.Valid() && Frame() && pool.Held(cur) && pool.Held(son)
      requires CanWriteSplit(pool.img, cur.index, j, son.index, countOfBlock)
      requires var half := pool.img[son.index].items[..(|pool.img[son.index].items| + 1) / 2];
        half != [] && half[|half| - 1].key == k
      requires |pool.img[cur.index].items| < cur.kv.Length
      requires var s := pool.img[cur.index].items;
        var s' := s[j := Overwritten(s[j], None, Some(Child(countOfBlock)), true)];
        Monotone(At(cmp, k), s') && Slots.Lub(s', At(cmp, k)) == j
      modifies this`countOfBlock, this`numberOfBlock, pool, pool.objs
      ensures pool.Valid() && Frame() && Grown() && countOfBlock == old(countOfBlock) + 1
      ensures pool.img == SplitImage(old(pool.img), cur.index, j, son.index, old(countOfBlock), k)
    {
      hide Pool.NodePool.Valid, Frame, Slots.Lub, Monotone;
      FrameFacts();
      var next := SplitOff(son);
      FrameFacts();
      EnterLower(cur, j, son, next.index, k, j);
    }

    /** The split of the full child `j` of `cur`. */
    method SplitSon(cur: NodeBlock<K>, j: nat, son: NodeBlock<K>,
                    ghost t: Tree<K>, ghost h: nat, ghost pre: seq<seq<nat>>, ghost post: seq<seq<nat>>)
      requires pool.Valid() && Frame() && pool.Held(cur) && pool.Held(son)
      requires CanSplit(pool.img, levels, t, h, pre, post, j, countOfBlock) && Ordered(cmp, t)
      requires cur.index == t.id && son.index == t.entries[j].kid.id && t.Count() < cur.kv.Length
      requires t.Node? && j < |t.entries|
      modifies this`levels, this`countOfBlock, this`numberOfBlock, pool, pool.objs
      ensures pool.Valid() && Frame() && Grown() && countOfBlock == old(countOfBlock) + 1
      ensures Lies(pool.img, levels, SplitKid(t, j, old(countOfBlock)), h, pre, post)
      ensures SplitDone(old(pool.img), pool.img, t, j, old(countOfBlock))
      ensures 0 < h == |pre| <= |old(levels)| && |pre[h - 1]| + j < |old(levels)[h - 1]|
      ensures levels == LevelsAfterSplit(old(levels), h, pre, j, old(countOfBlock))
    {
      hide Pool.NodePool.Valid, Frame, Slots.Lub, CanSplit, Sorted, Monotone, Split, SplitKid, SplitDone, SplitImage;
      FrameFacts();
      ghost var m, img := countOfBlock, pool.img;
      ghost var k := SplitFacts(img, levels, t, h, pre, post, j, m, cmp);
      WriteSplit(cur, j, son, k);
      SplitLies(img, levels, t, h, pre, post, j, m, pool.img);
      levels := LevelsAfterSplit(levels, h, pre, j, m);
    }

    // Values of variable size

    /** Every value stored before is still where it was, and at most one block was allocated. */
    twostate predicate Kept()
      reads data`stored, data`objs, data`file, data`spare
    {
      && data.spare <= old(data.spare) <= data.spare + 1
      && fresh(data.objs - old(data.objs)) && old(data.objs) <= data.objs && data.file == old(data.file)
      && forall i :: i in old(data.stored) ==> i in data.stored && old(data.stored)[i] <= data.stored[i]
    }

    /** Doubles the file when every block of it is in use. */
    method GrowFile()
      requires Frame()
      modifies this`numberOfBlock
      ensures Frame() && countOfBlock < numberOfBlock
      ensures numberOfBlock == if old(numberOfBlock) == countOfBlock then 2 * countOfBlock else old(numberOfBlock)
    {
      if numberOfBlock == countOfBlock {
        numberOfBlock := numberOfBlock * 2;
      }
    }

    ghost predicate IsData(b: DataBlock)
      reads data`datas, data`marked
    {
      b.index in data.datas && data.datas[b.index] == b && b.index in data.marked
    }

    method AddDataBlock() returns (b: DataBlock)
      requires data.Valid() && Frame() && countOfBlock < numberOfBlock
      modifies this`countOfBlock, data`datas, data`marked, data`stored, data`objs
      ensures data.Valid() && Frame() && Kept() && IsData(b) && fresh(b) && fresh(b.bytes)
      ensures countOfBlock == old(countOfBlock) + 1 && b.index == old(countOfBlock) && b.FreeSize() == 4066
      ensures b.index !in old(data.stored) && data.stored == old(data.stored)[b.index := []]
    {
      hide DataBlock.Holds, Pool.DataPool.Valid;
      data.Known();
      b := new DataBlock(countOfBlock);
      data.Register(b);
      countOfBlock := countOfBlock + 1;
    }

    /** BTree::getFreeDataBlock; null if there is no memory for the block. */
    method GetFreeDataBlock() returns (b: DataBlock?)
      requires data.Valid() && Frame()
      modifies this`countOfBlock, this`numberOfBlock, data
      ensures data.Valid() && Frame() && Kept()
      ensures numberOfBlock == if old(numberOfBlock == countOfBlock) then 2 * old(countOfBlock) else old(numberOfBlock)
      ensures b == null <==> old(data.spare) == 0
      ensures data.spare == old(data.spare) - if b == null then 0 else 1
      ensures b == null ==> countOfBlock == old(countOfBlock) && data.stored == old(data.stored)
      ensures b != null ==> IsData(b) && fresh(b) && fresh(b.bytes) && b.FreeSize() == 4066
      ensures b != null ==> countOfBlock == old(countOfBlock) + 1 && b.index == old(countOfBlock)
      ensures b != null ==> b.index !in old(data.stored) && data.stored == old(data.stored)[b.index := []]
    {
      hide Pool.DataPool.Valid, Frame;
      FrameFacts();
      GrowFile();
      if data.spare == 0 {
        return null;
      }
      data.spare := data.spare - 1;
      b := AddDataBlock();
    }

    /** The value fits in data block `index`. */
    ghost predicate HasRoom(index: nat, value: seq<Byte>)
      requires data.Valid()
      reads data`datas, data`marked, data`file, data`stored, data`objs, data.objs
    {
      data.Known();
      index in data.datas && (data.KnownBlock(index); |value| < data.datas[index].FreeSize())
    }

    /** The block for a value: a new one, or one that is there. */
    method BlockFor(index: nat) returns (b: DataBlock?)
      requires data.Valid() && Frame() && (index == countOfBlock || index in data.datas)
      modifies this`countOfBlock, this`numberOfBlock, data
      ensures data.Valid() && Frame() && Kept() && (b != null ==> IsData(b) && b.index == index)
      ensures b == null <==> index == old(countOfBlock) && old(data.spare) == 0
      ensures var more := if b != null && index == old(countOfBlock) then 1 else 0;
        countOfBlock == old(countOfBlock) + more && data.spare == old(data.spare) - more
      ensures b != null && index == old(countOfBlock) ==>
        b.FreeSize() == 4066 && index !in old(data.stored) && data.stored == old(data.stored)[index := []]
      ensures b == null || index != old(countOfBlock) ==> data.stored == old(data.stored)
      ensures index != old(countOfBlock) ==> b == old(data.datas)[index]
      ensures b != null ==> (fresh(b) && fresh(b.bytes)) || (b in old(data.objs) && b.bytes in old(data.objs))
    {
      hide Pool.DataPool.Valid, Frame;
      FrameFacts();
      if index == countOfBlock {
        b := GetFreeDataBlock();
      } else {
        b := data.Fetch(index);
        data.KnownBlock(index);
      }
    }

    /** Stores a value in data block `index`, or in a new block if that is full or
        `index` is the next unused one.  The values stored before stay as they are.
        It fails only if a new block is needed and there is no memory for it. */
    method InsertValue(index: nat, value: seq<Byte>) returns (ok: bool, loc: Location)
      requires data.Valid() && Frame()
      requires index == countOfBlock || index in data.datas
      requires |value| < 4066
      modifies this`countOfBlock, this`numberOfBlock, data, data.objs
      ensures data.Valid() && Frame() && Kept()
      ensures ok <==> old(HasRoom(index, value)) || old(data.spare) > 0
      ensures var more := if ok && !old(HasRoom(index, value)) then 1 else 0;
        countOfBlock == old(countOfBlock) + more && data.spare == old(data.spare) - more
      ensures ok ==> loc.index == if old(HasRoom(index, value)) then index else old(countOfBlock)
      ensures ok ==> !old(data.Has(loc)) && data.Has(loc) && data.ValueAt(loc) == value
      ensures !ok ==> data.stored == old(data.stored)
      decreases if index == countOfBlock then 0 else 1
    {
      hide Pool.DataPool.Valid, Frame, HasRoom, DataBlock.FreeSize;
      FrameFacts();
      RoomMeans(index, value);
      var block := BlockFor(index);
      if block == null {
        return false, Location(0, 0);
      }
      data.Known();
      FrameFacts();
      if block.FreeSize() <= |value| {
        // header.next of a data block is 0: insert into a new block
        RoomMeans(countOfBlock, value);
        ok, loc := InsertValue(countOfBlock, value);
        return;
      }
      var position: nat;
      ok, position := data.StoreIn(block, value);
      loc := Location(block.index, position);
    }

    lemma RoomMeans(index: nat, value: seq<Byte>)
      requires data.Valid()
      ensures HasRoom(index, value) <==> index in data.datas && |value| < data.datas[index].FreeSize()
    {
    }

    /** What the value bytes of a leaf entry may be. */
    ghost predicate PayloadOK(w: Payload)
      reads data`stored
    {
      if isConstValueSize then w.Inline? && |w.bytes| == leafValueSize else w.Stored? && data.Has(w.loc)
    }

    ghost function ValueOf(w: Payload): seq<Byte>
      requires PayloadOK(w)
      reads data`stored
    {
      if isConstValueSize then w.bytes else data.ValueAt(w.loc)
    }

    ghost predicate PayloadsOK(s: seq<Slot<K>>)
      reads data`stored
    {
      forall x :: x in s ==> PayloadOK(x.payload)
    }

    /** The sizes of value that can be stored: in constant-size mode the bytes copied
        are those of one value, otherwise the value has to fit in an empty block. */
    ghost predicate Storable(value: seq<Byte>) {
      if isConstValueSize then |value| == leafValueSize else |value| < 4066
    }

    /** The block that a value for place `at` of a leaf goes to if it has room: that of the value
        there, or of the one before at the end of the leaf; a new block if the leaf is empty. */
    ghost function HintOf(s: seq<Slot<K>>, at: nat): nat
      requires at <= |s|
      reads `countOfBlock
    {
      if s == [] then countOfBlock
      else
        var w := s[if at == |s| then at - 1 else at].payload;
        if w.Stored? then w.loc.index else countOfBlock
    }

    /** A value can be stored for place `at` of a leaf. */
    ghost predicate CanStore(s: seq<Slot<K>>, at: nat, value: seq<Byte>)
      requires at <= |s| && data.Valid()
      reads `countOfBlock, data, data.objs
    {
      isConstValueSize || HasRoom(HintOf(s, at), value) || data.spare > 0
    }


    method LeafHint(cur: NodeBlock<K>, at: nat, ghost c: Content<K>) returns (index: nat)
      requires !isConstValueSize && cur.Holds(c) && at <= |c.items| && PayloadsOK(c.items)
      requires data.Valid()
      ensures index == countOfBlock || index in data.datas
      ensures index == HintOf(c.items, at)
    {
      hide Pool.DataPool.Valid;
      data.Known();
      if cur.count == 0 {
        index := countOfBlock;
      } else {
        var s := cur.Entry(if at == cur.count then at - 1 else at, c);
        assert s in c.items;
        index := s.payload.loc.index;
      }
    }

    /** The bytes to put in a leaf entry for `value`. */
    method StoreValue(cur: NodeBlock<K>, at: nat, value: seq<Byte>, ghost c: Content<K>) returns (ok: bool, w: Payload)
      requires data.Valid() && Frame() && Storable(value)
      requires cur.Holds(c) && at <= |c.items| && PayloadsOK(c.items)
      modifies this`countOfBlock, this`numberOfBlock, data, data.objs
      ensures data.Valid() && Frame() && Kept() && old(countOfBlock) <= countOfBlock
      ensures ok <==> old(CanStore(c.items, at, value))
      ensures isConstValueSize ==> data.spare == old(data.spare)
      ensures ok && !isConstValueSize ==> w.Stored?
      ensures ok && !isConstValueSize ==>
        w.loc.index == old(if HasRoom(HintOf(c.items, at), value) then HintOf(c.items, at) else countOfBlock)
      ensures ok ==> PayloadOK(w) && ValueOf(w) == value
    {
      hide Pool.DataPool.Valid, Frame, NodeBlock.Holds;
      if isConstValueSize {
        return true, Inline(value);
      }
      var index := LeafHint(cur, at, c);
      var loc: Location;
      ok, loc := InsertValue(index, value);
      w := Stored(loc);
    }

    /** The value can be stored for the leaf that a put of the key ends in. */
    ghost predicate CanStoreFor(t: Tree<K>, key: K, value: seq<Byte>)
      requires data.Valid()
      reads `countOfBlock, data, data.objs
    {
      var s := LeafFor(t, At(cmp, key));
      CanStore(s, Slots.Lub(s, At(cmp, key)), value)
    }

    lemma StoreForKid(t: Tree<K>, key: K, value: seq<Byte>)
      requires data.Valid() && t.Node? && |t.entries| > 0
      ensures CanStoreFor(t, key, value) <==> CanStoreFor(t.entries[Pick(t, At(cmp, key))].kid, key, value)
    {
      hide Pick, Slots.Lub, Pool.DataPool.Valid, CanStore;
    }

    /** What a put that enters nothing leaves: 0, the key is live, changes no block at all;
        -1 happens only if there is no memory for a new block, and never to values kept in the leaf. */
    twostate predicate Idle(res: int)
      reads `countOfBlock, data`stored, data`spare
    {
      && old(countOfBlock) <= countOfBlock && data.spare == old(data.spare)
      && (res == 0 ==> countOfBlock == old(countOfBlock) && data.stored == old(data.stored))
      && (res == -1 ==> !isConstValueSize && old(data.spare) == 0)
    }

    /** Enters a key in a leaf: 1 if it was not live, 0 if it was, -1 if the value
        could not be stored. */
    method InsertLeaf(cur: NodeBlock<K>, index: nat, key: K, value: seq<Byte>) returns (res: int, ghost w: Payload)
      requires pool.Valid() && data.Valid() && Frame() && pool.Held(cur) && cur.index in pool.img && Storable(value)
      requires var s := pool.img[cur.index].items;
        index == Slots.Lub(s, At(cmp, key)) && PayloadsOK(s) && |s| < cur.kv.Length
      modifies this`countOfBlock, this`numberOfBlock, pool`img, pool.objs, data, data.objs
      ensures pool.Valid() && data.Valid() && Frame() && Kept() && old(countOfBlock) <= countOfBlock
      ensures res == 0 <==> Live(old(pool.img[cur.index].items), At(cmp, key))
      ensures res != 0 ==> res == if old(CanStore(pool.img[cur.index].items, index, value)) then 1 else -1
      ensures res != 1 ==> Idle(res)
      ensures res != 1 ==> pool.img == old(pool.img)
      ensures res == 1 ==> PayloadOK(w) && ValueOf(w) == value
      ensures res == 1 ==> pool.img == old(pool.img)[cur.index :=
        old(pool.img[cur.index]).(items := Enter(old(pool.img[cur.index].items), At(cmp, key), key, w))]
    {
      hide Pool.NodePool.Valid, Pool.DataPool.Valid, Frame, NodeBlock.Holds, Slots.Lub, PayloadsOK, PayloadOK, ValueOf;
      pool.Known(cur);
      ghost var c := pool.img[cur.index];
      FrameFacts();
      w := Child(0);
      if index < cur.count {
        var e := cur.Entry(index, c);
        if cmp(e.key, key) == 0 {
          if e.live {
            return 0, w;
          }
          res, w := Revive(cur, index, value);
          return;
        }
      }
      res, w := EnterNew(cur, index, key, value);
    }

    /** A removed entry gets a new value and is live again. */
    method Revive(cur: NodeBlock<K>, index: nat, value: seq<Byte>) returns (res: int, ghost w: Payload)
      requires pool.Valid() && data.Valid() && Frame() && pool.Held(cur) && cur.index in pool.img && Storable(value)
      requires index < |pool.img[cur.index].items| && PayloadsOK(pool.img[cur.index].items)
      modifies this`countOfBlock, this`numberOfBlock, pool`img, pool.objs, data, data.objs
      ensures pool.Valid() && data.Valid() && Frame() && Kept() && old(countOfBlock) <= countOfBlock
      ensures res == if old(CanStore(pool.img[cur.index].items, index, value)) then 1 else -1
      ensures res == 1 ==> PayloadOK(w) && ValueOf(w) == value
      ensures var c := old(pool.img[cur.index]);
        pool.img == if res == 1 then
          old(pool.img)[cur.index := c.(items := c.items[index := Slot(c.items[index].key, true, w)])]
                    else old(pool.img)
    {
      hide Pool.NodePool.Valid, Pool.DataPool.Valid, Frame, NodeBlock.Holds, PayloadsOK, PayloadOK, ValueOf, Kept;
      pool.Known(cur);
      FrameFacts();
      ghost var c := pool.img[cur.index];
      var ok: bool, payload: Payload;
      ok, payload := StoreValue(cur, index, value, c);
      w := payload;
      if !ok {
        return -1, w;
      }
      FrameFacts();
      pool.Known(cur);
      pool.SetAt(cur, index, None, Some(payload), true);
      res := 1;
    }

    method EnterNew(cur: NodeBlock<K>, index: nat, key: K, value: seq<Byte>) returns (res: int, ghost w: Payload)
      requires pool.Valid() && data.Valid() && Frame() && pool.Held(cur) && cur.index in pool.img && Storable(value)
      requires index <= |pool.img[cur.index].items| < cur.kv.Length && PayloadsOK(pool.img[cur.index].items)
      modifies this`countOfBlock, this`numberOfBlock, pool`img, pool.objs, data, data.objs
      ensures pool.Valid() && data.Valid() && Frame() && Kept() && old(countOfBlock) <= countOfBlock
      ensures res == if old(CanStore(pool.img[cur.index].items, index, value)) then 1 else -1
      ensures res == 1 ==> PayloadOK(w) && ValueOf(w) == value
      ensures var c := old(pool.img[cur.index]);
        pool.img == if res == 1 then
          old(pool.img)[cur.index := c.(items := c.items[..index] + [Slot(key, true, w)] + c.items[index..])]
                    else old(pool.img)
    {
      hide Pool.NodePool.Valid, Pool.DataPool.Valid, Frame, NodeBlock.Holds, PayloadsOK, PayloadOK, ValueOf, Kept;
      pool.Known(cur);
      FrameFacts();
      var ok: bool, payload: Payload;
      ok, payload := StoreValue(cur, index, value, pool.img[cur.index]);
      w := payload;
      if !ok {
        return -1, w;
      }
      FrameFacts();
      pool.InsertAt(cur, key, payload, index);
      res := 1;
    }

    /** The separator of child `j` becomes the child's greatest key, if the key entered
        was beyond it. */
    method FixSeparator(cur: NodeBlock<K>, j: nat, son: NodeBlock<K>, beyond: bool, ghost sep: K)
      requires pool.Valid() && pool.Held(cur) && pool.Held(son) && {this, pool, data} !! pool.objs
      requires {cur.index, son.index} <= pool.img.Keys && cur.index != son.index
      requires j < |pool.img[cur.index].items| && pool.img[cur.index].items[j].live
      requires var s := pool.img[son.index].items; s != [] && sep == if beyond then s[|s| - 1].key
        else pool.img[cur.index].items[j].key
      modifies pool`img, pool.objs
      ensures pool.Valid() && pool.img == KeyImage(old(pool.img), cur.index, j, sep)
    {
      hide Pool.NodePool.Valid;
      pool.Known(cur);
      pool.Known(son);
      if beyond {
        var key := son.MaxKey(pool.img[son.index]);
        pool.SetAt(cur, j, Some(key), None, true);
      } else {
        KeyImageSame(pool.img, cur.index, j);
      }
    }

    ghost function Sizes(): Caps {
      Caps.Caps(pool.leafSize, pool.nodeSize)
    }

    /** After an insertion below `son`, child `j` of `cur`: the separator is adjusted, and
        the child is split if it is full. */
    method AfterSon(cur: NodeBlock<K>, j: nat, son: NodeBlock<K>, beyond: bool,
                    ghost sep: K, ghost img0: Image<K>, ghost levels0: seq<seq<nat>>,
                    ghost t: Tree<K>, ghost h: nat, ghost pre: seq<seq<nat>>, ghost post: seq<seq<nat>>,
                    ghost s: Tree<K>)
      requires pool.Valid() && Frame() && pool.Held(cur) && pool.Held(son) && cur.index == t.id && son.index == s.id
      requires KidChanged(img0, levels0, pool.img, levels, t, h, pre, post, j, s)
      requires s.Count() > 0 && t.Count() < cur.kv.Length
      requires sep == if beyond then s.MaxKey() else t.entries[j].sep
      requires Ordered(cmp, ReplaceKid(t, j, sep, s))
      modifies this`levels, this`countOfBlock, this`numberOfBlock, pool, pool.objs
      ensures pool.Valid() && Frame() && Grown()
      ensures var (t', n) := Graft(t, j, sep, s, old(countOfBlock), Sizes());
        countOfBlock == n && Became(img0, levels0, pool.img, levels, t, t', h, pre, post)
    {
      hide Pool.NodePool.Valid, Frame, KidChanged, Became, Ordered, SplitKid, CanSplit, SplitDone, Lies;
      FrameFacts();
      KidChangedFacts(img0, levels0, pool.img, levels, t, h, pre, post, j, s);
      SeparatorFixed(img0, levels0, pool.img, levels, t, h, pre, post, j, sep, s);
      FixSeparator(cur, j, son, beyond, sep);
      ghost var t1 := ReplaceKid(t, j, sep, s);
      pool.Known(son);
      if son.count == son.kv.Length {
        SplitFull(cur, j, son, img0, levels0, t, t1, h, pre, post);
      }
    }

    method SplitFull(cur: NodeBlock<K>, j: nat, son: NodeBlock<K>,
                     ghost img0: Image<K>, ghost levels0: seq<seq<nat>>,
                     ghost t: Tree<K>, ghost t1: Tree<K>, ghost h: nat, ghost pre: seq<seq<nat>>,
                     ghost post: seq<seq<nat>>)
      requires pool.Valid() && Frame() && pool.Held(cur) && pool.Held(son)
      requires Became(img0, levels0, pool.img, levels, t, t1, h, pre, post) && Ordered(cmp, t1)
      requires t1.Node? && h > 0 && j < |t1.entries| && t1.entries[j].kid.Count() >= 3
      requires cur.index == t1.id && son.index == t1.entries[j].kid.id && t1.Count() < cur.kv.Length
      modifies this`levels, this`countOfBlock, this`numberOfBlock, pool, pool.objs
      ensures pool.Valid() && Frame() && Grown() && countOfBlock == old(countOfBlock) + 1
      ensures Became(img0, levels0, pool.img, levels, t, SplitKid(t1, j, old(countOfBlock)), h, pre, post)
    {
      hide Pool.NodePool.Valid, Frame, Ordered, SplitKid, SplitDone, Rep, Distinct, Chained, NoRepeat, Within,
        OnlyBelow, NewIds;
      FrameFacts();
      pool.Known(son);
      ghost var m, img1, levels1 := countOfBlock, pool.img, levels;
      assert CanSplit(img1, levels1, t1, h, pre, post, j, m);
      SplitSon(cur, j, son, t1, h, pre, post);
      SplitBecame(img0, levels0, img1, levels1, pool.img, levels, t, t1, h, pre, post, j, m);
    }

    /** What an insertion below block `t.id` needs: the subtree lies in the blocks, is in
        order, balanced and not full, and its values can be read. */
    ghost predicate Insertable(t: Tree<K>, h: nat, pre: seq<seq<nat>>, post: seq<seq<nat>>)
      reads pool`img, data`stored, `levels
    {
      && Lies(pool.img, levels, t, h, pre, post) && Ordered(cmp, t)
      && Shape(t, h, Sizes()) && t.Count() < Cap(t, Sizes()) && PayloadsOK(Phys(t))
    }

    lemma InsertableTop(t: Tree<K>, h: nat, pre: seq<seq<nat>>, post: seq<seq<nat>>, key: K)
      requires Insertable(t, h, pre, post)
      ensures t.id in pool.img && pool.img[t.id].items == t.Items() && (pool.img[t.id].leaf <==> h == 0)
      ensures |pre| == |post| == h
      ensures t.Leaf? <==> h == 0
      ensures t.Leaf? ==> t.slots == Phys(t)
      ensures t.Node? ==> |t.entries| > 0
      ensures Monotone(At(cmp, key), t.Items()) && t.Count() < Cap(t, Sizes())
      ensures Lies(pool.img, levels, t, h, pre, post) && Ordered(cmp, t) && Shape(t, h, Sizes())
    {
      OrderedMonotone(cmp, t, key);
      ItemsMonotone(t, At(cmp, key));
    }

    lemma InsertableKid(t: Tree<K>, h: nat, pre: seq<seq<nat>>, post: seq<seq<nat>>, key: K)
      requires Insertable(t, h, pre, post) && h > 0 && t.Node? && |t.entries| > 0 && |pre| == |post| == h
      ensures var j := Pick(t, At(cmp, key));
        && t.Items()[j].payload == Child(t.entries[j].kid.id)
        && t.entries[j].kid.id in pool.img
        && Insertable(t.entries[j].kid, h - 1, PreOf(t, h, pre, j), PostOf(t, h, post, j))
        && (Live(Phys(t), At(cmp, key)) <==> Live(Phys(t.entries[j].kid), At(cmp, key)))
    {
      hide Slots.Lub, Ordered, Pick, Shape, Rep;
      var j := Pick(t, At(cmp, key));
      PickedKid(cmp, t, key);
      KidLies(pool.img, levels, t, h, pre, post, j);
      ShapeKid(t, h, Sizes(), j);
      KidLiesId(pool.img, t.entries[j].kid);
    }

    lemma KidLiesId(img: Image<K>, t: Tree<K>)
      requires Rep(img, t)
      ensures t.id in img
    {
    }

    /** `t'` is what inserting `key` with payload `w` makes of `t` when the next unused
        block is `n`, and `countOfBlock` counts the blocks that took. */
    ghost predicate IsInsert(t: Tree<K>, key: K, w: Payload, n: nat, h: nat, t': Tree<K>)
      reads `countOfBlock
    {
      && Sizes().leaf >= 3 && Sizes().node >= 3 && Shape(t, h, Sizes())
      && (t', countOfBlock) == Trees.Insert(t, At(cmp, key), key, w, n, h, Sizes())
    }

    /** BTree::insert.  1: the key was not live and is entered; 0: it was live and nothing
        changes; -1: its value could not be stored and the tree does not change. */
    method Insert(cur: NodeBlock<K>, key: K, value: seq<Byte>,
                  ghost t: Tree<K>, ghost h: nat, ghost pre: seq<seq<nat>>, ghost post: seq<seq<nat>>)
      returns (res: int, ghost t': Tree<K>, ghost w: Payload, ghost n: nat)
      requires pool.Valid() && data.Valid() && Frame() && pool.Held(cur) && cur.index == t.id
      requires Insertable(t, h, pre, post) && Storable(value)
      modifies this`levels, this`countOfBlock, this`numberOfBlock, pool, pool.objs, data, data.objs
      ensures pool.Valid() && data.Valid() && Frame() && Grown() && Kept()
      ensures res == 0 <==> Live(Phys(t), At(cmp, key))
      ensures res == 0 || res == 1 || res == -1
      ensures res != 1 ==> Idle(res)
      ensures res != 0 ==> res == if old(CanStoreFor(t, key, value)) then 1 else -1
      ensures res != 1 ==> pool.img == old(pool.img) && levels == old(levels)
      ensures res == 1 ==> PayloadOK(w) && ValueOf(w) == value && old(countOfBlock) <= n
      ensures res == 1 ==> IsInsert(t, key, w, n, h, t')
      ensures res == 1 ==> t'.id == t.id && Became(old(pool.img), old(levels), pool.img, levels, t, t', h, pre, post)
      decreases h, 1
    {
      hide Pool.NodePool.Valid, Pool.DataPool.Valid, Frame, Insertable, PayloadOK, ValueOf, IsInsert, Became, Live,
        Phys, CanStoreFor;
      InsertableTop(t, h, pre, post, key);
      pool.Known(cur);
      var index := cur.Lub(At(cmp, key), pool.img[cur.index]);
      if cur.leaf {
        res, t', w, n := InsertIntoLeaf(cur, index, key, value, t, pre, post);
      } else {
        res, t', w, n := InsertBelow(cur, index, key, value, t, h, pre, post);
      }
    }

    method InsertIntoLeaf(cur: NodeBlock<K>, index: nat, key: K, value: seq<Byte>,
                          ghost t: Tree<K>, ghost pre: seq<seq<nat>>, ghost post: seq<seq<nat>>)
      returns (res: int, ghost t': Tree<K>, ghost w: Payload, ghost n: nat)
      requires pool.Valid() && data.Valid() && Frame() && pool.Held(cur) && cur.index == t.id
      requires Insertable(t, 0, pre, post) && Storable(value)
      requires index == Slots.Lub(t.Items(), At(cmp, key))
      modifies this`levels, this`countOfBlock, this`numberOfBlock, pool, pool.objs, data, data.objs
      ensures pool.Valid() && data.Valid() && Frame() && Grown() && Kept()
      ensures res == 0 <==> Live(Phys(t), At(cmp, key))
      ensures res == 0 || res == 1 || res == -1
      ensures res != 1 ==> Idle(res)
      ensures res != 0 ==> res == if old(CanStoreFor(t, key, value)) then 1 else -1
      ensures res != 1 ==> pool.img == old(pool.img) && levels == old(levels)
      ensures res == 1 ==> PayloadOK(w) && ValueOf(w) == value && old(countOfBlock) <= n
      ensures res == 1 ==> IsInsert(t, key, w, n, 0, t')
      ensures res == 1 ==> t'.id == t.id && Became(old(pool.img), old(levels), pool.img, levels, t, t', 0, pre, post)
    {
      hide Pool.NodePool.Valid, Pool.DataPool.Valid, Frame, Kept, PayloadOK, ValueOf, Became, Live, Shape, Slots.Lub,
        Lies, Monotone, Enter;
      FrameFacts();
      InsertableTop(t, 0, pre, post, key);
      pool.Known(cur);
      ghost var img := pool.img;
      res, w := InsertLeaf(cur, index, key, value);
      n := countOfBlock;
      t' := Leaf(t.id, Enter(t.Items(), At(cmp, key), key, w));
      LeafBecame(img, levels, t, Enter(t.Items(), At(cmp, key), key, w));
    }

    /** The child that an insertion of `key` goes on in, and whether the key is beyond the
        last separator. */
    method PickSon(cur: NodeBlock<K>, index: nat, ghost key: K,
                   ghost t: Tree<K>, ghost h: nat, ghost pre: seq<seq<nat>>, ghost post: seq<seq<nat>>)
      returns (son: NodeBlock<K>, j: nat, beyond: bool)
      requires pool.Valid() && pool.Held(cur) && cur.index == t.id && Insertable(t, h, pre, post) && h > 0
      requires index == Slots.Lub(t.Items(), At(cmp, key))
      modifies pool`marked
      ensures pool.Valid() && old(pool.marked) <= pool.marked
      ensures t.Node? && |t.entries| > 0 && j == Pick(t, At(cmp, key)) && (beyond <==> index == |t.entries|)
      ensures pool.Held(son) && son.index == t.entries[j].kid.id
    {
      hide Pool.NodePool.Valid, Insertable, Shape, Slots.Lub, Lies, Monotone, Phys, Ordered, Live;
      InsertableTop(t, h, pre, post, key);
      InsertableKid(t, h, pre, post, key);
      pool.Known(cur);
      beyond := index == cur.count;
      j := if beyond then index - 1 else index;
      var e := cur.Entry(j, pool.img[cur.index]);
      son := GetNodeBlock(e.payload.index);
    }

    method InsertBelow(cur: NodeBlock<K>, index: nat, key: K, value: seq<Byte>,
                       ghost t: Tree<K>, ghost h: nat, ghost pre: seq<seq<nat>>, ghost post: seq<seq<nat>>)
      returns (res: int, ghost t': Tree<K>, ghost w: Payload, ghost n: nat)
      requires pool.Valid() && data.Valid() && Frame() && pool.Held(cur) && cur.index == t.id
      requires Insertable(t, h, pre, post) && Storable(value) && h > 0
      requires index == Slots.Lub(t.Items(), At(cmp, key))
      modifies this`levels, this`countOfBlock, this`numberOfBlock, pool, pool.objs, data, data.objs
      ensures pool.Valid() && data.Valid() && Frame() && Grown() && Kept()
      ensures res == 0 <==> Live(Phys(t), At(cmp, key))
      ensures res == 0 || res == 1 || res == -1
      ensures res != 1 ==> Idle(res)
      ensures res != 0 ==> res == if old(CanStoreFor(t, key, value)) then 1 else -1
      ensures res != 1 ==> pool.img == old(pool.img) && levels == old(levels)
      ensures res == 1 ==> PayloadOK(w) && ValueOf(w) == value && old(countOfBlock) <= n
      ensures res == 1 ==> IsInsert(t, key, w, n, h, t')
      ensures res == 1 ==> t'.id == t.id && Became(old(pool.img), old(levels), pool.img, levels, t, t', h, pre, post)
      decreases h, 0
    {
      hide Pool.NodePool.Valid, Pool.DataPool.Valid, Frame, Insertable, PayloadOK, ValueOf, Became, Live, Shape,
        Slots.Lub, Lies, Monotone, Phys, IsInsert, Ordered, CanStoreFor;
      FrameFacts();
      InsertableTop(t, h, pre, post, key);
      InsertableKid(t, h, pre, post, key);
      StoreForKid(t, key, value);
      pool.Known(cur);
      var son, j, beyond := PickSon(cur, index, key, t, h, pre, post);
      ghost var kid, img0, levels0 := t.entries[j].kid, pool.img, levels;
      ghost var s;
      res, s, w, n := Insert(son, key, value, kid, h - 1, PreOf(t, h, pre, j), PostOf(t, h, post, j));
      t' := t;
      if res != 1 {
        return;
      }
      FrameFacts();
      t' := Ascend(cur, j, son, beyond, key, w, n, img0, levels0, t, h, pre, post, s);
    }

    method Ascend(cur: NodeBlock<K>, j: nat, son: NodeBlock<K>, beyond: bool, ghost key: K, ghost w: Payload,
            ghost n: nat, ghost img0: Image<K>, ghost levels0: seq<seq<nat>>,
                  ghost t: Tree<K>, ghost h: nat, ghost pre: seq<seq<nat>>, ghost post: seq<seq<nat>>, ghost s: Tree<K>)
      returns (ghost t': Tree<K>)
      requires pool.Valid() && Frame() && pool.Held(cur) && pool.Held(son) && cur.index == t.id
      requires t.Node? && |t.entries| > 0 && j == Pick(t, At(cmp, key)) && son.index == s.id
      requires beyond <==> Slots.Lub(t.Items(), At(cmp, key)) == |t.entries|
      requires t.Count() < cur.kv.Length && h > 0
      requires Ordered(cmp, t) && Shape(t, h, Sizes())
      requires IsInsert(t.entries[j].kid, key, w, n, h - 1, s)
      requires |pre| == |post| == h && KidChanged(img0, levels0, pool.img, levels, t, h, pre, post, j, s)
      modifies this`levels, this`countOfBlock, this`numberOfBlock, pool, pool.objs
      ensures pool.Valid() && Frame() && Grown()
      ensures IsInsert(t, key, w, n, h, t')
      ensures t'.id == t.id && Became(img0, levels0, pool.img, levels, t, t', h, pre, post)
    {
      hide Pool.NodePool.Valid, Frame, Lies, OnlyBelow, NewIds, Shape, Slots.Lub, Ordered, Graft, KidChanged;
      ghost var p := At(cmp, key);
      ghost var sep := SepAfter(t, p, s);
      InsertOrdered(cmp, t, key, w, n, h, Sizes(), s);
      AfterSon(cur, j, son, beyond, sep, img0, levels0, t, h, pre, post, s);
      t' := Trees.Insert(t, p, key, w, n, h, Sizes()).0;
    }

    // The root

    /** The two new blocks of a root split: the new root, and the old root's new neighbour. */
    method AddRootBlocks() returns (newRoot: NodeBlock<K>, next: NodeBlock<K>)
      requires pool.Valid() && Frame() && pool.Held(root)
      modifies this`countOfBlock, this`numberOfBlock, pool
      ensures pool.Valid() && Frame() && Grown() && pool.Held(newRoot) && pool.Held(next) && pool.Held(root)
      ensures newRoot.index == old(countOfBlock) && next.index == old(countOfBlock) + 1
      ensures countOfBlock == old(countOfBlock) + 2
      ensures fresh(newRoot) && fresh(newRoot.kv) && fresh(next) && fresh(next.kv) && newRoot.kv != next.kv
      ensures !newRoot.leaf && next.leaf == root.leaf
      ensures newRoot.index !in old(pool.img) && next.index !in old(pool.img)
      ensures pool.img ==
        old(pool.img)[newRoot.index := Content(false, [], 0, 0)][next.index := Content(root.leaf, [], 0, 0)]
    {
      hide Pool.NodePool.Valid;
      FrameFacts();
      pool.Known(root);
      newRoot := GetFreeNodeBlock(false);
      pool.Known(newRoot);
      FrameFacts();
      next := GetFreeNodeBlock(root.leaf);
    }

    /** The old root is halved into its new neighbour, and the two are chained. */
    method HalveRoot(next: NodeBlock<K>)
      requires pool.Valid() && pool.Held(next) && pool.Held(root) && {this, pool, data} !! pool.objs
      requires next != root && next.leaf == root.leaf && {next.index, root.index} <= pool.img.Keys
      modifies pool`img, root`count, root`next, next`count, next`last, next.kv
      ensures pool.Valid() && pool.img == RootHalves(old(pool.img), root.index, next.index)
    {
      hide Pool.NodePool.Valid;
      pool.Known(root);
      pool.Known(next);
      pool.SplitInto(root, next);
      pool.SetNext(root, next.index);
      pool.SetLast(next, root.index);
    }

    /** The old root is halved, and both halves are entered in the new root. */
    method FillRoot(newRoot: NodeBlock<K>, next: NodeBlock<K>, ghost k0: K, ghost k1: K)
      requires pool.Valid() && pool.Held(newRoot) && pool.Held(next) && pool.Held(root)
      requires {this, pool, data} !! pool.objs
      requires newRoot != next && next != root && root != newRoot && newRoot.kv != next.kv && next.leaf == root.leaf
      requires {newRoot.index, next.index, root.index} <= pool.img.Keys
      requires newRoot.index != next.index && newRoot.index != root.index
      requires pool.img[newRoot.index].items == [] && newRoot.kv.Length >= 2
      requires |pool.img[root.index].items| >= 2
      requires var s := pool.img[root.index].items; k1 == s[|s| - 1].key && k0 == s[(|s| + 1) / 2 - 1].key
      modifies pool`img, pool.objs
      ensures pool.Valid()
      ensures var img := RootHalves(old(pool.img), root.index, next.index);
        pool.img == img[newRoot.index := img[newRoot.index].(items :=
          [Slot(k0, true, Child(root.index)), Slot(k1, true, Child(next.index))])]
    {
      hide Pool.NodePool.Valid, NodeBlock.Holds;
      pool.Known(root);
      pool.Known(next);
      pool.Known(newRoot);
      var key := root.MaxKey(pool.img[root.index]);
      pool.SetBeyond(newRoot, 1, key, Child(next.index));
      assert newRoot.kv[..][1] == Slot(key, true, Child(next.index));
      HalveRoot(next);
      EnterRoot(newRoot, key, Child(next.index));
    }

    method EnterRoot(newRoot: NodeBlock<K>, ghost k1: K, ghost w1: Payload)
      requires pool.Valid() && pool.Held(newRoot) && pool.Held(root) && {this, pool, data} !! pool.objs
      requires newRoot != root
      requires {newRoot.index, root.index} <= pool.img.Keys && pool.img[root.index].items != []
      requires pool.img[newRoot.index].items == [] && newRoot.kv.Length >= 2 && newRoot.kv[1] == Slot(k1, true, w1)
      modifies pool`img, newRoot`count, newRoot.kv
      ensures pool.Valid()
      ensures var s := old(pool.img[root.index]).items;
        pool.img == old(pool.img)[newRoot.index := old(pool.img[newRoot.index]).(items :=
          [Slot(s[|s| - 1].key, true, Child(root.index)), Slot(k1, true, w1)])]
    {
      hide Pool.NodePool.Valid;
      pool.Known(root);
      pool.Known(newRoot);
      var key := root.MaxKey(pool.img[root.index]);
      pool.SetBeyond(newRoot, 0, key, Child(root.index));
      assert newRoot.kv[..][0] == Slot(key, true, Child(root.index)) && newRoot.kv[..][1] == Slot(k1, true, w1);
      assert newRoot.kv[..2] == [Slot(key, true, Child(root.index)), Slot(k1, true, w1)];
      pool.SetCount(newRoot, 2);
    }

    /** The number of interior levels. */
    ghost function Height(): int
      reads `levels
    {
      |levels| - 1
    }

    /** `root` holds the top of a tree that lies in the blocks, in order and balanced. */
    ghost predicate Rooted()
      reads `root, `rootIndex, `tree, `levels, pool`nodes, pool`img, pool`marked
    {
      Planted() && root.index in pool.marked
    }

    ghost predicate Planted()
      reads `root, `rootIndex, `tree, `levels, pool`nodes, pool`img
    {
      && pool.Owns(root) && root.index == tree.id == rootIndex && Height() >= 0
      && LiesWhole(pool.img, levels, tree, Height()) && Ordered(cmp, tree) && Shape(tree, Height(), Sizes())
    }

    lemma RootedFacts()
      requires Rooted() && pool.Valid() && Frame()
      ensures pool.Held(root) && root.index == tree.id && tree.id in pool.img && Height() >= 0
      ensures Ordered(cmp, tree) && Shape(tree, Height(), Sizes())
      ensures pool.img[tree.id].items == tree.Items() && pool.img[tree.id].leaf == tree.Leaf?
      ensures tree.Count() >= 2 ==> CanGrow(pool.img, levels, tree, Height(), countOfBlock)
      ensures tree.Count() >= 2 ==>
        pool.img[tree.id].next == 0 && tree.id != countOfBlock && tree.id != countOfBlock + 1
    {
      if tree.Count() >= 2 {
        GrowFacts(pool.img, levels, tree, Height(), countOfBlock);
      }
    }

    lemma Replanted()
      requires pool.Held(root) && root.index == tree.id == rootIndex && Height() >= 0
      requires LiesWhole(pool.img, levels, tree, Height()) && Ordered(cmp, tree) && Shape(tree, Height(), Sizes())
      ensures Rooted()
    {
    }

    /** The writes of a root split. */
    method WriteRoot(ghost k0: K, ghost k1: K) returns (newRoot: NodeBlock<K>)
      requires pool.Valid() && Frame() && pool.Held(root) && root.index in pool.img && pool.img[root.index].next == 0
      requires |pool.img[root.index].items| >= 2
      requires var s := pool.img[root.index].items; k1 == s[|s| - 1].key && k0 == s[(|s| + 1) / 2 - 1].key
      modifies this`countOfBlock, this`numberOfBlock, pool, pool.objs
      ensures pool.Valid() && Frame() && Grown() && pool.Held(newRoot)
      ensures newRoot.index == old(countOfBlock) && countOfBlock == old(countOfBlock) + 2
      ensures root.index != old(countOfBlock) + 1
      ensures pool.img == RootImage(old(pool.img), root.index, old(countOfBlock), old(countOfBlock) + 1, k0, k1)
    {
      hide Pool.NodePool.Valid, Frame, RootImage, RootHalves;
      FrameFacts();
      pool.Known(root);
      ghost var img, n := pool.img, countOfBlock;
      var next: NodeBlock<K>;
      newRoot, next := AddRootBlocks();
      pool.Known(newRoot);
      FrameFacts();
      FillRoot(newRoot, next, k0, k1);
      RootImageSteps(img, root.index, n, n + 1, k0, k1);
    }

    /** The split of a full root. */
    method SplitRoot()
      requires pool.Valid() && Frame() && Rooted()
      requires tree.Count() == Cap(tree, Sizes())
      modifies this, pool, pool.objs
      ensures pool.Valid() && Frame() && Grown() && Rooted()
      ensures tree == GrowRoot(old(tree), old(countOfBlock)) && countOfBlock == old(countOfBlock) + 2
      ensures Height() == old(Height()) + 1
      ensures countOfItem == old(countOfItem)
    {
      hide Pool.NodePool.Valid, Frame, LiesWhole, RootImage, Rep, Split, Shape, Ordered, CanGrow, Rooted;
      FrameFacts();
      RootedFacts();
      ghost var img, n, t, h := pool.img, countOfBlock, tree, Height();
      RootKeys(t, n + 1);
      GrowRootShape(t, n, h, Sizes());
      GrowRootOrdered(cmp, t, n);
      var newRoot := WriteRoot(Split(t, n + 1).0.MaxKey(), t.MaxKey());
      GrowLies(img, levels, t, h, n);
      rootIndex := newRoot.index;
      root := newRoot;
      levels := LevelsAfterGrowth(levels, n + 1, n);
      tree := GrowRoot(t, n);
      Replanted();
    }

    // The tree as a map

    /** What every operation of the tree keeps. */
    ghost predicate Valid()
      reads this, pool, pool.objs, data, data.objs
    {
      && pool.Valid() && data.Valid() && Frame() && Rooted() && InShape()
    }

    /** What of that marking a block does not touch. */
    ghost predicate Steady()
      reads this, pool`nodes, pool`img, pool`objs, pool`file, data, data.objs
    {
      data.Valid() && Frame() && Planted() && InShape()
    }

    lemma ValidParts()
      ensures Valid() <==> pool.Valid() && Steady() && root.index in pool.marked
      ensures Frame() ==> {this, pool, data} !! pool.objs && {this, pool, data} !! data.objs
    {
      hide Pool.NodePool.Valid, Pool.DataPool.Valid, Planted, InShape;
    }

    /** The same, but the file may have missed a change of a block that was not marked. */
    ghost predicate Sound()
      reads this, pool, pool.objs, data, data.objs
    {
      && pool.Sound() && data.Valid() && Frame() && Rooted() && InShape() && pool.marked <= pool.img.Keys
    }

    ghost predicate InShape()
      reads `tree, data`stored
    {
      && tree.Count() < Cap(tree, Sizes()) && (tree.Node? ==> tree.Count() >= 2)
      && PayloadsOK(Phys(tree))
    }

    lemma ValidFacts()
      requires Rooted() && tree.Count() < Cap(tree, Sizes()) && PayloadsOK(Phys(tree))
      ensures Height() >= 0 && pool.Held(root) && root.index == tree.id
      ensures Insertable(tree, Height(), Empties(Height()), Empties(Height()))
    {
      WholeLies(pool.img, levels, tree, Height());
    }

    /** Payloads that could be read before can be read after, with the same value. */
    twostate lemma KeptPayloads(s: seq<Slot<K>>)
      requires Kept() && old(PayloadsOK(s))
      ensures PayloadsOK(s) && forall x :: x in s ==> ValueOf(x.payload) == old(ValueOf(x.payload))
    {
    }

    lemma EnteredPayloads(s: seq<Slot<K>>, key: K, w: Payload)
      requires PayloadsOK(s) && PayloadOK(w)
      ensures PayloadsOK(Enter(s, At(cmp, key), key, w))
    {
      EnterMembers(s, At(cmp, key), key, w);
    }

    lemma PutReady()
      requires Valid()
      ensures pool.Valid() && data.Valid() && Frame()
      ensures {this, pool, data} !! pool.objs && {this, pool, data} !! data.objs
      ensures Height() >= 0 && pool.Held(root) && root.index == tree.id == rootIndex && PayloadsOK(Phys(tree))
      ensures Insertable(tree, Height(), Empties(Height()), Empties(Height()))
      ensures LiesWhole(pool.img, levels, tree, Height()) && Ordered(cmp, tree) && Shape(tree, Height(), Sizes())
      ensures pool.leafSize >= 3 && pool.nodeSize >= 3 && tree.Count() < Cap(tree, Sizes())
    {
      hide Pool.NodePool.Valid, Pool.DataPool.Valid, LiesWhole, Ordered, Shape, Insertable;
      ValidFacts();
      FrameFacts();
    }

    /** The insertion of a put, before the root is split. */
    method PutInsert(key: K, value: seq<Byte>) returns (res: int, ghost w: Payload, ghost n: nat)
      requires Valid() && Storable(value)
      modifies this, pool, pool.objs, data, data.objs
      ensures pool.Valid() && data.Valid() && Frame() && Rooted() && Grown() && Kept()
      ensures PayloadsOK(Phys(tree)) && root == old(root) && Height() == old(Height())
      ensures res == 0 || res == 1 || res == -1
      ensures res == 0 <==> Live(Phys(old(tree)), At(cmp, key))
      ensures countOfItem == old(countOfItem) + if res == 1 then 1 else 0
      ensures res != 1 ==> Idle(res)
      ensures res != 0 ==> res == if old(CanStoreFor(tree, key, value)) then 1 else -1
      ensures res != 1 ==> tree == old(tree)
      ensures res == 1 ==> PayloadOK(w) && ValueOf(w) == value && old(countOfBlock) <= n
      ensures res == 1 ==> IsInsert(old(tree), key, w, n, Height(), tree)
    {
      hide Pool.NodePool.Valid, Pool.DataPool.Valid, Frame, PayloadsOK, PayloadOK, ValueOf, Shape, Ordered,
        LiesWhole, Became, Insertable, Kept, Live, Phys, Valid,
        CanStoreFor;
      ghost var h, t := Height(), tree;
      ghost var img0, levels0 := pool.img, levels;
      PutReady();
      ghost var t';
      res, t', w, n := Insert(root, key, value, tree, h, Empties(h), Empties(h));
      KeptPayloads(Phys(t));
      if res != 1 {
        return;
      }
      FrameFacts();
      Entered(img0, levels0, t, t', h, key, w, n);
      countOfItem := countOfItem + 1;
      tree := t';
    }

    lemma Entered(img0: Image<K>, levels0: seq<seq<nat>>, t: Tree<K>, t': Tree<K>, h: nat, key: K, w: Payload, n: nat)
      requires LiesWhole(img0, levels0, t, h) && Ordered(cmp, t) && !Live(Phys(t), At(cmp, key))
      requires Became(img0, levels0, pool.img, levels, t, t', h, Empties(h), Empties(h))
      requires IsInsert(t, key, w, n, h, t') && t.Count() < Cap(t, Sizes()) && PayloadsOK(Phys(t)) && PayloadOK(w)
      ensures LiesWhole(pool.img, levels, t', h) && Height() == h
      ensures Ordered(cmp, t') && Shape(t', h, Sizes()) && PayloadsOK(Phys(t'))
    {
      hide LiesWhole, Became, PayloadsOK, PayloadOK, Shape, Ordered, Phys, Live;
      BecameWhole(img0, levels0, pool.img, levels, t, t', h);
      InsertedOrdered(cmp, t, key, w, n, h, Sizes());
      EnteredPayloads(Phys(t), key, w);
    }

    lemma GrowFullRoot()
      requires Rooted() && pool.leafSize >= 3 && pool.nodeSize >= 3 && tree.Count() == Cap(tree, Sizes())
      ensures Exact(tree) && Phys(GrowRoot(tree, countOfBlock)) == Phys(tree)
    {
      GrowRootOrder(tree, countOfBlock);
    }

    /** The end of a put: the root is split if it is full. */
    method SplitFullRoot()
      requires pool.Valid() && Frame() && Rooted() && tree.Count() <= Cap(tree, Sizes())
      modifies this, pool, pool.objs
      ensures pool.Valid() && Frame() && Grown() && Rooted() && countOfItem == old(countOfItem)
      ensures Phys(tree) == old(Phys(tree)) && tree.Count() < Cap(tree, Sizes())
      ensures old(tree.Node? ==> tree.Count() >= 2) ==> tree.Node? ==> tree.Count() >= 2
      ensures (tree, countOfBlock, Height()) ==
        if old(tree.Count()) == Cap(old(tree), Sizes()) then
          (GrowRoot(old(tree), old(countOfBlock)), old(countOfBlock) + 2, old(Height()) + 1)
        else old((tree, countOfBlock, Height()))
    {
      hide Pool.NodePool.Valid, Frame, Rooted, Shape, Phys;
      FrameFacts();
      RootedFacts();
      pool.Known(root);
      if root.count == root.kv.Length {
        GrowFullRoot();
        SplitRoot();
      }
    }

    lemma InsertKeepsTop(t: Tree<K>, h: nat, key: K, w: Payload, n: nat, t': Tree<K>)
      requires IsInsert(t, key, w, n, h, t') && t.Count() < Cap(t, Sizes())
      ensures t'.Count() <= Cap(t', Sizes()) && ((t.Node? ==> t.Count() >= 2) ==> t'.Node? ==> t'.Count() >= 2)
    {
      ShapeTop(t, h, Sizes());
      ShapeTop(t', h, Sizes());
    }

    method PutTree(key: K, value: seq<Byte>) returns (res: int, ghost w: Payload, ghost n: nat)
      requires Valid() && Storable(value)
      modifies this, pool, pool.objs, data, data.objs
      ensures Valid() && Kept() && Grown()
      ensures res == 0 || res == 1 || res == -1
      ensures res == 0 <==> Live(Phys(old(tree)), At(cmp, key))
      ensures res != 1 ==> Idle(res)
      ensures res != 0 ==> res == if old(CanStoreFor(tree, key, value)) then 1 else -1
      ensures res != 1 ==> tree == old(tree) && countOfItem == old(countOfItem) && Height() == old(Height())
      ensures res == 1 ==> countOfItem == old(countOfItem) + 1
      ensures res == 1 ==> PayloadOK(w) && ValueOf(w) == value && old(countOfBlock) <= n
      ensures res == 1 ==> PutDone(old(tree), key, w, n, old(Height()))
    {
      hide Pool.NodePool.Valid, Pool.DataPool.Valid, Frame, Rooted, PayloadsOK, PayloadOK, ValueOf, Shape, Phys,
        Live, Trees.Insert, GrowRoot, Storable, CanStoreFor;
      ghost var t, h := tree, Height();
      ValidHeight();
      res, w, n := PutInsert(key, value);
      if res == 1 {
        FrameFacts();
        InsertKeepsTop(t, h, key, w, n, tree);
        SplitFullRoot();
      }
    }

    lemma ValidHeight()
      requires Valid()
      ensures Height() >= 0
    {
    }

    /** The tree, the next unused block and the height are those of `Trees.Put`. */
    ghost predicate PutDone(t: Tree<K>, key: K, w: Payload, n: nat, h: int)
      reads `countOfBlock, `tree, `levels
    {
      && h >= 0 && Shape(t, h, Sizes()) && Sizes().leaf >= 3 && Sizes().node >= 3
      && (tree, countOfBlock, Height()) == Trees.Put(t, At(cmp, key), key, w, n, h, Sizes())
    }

    ghost function Values(m: map<K, Payload>): map<K, seq<Byte>>
      requires forall k :: k in m ==> PayloadOK(m[k])
      reads data`stored
    {
      map k | k in m :: ValueOf(m[k])
    }

    ghost predicate Readable()
      reads `tree, data`stored
    {
      Ordered(cmp, tree) && PayloadsOK(Phys(tree))
    }

    lemma ValidReadable()
      requires Valid()
      ensures Readable()
    {
    }

    lemma PayloadsReadable(s: seq<Slot<K>>)
      requires TotalOrder(cmp) && Sorted(cmp, s) && PayloadsOK(s)
      ensures forall k :: k in PayloadMap(cmp, s) ==> PayloadOK(PayloadMap(cmp, s)[k])
    {
      forall k | k in PayloadMap(cmp, s) ensures PayloadOK(PayloadMap(cmp, s)[k]) {
        MapIff(cmp, s, k, PayloadMap(cmp, s)[k]);
        assert Maps(PayloadMap(cmp, s), k, PayloadMap(cmp, s)[k]);
      }
    }

    /** The live keys of a tree with their values. */
    ghost function ContentsOf(t: Tree<K>): map<K, seq<Byte>>
      requires Ordered(cmp, t) && PayloadsOK(Phys(t))
      reads data`stored
    {
      PayloadsReadable(Phys(t));
      Values(PayloadMap(cmp, Phys(t)))
    }

    /** The live keys with their values. */
    ghost function Contents(): map<K, seq<Byte>>
      requires Readable()
      reads `tree, data`stored
    {
      ContentsOf(tree)
    }

    lemma SearchMonotone(key: K)
      requires Readable()
      ensures Monotone(At(cmp, key), Phys(tree))
    {
      AtIsMonotone(cmp, key, Phys(tree));
    }

    lemma ContentsKeys()
      requires Readable()
      ensures Contents().Keys == LiveKeys(Phys(tree))
    {
      hide PayloadMap, PayloadOK, ValueOf, PayloadsOK, TotalOrder, Sorted, Phys;
      PayloadsReadable(Phys(tree));
      MapKeys(cmp, Phys(tree));
    }

    /** A live entry is in the map with its value. */
    lemma EntryInContents(i: nat)
      requires Readable() && i < |Phys(tree)| && Phys(tree)[i].live
      ensures var x := Phys(tree)[i];
        PayloadOK(x.payload) && x.key in Contents() && Contents()[x.key] == ValueOf(x.payload)
    {
      hide PayloadMap, ValueOf, TotalOrder, Sorted, Phys;
      var x := Phys(tree)[i];
      PayloadsReadable(Phys(tree));
      MapIff(cmp, Phys(tree), x.key, x.payload);
      assert x == Slot(x.key, true, x.payload);
    }

    twostate lemma KeptContents(m: map<K, Payload>)
      requires Kept()
      requires forall k :: k in m ==> old(PayloadOK(m[k]))
      ensures forall k :: k in m ==> PayloadOK(m[k])
      ensures Values(m) == old(Values(m))
    {
    }

    lemma EnteredContents(s: seq<Slot<K>>, key: K, w: Payload)
      requires TotalOrder(cmp) && Sorted(cmp, s) && PayloadsOK(s) && !Live(s, At(cmp, key)) && PayloadOK(w)
      ensures var s' := Enter(s, At(cmp, key), key, w);
        && Sorted(cmp, s') && PayloadsOK(s')
        && (PayloadsReadable(s); PayloadsReadable(s');
          Values(PayloadMap(cmp, s')) == Values(PayloadMap(cmp, s))[key := ValueOf(w)])
    {
      hide Slots.Lub, Enter, PayloadMap, PayloadOK, PayloadsOK, ValueOf, Sorted, TotalOrder, Live;
      EnterMap(cmp, s, key, w);
      EnteredPayloads(s, key, w);
      PayloadsReadable(s);
      PayloadsReadable(Enter(s, At(cmp, key), key, w));
    }

    /** The state of the tree as the runs of `Runs` see it. */
    ghost function Snapshot(): Runs.State<K>
      reads `tree, `countOfBlock, `countOfItem, `levels
    {
      Runs.State(tree, countOfBlock, if Height() >= 0 then Height() else 0, countOfItem)
    }

    lemma WellFormedSnapshot()
      requires Valid()
      ensures Runs.WellFormed(cmp, Sizes(), Snapshot())
    {
      hide Pool.NodePool.Valid, Pool.DataPool.Valid;
      FrameFacts();
    }

    /** What a put that entered its key did is a step of a run. */
    lemma PutIsStep(s: Runs.State<K>, key: K, w: Payload, n: nat)
      requires !Live(Phys(s.tree), At(cmp, key)) && s.blocks <= n
      requires PutDone(s.tree, key, w, n, s.height) && countOfItem == s.items + 1
      ensures Runs.IsStep(cmp, Sizes(), s, Runs.Put(key, w, n), Snapshot())
    {
      hide Trees.Put, Live, Shape;
    }

    /** BTree::put.  1: the key was not live and is entered; 0: it was live and nothing
        changes; -1: its value could not be stored and the tree does not change. */
    method Put(key: K, value: seq<Byte>) returns (res: int, ghost w: Payload, ghost n: nat)
      requires Valid() && Storable(value)
      modifies this, pool, pool.objs, data, data.objs
      ensures Valid() && Kept() && Grown() && old(Readable()) && Readable()
      ensures res == 0 || res == 1 || res == -1
      ensures res == 0 <==> key in old(Contents())
      ensures isConstValueSize || old(data.spare) > 0 ==> res == if key in old(Contents()) then 0 else 1
      ensures data.spare <= old(data.spare) <= data.spare + 1
      ensures Contents() == if res == 1 then old(Contents())[key := value] else old(Contents())
      ensures countOfItem == old(countOfItem) + if res == 1 then 1 else 0
      ensures res != 1 ==> Idle(res)
      ensures res != 0 ==> res == if old(CanStoreFor(tree, key, value)) then 1 else -1
      ensures res != 1 ==> tree == old(tree)
      ensures res == 1 ==> old(countOfBlock) <= n && PutDone(old(tree), key, w, n, old(Height()))
      ensures res == 1 ==>
        Phys(tree) == Enter(Phys(old(tree)), At(cmp, key), key, w) && PayloadOK(w) && ValueOf(w) == value
      ensures Present(Phys(old(tree)), At(cmp, key)) ==> SameForm(old(tree), tree)
      ensures Runs.IsStep(cmp, Sizes(), old(Snapshot()),
                          if res == -1 then Runs.Refused(key) else Runs.Put(key, w, n), Snapshot())
    {
      hide Pool.NodePool.Valid, Pool.DataPool.Valid, Frame, PayloadOK, ValueOf, Shape, LiesWhole, Trees.Put, Enter,
        PayloadMap, Slots.Lub, Grown, SameForm, Present;
      ghost var t, h, before := tree, Height(), Snapshot();
      PayloadsReadable(Phys(t));
      LiveKeyFound(cmp, Phys(t), key);
      ghost var m := PayloadMap(cmp, Phys(t));
      assert m.Keys == LiveKeys(Phys(t)) by { MapKeys(cmp, Phys(t)); }
      res, w, n := PutTree(key, value);
      KeptContents(m);
      if res == 1 {
        KeptPayloads(Phys(t));
        PutKeeps(cmp, t, key, w, n, h, Sizes());
        EnteredContents(Phys(t), key, w);
        RevivedForm(t, key, w, n, h);
        PutIsStep(before, key, w, n);
      }
      FormSelf(t);
    }

    /** A put of a removed key leaves the tree in its old form: no split, no new node. */
    lemma RevivedForm(t: Tree<K>, key: K, w: Payload, n: nat, h: nat)
      requires PutDone(t, key, w, n, h) && Ordered(cmp, t) && t.Count() < Cap(t, Sizes())
      ensures Present(Phys(t), At(cmp, key)) ==> SameForm(t, tree) && countOfBlock == n && Height() == h
    {
      hide Trees.Put, Shape, Present, SameForm;
      if Present(Phys(t), At(cmp, key)) {
        RevivePut(cmp, t, key, w, n, h, Sizes());
      }
    }

    /** The blocks of every level of the tree are chained both ways in the order of its nodes
        from left to right, with 0 at both ends. */
    lemma LevelsChained(l: nat, i: nat)
      requires Valid() && l <= Height() && i < |Level(tree, Height(), l)|
      ensures var s := Level(tree, Height(), l);
        s[i] != 0 && s[i] in pool.nodes && pool.nodes[s[i]].next == After(s, i) && pool.nodes[s[i]].last == Before(s, i)
    {
      hide Pool.DataPool.Valid, Ordered, Shape, PayloadsOK, Frame;
      assert levels[l] == Level(tree, Height(), l);
      assert ChainedAt(pool.img, levels[l], i);
      pool.Known(pool.nodes[levels[l][i]]);
    }

    // Block indices

    ghost predicate Allocated(i: nat)
      reads `countOfBlock
    {
      0 < i < countOfBlock
    }

    /** Every index the tree stores has been handed out: those of its nodes, their links along
        a level, and those of its values, which are never in a node block. */
    lemma IndicesAllocated()
      requires Valid()
      ensures forall x :: x in Ids(tree) ==> Allocated(x) && x in pool.nodes
      ensures forall l, i :: 0 <= l < |levels| && 0 <= i < |levels[l]| ==> LinksAllocated(levels[l], i)
      ensures !isConstValueSize ==> forall x :: x in Phys(tree) ==>
        x.payload.Stored? && Allocated(x.payload.loc.index) && x.payload.loc.index !in pool.nodes
    {
      hide Pool.NodePool.Valid, Pool.DataPool.Valid, Ordered, Shape, Phys;
      PoolKeys();
      RepIds(pool.img, tree);
      forall l, i | 0 <= l < |levels| && 0 <= i < |levels[l]| ensures LinksAllocated(levels[l], i) {
        LinksStored(levels[l], i, l);
      }
    }

    ghost predicate LinksAllocated(s: seq<nat>, i: nat)
      requires i < |s|
      reads `countOfBlock, pool`img
    {
      && s[i] in pool.img && Allocated(s[i])
      && (pool.img[s[i]].next == 0 || Allocated(pool.img[s[i]].next))
      && (pool.img[s[i]].last == 0 || Allocated(pool.img[s[i]].last))
    }

    lemma PoolKeys()
      requires pool.Valid() && data.Valid()
      ensures pool.nodes.Keys == pool.img.Keys && data.datas.Keys == data.stored.Keys
    {
    }

    lemma LinksStored(s: seq<nat>, i: nat, l: nat)
      requires Frame() && pool.nodes.Keys == pool.img.Keys && Chained(pool.img, levels)
      requires l < |levels| && s == levels[l] && i < |s|
      ensures LinksAllocated(s, i)
    {
      assert ChainedAt(pool.img, levels[l], i);
      if i + 1 < |s| {
        assert ChainedAt(pool.img, levels[l], i + 1);
      }
      if i > 0 {
        assert ChainedAt(pool.img, levels[l], i - 1);
      }
    }

    // Leaves

    ghost predicate IsLeaf(a: nat, n: NodeBlock<K>)
      reads `tree, pool`nodes
    {
      a < |LeavesOf(tree)| && LeavesOf(tree)[a].Leaf? && pool.Owns(n) && n.index == LeavesOf(tree)[a].id
    }

    /** What leaf block number `a` holds and where its neighbours are. */
    lemma LeafFacts(a: nat, n: NodeBlock<K>)
      requires Valid() && IsLeaf(a, n)
      ensures n.index in pool.img && n.Holds(pool.img[n.index]) && pool.img[n.index].items == LeavesOf(tree)[a].slots
      ensures n.leaf
      ensures n.next == if a + 1 < |LeavesOf(tree)| then LeavesOf(tree)[a + 1].id else 0
      ensures n.last == if a > 0 then LeavesOf(tree)[a - 1].id else 0
      ensures n.count == |LeavesOf(tree)[a].slots|
      ensures Phys(tree) == Joined(LeavesOf(tree)[..a]) + LeavesOf(tree)[a].slots + Joined(LeavesOf(tree)[a + 1..])
    {
      var ls := LeavesOf(tree);
      LeavesRep(pool.img, tree);
      assert LeafOK(pool.img, ls[a]);
      LeavesLevel(tree, Height(), Sizes());
      assert levels[0] == Level(tree, Height(), 0);
      assert levels[0][a] == ls[a].id;
      assert ChainedAt(pool.img, levels[0], a);
      pool.Known(n);
      JoinedLeaves(tree);
      LeafPart(ls, a);
    }

    /** Every leaf has its block, and an entry unless the tree is empty. */
    lemma LeafBlock(a: nat)
      requires Valid() && a < |LeavesOf(tree)|
      ensures LeavesOf(tree)[a].id in pool.nodes && IsLeaf(a, pool.nodes[LeavesOf(tree)[a].id])
      ensures LeavesOf(tree)[a].id != 0
      ensures tree.Count() > 0 ==> LeavesOf(tree)[a].slots != []
    {
      var ls := LeavesOf(tree);
      LeavesRep(pool.img, tree);
      assert LeafOK(pool.img, ls[a]);
      if tree.Count() > 0 {
        LeavesFilled(tree, Height(), Sizes());
        assert ls[a] in ls;
      }
    }

    /** `node` is the block of the subtree `s` of the tree. */
    ghost predicate Stands(node: NodeBlock<K>, s: Tree<K>, h: nat, before: seq<Tree<K>>, after: seq<Tree<K>>)
      reads `tree, pool`nodes, pool`img
    {
      pool.Owns(node) && node.index == s.id && Part(pool.img, Sizes(), tree, s, h, before, after)
    }

    lemma AtRoot()
      requires Valid()
      ensures Height() >= 0 && Stands(root, tree, Height(), [], [])
    {
      PartWhole(pool.img, Sizes(), tree, Height());
    }

    lemma AtNode(node: NodeBlock<K>, s: Tree<K>, h: nat, before: seq<Tree<K>>, after: seq<Tree<K>>)
      requires pool.Valid() && Stands(node, s, h, before, after)
      ensures node.index in pool.img && node.Holds(pool.img[node.index]) && pool.img[node.index].items == s.Items()
      ensures node.count == s.Count() && (node.leaf <==> s.Leaf?) && (s.Leaf? <==> h == 0)
      ensures s.Node? ==> |s.entries| > 0
      ensures s.Leaf? ==> LeavesOf(s) == [s] && Phys(s) == s.slots
    {
      pool.Known(node);
      ShapeTop(s, h, Sizes());
    }

    lemma AtLeaf(node: NodeBlock<K>, s: Tree<K>, before: seq<Tree<K>>, after: seq<Tree<K>>)
      requires Stands(node, s, 0, before, after)
      ensures IsLeaf(|before|, node) && LeavesOf(tree)[|before|] == s
      ensures before == LeavesOf(tree)[..|before|] && after == LeavesOf(tree)[|before| + 1..]
    {
    }

    lemma AtKid(node: NodeBlock<K>, s: Tree<K>, h: nat, before: seq<Tree<K>>, after: seq<Tree<K>>, j: nat)
      requires pool.Valid() && Stands(node, s, h, before, after) && h > 0 && s.Node? && j < |s.entries|
      ensures s.Items()[j].payload == Child(s.entries[j].kid.id) && s.entries[j].kid.id in pool.nodes
      ensures Stands(pool.nodes[s.entries[j].kid.id], s.entries[j].kid, h - 1,
                 before + LeavesAll(s.entries[..j]), LeavesAll(s.entries[j + 1..]) + after)
    {
      PartKid(pool.img, Sizes(), tree, s, h, before, after, j);
      KidLiesId(pool.img, s.entries[j].kid);
    }

    /** One step down, to child `j`. */
    method Descend(node: NodeBlock<K>, j: nat, ghost s: Tree<K>, ghost h: nat, ghost before: seq<Tree<K>>,
            ghost after: seq<Tree<K>>)
      returns (kid: NodeBlock<K>)
      requires pool.Valid() && Stands(node, s, h, before, after) && h > 0 && s.Node? && j < |s.entries|
      modifies pool`marked
      ensures pool.Valid() && pool.Held(kid) && old(pool.marked) <= pool.marked
      ensures Stands(kid, s.entries[j].kid, h - 1, before + LeavesAll(s.entries[..j]),
        LeavesAll(s.entries[j + 1..]) + after)
    {
      hide Pool.NodePool.Valid, Part;
      AtKid(node, s, h, before, after, j);
      AtNode(node, s, h, before, after);
      var e := node.Entry(j, pool.img[node.index]);
      kid := GetNodeBlock(e.payload.index);
    }

    /** One step of the search: to the first child whose separator is not less than the key
        probed for, or to the last child. */
    method LookDown(p: K -> int, node: NodeBlock<K>, ghost s: Tree<K>, ghost h: nat, ghost before: seq<Tree<K>>,
            ghost after: seq<Tree<K>>)
      returns (kid: NodeBlock<K>, ghost s': Tree<K>, ghost before': seq<Tree<K>>, ghost after': seq<Tree<K>>)
      requires pool.Valid() && Stands(node, s, h, before, after) && OnTrack(s, before, after, p) && h > 0
      modifies pool`marked
      ensures pool.Valid() && pool.Held(kid) && old(pool.marked) <= pool.marked
      ensures Stands(kid, s', h - 1, before', after') && OnTrack(s', before', after', p)
    {
      hide Pool.NodePool.Valid, Stands, OnTrack, Slots.Lub, LeavesAll, LeavesOf, Phys;
      AtNode(node, s, h, before, after);
      TrackNode(node, s, h, before, after, p);
      var index := node.Lub(p, pool.img[node.index]);
      if index == node.count {
        index := index - 1;
      }
      kid := Descend(node, index, s, h, before, after);
      s', before', after' := s.entries[index].kid, before + LeavesAll(s.entries[..index]),
        LeavesAll(s.entries[index + 1..]) + after;
    }

    lemma TrackNode(node: NodeBlock<K>, s: Tree<K>, h: nat, before: seq<Tree<K>>, after: seq<Tree<K>>, p: K -> int)
      requires Stands(node, s, h, before, after) && OnTrack(s, before, after, p) && s.Node? && |s.entries| > 0 && h > 0
      ensures Monotone(p, s.Items())
      ensures var j := Pick(s, p);
        OnTrack(s.entries[j].kid, before + LeavesAll(s.entries[..j]), LeavesAll(s.entries[j + 1..]) + after, p)
    {
      hide OnTrack, Pick;
      PartKid(pool.img, Sizes(), tree, s, h, before, after, Pick(s, p));
      TrackKid(s, before, after, p, before + LeavesAll(s.entries[..Pick(s, p)]),
        LeavesAll(s.entries[Pick(s, p) + 1..]) + after);
    }

    /** BTree::getLeaf: the leaf whose place in order is that of the key probed for. */
    method GetLeaf(p: K -> int) returns (node: NodeBlock<K>, ghost a: nat)
      requires Valid() && Monotone(p, Phys(tree))
      modifies pool`marked
      ensures Valid() && pool.Held(node) && old(pool.marked) <= pool.marked
      ensures pool.Owns(node) && node.leaf && IsLeaf(a, node)
      ensures forall x :: x in Joined(LeavesOf(tree)[..a]) ==> p(x.key) < 0
      ensures Joined(LeavesOf(tree)[a + 1..]) == [] || Slots.Lub(LeavesOf(tree)[a].slots, p) < |LeavesOf(tree)[a].slots|
      ensures Monotone(p, LeavesOf(tree)[a].slots)
    {
      hide Pool.NodePool.Valid, Pool.DataPool.Valid, Frame, Planted, InShape, Stands, OnTrack, Slots.Lub, LeavesAll,
        LeavesOf,
        Pick, Phys, IsLeaf, Joined;
      FrameFacts();
      AtRoot();
      node := root;
      ghost var s, h: nat, before, after := tree, Height(), [], [];
      TrackRoot(tree, p);
      AtNode(node, s, h, before, after);
      while !node.leaf
        invariant pool.Valid() && pool.Held(node) && old(pool.marked) <= pool.marked && data.Valid()
        invariant Stands(node, s, h, before, after) && OnTrack(s, before, after, p)
        invariant node.leaf <==> h == 0
        decreases h
      {
        node, s, before, after := LookDown(p, node, s, h, before, after);
        h := h - 1;
        AtNode(node, s, h, before, after);
      }
      AtLeaf(node, s, before, after);
      AtNode(node, s, h, before, after);
      TrackLeaf(s, before, after, p);
      a := |before|;
    }

    /** BTree::getFirstLeaf */
    method GetFirstLeaf() returns (node: NodeBlock<K>)
      requires Valid()
      modifies pool`marked
      ensures Valid() && pool.Held(node) && old(pool.marked) <= pool.marked
      ensures IsLeaf(0, node)
    {
      hide Pool.NodePool.Valid, Pool.DataPool.Valid, Frame, Planted, InShape, Stands, LeavesAll, LeavesOf, IsLeaf;
      FrameFacts();
      AtRoot();
      node := root;
      ghost var s, h: nat, after := tree, Height(), [];
      AtNode(node, s, h, [], after);
      while !node.leaf
        invariant pool.Valid() && pool.Held(node) && old(pool.marked) <= pool.marked && data.Valid()
        invariant Stands(node, s, h, [], after)
        invariant node.leaf <==> h == 0
        decreases h
      {
        AtNode(node, s, h, [], after);
        node := Descend(node, 0, s, h, [], after);
        FirstPart(s.entries);
        s, h, after := s.entries[0].kid, h - 1, LeavesAll(s.entries[1..]) + after;
        AtNode(node, s, h, [], after);
      }
      AtLeaf(node, s, [], after);
    }

    /** BTree::getLastLeaf */
    method GetLastLeaf() returns (node: NodeBlock<K>, ghost a: nat)
      requires Valid()
      modifies pool`marked
      ensures Valid() && pool.Held(node) && old(pool.marked) <= pool.marked
      ensures pool.Owns(node) && node.leaf && IsLeaf(a, node) && a == |LeavesOf(tree)| - 1
    {
      hide Pool.NodePool.Valid, Pool.DataPool.Valid, Frame, Planted, InShape, Stands, LeavesAll, LeavesOf;
      FrameFacts();
      AtRoot();
      node := root;
      ghost var s, h: nat, before := tree, Height(), [];
      AtNode(node, s, h, before, []);
      while !node.leaf
        invariant pool.Valid() && pool.Held(node) && old(pool.marked) <= pool.marked && data.Valid()
        invariant Stands(node, s, h, before, [])
        invariant node.leaf <==> h == 0
        decreases h
      {
        AtNode(node, s, h, before, []);
        node := Descend(node, node.count - 1, s, h, before, []);
        LastPart(s.entries);
        s, h, before := s.entries[|s.entries| - 1].kid, h - 1, before + LeavesAll(s.entries[..|s.entries| - 1]);
        AtNode(node, s, h, before, []);
      }
      AtLeaf(node, s, before, []);
      a := |before|;
    }

    /** BTree::getValue */
    method GetValue(loc: Location) returns (r: Option<seq<Byte>>)
      requires data.Valid() && data.Has(loc)
      ensures r.Some? && data.ValueAt(loc) <= r.value
    {
      hide Pool.DataPool.Valid, DataBlock.Holds;
      data.Known();
      data.KnownBlock(loc.index);
      var block := data.datas[loc.index];
      GetFindsValue(block, data.stored[loc.index], loc.position);
      r := block.Get(loc.position);
    }

    // Removal

    /** The physical place of entry `k` of leaf number `a`. */
    ghost function PlaceOf(a: nat, k: nat): nat
      reads `tree
    {
      if a <= |LeavesOf(tree)| then Start(LeavesOf(tree), a) + k else 0
    }

    ghost predicate HasEntry(a: nat, n: NodeBlock<K>, k: nat)
      reads `tree, pool`nodes
    {
      IsLeaf(a, n) && k < |LeavesOf(tree)[a].slots|
    }

    lemma EntryFacts(a: nat, n: NodeBlock<K>, k: nat)
      requires Valid() && HasEntry(a, n, k)
      ensures n.index in pool.img && k < |pool.img[n.index].items| <= n.kv.Length
      ensures PlaceOf(a, k) < |Phys(tree)|
      ensures pool.img[n.index].items[k] == Phys(tree)[PlaceOf(a, k)] == LeavesOf(tree)[a].slots[k]
      ensures n.index == LeavesOf(tree)[a].id
    {
      hide Valid, LeavesOf, Joined, Phys, NodeBlock.Holds;
      LeafFacts(a, n);
      LeafBlock(a);
      var ls := LeavesOf(tree);
      assert Phys(tree)[PlaceOf(a, k)] == ls[a].slots[k];
    }

    /** What the ghost state is after entry `k` of leaf `a` is overwritten in its block. */
    lemma RewriteKeeps(img: Image<K>, t: Tree<K>, h: nat, a: nat, k: nat, x: Slot<K>)
      requires LiesWhole(img, levels, t, h) && Ordered(cmp, t) && Shape(t, h, Sizes())
      requires CanRewrite(LeavesOf(t), a, k, x)
      requires var id := LeavesOf(t)[a].id; id in img && k < |img[id].items|
      ensures var t' := Rewrite(t, a, k, x);
        && LiesWhole(RewriteImage(img, LeavesOf(t)[a].id, k, x), levels, t', h)
        && Ordered(cmp, t') && Shape(t', h, Sizes()) && t'.Count() == t.Count() && t'.id == t.id &&
          (t'.Leaf? <==> t.Leaf?)
        && SameForm(t, t')
    {
      hide LiesWhole, Ordered, Shape, Rewrite, LeavesOf;
      RewriteLies(img, levels, t, h, a, k, x);
      RewriteForm(t, a, k, x);
      FormOrdered(cmp, t, Rewrite(t, a, k, x));
      FormShape(t, Rewrite(t, a, k, x), h, Sizes());
    }

    /** NodeBlock::removeByFlag on entry `index` of leaf number `a`.  The block should be marked;
        if it is not, the change is not known to be one of the file. */
    method ClearFlag(cur: NodeBlock<K>, index: nat, ghost a: nat) returns (ghost place: nat)
      requires Valid() && HasEntry(a, cur, index)
      modifies `tree, pool`img, cur.kv
      ensures Sound() && SameForm(old(tree), tree)
      ensures place == old(PlaceOf(a, index)) && place < |old(Phys(tree))| && Phys(tree) == Kill(old(Phys(tree)), place)
      ensures Valid() <==> cur.index in pool.marked || !old(Phys(tree))[place].live
      ensures cur.index in pool.img && pool.img == old(pool.img)[cur.index := pool.img[cur.index]]
    {
      hide Pool.NodePool.Sound, Pool.NodePool.Synced, Pool.DataPool.Valid, Frame, LiesWhole, Ordered, Shape,
        PayloadsOK, LeavesOf, Phys, Rewrite;
      pool.Parts();
      AgreesValid();
      EntryFacts(a, cur, index);
      FrameFacts();
      pool.Known(cur);
      ghost var t, img := tree, pool.img;
      ghost var x := LeavesOf(t)[a].slots[index].(live := false);
      RewritePhys(t, a, index, x);
      RewriteKeeps(img, t, Height(), a, index, x);
      pool.ClearFlag(cur, index);
      tree := Rewrite(t, a, index, x);
      place := Start(LeavesOf(t), a) + index;
      KilledPayloads(Phys(t), place);
    }

    lemma KilledPayloads(s: seq<Slot<K>>, i: nat)
      requires PayloadsOK(s) && i < |s|
      ensures PayloadsOK(Kill(s, i))
    {
      forall x | x in Kill(s, i) ensures PayloadOK(x.payload) {
        var j :| 0 <= j < |s| && Kill(s, i)[j] == x;
        assert s[j] in s && s[j].payload == x.payload;
      }
    }

    lemma KilledContents(s: seq<Slot<K>>, i: nat)
      requires TotalOrder(cmp) && Sorted(cmp, s) && PayloadsOK(s) && i < |s|
      ensures var s' := Kill(s, i);
        && Sorted(cmp, s') && PayloadsOK(s')
        && (PayloadsReadable(s); PayloadsReadable(s');
          Values(PayloadMap(cmp, s')) == Values(PayloadMap(cmp, s)) - {s[i].key})
    {
      hide Kill, PayloadMap, PayloadOK, PayloadsOK, ValueOf, Sorted, TotalOrder;
      KillMap(cmp, s, i);
      KilledPayloads(s, i);
      PayloadsReadable(s);
      PayloadsReadable(Kill(s, i));
    }

    lemma KilledTree(t: Tree<K>, i: nat)
      requires Ordered(cmp, t) && PayloadsOK(Phys(t)) && i < |Phys(t)|
      requires Exact(tree) && Phys(tree) == Kill(Phys(t), i)
      ensures Readable() && Contents() == ContentsOf(t) - {Phys(t)[i].key}
    {
      hide Kill, PayloadMap, PayloadOK, PayloadsOK, Values, Sorted, TotalOrder, Phys, Exact;
      KilledContents(Phys(t), i);
    }

    lemma SoundFacts()
      requires Sound()
      ensures Readable() && Exact(tree) && pool.Sound()
      ensures Valid() <==> pool.Synced()
    {
      hide Pool.NodePool.Sound, Pool.NodePool.Synced, Pool.DataPool.Valid, Frame, LiesWhole, Shape;
      pool.Parts();
    }

    // The file

    /** How far a save has come: `left` are the blocks it has not looked at. */
    ghost predicate Saving(marked: set<nat>, file: map<nat, Content<K>>, marks: set<nat>, meta: Meta, left: set<nat>)
      reads `metaMarked, `fileMeta, `rootIndex, `countOfItem, `countOfBlock, `numberOfBlock,
        pool`marked, pool`file, pool`img, data`marked, data`file, data`stored
    {
      && marked <= pool.img.Keys && pool.marked == marked * left && data.marked == marks * left
      && pool.file == Pool.Flushed(file, pool.img, marked - left) && data.file.Keys <= data.stored.Keys
      && (metaMarked <==> 0 in left) && fileMeta == if 0 in left then meta else CurrentMeta()
    }

    ghost predicate Disjoint()
      reads pool`objs, data`objs, pool`nodes, data`datas
    {
      && {this, pool, data} !! pool.objs && {this, pool, data} !! data.objs && pool.objs !! data.objs
      && pool.nodes.Keys !! data.datas.Keys && 0 !in pool.nodes && 0 !in data.datas
    }

    method SaveMeta(bad: set<nat>) returns (ok: bool)
      modifies `metaMarked, `fileMeta
      ensures metaMarked == if ok then false else old(metaMarked)
      ensures fileMeta == if ok && old(metaMarked) then CurrentMeta() else old(fileMeta)
      ensures ok <==> !old(metaMarked) || 0 !in bad
    {
      ok := true;
      if metaMarked {
        metaMarked := false;
        if 0 in bad {
          metaMarked := true;
          return false;
        }
        fileMeta := CurrentMeta();
      }
    }

    /** The blocks a save has to write. */
    ghost function Dirty(): set<nat>
      reads `metaMarked, pool`marked, data`marked
    {
      (if metaMarked then {0} else {}) + pool.marked + data.marked
    }

    /** One block of the loop of BufferManager::save. */
    method SaveBlock(i: nat, bad: set<nat>, ghost marked: set<nat>, ghost file: map<nat, Content<K>>,
            ghost marks: set<nat>, ghost meta: Meta, ghost left: set<nat>) returns (ok: bool)
      requires pool.Sound() && data.Valid() && Disjoint() && i in left && (i == 0 || i in pool.nodes || i in data.datas)
      requires Saving(marked, file, marks, meta, left) && marked <= pool.nodes.Keys && marks <= data.datas.Keys
      modifies `metaMarked, `fileMeta, pool`marked, pool`file, data`marked, data`file
      ensures pool.Sound() && data.Valid() && Saving(marked, file, marks, meta, if ok then left - {i} else left)
      ensures ok <==> i !in {0} + marked + marks || i !in bad
    {
      hide Pool.NodePool.Sound, Pool.DataPool.Valid;
      Pool.FlushedMore(pool.img, marked, file, left, i);
      data.Known();
      assert marks * (left - {i}) == marks * left - {i};
      assert i !in marks ==> marks * left - {i} == marks * left;
      assert i !in marked ==> marked * left - {i} == marked * left;
      if i == 0 {
        ok := SaveMeta(bad);
      } else if i in pool.nodes {
        ok := pool.SaveBlock(i, bad);
      } else {
        ok := data.SaveBlock(i, bad);
      }
    }

    /** BufferManager::save: the blocks in any order, until a write fails, which those of the
        blocks of `bad` do.  `left` are then the blocks it did not come to, the failed one
        included. */
    method Flush(bad: set<nat>) returns (res: bool, ghost left: set<nat>)
      requires Sound()
      modifies `metaMarked, `fileMeta, pool`marked, pool`file, data`marked, data`file
      ensures data.Valid() && Saving(old(pool.marked), old(pool.file), old(data.marked), old(fileMeta), left)
      ensures if res then left == {} else left * old(Dirty()) * bad != {}
      ensures (old(Dirty()) - left) !! bad && (res <==> old(Dirty()) !! bad)
    {
      hide Pool.NodePool.Sound, Pool.DataPool.Valid, Rooted, InShape, Saving, Sound, Disjoint, Dirty;
      SoundApart();
      ghost var marked, file, marks, meta := pool.marked, pool.file, data.marked, fileMeta;
      ghost var dirty := {0} + marked + marks;
      var blocks := {0} + pool.nodes.Keys + data.datas.Keys;
      left := blocks;
      StartSaving(left);
      var rest := blocks;
      res := true;
      while rest != {}
        invariant res && rest == left <= blocks
        invariant pool.Sound() && data.Valid() && Saving(marked, file, marks, meta, left) && (dirty - left) !! bad
        decreases rest
      {
        var i :| i in rest;
        res := SaveBlock(i, bad, marked, file, marks, meta, left);
        if !res {
          assert i in left * dirty * bad;
          return;
        }
        rest, left := rest - {i}, left - {i};
      }
    }

    /** The same, and what is left alone. */
    method FlushOnly(bad: set<nat>) returns (res: bool, ghost left: set<nat>)
      requires Sound()
      modifies `metaMarked, `fileMeta, pool`marked, pool`file, data`marked, data`file
      ensures data.Valid() && Saving(old(pool.marked), old(pool.file), old(data.marked), old(fileMeta), left)
      ensures if res then left == {} else left * old(Dirty()) * bad != {}
      ensures (old(Dirty()) - left) !! bad && (res <==> old(Dirty()) !! bad)
      ensures pool.Sound() && Placed() && Planted() && InShape()
    {
      hide Pool.NodePool.Sound, Pool.DataPool.Valid, Placed, Planted, Frame, InShape, Saving, Sound, Dirty;
      SoundParts();
      res, left := Flush(bad);
    }

    lemma SoundApart()
      requires Sound()
      ensures pool.Sound() && data.Valid() && Disjoint() && pool.nodes.Keys == pool.img.Keys
      ensures pool !in pool.objs && this !in pool.objs && pool !in data.objs && this !in data.objs
      ensures pool.marked <= pool.nodes.Keys && data.marked <= data.datas.Keys && pool.file.Keys <= pool.nodes.Keys
      ensures Dirty() == {0} + pool.marked + data.marked
    {
    }

    lemma DirtyMarks()
      requires Sound()
      ensures Dirty() == {0} + pool.marked + data.marked
    {
    }

    lemma StartSaving(left: set<nat>)
      requires Sound() && {0} + pool.nodes.Keys + data.datas.Keys == left
      ensures Saving(pool.marked, pool.file, data.marked, fileMeta, left)
    {
      assert pool.marked * left == pool.marked && data.marked * left == data.marked;
    }

    /** BTree::save.  It succeeds exactly if no write of a marked block fails, and then every one
        of them is written; a failure leaves every change that was not written marked, so that
        the next save writes it.  The metadata block and the root are marked again, because the
        tree keeps pointers to them. */
    method Save(bad: set<nat>) returns (res: bool, ghost left: set<nat>)
      requires Sound()
      modifies `metaMarked, `fileMeta, pool`marked, pool`file, data`marked, data`file
      ensures Sound() && (Valid() <==> old(Valid()))
      ensures pool.marked == old(pool.marked) * left + {root.index} && data.marked == old(data.marked) * left
      ensures pool.file == Pool.Flushed(old(pool.file), pool.img, old(pool.marked) - left)
      ensures fileMeta == if 0 in left then old(fileMeta) else CurrentMeta()
      ensures if res then left == {} else left * old(Dirty()) * bad != {}
      ensures (old(Dirty()) - left) !! bad && (res <==> old(Dirty()) !! bad)
    {
      hide Pool.NodePool.Valid, Pool.NodePool.Sound, Pool.DataPool.Valid, Valid, Sound, Frame, Placed, Planted, InShape,
        Pool.Flushed, Pool.Agrees, Disjoint, Dirty, Saving;
      SoundParts();
      SoundApart();
      ghost var marked, file, marks, meta := pool.marked, pool.file, data.marked, fileMeta;
      res, left := FlushOnly(bad);
      SavingParts(marked, file, marks, meta, left);
      Remark(marked, file, left);
    }

    lemma SavingParts(marked: set<nat>, file: map<nat, Content<K>>, marks: set<nat>, meta: Meta, left: set<nat>)
      requires Saving(marked, file, marks, meta, left)
      ensures marked <= pool.img.Keys && pool.marked == marked * left && data.marked == marks * left
      ensures pool.file == Pool.Flushed(file, pool.img, marked - left) && data.file.Keys <= data.stored.Keys
      ensures fileMeta == if 0 in left then meta else CurrentMeta()
    {
    }

    /** The two blocks the tree keeps pointers to are marked again. */
    method Remark(ghost marked: set<nat>, ghost file: map<nat, Content<K>>, ghost left: set<nat>)
      requires pool.Sound() && data.Valid() && Placed() && Planted() && InShape()
      requires pool !in pool.objs && this !in pool.objs && pool !in data.objs && this !in data.objs
      requires marked <= pool.img.Keys && data.file.Keys <= data.stored.Keys
      requires root.index in marked && file.Keys <= pool.nodes.Keys
      requires pool.marked == marked * left && pool.file == Pool.Flushed(file, pool.img, marked - left)
      modifies `metaMarked, pool`marked
      ensures pool.marked == marked * left + {root.index}
      ensures Sound() && (Valid() <==> Pool.Agrees(pool.img, marked, file))
    {
      hide Pool.NodePool.Valid, Pool.NodePool.Sound, Pool.DataPool.Valid, Valid, Sound, Placed, Planted, InShape,
        Pool.Flushed, Pool.Agrees;
      metaMarked := true;
      pool.marked := pool.marked + {root.index};
      SavedParts(marked, file, left);
    }

    lemma ValidSound()
      requires Valid()
      ensures Sound()
    {
    }

    lemma RootOwned()
      requires Valid()
      ensures pool.Owns(root)
    {
    }

    lemma AgreesValid()
      requires Valid()
      ensures Pool.Agrees(pool.img, pool.marked, pool.file) && pool.file.Keys <= pool.img.Keys
    {
    }

    lemma SoundParts()
      ensures Sound() <==>
        (pool.Sound() && data.Valid() && Frame() && Planted() && root.index in pool.marked && InShape()
                            && pool.marked <= pool.img.Keys)
      ensures Sound() ==> Placed() && (Valid() <==> Pool.Agrees(pool.img, pool.marked, pool.file))
    {
    }

    lemma SavedParts(marked: set<nat>, file: map<nat, Content<K>>, left: set<nat>)
      requires pool.Sound() && data.Valid() && Placed() && Planted() && InShape() && metaMarked
      requires marked <= pool.img.Keys && data.file.Keys <= data.stored.Keys
      requires root.index in marked && file.Keys <= pool.nodes.Keys
      requires pool.marked == marked * left + {root.index} && pool.file == Pool.Flushed(file, pool.img, marked - left)
      ensures Sound()
      ensures Valid() <==> Pool.Agrees(pool.img, marked, file)
    {
      hide Pool.NodePool.Sound, Pool.DataPool.Valid, Valid, Planted, InShape, Placed, Pool.Agrees;
      data.Known();
      pool.Parts();
      Pool.FlushedSome(pool.img, marked, file, left, {root.index});
      assert Frame();
      SoundParts();
    }

    /** ~BTree: the last save, which succeeds exactly if no write of a marked block fails.  After a
        success the file holds what was in memory and marked, and what it held before of the
        other blocks. */
    method Close(bad: set<nat>) returns (res: bool)
      requires Sound()
      modifies `metaMarked, `fileMeta, pool`marked, pool`file, data`marked, data`file
      ensures res <==> old(Dirty()) !! bad
      ensures res ==> pool.file == Pool.Flushed(old(pool.file), pool.img, old(pool.marked))
      ensures res ==>
        fileMeta == CurrentMeta() && data.Valid() && data.marked == {} && data.file.Keys <= data.stored.Keys
      ensures res && old(Valid()) ==> FileHolds(cmp, Format(), AsFile(), tree, levels, data.stored)
    {
      hide Pool.NodePool.Valid, Pool.NodePool.Sound, Pool.DataPool.Valid, Valid, Sound, Pool.Flushed, Pool.Agrees,
        FileHolds, TreeIn, Counted, Dirty;
      SoundParts();
      SoundApart();
      MemoryHolds();
      ghost var marked, file := pool.marked, pool.file;
      ghost var left;
      res, left := Flush(bad);
      if res {
        assert marked - left == marked;
        if Pool.Agrees(pool.img, marked, file) {
          Pool.AllWritten(pool.img, marked, file);
          FileAsMemory(pool.img, tree, levels);
        }
      }
    }

    lemma MemoryHolds()
      requires Sound()
      ensures rootIndex == tree.id && Counted(CurrentMeta(), pool.img.Keys, data.stored.Keys)
      ensures TreeIn(cmp, Format(), pool.img, data.stored, tree, levels)
    {
      hide NodeBlock.Holds, Ordered, LiesWhole, Shape;
      SoundSizes();
    }

    lemma SoundSizes()
      requires pool.Sound() && data.Valid()
      ensures forall i :: i in pool.img ==>
        |pool.img[i].items| <= if pool.img[i].leaf then pool.leafSize else pool.nodeSize
      ensures pool.img.Keys == pool.nodes.Keys && data.stored.Keys == data.datas.Keys
    {
      forall i | i in pool.img
        ensures |pool.img[i].items| <= if pool.img[i].leaf then pool.leafSize else pool.nodeSize
      {
        assert pool.nodes[i].Holds(pool.img[i]);
      }
    }

    /** The file holds a tree whose blocks are those of the file. */
    lemma FileAsMemory(img: Image<K>, t: Tree<K>, levels: seq<seq<nat>>)
      requires TreeIn(cmp, Format(), img, data.stored, t, levels) && pool.file == img && rootIndex == t.id
      requires Counted(CurrentMeta(), img.Keys, data.stored.Keys) && fileMeta == CurrentMeta()
      requires data.Valid() && data.marked == {} && data.file.Keys <= data.stored.Keys
      ensures FileHolds(cmp, Format(), AsFile(), t, levels, data.stored)
    {
      hide TreeIn, Counted, OnPage;
      assert forall i :: i in data.stored ==> i !in data.marked;
      assert data.file.Keys == data.stored.Keys;
    }
  }
}
