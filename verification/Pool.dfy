/** The blocks of one tree file held in memory, by block index: the node blocks and the data blocks,
    with their dirty marks and with what the file holds of them (lib/buffer.cpp). */
module Pool {
  import opened Slots
  import opened Blocks

  /** Every block in memory that is not marked is the same in the file. */
  ghost predicate Agrees<C>(blocks: map<nat, C>, marked: set<nat>, file: map<nat, C>) {
    && marked <= blocks.Keys
    && forall i :: i in blocks && i !in marked ==> i in file && file[i] == blocks[i]
  }

  /** A marked block may change. */
  lemma ChangeMarked<C>(blocks: map<nat, C>, marked: set<nat>, file: map<nat, C>, i: nat, c: C)
    requires Agrees(blocks, marked, file)
    ensures Agrees(blocks[i := c], marked + {i}, file)
    ensures i in marked ==> Agrees(blocks[i := c], marked, file)
  {
    assert i in marked ==> marked + {i} == marked;
  }

  /** A change of any block leaves it agreeing with the file exactly when it is marked, or the
      change is none. */
  lemma ChangeAgrees<C>(blocks: map<nat, C>, marked: set<nat>, file: map<nat, C>, i: nat, c: C)
    requires Agrees(blocks, marked, file) && i in blocks
    ensures Agrees(blocks[i := c], marked, file) <==> i in marked || c == blocks[i]
  {
    if i in marked {
      ChangeMarked(blocks, marked, file, i, c);
    } else if c == blocks[i] {
      assert blocks[i := c] == blocks;
    }
  }

  lemma MarkMore<C>(blocks: map<nat, C>, marked: set<nat>, file: map<nat, C>, i: nat)
    requires Agrees(blocks, marked, file) && i in blocks
    ensures Agrees(blocks, marked + {i}, file)
  {
  }

  /** The blocks of `written` were written to the file, the others of the file stayed. */
  ghost function Flushed<C>(file: map<nat, C>, blocks: map<nat, C>, written: set<nat>): map<nat, C>
    requires written <= blocks.Keys
  {
    map i | i in file.Keys + written :: if i in written then blocks[i] else file[i]
  }

  /** The same with some marked blocks not written yet, and others marked again. */
  lemma FlushedSome<C>(blocks: map<nat, C>, marked: set<nat>, file: map<nat, C>, left: set<nat>, again: set<nat>)
    requires again <= marked <= blocks.Keys
    ensures Agrees(blocks, marked * left + again, Flushed(file, blocks, marked - left)) <==>
      Agrees(blocks, marked, file)
  {
    var file' := Flushed(file, blocks, marked - left);
    if Agrees(blocks, marked * left + again, file') {
      forall i | i in blocks && i !in marked ensures i in file && file[i] == blocks[i] {
        assert i !in marked * left + again;
      }
    }
  }

  /** One more block is written, or was not marked. */
  lemma FlushedMore<C>(blocks: map<nat, C>, marked: set<nat>, file: map<nat, C>, left: set<nat>, i: nat)
    requires marked <= blocks.Keys && i in left
    ensures marked * (left - {i}) == marked * left - {i}
    ensures Flushed(file, blocks, marked - (left - {i})) ==
      if i in marked then Flushed(file, blocks, marked - left)[i := blocks[i]] else Flushed(file, blocks, marked - left)
  {
    assert i !in marked ==> marked - (left - {i}) == marked - left;
  }

  /** A change of a block that is not marked is not written. */
  lemma ChangeLost<C>(blocks: map<nat, C>, marked: set<nat>, file: map<nat, C>, i: nat, c: C)
    requires Agrees(blocks, marked, file) && i in blocks && i !in marked && file.Keys <= blocks.Keys
    ensures Flushed(file, blocks[i := c], marked) == blocks
  {
  }

  lemma AllWritten<C>(blocks: map<nat, C>, marked: set<nat>, file: map<nat, C>)
    requires Agrees(blocks, marked, file) && file.Keys <= blocks.Keys
    ensures Flushed(file, blocks, marked) == blocks
  {
  }

  lemma ReadAgrees<C>(blocks: map<nat, C>, marked: set<nat>, file: map<nat, C>, i: nat)
    requires Agrees(blocks, marked, file) && i in file && i !in blocks
    ensures Agrees(blocks[i := file[i]], marked, file)
  {
  }

  class NodePool<K(0)> {
    // How many entries a leaf and an interior node hold.
    const leafSize: nat
    const nodeSize: nat

    var nodes: map<nat, NodeBlock<K>>

    // The blocks whose header carries the dirty mark (`reserved`), and what the file holds.
    var marked: set<nat>
    var file: map<nat, Content<K>>

    // What the blocks hold, and the objects they consist of.
    ghost var img: map<nat, Content<K>>
    ghost var objs: set<object>

    constructor (leafSize: nat, nodeSize: nat)
      ensures this.leafSize == leafSize && this.nodeSize == nodeSize
      ensures Valid() && nodes == map[] && img == map[] && objs == {} && marked == {} && file == map[]
    {
      this.leafSize, this.nodeSize := leafSize, nodeSize;
      nodes, marked, file, img, objs := map[], {}, map[], map[], {};
    }

    /** Every block in memory that is not marked is the same in the file. */
    ghost predicate Synced()
      reads `img, `marked, `file
    {
      Agrees(img, marked, file)
    }

    ghost predicate Valid()
      reads this, objs
    {
      Sound() && Synced()
    }

    /** What holds of the blocks whether or not they were marked when they were changed. */
    ghost predicate Sound()
      reads `nodes, `img, `objs, objs
    {
      && this !in objs && nodes.Keys == img.Keys
      && (forall i {:trigger nodes[i]} :: i in nodes ==>
            && nodes[i] in objs && nodes[i].kv in objs
            && nodes[i].index == i && nodes[i].Holds(img[i])
            && nodes[i].kv.Length == if nodes[i].leaf then leafSize else nodeSize)
      && (forall i, j {:trigger nodes[i].index, nodes[j].index} :: i in nodes && j in nodes ==>
            nodes[i].index != nodes[j].index ==> nodes[i].kv != nodes[j].kv)
    }

    ghost predicate Owns(n: NodeBlock<K>)
      reads this`nodes
    {
      n.index in nodes && nodes[n.index] == n
    }

    lemma Parts()
      ensures Valid() <==> Sound() && Synced()
      ensures Sound() ==> nodes.Keys == img.Keys && this !in objs
    {
    }

    /** A block of the pool that may be changed: it is marked. */
    ghost predicate Held(n: NodeBlock<K>)
      reads `nodes, `marked
    {
      Owns(n) && n.index in marked
    }

    /** BufferManager::getBlock with the default flag: the block is marked. */
    method Fetch(index: nat) returns (n: NodeBlock<K>)
      requires Valid() && index in nodes
      modifies `marked
      ensures Valid() && Held(n) && n.index == index && marked == old(marked) + {index}
    {
      hide NodeBlock.Holds, Agrees;
      n := nodes[index];
      MarkMore(img, marked, file, index);
      marked := marked + {index};
    }

    /** What there is to know about a block of the pool. */
    lemma Known(n: NodeBlock<K>)
      requires Valid() && Owns(n)
      ensures nodes.Keys == img.Keys && n.index in img && this !in objs && n in objs && n.kv in objs
      ensures n.Holds(img[n.index]) && n.leaf == img[n.index].leaf && n.next == img[n.index].next
      ensures n.count == |img[n.index].items| <= n.kv.Length == if n.leaf then leafSize else nodeSize
    {
    }

    method Enter(n: NodeBlock<K>, ghost c: Content<K>)
      requires Sound() && n.index !in nodes && n.Holds(c)
      requires n !in objs && n.kv !in objs
      requires n.kv.Length == if n.leaf then leafSize else nodeSize
      modifies `nodes, `img, `objs
      ensures Sound() && nodes == old(nodes)[n.index := n] && img == old(img)[n.index := c]
      ensures objs == old(objs) + {n, n.kv}
    {
      hide NodeBlock.Holds;
      nodes := nodes[n.index := n];
      img := img[n.index := c];
      objs := objs + {n, n.kv};
    }

    /** Enters a new block under its unused index. */
    method Register(n: NodeBlock<K>, ghost c: Content<K>)
      requires Valid() && n.index !in nodes && n.Holds(c)
      requires n !in objs && n.kv !in objs
      requires n.kv.Length == if n.leaf then leafSize else nodeSize
      modifies this
      ensures Valid() && Held(n) && marked == old(marked) + {n.index} && file == old(file)
      ensures nodes == old(nodes)[n.index := n] && img == old(img)[n.index := c]
      ensures objs == old(objs) + {n, n.kv}
    {
      hide NodeBlock.Holds, Agrees, Sound;
      Parts();
      ChangeMarked(img, marked, file, n.index, c);
      marked := marked + {n.index};
      Enter(n, c);
    }

    /** BufferManager::getBlock of a block that is not in memory: it is read.  It is not marked
        yet. */
    method Read(index: nat)
      requires Valid() && index in file && index !in nodes
      requires |file[index].items| <= if file[index].leaf then leafSize else nodeSize
      modifies this
      ensures Valid() && marked == old(marked) && file == old(file)
      ensures nodes.Keys == old(nodes).Keys + {index} && img == old(img)[index := file[index]]
      ensures fresh(objs - old(objs))
    {
      hide NodeBlock.Holds, Agrees, Sound;
      Parts();
      var n := new NodeBlock.Read(index, if file[index].leaf then leafSize else nodeSize, file[index]);
      ReadAgrees(img, marked, file, index);
      Enter(n, file[index]);
    }

    /** All blocks of a file that is opened. */
    method Load(content: map<nat, Content<K>>)
      requires Valid() && nodes == map[] && img == map[] && marked == {} && objs == {}
      requires forall i :: i in content ==> |content[i].items| <= if content[i].leaf then leafSize else nodeSize
      modifies this
      ensures Valid() && marked == {} && file == img == content && nodes.Keys == content.Keys && fresh(objs)
    {
      file := content;
      ReadAll();
    }

    method ReadAll()
      requires Valid() && nodes == map[] && img == map[] && Fits()
      modifies this
      ensures Valid() && marked == old(marked) && file == old(file)
      ensures nodes.Keys == file.Keys && img == file && fresh(objs - old(objs))
    {
      hide Valid, Fits;
      var left := file.Keys;
      while left != {}
        invariant Valid() && marked == old(marked) && file == old(file) && left <= file.Keys && Fits()
        invariant ReadBut(left) && fresh(objs - old(objs))
        decreases |left|
      {
        var i :| i in left;
        ReadOne(i, left);
        left := left - {i};
      }
    }

    /** All blocks of the file but those of `left` are in memory. */
    ghost predicate ReadBut(left: set<nat>)
      reads `nodes, `img, `file
    {
      && nodes.Keys == img.Keys && (forall i :: i in img <==> i in file && i !in left)
      && forall i :: i in img ==> img[i] == file[i]
    }

    ghost predicate Fits()
      reads `file
    {
      forall i :: i in file ==> |file[i].items| <= if file[i].leaf then leafSize else nodeSize
    }

    method ReadOne(i: nat, ghost left: set<nat>)
      requires Valid() && ReadBut(left) && i in left && left <= file.Keys && Fits()
      modifies this
      ensures Valid() && marked == old(marked) && file == old(file)
      ensures ReadBut(left - {i}) && fresh(objs - old(objs))
    {
      hide Valid;
      Read(i);
    }

    /** One block of the loop of BufferManager::save; writes of the blocks of `bad` fail. */
    method SaveBlock(i: nat, bad: set<nat>) returns (ok: bool)
      requires Sound() && i in nodes
      modifies `marked, `file
      ensures marked == if ok then old(marked) - {i} else old(marked)
      ensures file == if ok && i in old(marked) then old(file)[i := img[i]] else old(file)
      ensures ok <==> i !in old(marked) || i !in bad
    {
      ok := true;
      if i in marked {
        marked := marked - {i};
        if i in bad {
          marked := marked + {i};
          return false;
        }
        file := file[i := nodes[i].AsContent()];
      }
    }

    method InsertAt(n: NodeBlock<K>, key: K, payload: Payload, at: nat)
      requires Valid() && Held(n) && at <= |img[n.index].items| < n.kv.Length
      modifies `img, n`count, n.kv
      ensures Valid()
      ensures var c := old(img[n.index]);
        img == old(img)[n.index := c.(items := c.items[..at] + [Slot(key, true, payload)] + c.items[at..])]
    {
      hide NodeBlock.Holds, Agrees;
      ghost var c := img[n.index];
      n.Insert(key, payload, at, c);
      ChangeMarked(img, marked, file, n.index, c.(items := c.items[..at] + [Slot(key, true, payload)] + c.items[at..]));
      img := img[n.index := c.(items := c.items[..at] + [Slot(key, true, payload)] + c.items[at..])];
    }

    method SetAt(n: NodeBlock<K>, at: nat, key: Option<K>, payload: Option<Payload>, live: bool)
      requires Valid() && Held(n) && at < |img[n.index].items| <= n.kv.Length
      modifies `img, n.kv
      ensures Valid()
      ensures var c := old(img[n.index]);
        img == old(img)[n.index := c.(items := c.items[at := Overwritten(c.items[at], key, payload, live)])]
    {
      hide NodeBlock.Holds, Agrees;
      ghost var c := img[n.index];
      n.Set(at, key, payload, live, c);
      ChangeMarked(img, marked, file, n.index,
        c.(items := c.items[at := Overwritten(c.items[at], key, payload, live)]));
      img := img[n.index := c.(items := c.items[at := Overwritten(c.items[at], key, payload, live)])];
    }

    /** NodeBlock::removeByFlag, through any pointer to the block: the file knows of the change
        only if the block is marked. */
    method ClearFlag(n: NodeBlock<K>, at: nat)
      requires Sound() && Owns(n) && at < |img[n.index].items| <= n.kv.Length
      modifies `img, n.kv
      ensures Sound()
      ensures old(Synced()) ==> (Synced() <==> n.index in marked || !old(img[n.index].items[at].live))
      ensures var c := old(img[n.index]);
        img == old(img)[n.index := c.(items := c.items[at := c.items[at].(live := false)])]
    {
      hide NodeBlock.Holds, Agrees;
      ghost var c := img[n.index];
      n.Set(at, None, None, false, c);
      assert c.items[at := c.items[at].(live := false)][at].live == false;
      assert !c.items[at].live ==> c.items[at := c.items[at].(live := false)] == c.items;
      if Agrees(img, marked, file) {
        ChangeAgrees(img, marked, file, n.index, c.(items := c.items[at := c.items[at].(live := false)]));
      }
      img := img[n.index := c.(items := c.items[at := c.items[at].(live := false)])];
    }

    /** Writes an entry beyond the last one; it does not count yet. */
    method SetBeyond(n: NodeBlock<K>, at: nat, key: K, payload: Payload)
      requires Valid() && Held(n) && n.index in img && |img[n.index].items| <= at < n.kv.Length
      modifies n.kv
      ensures Valid() && n.kv[..] == old(n.kv[..])[at := Slot(key, true, payload)]
    {
      hide NodeBlock.Holds, Agrees;
      n.Set(at, Some(key), Some(payload), true, img[n.index]);
    }

    method SetCount(n: NodeBlock<K>, count: nat)
      requires Valid() && Held(n) && n.index in img && count <= n.kv.Length
      modifies `img, n`count
      ensures Valid() && img == old(img)[n.index := old(img[n.index]).(items := n.kv[..count])]
    {
      hide NodeBlock.Holds, Agrees;
      ghost var c := img[n.index];
      n.SetCount(count, c);
      ChangeMarked(img, marked, file, n.index, c.(items := n.kv[..count]));
      img := img[n.index := c.(items := n.kv[..count])];
    }

    /** NodeBlock::split */
    method SplitInto(n: NodeBlock<K>, m: NodeBlock<K>)
      requires Valid() && Held(n) && Held(m) && n != m && n.leaf == m.leaf
      modifies `img, n`count, m`count, m.kv
      ensures Valid()
      ensures var c, d := old(img[n.index]), old(img[m.index]);
        var k := (|c.items| + 1) / 2;
        img == old(img)[m.index := d.(items := c.items[k..])][n.index := c.(items := c.items[..k])]
    {
      hide Valid, Agrees, Sound, Synced;
      CopyUpper(n, m);
      Halve(n);
    }

    method CopyUpper(n: NodeBlock<K>, m: NodeBlock<K>)
      requires Valid() && Held(n) && Held(m) && n != m && n.leaf == m.leaf
      modifies `img, m`count, m.kv
      ensures Valid()
      ensures var c := old(img[n.index]);
        img == old(img)[m.index := old(img[m.index]).(items := c.items[(|c.items| + 1) / 2..])]
    {
      hide NodeBlock.Holds, Agrees;
      ghost var c, d := img[n.index], img[m.index];
      n.CopyUpper(m, c, d);
      ChangeMarked(img, marked, file, m.index, d.(items := c.items[(|c.items| + 1) / 2..]));
      img := img[m.index := d.(items := c.items[(|c.items| + 1) / 2..])];
    }

    method Halve(n: NodeBlock<K>)
      requires Valid() && Held(n)
      modifies `img, n`count
      ensures Valid()
      ensures var c := old(img[n.index]); img == old(img)[n.index := c.(items := c.items[..(|c.items| + 1) / 2])]
    {
      hide NodeBlock.Holds, Agrees;
      ghost var c := img[n.index];
      n.Halve(c);
      ChangeMarked(img, marked, file, n.index, c.(items := c.items[..(|c.items| + 1) / 2]));
      img := img[n.index := c.(items := c.items[..(|c.items| + 1) / 2])];
    }

    method SetNext(n: NodeBlock<K>, i: nat)
      requires Valid() && Held(n)
      modifies `img, n`next
      ensures Valid()
      ensures img == old(img)[n.index := old(img[n.index]).(next := i)]
    {
      hide NodeBlock.Holds, Agrees;
      n.SetNext(i, img[n.index]);
      ChangeMarked(img, marked, file, n.index, img[n.index].(next := i));
      img := img[n.index := img[n.index].(next := i)];
    }

    method SetLast(n: NodeBlock<K>, i: nat)
      requires Valid() && Held(n)
      modifies `img, n`last
      ensures Valid()
      ensures img == old(img)[n.index := old(img[n.index]).(last := i)]
    {
      hide NodeBlock.Holds, Agrees;
      n.SetLast(i, img[n.index]);
      ChangeMarked(img, marked, file, n.index, img[n.index].(last := i));
      img := img[n.index := img[n.index].(last := i)];
    }
  }

  /** Of every block in memory that is not marked the file holds the values. */
  ghost predicate Filed(stored: map<nat, seq<seq<Byte>>>, marked: set<nat>, file: map<nat, Page>) {
    && marked <= stored.Keys
    && forall i :: i in stored && i !in marked ==> i in file && OnPage(file[i], stored[i])
  }

  lemma StoreMarked(stored: map<nat, seq<seq<Byte>>>, marked: set<nat>, file: map<nat, Page>, i: nat,
          vals: seq<seq<Byte>>)
    requires Filed(stored, marked, file)
    ensures Filed(stored[i := vals], marked + {i}, file)
    ensures i in marked ==> Filed(stored[i := vals], marked, file)
  {
    assert i in marked ==> marked + {i} == marked;
  }

  lemma FetchMarked(stored: map<nat, seq<seq<Byte>>>, marked: set<nat>, file: map<nat, Page>, i: nat)
    requires Filed(stored, marked, file) && i in stored
    ensures Filed(stored, marked + {i}, file)
  {
  }

  lemma WritePage(stored: map<nat, seq<seq<Byte>>>, marked: set<nat>, file: map<nat, Page>, i: nat, page: Page)
    requires Filed(stored, marked, file) && i in stored && OnPage(page, stored[i])
    ensures Filed(stored, marked - {i}, file[i := page])
  {
  }

  lemma ReadFiled(stored: map<nat, seq<seq<Byte>>>, marked: set<nat>, file: map<nat, Page>, i: nat,
          vals: seq<seq<Byte>>)
    requires Filed(stored, marked, file) && i in file && i !in stored && OnPage(file[i], vals)
    ensures Filed(stored[i := vals], marked, file)
  {
  }

  class DataPool {
    var datas: map<nat, DataBlock>

    // The marked blocks, and what the file holds.
    var marked: set<nat>
    var file: map<nat, Page>
    // For how many new blocks there will be memory: given from outside, and read only where a
    // block is allocated.
    var spare: nat

    // The values the blocks hold, and the objects they consist of.
    ghost var stored: map<nat, seq<seq<Byte>>>
    ghost var objs: set<object>

    constructor (spare: nat)
      ensures Valid() && datas == map[] && stored == map[] && objs == {} && marked == {} && file == map[]
      ensures this.spare == spare
    {
      datas, marked, file, stored, objs := map[], {}, map[], map[], {};
      this.spare := spare;
    }

    /** Of every block in memory that is not marked the file holds the values. */
    ghost predicate Synced()
      reads `stored, `marked, `file
    {
      Filed(stored, marked, file)
    }

    ghost predicate Valid()
      reads `datas, `marked, `file, `stored, `objs, objs
    {
      Sound() && Synced()
    }

    ghost predicate Sound()
      reads `datas, `stored, `objs, objs
    {
      && this !in objs && datas.Keys == stored.Keys && Separate()
      && forall i {:trigger datas[i]} :: i in datas ==>
            && datas[i] in objs && datas[i].bytes in objs
            && datas[i].index == i && datas[i].Holds(stored[i])
    }

    /** No two blocks share their bytes. */
    ghost predicate Separate()
      reads `datas
    {
      forall i, j {:trigger datas[i].index, datas[j].index} :: i in datas && j in datas ==>
        datas[i].index != datas[j].index ==> datas[i].bytes != datas[j].bytes
    }

    lemma AllSeparate(b: DataBlock)
      requires Sound() && b.index in datas && datas[b.index] == b
      ensures Separate() && forall i :: i in datas && i != b.index ==> datas[i] != b && datas[i].bytes != b.bytes
    {
    }

    lemma Known()
      requires Valid()
      ensures datas.Keys == stored.Keys && this !in objs
    {
    }

    /** BufferManager::getBlock with the default flag: the block is marked. */
    method Fetch(index: nat) returns (b: DataBlock)
      requires Valid() && index in datas
      modifies `marked
      ensures Valid() && b == datas[index] && b.index == index && marked == old(marked) + {index}
    {
      hide DataBlock.Holds, Filed;
      b := datas[index];
      FetchMarked(stored, marked, file, index);
      marked := marked + {index};
    }

    lemma KnownBlock(i: nat)
      requires Valid() && i in datas
      ensures datas[i].index == i && datas[i] in objs && datas[i].bytes in objs && i in stored
      ensures datas[i].Holds(stored[i])
      ensures OnPage(datas[i].AsPage(), stored[i])
    {
    }

    ghost predicate Has(loc: Location)
      reads this`stored
    {
      loc.index in stored && loc.position < |stored[loc.index]|
    }

    ghost function ValueAt(loc: Location): seq<Byte>
      requires Has(loc)
      reads this`stored
    {
      stored[loc.index][loc.position]
    }

    /** Enters a new block under its unused index. */
    method Register(b: DataBlock)
      requires Valid() && b.index !in datas && b.Holds([])
      requires b !in objs && b.bytes !in objs
      modifies `datas, `marked, `stored, `objs
      ensures Valid()
      ensures datas == old(datas)[b.index := b] && stored == old(stored)[b.index := []]
      ensures objs == old(objs) + {b, b.bytes} && marked == old(marked) + {b.index} && file == old(file)
    {
      hide DataBlock.Holds, Filed;
      StoreMarked(stored, marked, file, b.index, []);
      datas := datas[b.index := b];
      marked := marked + {b.index};
      stored := stored[b.index := []];
      objs := objs + {b, b.bytes};
    }

    /** BufferManager::getBlock of a block that is not in memory, as for node blocks. */
    method Read(index: nat, ghost vals: seq<seq<Byte>>)
      requires Valid() && index in file && index !in datas && OnPage(file[index], vals)
      modifies `datas, `marked, `file, `stored, `objs
      ensures Valid() && marked == old(marked) && file == old(file)
      ensures datas.Keys == old(datas).Keys + {index} && stored == old(stored)[index := vals]
      ensures fresh(objs - old(objs))
    {
      hide DataBlock.Holds, Filed;
      var b := new DataBlock.Read(index, file[index]);
      ReadFiled(stored, marked, file, index, vals);
      datas := datas[index := b];
      stored := stored[index := vals];
      objs := objs + {b, b.bytes};
    }

    method Load(pages: map<nat, Page>, ghost all: map<nat, seq<seq<Byte>>>)
      requires Valid() && datas == map[] && stored == map[] && marked == {} && objs == {}
      requires all.Keys == pages.Keys && forall i :: i in pages ==> OnPage(pages[i], all[i])
      modifies `datas, `marked, `file, `stored, `objs
      ensures Valid() && marked == {} && file == pages && stored == all && datas.Keys == pages.Keys && fresh(objs)
    {
      file := pages;
      ReadAll(all);
    }

    method ReadAll(ghost all: map<nat, seq<seq<Byte>>>)
      requires Valid() && datas == map[] && stored == map[]
      requires all.Keys == file.Keys && forall i :: i in file ==> OnPage(file[i], all[i])
      modifies `datas, `marked, `file, `stored, `objs
      ensures Valid() && marked == old(marked) && file == old(file)
      ensures datas.Keys == file.Keys && stored == all && fresh(objs - old(objs))
    {
      hide Valid, OnPage;
      var left := file.Keys;
      while left != {}
        invariant Valid() && marked == old(marked) && file == old(file) && left <= file.Keys
        invariant ReadBut(all, left) && fresh(objs - old(objs))
        decreases |left|
      {
        var i :| i in left;
        ReadOne(all, i, left);
        left := left - {i};
      }
    }

    ghost predicate ReadBut(all: map<nat, seq<seq<Byte>>>, left: set<nat>)
      reads `datas, `stored
    {
      && datas.Keys == stored.Keys && (forall i :: i in stored <==> i in all && i !in left)
      && forall i :: i in stored ==> stored[i] == all[i]
    }

    method ReadOne(ghost all: map<nat, seq<seq<Byte>>>, i: nat, ghost left: set<nat>)
      requires Valid() && ReadBut(all, left) && i in left && left <= file.Keys && i in all && OnPage(file[i], all[i])
      modifies `datas, `marked, `file, `stored, `objs
      ensures Valid() && marked == old(marked) && file == old(file)
      ensures ReadBut(all, left - {i}) && fresh(objs - old(objs))
    {
      hide Valid, OnPage;
      Read(i, all[i]);
    }

    /** One block of the loop of BufferManager::save; writes of the blocks of `bad` fail. */
    method SaveBlock(i: nat, bad: set<nat>) returns (ok: bool)
      requires Valid() && i in datas
      modifies `marked, `file
      ensures Valid() && marked == if ok then old(marked) - {i} else old(marked)
      ensures file == if ok && i in old(marked) then old(file)[i := datas[i].AsPage()] else old(file)
      ensures ok <==> i !in old(marked) || i !in bad
    {
      hide Filed, Sound, DataBlock.Holds;
      ok := true;
      Known();
      KnownBlock(i);
      if i in marked {
        WritePage(stored, marked, file, i, datas[i].AsPage());
        marked := marked - {i};
        if i in bad {
          marked := marked + {i};
          assert marked == old(marked);
          return false;
        }
        file := file[i := datas[i].AsPage()];
      } else {
        assert marked - {i} == marked;
      }
    }

    /** Stores a value in data block `b`, which is marked, if it has room for it. */
    method StoreIn(b: DataBlock, value: seq<Byte>) returns (ok: bool, position: nat)
      requires Valid() && b.index in datas && datas[b.index] == b && b.index in marked
      modifies `stored, b`directory, b`free, b.bytes
      ensures Valid()
      ensures ok <==> |value| <= old(b.FreeSize())
      ensures !ok ==> stored == old(stored)
      ensures ok ==>
        position == |old(stored[b.index])| && stored == old(stored)[b.index := old(stored[b.index]) + [value]]
    {
      hide DataBlock.Holds, DataBlock.FreeSize, Filed, Separate;
      AllSeparate(b);
      ghost var vals := stored[b.index];
      ok, position := b.Insert(value, vals);
      StoreMarked(stored, marked, file, b.index, vals + [value]);
      if ok {
        stored := stored[b.index := vals + [value]];
      }
    }
  }
}
