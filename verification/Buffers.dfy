/** The write-back buffer of a tree file: lib/buffer.cpp.

    The dirty mark is kept in the block header itself (`reserved`).  A block may be changed
    only while it is marked; whoever keeps a pointer over a save has to mark it again. */
module Buffers {
  class Block<B> {
    const index: nat
    var reserved: bool
    var body: B

    constructor (index: nat, body: B, reserved: bool)
      ensures this.index == index && this.body == body && this.reserved == reserved
    {
      this.index, this.body, this.reserved := index, body, reserved;
    }
  }

  class BufferManager<B> {
    // The blocks of the file, and the blocks held in memory.
    var file: map<nat, B>
    var pool: map<nat, Block<B>>

    constructor (file: map<nat, B>)
      ensures Synced() && this.file == file && pool == map[]
    {
      this.file, pool := file, map[];
    }

    ghost function Blocks(): set<object>
      reads `pool
    {
      set i | i in pool :: pool[i]
    }

    /** The blocks of the buffer are those of the file with their indices. */
    ghost predicate Sound()
      reads `pool, `file
    {
      forall i :: i in pool ==> pool[i].index == i && i in file
    }

    /** Every block in memory that is not marked is the same in the file. */
    ghost predicate Synced()
      reads this, Blocks()
    {
      Sound() && forall i :: i in pool && !pool[i].reserved ==> file[i] == pool[i].body
    }

    /** The blocks as a reader sees them: those in memory, else those of the file. */
    ghost function View(): map<nat, B>
      reads this, Blocks()
    {
      map i | i in file.Keys + pool.Keys :: if i in pool then pool[i].body else file[i]
    }

    /** BufferManager::getBlock; reads succeed.  With `flag` the block may be changed. */
    method GetBlock(index: nat, flag: bool) returns (block: Block<B>)
      requires Synced() && index in file
      modifies this, Blocks()
      ensures Synced() && View() == old(View()) && file == old(file)
      ensures index in pool && pool[index] == block
      ensures block.reserved <==> flag || (index in old(pool) && old(pool[index].reserved))
      ensures pool.Keys == old(pool).Keys + {index} && forall i :: i in old(pool) ==> pool[i] == old(pool)[i]
      ensures forall i :: i in old(pool) && i != index ==> pool[i].reserved == old(pool[i].reserved)
      ensures fresh(Blocks() - old(Blocks()))
    {
      if index in pool {
        block := pool[index];
        if !block.reserved {
          block.reserved := flag;
        }
        assert block.index == index;
      } else {
        block := new Block(index, file[index], flag);
        pool := pool[index := block];
      }
    }

    /** A change of a block through a pointer to it, marked or not. */
    method Change(block: Block<B>, body: B)
      requires Synced() && block.index in pool && pool[block.index] == block
      modifies block`body
      ensures Sound() && View() == old(View())[block.index := body]
      ensures Synced() <==> block.reserved || body == old(block.body)
    {
      block.body := body;
      assert !block.reserved && Synced() ==> file[block.index] == pool[block.index].body;
    }

    /** Block `i` in memory and in the file, given how it was before a save: it was written, and
        the mark is gone, or nothing happened to it. */
    twostate predicate Saved(i: nat)
      requires Sound() && i in pool
      reads this, Blocks()
    {
      && pool == old(pool) && i in old(file) && pool[i].body == old(pool[i].body)
      && if old(pool[i].reserved) && !pool[i].reserved then file[i] == pool[i].body
         else pool[i].reserved == old(pool[i].reserved) && file[i] == old(file[i])
    }

    /** One block of the loop of save; writes of the blocks of `bad` fail. */
    method SaveBlock(i: nat, block: Block<B>, bad: set<nat>) returns (ok: bool)
      requires Sound() && i in pool && pool[i] == block
      modifies `file, block`reserved
      ensures Sound() && Saved(i) && file.Keys == old(file.Keys)
      ensures (if ok then !block.reserved else block.reserved) && (ok <==> !old(block.reserved) || i !in bad)
      ensures forall j :: j in file && j != i ==> file[j] == old(file)[j]
      ensures forall j :: j in pool && j != i ==> pool[j].reserved == old(pool[j].reserved)
    {
      ok := true;
      if block.reserved {
        block.reserved := false;
        if i in bad {
          block.reserved := true;
          return false;
        }
        file := file[i := block.body];
      }
    }

    /** BufferManager::save, also of a buffer in which blocks were changed without a mark.  Each
        marked block is written, in any order, until a write fails; a block that was not written
        keeps its mark.  It succeeds exactly if no write of a marked block fails. */
    method Save(bad: set<nat>) returns (res: bool)
      requires Sound()
      modifies `file, Blocks()
      ensures Sound() && pool == old(pool) && file.Keys == old(file.Keys)
      ensures forall i :: i in pool ==> Saved(i)
      ensures forall i :: i in file && i !in pool ==> file[i] == old(file)[i]
      ensures res <==> forall i :: i in pool && old(pool[i].reserved) ==> i !in bad
      ensures res <==> forall i :: i in pool ==> !pool[i].reserved
      ensures forall i :: i in pool && i in bad ==> pool[i].reserved == old(pool[i].reserved)
    {
      var left := pool.Keys;
      while left != {}
        invariant left <= pool.Keys && pool == old(pool) && file.Keys == old(file.Keys) && Sound()
        invariant forall i :: i in pool ==> Saved(i)
        invariant forall i :: i in pool && i !in left ==> !pool[i].reserved && (old(pool[i].reserved) ==> i !in bad)
        invariant forall i :: i in left ==> pool[i].reserved == old(pool[i].reserved)
        invariant forall i :: i in file && i !in pool ==> file[i] == old(file)[i]
        decreases |left|
      {
        var i :| i in left;
        var ok := SaveBlock(i, pool[i], bad);
        if !ok {
          return false;
        }
        left := left - {i};
      }
      res := true;
    }

    /** A change and then a save, which succeeds if no write fails: the file then holds what
        readers see if the changed block was marked, and otherwise what they saw before the
        change. */
    method ChangeAndSave(block: Block<B>, body: B, bad: set<nat>) returns (res: bool)
      requires Synced() && block.index in pool && pool[block.index] == block
      modifies `file, Blocks()
      ensures View() == old(View())[block.index := body]
      ensures bad == {} ==> res
      ensures res ==> file == if old(block.reserved) then View() else old(View())
    {
      Change(block, body);
      res := Save(bad);
    }
  }
}
