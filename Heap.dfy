/** The heap simulator (class Heap, Environment.h:57-105).
    Addresses are integers. `blocks` records every allocation the program
    asked for, base address to size in bytes. `words` stands for the host
    memory those addresses denote, one value per address; local arrays
    live in the same host memory (see Env). */
module HeapSim {

  /** An address is valid when some recorded block contains it, counting
      the byte just past the block's end: base <= a <= base + size. */
  ghost predicate InBlocks(blocks: map<int, int>, a: int)
  {
    exists b :: b in blocks && b <= a <= b + blocks[b]
  }

  class Heap {
    var blocks: map<int, int>
    var words: map<int, int>

    constructor ()
      ensures blocks == map[] && words == map[]
    {
      blocks := map[];
      words := map[];
    }

    /** The value held at a host address; memory never written reads as 0
        (the host gives no guarantee there). */
    function Word(a: int): int
      reads this
    {
      if a in words then words[a] else 0
    }

    /** Records a block at the address the host allocator returned; a
        previous record at that base is overwritten, as with std::map. */
    method Malloc(base: int, size: int) returns (addr: int)
      modifies this`blocks
      ensures addr == base
      ensures blocks == old(blocks)[base := size]
    {
      blocks := blocks[base := size];
      addr := base;
    }

    /** Reports an error when addr is not the exact base of a recorded block.
        Nothing is erased, so every address stays as valid as it was. */
    method Free(addr: int) returns (reported: bool)
      ensures reported <==> addr !in blocks
    {
      reported := addr !in blocks;
    }

    /** The linear scan over all recorded blocks. */
    method Check(addr: int) returns (valid: bool)
      ensures valid <==> InBlocks(blocks, addr)
    {
      valid := false;
      var todo := blocks.Keys;
      while !valid && todo != {}
        invariant todo <= blocks.Keys
        invariant valid ==> InBlocks(blocks, addr)
        invariant !valid ==> forall b | b in blocks.Keys - todo :: !(b <= addr <= b + blocks[b])
        decreases todo
      {
        if forall b :: b !in todo {
          assert false;
        }
        var base :| base in todo;
        var size := blocks[base];
        if base <= addr && addr <= base + size {
          valid := true;
        }
        todo := todo - {base};
      }
    }

    /** Stores val at a valid address; at an invalid one reports and leaves
        memory as it was. */
    method Update(addr: int, val: int) returns (reported: bool)
      modifies this`words
      ensures reported <==> !InBlocks(blocks, addr)
      ensures words == if reported then old(words) else old(words)[addr := val]
    {
      var valid := Check(addr);
      if valid {
        words := words[addr := val];
      }
      reported := !valid;
    }

    /** Loads from a valid address; at an invalid one reports and yields -1. */
    method Get(addr: int) returns (val: int, reported: bool)
      ensures reported <==> !InBlocks(blocks, addr)
      ensures val == if reported then -1 else Word(addr)
    {
      var valid := Check(addr);
      if valid {
        val := Word(addr);
      } else {
        val := -1;
      }
      reported := !valid;
    }

    /** Coherence of the store: Update at addr followed by Get at addr reads
        back the stored value when addr is valid, and -1, with memory as it
        was, when it is not; a Get at any other address reads what it read
        before the Update. */
    method UpdateThenGet(addr: int, val: int, other: int) returns (got: int, kept: int)
      modifies this`words
      ensures InBlocks(blocks, addr) ==> got == val
      ensures !InBlocks(blocks, addr) ==> got == -1 && words == old(words)
      ensures other != addr ==> kept == if InBlocks(blocks, other) then old(Word(other)) else -1
    {
      var _ := Update(addr, val);
      var v, _ := Get(addr);
      var w, _ := Get(other);
      got, kept := v, w;
    }
  }

  /** After recording a block of size bytes at base, exactly the addresses
      base..base+size (both ends included) become valid in addition to those
      valid before, unless the base was already recorded with another size. */
  lemma {:induction false} MallocValidity(blocks: map<int, int>, base: int, size: int, a: int)
    requires base !in blocks
    ensures InBlocks(blocks[base := size], a) <==> (base <= a <= base + size || InBlocks(blocks, a))
  {
    var m := blocks[base := size];
    if base <= a <= base + size {
      assert base in m && base <= a <= base + m[base];
    }
    if InBlocks(blocks, a) {
      var b :| b in blocks && b <= a <= b + blocks[b];
      assert b in m && m[b] == blocks[b];
    }
    if InBlocks(m, a) {
      var b :| b in m && b <= a <= b + m[b];
      if b != base {
        assert b in blocks && b <= a <= b + blocks[b];
      }
    }
  }

  /** Recording a fresh base adds exactly one entry. */
  lemma {:induction false} MallocAddsOneEntry(blocks: map<int, int>, base: int, size: int)
    requires base !in blocks
    ensures blocks[base := size].Keys == blocks.Keys + {base}
    ensures |blocks[base := size]| == |blocks| + 1
  {
    var m := blocks[base := size];
    assert m.Keys == blocks.Keys + {base};
    assert |m.Keys| == |blocks.Keys| + 1;
  }
}
