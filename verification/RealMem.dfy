// The real-mode memory allocator: first fit over a table of blocks, with
// splitting, coalescing and shifting inside a fixed array.
module RealMem {
  import opened Common

  const ARENA_BASE: int := 0x10000
  const ARENA_SIZE: int := 0x80000
  const MAX_BLOCKS: int := ARENA_SIZE / 1024

  // A block of the arena; `size` is a 20-bit field.
  datatype Block = Block(size: int, free: bool)

  type Table = seq<Block>

  function Bits20(n: int): int { n % 0x100000 }

  // (size + 15) & ~15 in two's complement: down to a multiple of 16.
  function RoundUp(size: int): int { (size + 15) / 16 * 16 }

  function Sum(t: Table): int {
    if t == [] then 0 else t[0].size + Sum(t[1..])
  }

  // Address at which block i starts.
  function Start(t: Table, i: nat): int
    requires i <= |t|
  {
    ARENA_BASE + Sum(t[..i])
  }

  predicate Fits(b: Block, size: int) { b.free && size < b.size }

  // ---------------------------------------------------------------- tables

  // Index of the block an allocation of `size` bytes splits; |t| if none.
  function FirstFit(t: Table, size: int): (i: nat)
    ensures i <= |t|
    ensures i < |t| ==> Fits(t[i], size)
    ensures forall j :: 0 <= j < i ==> !Fits(t[j], size)
  {
    if t == [] || Fits(t[0], size) then 0 else 1 + FirstFit(t[1..], size)
  }

  function Split(t: Table, i: nat, size: int): Table
    requires i < |t|
  {
    t[..i] + [Block(Bits20(size), false), Block(Bits20(t[i].size - size), t[i].free)] + t[i + 1..]
  }

  datatype AllocResult = AllocResult(table: Table, ptr: Option<int>)

  // The table and pointer that an allocation request leaves.
  function AllocTable(t: Table, size: int): AllocResult {
    var i := FirstFit(t, RoundUp(size));
    if |t| == MAX_BLOCKS || i == |t| then AllocResult(t, None)
    else AllocResult(Split(t, i, RoundUp(size)), Some(Start(t, i)))
  }

  // Index of the first block that starts at address m; |t| if none.
  function BlockAt(t: Table, base: int, m: int): (i: nat)
    ensures i <= |t|
    ensures i < |t| ==> base + Sum(t[..i]) == m
    ensures forall j :: 0 <= j < i ==> base + Sum(t[..j]) != m
  {
    if t == [] || m == base then 0
    else
      var i := 1 + BlockAt(t[1..], base + t[0].size, m);
      assert forall j :: 1 <= j <= |t| ==> t[..j][1..] == t[1..][..j - 1];
      i
  }

  // Block i takes over the space of block i + 1.
  function Merge(t: Table, i: nat): Table
    requires i + 1 < |t|
  {
    t[..i] + [Block(Bits20(t[i].size + t[i + 1].size), t[i].free)] + t[i + 2..]
  }

  lemma MergeKeepsFront(t: Table, i: nat)
    requires i + 1 < |t|
    ensures |Merge(t, i)| == |t| - 1 && forall j :: 0 <= j < i ==> Merge(t, i)[j] == t[j]
  {
  }

  function MergeIfFree(t: Table, i: nat, neighbour: int): Table
    requires i < |t|
    requires neighbour == i || neighbour == i + 1
  {
    if i + 1 < |t| && t[neighbour].free then Merge(t, i) else t
  }

  function FreeBlock(t: Table, i: nat): Table
    requires i < |t|
  {
    var t1 := t[i := t[i].(free := true)];
    var t2 := MergeIfFree(t1, i, i + 1);
    if i >= 1 then MergeIfFree(t2, i - 1, i - 1) else t2
  }

  function FreeTable(t: Table, m: int): Table {
    var i := BlockAt(t, ARENA_BASE, m);
    if i == |t| then t else FreeBlock(t, i)
  }

  // ------------------------------------------------------------ the program

  class RealMemory {
    var ready: bool
    var count: int
    const blocks: array<Block>

    ghost predicate Valid()
      reads this
    {
      blocks.Length == MAX_BLOCKS && (ready ==> 1 <= count <= MAX_BLOCKS)
    }

    ghost function Blocks(): Table
      reads this, blocks
      requires Valid() && ready
    {
      blocks[..count]
    }

    constructor ()
      ensures Valid() && !ready && fresh(blocks)
    {
      blocks := new Block[MAX_BLOCKS](_ => Block(0, false));
      ready, count := false, 0;
    }

    // The table part of initialisation.
    method Init()
      requires Valid()
      modifies this, blocks
      ensures Valid() && ready
      ensures Blocks() == if old(ready) then old(blocks[..count]) else [Block(ARENA_SIZE, true)]
    {
      if ready { return; }
      ready := true;
      count := 1;
      blocks[0] := Block(ARENA_SIZE, true);
    }

    method InsertBlock(i: int)
      requires Valid() && 0 <= i <= count < MAX_BLOCKS
      modifies this`count, blocks
      ensures count == old(count) + 1
      ensures blocks[..i] == old(blocks[..i])
      ensures blocks[i + 1..count] == old(blocks[i..count])
      ensures i < old(count) ==> blocks[i] == old(blocks[i])
    {
      forall j | i <= j < count { blocks[j + 1] := blocks[j]; }
      count := count + 1;
    }

    method DeleteBlock(i: int)
      requires Valid() && 0 <= i < count <= MAX_BLOCKS
      modifies this`count, blocks
      ensures count == old(count) - 1
      ensures blocks[..count] == old(blocks[..i]) + old(blocks[i + 1..count])
    {
      count := count - 1;
      forall j | i <= j < count { blocks[j] := blocks[j + 1]; }
    }

    // The body of the allocator's `if`: block i is shifted up and its front carved off.
    method Carve(i: int, rounded: int)
      requires Valid() && ready && 0 <= i < count < MAX_BLOCKS
      modifies this`count, blocks
      ensures Valid()
      ensures Blocks() == Split(old(Blocks()), i, rounded)
    {
      InsertBlock(i);
      blocks[i] := Block(Bits20(rounded), false);
      ghost var t := old(Blocks());
      assert blocks[i + 1..count] == t[i..];
      blocks[i + 1] := blocks[i + 1].(size := Bits20(blocks[i + 1].size - rounded));
      assert blocks[..i] == t[..i] && blocks[i + 2..count] == t[i + 1..];
    }

    // The body of the two coalescing `if`s: block i absorbs block i + 1.
    method Absorb(i: int)
      requires Valid() && ready && 0 <= i && i + 1 < count
      modifies this`count, blocks
      ensures Valid()
      ensures Blocks() == Merge(old(Blocks()), i)
    {
      blocks[i] := blocks[i].(size := Bits20(blocks[i].size + blocks[i + 1].size));
      DeleteBlock(i + 1);
    }

    // LRMI_alloc_real, for every size whose rounding does not overflow an int.
    method Alloc(size: int) returns (ptr: Option<int>)
      requires Valid() && -0x8000_0000 <= size <= 0x7FFF_FFFF - 15
      modifies this`count, blocks
      ensures Valid()
      ensures !ready ==> ptr == None && unchanged(this) && unchanged(blocks)
      ensures ready ==> AllocResult(Blocks(), ptr) == AllocTable(old(Blocks()), size)
    {
      var r := ARENA_BASE;
      if !ready || count == MAX_BLOCKS { return None; }
      var rounded := (size + 15) / 16 * 16;
      ghost var t := Blocks();
      for i := 0 to count
        invariant count == old(count) && blocks[..] == old(blocks[..])
        invariant r == Start(t, i)
        invariant forall j :: 0 <= j < i ==> !Fits(t[j], rounded)
      {
        assert blocks[i] == t[i];
        if blocks[i].free && rounded < blocks[i].size {
          FirstFitIs(t, rounded, i);
          Carve(i, rounded);
          return Some(r);
        }
        StartStep(t, i);
        r := r + blocks[i].size;
      }
      FirstFitIs(t, rounded, |t|);
      return None;
    }

    // LRMI_free_real.
    method Free(m: int)
      requires Valid()
      modifies this`count, blocks
      ensures Valid()
      ensures !ready ==> unchanged(this) && unchanged(blocks)
      ensures ready ==> Blocks() == FreeTable(old(Blocks()), m)
    {
      if !ready { return; }
      ghost var t := Blocks();
      var r, i := ARENA_BASE, 0;
      while m != r
        invariant 0 <= i < count == old(count) && blocks[..] == old(blocks[..])
        invariant r == Start(t, i)
        invariant forall j :: 0 <= j < i ==> Start(t, j) != m
        decreases count - i
      {
        StartStep(t, i);
        r := r + blocks[i].size;
        i := i + 1;
        if i == count {
          BlockAtIs(t, m, i);
          return;
        }
      }
      BlockAtIs(t, m, i);
      FreeAt(i);
    }

    // The part of LRMI_free_real after the search.
    method FreeAt(i: int)
      requires Valid() && ready && 0 <= i < count
      modifies this`count, blocks
      ensures Valid()
      ensures Blocks() == FreeBlock(old(Blocks()), i)
    {
      blocks[i] := blocks[i].(free := true);
      assert Blocks() == old(Blocks())[i := old(Blocks())[i].(free := true)];
      ghost var t := Blocks();
      hide Merge;
      if i + 1 < count && blocks[i + 1].free {
        Absorb(i);
        MergeKeepsFront(t, i);
      }
      assert i >= 1 ==> Blocks()[i - 1] == blocks[i - 1];
      if i - 1 >= 0 && blocks[i - 1].free {
        Absorb(i - 1);
      }
    }
  }

  lemma FirstFitIs(t: Table, size: int, i: nat)
    requires i <= |t|
    requires forall j :: 0 <= j < i ==> !Fits(t[j], size)
    requires i < |t| ==> Fits(t[i], size)
    ensures FirstFit(t, size) == i
  {
    var k := FirstFit(t, size);
  }

  lemma BlockAtIs(t: Table, m: int, i: nat)
    requires i <= |t|
    requires forall j :: 0 <= j < i ==> Start(t, j) != m
    requires i < |t| ==> m == Start(t, i)
    ensures BlockAt(t, ARENA_BASE, m) == i
  {
    var k := BlockAt(t, ARENA_BASE, m);
    assert k < |t| ==> Start(t, k) == m;
  }

  lemma {:induction false} SumConcat(a: Table, b: Table)
    ensures Sum(a + b) == Sum(a) + Sum(b)
  {
    if a == [] {
      assert a + b == b;
    } else {
      assert (a + b)[1..] == a[1..] + b;
      SumConcat(a[1..], b);
    }
  }

  lemma StartStep(t: Table, i: nat)
    requires i < |t|
    ensures Start(t, i + 1) == Start(t, i) + t[i].size
  {
    assert t[..i + 1] == t[..i] + [t[i]];
    SumConcat(t[..i], [t[i]]);
  }
}
