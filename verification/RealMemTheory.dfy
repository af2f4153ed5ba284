// What the allocator promises over every run: the table stays canonical, is
// determined by the live extents alone, and hands out disjoint aligned memory.
module RealMemTheory {
  import opened Common
  import opened RealMem

  datatype Extent = Extent(addr: int, size: int)

  // The allocated extents of a table whose first block starts at `base`.
  function Live(t: Table, base: int): set<Extent> {
    if t == [] then {}
    else (if t[0].free then {} else {Extent(base, t[0].size)}) + Live(t[1..], base + t[0].size)
  }

  function LiveOf(t: Table): set<Extent> { Live(t, 0x10000) }

  predicate WellSized(t: Table) {
    forall i :: 0 <= i < |t| ==> t[i].size > 0 && t[i].size % 16 == 0
  }

  // Coalesced: no two neighbours are free, and the last block is.
  ghost predicate Coalesced(t: Table) {
    && |t| > 0 && t[|t| - 1].free
    && NoNeighboursFree(t)
  }

  ghost predicate NoNeighboursFree(t: Table) {
    forall i, j :: 0 <= i < j < |t| && j == i + 1 ==> !(t[i].free && t[j].free)
  }

  ghost predicate Shaped(t: Table) { WellSized(t) && Coalesced(t) }

  ghost predicate Canonical(t: Table) {
    Shaped(t) && Sum(t) == 0x80000 && |t| <= 512
  }

  const INITIAL: Table := [Block(0x80000, true)]

  // ---------------------------------------------------------- live extents

  lemma {:induction false} LiveConcat(a: Table, b: Table, base: int)
    ensures Live(a + b, base) == Live(a, base) + Live(b, base + Sum(a))
  {
    if a == [] {
      assert a + b == b;
    } else {
      assert (a + b)[1..] == a[1..] + b;
      LiveConcat(a[1..], b, base + a[0].size);
    }
  }

  lemma {:induction false} LiveAt(t: Table, base: int, i: nat)
    requires i < |t| && !t[i].free
    ensures Extent(base + Sum(t[..i]), t[i].size) in Live(t, base)
  {
    if i > 0 {
      assert t[..i][1..] == t[1..][..i - 1];
      LiveAt(t[1..], base + t[0].size, i - 1);
    }
  }

  lemma {:induction false} LiveIndex(t: Table, base: int, e: Extent) returns (i: nat)
    requires e in Live(t, base)
    ensures i < |t| && !t[i].free && e == Extent(base + Sum(t[..i]), t[i].size)
  {
    if !t[0].free && e == Extent(base, t[0].size) {
      i := 0;
    } else {
      var k := LiveIndex(t[1..], base + t[0].size, e);
      i := k + 1;
      assert t[..i][1..] == t[1..][..k];
    }
  }

  predicate Apart(a: Extent, b: Extent) {
    a.addr + a.size <= b.addr || b.addr + b.size <= a.addr
  }

  predicate Within(e: Extent, lo: int, hi: int) {
    lo <= e.addr && e.addr + e.size <= hi && e.size > 0
  }

  lemma {:induction false} SumNonNegative(t: Table)
    requires WellSized(t)
    ensures Sum(t) >= |t|
  {
    if t != [] { SumNonNegative(t[1..]); }
  }

  lemma {:induction false} LiveWithin(t: Table, base: int)
    requires WellSized(t)
    ensures forall e :: e in Live(t, base) ==> Within(e, base, base + Sum(t))
    ensures base % 16 == 0 ==> forall e :: e in Live(t, base) ==> e.addr % 16 == 0 && e.size % 16 == 0
  {
    if t != [] {
      SumNonNegative(t[1..]);
      LiveWithin(t[1..], base + t[0].size);
    }
  }

  lemma {:induction false} LiveApart(t: Table, base: int)
    requires WellSized(t)
    ensures forall e, f :: e in Live(t, base) && f in Live(t, base) && e != f ==> Apart(e, f)
  {
    if t != [] {
      hide Sum;
      LiveWithin(t[1..], base + t[0].size);
      LiveApart(t[1..], base + t[0].size);
    }
  }

  lemma LiveBounds(t: Table, base: int)
    requires WellSized(t)
    ensures forall e :: e in Live(t, base) ==> Within(e, base, base + Sum(t))
    ensures base % 16 == 0 ==> forall e :: e in Live(t, base) ==> e.addr % 16 == 0 && e.size % 16 == 0
    ensures forall e, f :: e in Live(t, base) && f in Live(t, base) && e != f ==> Apart(e, f)
  {
    hide Live, Within, Apart;
    LiveWithin(t, base);
    LiveApart(t, base);
  }

  // Every address and size handed out is 16-byte aligned, lies inside the arena,
  // and overlaps no other live extent.
  lemma LiveExtentsAreSafe(t: Table)
    requires Canonical(t)
    ensures forall e :: e in LiveOf(t) ==> Within(e, 0x10000, 0x90000)
    ensures forall e :: e in LiveOf(t) ==> e.addr % 16 == 0 && e.size % 16 == 0
    ensures forall e, f :: e in LiveOf(t) && f in LiveOf(t) && e != f ==> Apart(e, f)
  {
    LiveBounds(t, 0x10000);
  }

  // ------------------------------------------------------------ uniqueness

  lemma ShapedTail(t: Table)
    requires Shaped(t) && |t| > 1
    ensures Shaped(t[1..])
  {
    var u := t[1..];
    forall i | 0 <= i < |u| ensures u[i] == t[i + 1] {}
  }

  lemma LiveNonEmpty(t: Table, base: int)
    requires Shaped(t) && |t| > 1
    ensures !t[0].free ==> Extent(base, t[0].size) in Live(t, base)
    ensures t[0].free ==> Extent(base + t[0].size, t[1].size) in Live(t, base)
    ensures forall e :: e in Live(t[1..], base + t[0].size) ==> e.addr > base
    ensures t[0].free ==> forall e :: e in Live(t, base) ==> e.addr >= base + t[0].size
  {
    if t[0].free { LiveAt(t[1..], base + t[0].size, 0); }
    LiveBounds(t[1..], base + t[0].size);
  }

  lemma {:induction false} TableIsItsLiveSet(t: Table, u: Table, base: int)
    requires Shaped(t) && Shaped(u) && Sum(t) == Sum(u)
    requires Live(t, base) == Live(u, base)
    ensures t == u
    decreases |t|
  {
    if |t| > 1 { LiveNonEmpty(t, base); }
    if |u| > 1 { LiveNonEmpty(u, base); }
    if |t| == 1 || |u| == 1 {
      OneBlock(t[0], base);
      OneBlock(u[0], base);
      assert |t| == 1 && |u| == 1;
    } else {
      FirstBlocksAgree(t, u, base);
      ShapedTail(t);
      ShapedTail(u);
      LiveTail(t, base);
      LiveTail(u, base);
      TableIsItsLiveSet(t[1..], u[1..], base + t[0].size);
      assert t == [t[0]] + t[1..] && u == [u[0]] + u[1..];
    }
  }

  lemma FirstBlocksAgree(t: Table, u: Table, base: int)
    requires Shaped(t) && Shaped(u) && |t| > 1 && |u| > 1
    requires Live(t, base) == Live(u, base)
    ensures t[0] == u[0]
  {
    LiveNonEmpty(t, base);
    LiveNonEmpty(u, base);
  }

  lemma LiveTail(t: Table, base: int)
    requires Shaped(t) && |t| > 1
    ensures Live(t[1..], base + t[0].size)
         == if t[0].free then Live(t, base) else Live(t, base) - {Extent(base, t[0].size)}
  {
    LiveNonEmpty(t, base);
  }

  // A canonical table is determined by the set of live (address, size) pairs.
  lemma CanonicalIsUnique(t: Table, u: Table)
    requires Canonical(t) && Canonical(u) && LiveOf(t) == LiveOf(u)
    ensures t == u
  {
    TableIsItsLiveSet(t, u, 0x10000);
  }

  lemma NothingLiveIsInitial(t: Table)
    requires Canonical(t) && LiveOf(t) == {}
    ensures t == INITIAL
  {
    OneBlock(Block(0x80000, true), 0x10000);
    CanonicalIsUnique(t, INITIAL);
  }

  // ------------------------------------------------------------ allocation

  lemma Cut(t: Table, i: nat, base: int)
    requires i < |t|
    ensures t == t[..i] + [t[i]] + t[i + 1..]
    ensures Sum(t) == Sum(t[..i]) + t[i].size + Sum(t[i + 1..])
    ensures Live(t, base) == Live(t[..i], base)
              + (if t[i].free then {} else {Extent(base + Sum(t[..i]), t[i].size)})
              + Live(t[i + 1..], base + Sum(t[..i]) + t[i].size)
  {
    assert t == t[..i] + [t[i]] + t[i + 1..];
    Join(t[..i], [t[i]], t[i + 1..], base);
    OneBlock(t[i], base + Sum(t[..i]));
  }

  lemma OneBlock(b: Block, base: int)
    ensures Sum([b]) == b.size
    ensures Live([b], base) == if b.free then {} else {Extent(base, b.size)}
  {
    assert [b][1..] == [];
  }

  lemma TwoBlocks(b: Block, c: Block, base: int)
    ensures Sum([b, c]) == b.size + c.size
    ensures Live([b, c], base) == Live([b], base) + Live([c], base + b.size)
  {
    assert [b, c][1..] == [c];
    OneBlock(b, base);
    OneBlock(c, base + b.size);
  }

  lemma Join(a: Table, b: Table, c: Table, base: int)
    ensures Sum(a + b + c) == Sum(a) + Sum(b) + Sum(c)
    ensures Live(a + b + c, base)
              == Live(a, base) + Live(b, base + Sum(a)) + Live(c, base + Sum(a) + Sum(b))
  {
    SumConcat(a + b, c);
    SumConcat(a, b);
    LiveConcat(a + b, c, base);
    LiveConcat(a, b, base);
  }

  lemma BlockSmallerThanArena(t: Table, i: nat)
    requires WellSized(t) && i < |t|
    ensures 0 < t[i].size <= Sum(t)
    ensures 0 <= Sum(t[..i]) <= Sum(t) - t[i].size
  {
    Cut(t, i, 0);
    SumNonNegative(t[..i]);
    SumNonNegative(t[i + 1..]);
  }

  lemma Bits20Small(n: int)
    requires 0 <= n <= 0x80000
    ensures Bits20(n) == n
  {
  }

  lemma SplitFacts(t: Table, i: nat, size: int)
    requires Canonical(t) && i < |t| && t[i].free && 0 < size < t[i].size && size % 16 == 0
    ensures Shaped(Split(t, i, size)) && Sum(Split(t, i, size)) == 0x80000
    ensures LiveOf(Split(t, i, size)) == LiveOf(t) + {Extent(Start(t, i), size)}
  {
    hide Live, Sum, Coalesced;
    BlockSmallerThanArena(t, i);
    Bits20Small(size);
    Bits20Small(t[i].size - size);
    var b, c := Block(size, false), Block(t[i].size - size, true);
    assert WellSized([b, c]);
    hide WellSized, Bits20;
    SplitLive(t, i, b, c);
    SplitShaped(t, i, b, c);
  }

  lemma SplitLive(t: Table, i: nat, b: Block, c: Block)
    requires i < |t| && t[i].free && b.size + c.size == t[i].size && !b.free && c.free
    ensures Sum(t[..i] + [b, c] + t[i + 1..]) == Sum(t)
    ensures LiveOf(t[..i] + [b, c] + t[i + 1..]) == LiveOf(t) + {Extent(Start(t, i), b.size)}
  {
    hide Live, Sum;
    Cut(t, i, 0x10000);
    Join(t[..i], [b, c], t[i + 1..], 0x10000);
    TwoBlocks(b, c, Start(t, i));
    SplitPair(b, c, Start(t, i));
    var pre, post := Live(t[..i], 0x10000), Live(t[i + 1..], Start(t, i) + t[i].size);
    var e := {Extent(Start(t, i), b.size)};
    assert pre + {} + post + e == pre + e + post;
  }

  lemma SplitPair(b: Block, c: Block, base: int)
    requires !b.free && c.free
    ensures Live([b, c], base) == {Extent(base, b.size)}
  {
    TwoBlocks(b, c, base);
    OneBlock(b, base);
    OneBlock(c, base + b.size);
  }

  lemma SplitShaped(t: Table, i: nat, b: Block, c: Block)
    requires Shaped(t) && i < |t| && t[i].free && !b.free && c.free
    requires WellSized([b, c])
    ensures Shaped(t[..i] + [b, c] + t[i + 1..])
  {
    var u := t[..i] + [b, c] + t[i + 1..];
    assert forall j :: 0 <= j < i ==> u[j] == t[j];
    assert forall j :: i + 2 <= j < |u| ==> u[j] == t[j - 1];
    assert u[i] == [b, c][0] && u[i + 1] == [b, c][1];
  }

  // A successful request of positive size keeps the table canonical and adds
  // exactly one extent to the live set; a failed one changes nothing.
  lemma AllocKeepsCanonical(t: Table, size: int)
    requires Canonical(t) && size > 0
    ensures Canonical(AllocTable(t, size).table)
    ensures AllocTable(t, size).ptr == None ==> AllocTable(t, size).table == t
    ensures AllocTable(t, size).ptr.Some? ==>
      var e := Extent(AllocTable(t, size).ptr.value, RoundUp(size));
      e !in LiveOf(t) && LiveOf(AllocTable(t, size).table) == LiveOf(t) + {e} && size <= e.size < size + 16
  {
    var i := FirstFit(t, RoundUp(size));
    if |t| < 512 && i < |t| {
      SplitFacts(t, i, RoundUp(size));
      StartsNoLive(t, i);
    }
  }

  lemma StartsNoLive(t: Table, i: nat)
    requires WellSized(t) && i < |t| && t[i].free
    ensures forall e :: e in LiveOf(t) ==> Apart(e, Extent(Start(t, i), t[i].size))
  {
    Cut(t, i, 0x10000);
    LiveBounds(t[..i], 0x10000);
    LiveBounds(t[i + 1..], Start(t, i) + t[i].size);
  }

  // For a request of any sign, exactly when the table stays canonical: the 20-bit
  // value stored must be positive and below the size of the block it is cut from.
  lemma AllocCanonicalIff(t: Table, size: int)
    requires Canonical(t)
    ensures var i := FirstFit(t, RoundUp(size));
            Canonical(AllocTable(t, size).table)
            <==> (|t| == 512 || i == |t| || 0 < Bits20(RoundUp(size)) < t[i].size)
  {
    hide Canonical, Split, Bits20, RoundUp;
    var i := FirstFit(t, RoundUp(size));
    RoundedUp(size);
    assert |t| <= 512 by { AtMost512(t); }
    if |t| < 512 && i < |t| { SplitCanonicalIff(t, i, RoundUp(size)); }
  }

  lemma RoundedUp(size: int)
    ensures RoundUp(size) % 16 == 0 && size <= RoundUp(size) < size + 16
  {
  }

  lemma AtMost512(t: Table)
    requires Canonical(t)
    ensures |t| <= 512
  {
  }

  // A request of 0 bytes gives a block of size 0.
  lemma EmptyRequestSpoils()
    ensures Canonical(INITIAL) && !Canonical(AllocTable(INITIAL, 0).table)
  {
    assert INITIAL[1..] == [];
    AllocCanonicalIff(INITIAL, 0);
  }

  lemma SplitCanonicalIff(t: Table, i: nat, r: int)
    requires Canonical(t) && |t| < 512 && i < |t| && Fits(t[i], r) && r % 16 == 0
    ensures Canonical(Split(t, i, r)) <==> 0 < Bits20(r) < t[i].size
  {
    if 0 < Bits20(r) < t[i].size {
      SplitByStored(t, i, r);
      SplitFacts(t, i, Bits20(r));
    } else {
      SplitSpoils(t, i, r);
    }
  }

  // Only the low 20 bits of the requested size matter.
  lemma SplitByStored(t: Table, i: nat, r: int)
    requires i < |t| && r % 16 == 0
    ensures Split(t, i, r) == Split(t, i, Bits20(r)) && Bits20(r) % 16 == 0
  {
    var q, low, size := r / 0x100000, Bits20(r), t[i].size;
    assert r == q * 0x100000 + low;
    StoredAgain(low, size, q);
    LowIsAligned(r, q, low);
    assert Bits20(low) == Bits20(r) && Bits20(size - low) == Bits20(size - r);
  }

  lemma StoredAgain(low: int, size: int, q: int)
    requires 0 <= low < 0x100000
    ensures Bits20(low) == low && Bits20(size - low) == Bits20(size - (q * 0x100000 + low))
  {
    var d := size - low;
    var k, m := d / 0x100000, d % 0x100000;
    assert d - q * 0x100000 == (k - q) * 0x100000 + m;
  }

  lemma LowIsAligned(r: int, q: int, low: int)
    requires r % 16 == 0 && r == q * 0x100000 + low
    ensures low % 16 == 0
  {
    assert low == 16 * (r / 16 - q * 0x10000);
  }

  lemma SplitSpoils(t: Table, i: nat, r: int)
    requires Canonical(t) && i < |t| && Fits(t[i], r)
    requires !(0 < Bits20(r) < t[i].size)
    ensures !Canonical(Split(t, i, r))
  {
    BlockSmallerThanArena(t, i);
    var u := Split(t, i, r);
    if Bits20(r) == 0 {
      assert u[i].size == 0;
    } else if Bits20(r) == t[i].size {
      assert u[i + 1].size == 0;
    } else {
      Cut(t, i, 0x10000);
      var mid := [Block(Bits20(r), false), Block(Bits20(t[i].size - r), t[i].free)];
      assert u == t[..i] + mid + t[i + 1..];
      TwoBlocks(mid[0], mid[1], 0);
      Join(t[..i], mid, t[i + 1..], 0);
      assert Sum(u) > Sum(t);
    }
  }

  // ------------------------------------------------- first fit, seen by a client

  // The n bytes from a lie in the arena and meet no live extent.
  predicate Unused(live: set<Extent>, a: int, n: int) {
    Within(Extent(a, n), 0x10000, 0x90000)
    && forall e :: e in live ==> Apart(e, Extent(a, n))
  }

  // a is the start of the arena or the end of a live extent.
  predicate Edge(live: set<Extent>, a: int) {
    a == 0x10000 || exists e :: e in live && e.addr + e.size == a
  }

  // Where a request of n bytes could go: an edge with more than n unused bytes.
  predicate Candidate(live: set<Extent>, a: int, n: int) {
    Edge(live, a) && Unused(live, a, n + 1)
  }

  lemma FreeBlockIsCandidate(t: Table, i: nat, n: int)
    requires Canonical(t) && i < |t| && Fits(t[i], n) && n >= 0
    ensures Candidate(LiveOf(t), Start(t, i), n)
  {
    if i > 0 {
      StartStep(t, i - 1);
      LiveAt(t, 0x10000, i - 1);
    }
    BlockSmallerThanArena(t, i);
    StartsNoLive(t, i);
  }

  lemma CandidateIsFreeBlock(t: Table, a: int, n: int) returns (k: nat)
    requires Canonical(t) && Candidate(LiveOf(t), a, n) && n >= 0
    ensures k < |t| && Fits(t[k], n) && Start(t, k) == a
  {
    if a == 0x10000 {
      k := 0;
    } else {
      var e :| e in LiveOf(t) && e.addr + e.size == a;
      var j := LiveIndex(t, 0x10000, e);
      StartStep(t, j);
      k := j + 1;
    }
    assert k < |t|;
    if !t[k].free { LiveAt(t, 0x10000, k); assert false; }
    if t[k].size <= n {
      StartStep(t, k);
      assert t[..|t|] == t;
      if k + 1 < |t| {
        LiveAt(t, 0x10000, k + 1);
        assert false;
      } else {
        assert false;
      }
    }
  }

  lemma {:induction false} StartMonotone(t: Table, i: nat, j: nat)
    requires WellSized(t) && i < j <= |t|
    ensures Start(t, i) < Start(t, j)
    decreases j
  {
    StartStep(t, j - 1);
    if i < j - 1 { StartMonotone(t, i, j - 1); }
  }

  // Allocation fails exactly when the table is full or no candidate exists, and
  // otherwise returns the lowest candidate address.
  lemma AllocIsLowestCandidate(t: Table, size: int)
    requires Canonical(t) && size > 0
    ensures var n := RoundUp(size);
            match AllocTable(t, size).ptr
            case None => |t| == 512 || !exists a :: Candidate(LiveOf(t), a, n)
            case Some(p) => |t| < 512 && Candidate(LiveOf(t), p, n)
                            && forall a :: Candidate(LiveOf(t), a, n) ==> p <= a
  {
    var n := RoundUp(size);
    var i := FirstFit(t, n);
    if |t| < 512 {
      forall a | Candidate(LiveOf(t), a, n)
        ensures i < |t| && Start(t, i) <= a
      {
        var k := CandidateIsFreeBlock(t, a, n);
        if i < k { StartMonotone(t, i, k); }
      }
      if i < |t| { FreeBlockIsCandidate(t, i, n); }
    }
  }

  // --------------------------------------------------------------- release

  lemma BlockAtStart(t: Table, i: nat)
    requires WellSized(t) && i < |t|
    ensures BlockAt(t, 0x10000, Start(t, i)) == i
  {
    forall j | 0 <= j < i ensures Start(t, j) != Start(t, i) { StartMonotone(t, j, i); }
    BlockAtIs(t, Start(t, i), i);
  }

  // The three pieces a release leaves: what precedes the enlarged free block,
  // the block, and what follows it.
  function Before(t: Table, i: nat): Table
    requires i < |t|
  {
    if i >= 1 && t[i - 1].free then t[..i - 1] else t[..i]
  }

  function After(t: Table, i: nat): Table
    requires i < |t|
  {
    if i + 1 < |t| && t[i + 1].free then t[i + 2..] else t[i + 1..]
  }

  function LeftSize(t: Table, i: nat): int
    requires i < |t|
  {
    if i >= 1 && t[i - 1].free then t[i - 1].size else 0
  }

  function RightSize(t: Table, i: nat): int
    requires i < |t|
  {
    if i + 1 < |t| && t[i + 1].free then t[i + 1].size else 0
  }

  function Merged(t: Table, i: nat): Block
    requires i < |t|
  {
    Block(LeftSize(t, i) + t[i].size + RightSize(t, i), true)
  }

  function Released(t: Table, i: nat): Table
    requires i < |t|
  {
    Before(t, i) + [Merged(t, i)] + After(t, i)
  }

  lemma BeforeFacts(t: Table, i: nat)
    requires i < |t|
    ensures Sum(t[..i]) == Sum(Before(t, i)) + LeftSize(t, i)
    ensures Live(t[..i], 0x10000) == Live(Before(t, i), 0x10000)
  {
    if i >= 1 && t[i - 1].free {
      assert t[..i] == t[..i - 1] + [t[i - 1]];
      SumConcat(t[..i - 1], [t[i - 1]]);
      LiveConcat(t[..i - 1], [t[i - 1]], 0x10000);
      OneBlock(t[i - 1], 0x10000 + Sum(t[..i - 1]));
    }
  }

  lemma AfterFacts(t: Table, i: nat, base: int)
    requires i < |t|
    ensures Sum(t[i + 1..]) == RightSize(t, i) + Sum(After(t, i))
    ensures Live(t[i + 1..], base) == Live(After(t, i), base + RightSize(t, i))
  {
    if i + 1 < |t| && t[i + 1].free {
      assert t[i + 1..][1..] == t[i + 2..];
    }
  }

  lemma FreeBlockForm(t: Table, i: nat)
    requires i < |t| && t[i].size >= 0 && LeftSize(t, i) >= 0 && RightSize(t, i) >= 0
    requires LeftSize(t, i) + t[i].size + RightSize(t, i) <= 0x80000
    ensures FreeBlock(t, i) == Released(t, i)
  {
    hide Bits20, MergeIfFree, After, RightSize;
    var b := Block(t[i].size + RightSize(t, i), true);
    Bits20Small(b.size);
    Bits20Small(LeftSize(t, i) + b.size);
    MergeRight(t, i);
    if i >= 1 {
      MergeLeft(t[..i], b, After(t, i));
      assert t[..i][..i - 1] == t[..i - 1];
    }
  }

  lemma MergeLeft(a: Table, b: Block, c: Table)
    requires |a| > 0
    requires a[|a| - 1].free ==> Bits20(a[|a| - 1].size + b.size) == a[|a| - 1].size + b.size
    ensures MergeIfFree(a + [b] + c, |a| - 1, |a| - 1)
         == if a[|a| - 1].free then a[..|a| - 1] + [Block(a[|a| - 1].size + b.size, true)] + c
            else a + [b] + c
  {
    var t := a + [b] + c;
    assert t[|a|] == b && t[|a| - 1] == a[|a| - 1];
    assert t[..|a| - 1] == a[..|a| - 1] && t[|a| + 1..] == c;
  }

  lemma MergeRight(t: Table, i: nat)
    requires i < |t| && Bits20(t[i].size + RightSize(t, i)) == t[i].size + RightSize(t, i)
    ensures MergeIfFree(t[i := t[i].(free := true)], i, i + 1)
         == t[..i] + [Block(t[i].size + RightSize(t, i), true)] + After(t, i)
  {
    var t1 := t[i := t[i].(free := true)];
    assert t1[..i] == t[..i] && t1[i + 1..] == t[i + 1..];
    if i + 1 < |t| && t[i + 1].free {
      assert t1[i + 2..] == t[i + 2..];
    } else {
      assert t1 == t1[..i] + [t1[i]] + t1[i + 1..];
    }
  }

  lemma PiecesSum(t: Table, i: nat)
    requires Canonical(t) && i < |t|
    ensures var size := LeftSize(t, i) + t[i].size + RightSize(t, i);
            Sum(Before(t, i)) + size + Sum(After(t, i)) == 0x80000 && 0 < size <= 0x80000
    ensures 0 <= LeftSize(t, i) && 0 <= RightSize(t, i)
  {
    hide Live, Sum;
    Cut(t, i, 0x10000);
    BeforeFacts(t, i);
    AfterFacts(t, i, 0);
    SumNonNegative(Before(t, i));
    SumNonNegative(After(t, i));
  }

  // Releasing block i keeps the table canonical and removes its extent, if live.
  lemma FreeKeepsCanonical(t: Table, i: nat)
    requires Canonical(t) && i < |t|
    ensures Canonical(FreeBlock(t, i))
    ensures LiveOf(FreeBlock(t, i)) == LiveOf(t) - {Extent(Start(t, i), t[i].size)}
  {
    PiecesSum(t, i);
    FreeBlockForm(t, i);
    ReleasedLive(t, i);
    ReleasedShaped(t, i);
  }

  lemma ReleasedShaped(t: Table, i: nat)
    requires Canonical(t) && i < |t|
    ensures Shaped(Released(t, i))
  {
    hide Before, After, Merged, WellSized, NoNeighboursFree;
    MergedSized(t, i);
    BeforeShaped(t, i);
    AfterShaped(t, i);
    SidesNotFree(t, i);
    Glue(Before(t, i), Merged(t, i), After(t, i));
  }

  lemma MergedSized(t: Table, i: nat)
    requires WellSized(t) && i < |t|
    ensures Merged(t, i).free && Merged(t, i).size > 0 && Merged(t, i).size % 16 == 0
  {
  }

  lemma BeforeShaped(t: Table, i: nat)
    requires Shaped(t) && i < |t|
    ensures WellSized(Before(t, i)) && NoNeighboursFree(Before(t, i))
  {
    hide Shaped, WellSized, NoNeighboursFree;
    PrefixShaped(t, |Before(t, i)|);
  }

  lemma AfterShaped(t: Table, i: nat)
    requires Shaped(t) && i < |t|
    ensures WellSized(After(t, i)) && NoNeighboursFree(After(t, i))
    ensures After(t, i) != [] ==> After(t, i)[|After(t, i)| - 1].free
  {
    hide Shaped, WellSized, NoNeighboursFree;
    SuffixShaped(t, |t| - |After(t, i)|);
  }

  lemma SidesNotFree(t: Table, i: nat)
    requires NoNeighboursFree(t) && i < |t|
    ensures Before(t, i) != [] ==> !Before(t, i)[|Before(t, i)| - 1].free
    ensures After(t, i) != [] ==> !After(t, i)[0].free
  {
  }

  lemma PrefixShaped(t: Table, k: nat)
    requires Shaped(t) && k <= |t|
    ensures WellSized(t[..k]) && NoNeighboursFree(t[..k])
  {
  }

  lemma SuffixShaped(t: Table, k: nat)
    requires Shaped(t) && k <= |t|
    ensures WellSized(t[k..]) && NoNeighboursFree(t[k..])
    ensures k < |t| ==> t[k..][|t| - k - 1].free
  {
    if k > 0 {
      SuffixShaped(t, k - 1);
      var u := t[k - 1..];
      assert t[k..] == u[1..];
    }
  }

  lemma Glue(a: Table, b: Block, c: Table)
    requires WellSized(a) && WellSized(c) && b.size > 0 && b.size % 16 == 0 && b.free
    requires NoNeighboursFree(a) && NoNeighboursFree(c)
    requires a == [] || !a[|a| - 1].free
    requires c != [] ==> !c[0].free && c[|c| - 1].free
    ensures Shaped(a + [b] + c)
  {
    var u := a + [b] + c;
    assert u[|a|] == b;
    assert forall j :: 0 <= j < |a| ==> u[j] == a[j];
    assert forall j :: |a| < j < |u| ==> u[j] == c[j - |a| - 1];
  }

  lemma ReleasedLive(t: Table, i: nat)
    requires Canonical(t) && i < |t|
    ensures Sum(Released(t, i)) == 0x80000
    ensures LiveOf(Released(t, i)) == LiveOf(t) - {Extent(Start(t, i), t[i].size)}
  {
    hide Live, Sum, Before, After, LeftSize, RightSize, WellSized, Coalesced;
    PiecesSum(t, i);
    Join(Before(t, i), [Merged(t, i)], After(t, i), 0x10000);
    OneBlock(Merged(t, i), 0x10000 + Sum(Before(t, i)));
    BeforeFacts(t, i);
    AfterFacts(t, i, Start(t, i) + t[i].size);
    BlockIsNotElsewhere(t, i);
  }

  // The live extents other than block i's are those of its two sides.
  lemma BlockIsNotElsewhere(t: Table, i: nat)
    requires WellSized(t) && i < |t|
    ensures LiveOf(t) - {Extent(Start(t, i), t[i].size)}
         == Live(t[..i], 0x10000) + Live(t[i + 1..], Start(t, i) + t[i].size)
  {
    hide Live, Sum, Start;
    var e, next := Extent(Start(t, i), t[i].size), Start(t, i) + t[i].size;
    var pre, post := Live(t[..i], 0x10000), Live(t[i + 1..], next);
    assert LiveOf(t) == pre + (if t[i].free then {} else {e}) + post by { Cut(t, i, 0x10000); StartIs(t, i); }
    assert e !in pre by { LiveBounds(t[..i], 0x10000); StartIs(t, i); }
    assert e !in post by { LiveBounds(t[i + 1..], next); }
  }

  lemma StartIs(t: Table, i: nat)
    requires i <= |t|
    ensures Start(t, i) == 0x10000 + Sum(t[..i])
  {
  }

  // Freeing the address of a live extent removes exactly that extent.
  lemma FreeLive(t: Table, e: Extent)
    requires Canonical(t) && e in LiveOf(t)
    ensures Canonical(FreeTable(t, e.addr)) && LiveOf(FreeTable(t, e.addr)) == LiveOf(t) - {e}
  {
    var i := LiveIndex(t, 0x10000, e);
    BlockAtStart(t, i);
    FreeKeepsCanonical(t, i);
  }

  // Freeing any other address (unknown, interior, or already free) changes nothing.
  lemma FreeOther(t: Table, m: int)
    requires Canonical(t) && forall e :: e in LiveOf(t) ==> e.addr != m
    ensures FreeTable(t, m) == t
  {
    var i := BlockAt(t, 0x10000, m);
    if i < |t| {
      if !t[i].free { LiveAt(t, 0x10000, i); assert false; }
      FreeKeepsCanonical(t, i);
      LiveBounds(t, 0x10000);
      CanonicalIsUnique(FreeTable(t, m), t);
    }
  }

  // Freeing what was just allocated restores the exact table.
  lemma FreeUndoesAlloc(t: Table, size: int)
    requires Canonical(t) && size > 0 && AllocTable(t, size).ptr.Some?
    ensures var a := AllocTable(t, size);
            FreeTable(a.table, a.ptr.value) == t
  {
    AllocKeepsCanonical(t, size);
    var a := AllocTable(t, size);
    FreeLive(a.table, Extent(a.ptr.value, RoundUp(size)));
    CanonicalIsUnique(FreeTable(a.table, a.ptr.value), t);
  }

  // ------------------------------------------------------------------ runs

  datatype Op = AllocOp(size: int) | FreeOp(ptr: int)

  function Step(t: Table, op: Op): Table {
    match op
    case AllocOp(size) => AllocTable(t, size).table
    case FreeOp(m) => FreeTable(t, m)
  }

  function Run(t: Table, ops: seq<Op>): Table
    decreases |ops|
  {
    if ops == [] then t else Run(Step(t, ops[0]), ops[1..])
  }

  predicate Positive(ops: seq<Op>) {
    forall i :: 0 <= i < |ops| && ops[i].AllocOp? ==> ops[i].size > 0
  }

  lemma StepKeepsCanonical(t: Table, op: Op)
    requires Canonical(t) && (op.AllocOp? ==> op.size > 0)
    ensures Canonical(Step(t, op))
  {
    match op
    case AllocOp(size) => AllocKeepsCanonical(t, size);
    case FreeOp(m) =>
      var i := BlockAt(t, 0x10000, m);
      if i < |t| { FreeKeepsCanonical(t, i); }
  }

  // Over every run the table stays canonical, and once nothing is live it is the
  // single initial block again, whatever the order of the releases.
  lemma {:induction false} RunKeepsCanonical(t: Table, ops: seq<Op>)
    requires Canonical(t) && Positive(ops)
    ensures Canonical(Run(t, ops))
    ensures LiveOf(Run(t, ops)) == {} ==> Run(t, ops) == INITIAL
    decreases |ops|
  {
    if ops != [] {
      StepKeepsCanonical(t, ops[0]);
      RunKeepsCanonical(Step(t, ops[0]), ops[1..]);
    } else if LiveOf(t) == {} {
      NothingLiveIsInitial(t);
    }
  }

  lemma FreeDropsAddress(t: Table, m: int)
    requires Canonical(t)
    ensures Canonical(FreeTable(t, m))
    ensures forall e :: e in LiveOf(FreeTable(t, m)) <==> e in LiveOf(t) && e.addr != m
  {
    LiveExtentsAreSafe(t);
    if e :| e in LiveOf(t) && e.addr == m {
      FreeLive(t, e);
      assert forall f :: f in LiveOf(t) && f != e ==> Apart(e, f);
    } else {
      FreeOther(t, m);
    }
  }

  function Frees(ptrs: seq<int>): seq<Op> {
    seq(|ptrs|, i requires 0 <= i < |ptrs| => FreeOp(ptrs[i]))
  }

  // Releasing every live address, in any order, with repeats and strangers mixed
  // in, gives back the initial table.
  lemma {:induction false} FreeingAllIsInitial(t: Table, ptrs: seq<int>)
    requires Canonical(t)
    requires forall e :: e in LiveOf(t) ==> e.addr in ptrs
    ensures Run(t, Frees(ptrs)) == INITIAL
    decreases |ptrs|
  {
    if ptrs == [] {
      NothingLiveIsInitial(t);
    } else {
      var next := FreeTable(t, ptrs[0]);
      assert Frees(ptrs)[1..] == Frees(ptrs[1..]);
      FreeDropsAddress(t, ptrs[0]);
      FreeingAllIsInitial(next, ptrs[1..]);
    }
  }
}
