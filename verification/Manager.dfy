/** The heap allocator of memory/Manager.cc over the paged memory. */
module HeapManager {
  import opened PagedMemory

  const MAP_BASE_ADDRESS := 0xb7fb_0000

  // ---------- Chunks and the two indexes ----------

  /** A piece of managed memory: a pointer when allocated, a hole when not. */
  datatype Chunk = Chunk(address: int, size: int, isAllocated: bool) {
    function End(): int {
      address + size
    }
  }

  /** `std::map::lower_bound`: the first chunk at `address` or above.  The ordered map
      of chunks is the sequence of its values in the order of their addresses. */
  function LowerBound(cs: seq<Chunk>, address: int): (i: nat)
    ensures i <= |cs|
    ensures forall k :: 0 <= k < i ==> cs[k].address < address
    ensures i < |cs| ==> address <= cs[i].address
  {
    if cs == [] || address <= cs[0].address then 0 else 1 + LowerBound(cs[1..], address)
  }

  /** `std::map::insert`: keeps what is there if the address is taken. */
  function InsertChunk(cs: seq<Chunk>, c: Chunk): seq<Chunk> {
    if cs == [] || c.address < cs[0].address then [c] + cs
    else if c.address == cs[0].address then cs
    else [cs[0]] + InsertChunk(cs[1..], c)
  }

  lemma {:induction false} InsertChunkMembers(cs: seq<Chunk>, c: Chunk)
    ensures forall d :: d in InsertChunk(cs, c) ==> d == c || d in cs
  {
    if cs != [] && cs[0].address < c.address {
      InsertChunkMembers(cs[1..], c);
    }
  }

  function EraseChunk(cs: seq<Chunk>, address: int): seq<Chunk> {
    if cs == [] then []
    else if cs[0].address == address then cs[1..]
    else [cs[0]] + EraseChunk(cs[1..], address)
  }

  /** `std::multimap::insert`: behind the holes of the same size. */
  function InsertHole(hs: seq<Chunk>, c: Chunk): seq<Chunk> {
    if hs == [] || c.size < hs[0].size then [c] + hs else [hs[0]] + InsertHole(hs[1..], c)
  }

  function EraseHole(hs: seq<Chunk>, c: Chunk): seq<Chunk> {
    if hs == [] then [] else if hs[0] == c then hs[1..] else [hs[0]] + EraseHole(hs[1..], c)
  }

  /** All of `a` starts below `lo`, all of `b` at `hi` or above. */
  ghost predicate Around(a: seq<Chunk>, lo: int, hi: int, b: seq<Chunk>) {
    (forall i :: 0 <= i < |a| ==> a[i].address < lo) && (forall i :: 0 <= i < |b| ==> hi <= b[i].address)
  }

  lemma {:induction false} LowerBoundAt(a: seq<Chunk>, b: seq<Chunk>, address: int)
    requires Around(a, address, address, b)
    ensures LowerBound(a + b, address) == |a|
  {
    if a == [] {
      assert a + b == b;
    } else {
      assert (a + b)[1..] == a[1..] + b;
      LowerBoundAt(a[1..], b, address);
    }
  }

  lemma {:induction false} InsertAt(a: seq<Chunk>, c: Chunk, b: seq<Chunk>)
    requires Around(a, c.address, c.address + 1, b)
    ensures InsertChunk(a + b, c) == a + [c] + b
  {
    if a == [] {
      assert a + b == b;
    } else {
      assert (a + b)[1..] == a[1..] + b;
      InsertAt(a[1..], c, b);
    }
  }

  lemma {:induction false} EraseAt(a: seq<Chunk>, c: Chunk, b: seq<Chunk>)
    requires Around(a, c.address, c.address + 1, b)
    ensures EraseChunk(a + [c] + b, c.address) == a + b
  {
    if a == [] {
      assert (a + [c] + b)[1..] == b;
    } else {
      assert (a + [c] + b)[1..] == a[1..] + [c] + b;
      EraseAt(a[1..], c, b);
    }
  }

  // ---------- The holes index ----------

  ghost predicate SortedBySize(hs: seq<Chunk>) {
    forall i, j :: 0 <= i < j < |hs| ==> hs[i].size <= hs[j].size
  }

  ghost predicate Distinct(hs: seq<Chunk>) {
    forall i, j :: 0 <= i < j < |hs| ==> hs[i] != hs[j]
  }

  /** `hs` lists exactly the free chunks of `cs`, each once, in the order of their sizes. */
  ghost predicate HolesOf(cs: seq<Chunk>, hs: seq<Chunk>) {
    SortedBySize(hs) && Distinct(hs) && forall c :: c in hs <==> c in cs && !c.isAllocated
  }

  lemma {:induction false} InsertHoleMembers(hs: seq<Chunk>, c: Chunk)
    ensures forall d :: d in InsertHole(hs, c) <==> d == c || d in hs
  {
    if hs != [] && hs[0].size <= c.size {
      assert hs == [hs[0]] + hs[1..];
      InsertHoleMembers(hs[1..], c);
    }
  }

  lemma {:induction false} InsertHoleOrder(hs: seq<Chunk>, c: Chunk)
    requires SortedBySize(hs) && Distinct(hs)
    ensures SortedBySize(InsertHole(hs, c))
    ensures c !in hs ==> Distinct(InsertHole(hs, c))
  {
    if hs != [] && hs[0].size <= c.size {
      InsertHoleOrder(hs[1..], c);
      InsertHoleMembers(hs[1..], c);
      var t := InsertHole(hs[1..], c);
      forall k | 0 <= k < |t| ensures hs[0].size <= t[k].size && (hs[0] != c ==> hs[0] != t[k]) {
        assert t[k] == c || t[k] in hs[1..];
      }
    }
  }

  lemma {:induction false} EraseHoleMembers(hs: seq<Chunk>, c: Chunk)
    requires Distinct(hs)
    ensures forall d :: d in EraseHole(hs, c) <==> d != c && d in hs
  {
    if hs != [] {
      assert hs == [hs[0]] + hs[1..];
      EraseHoleMembers(hs[1..], c);
      assert hs[0] !in hs[1..];
    }
  }

  lemma {:induction false} EraseHoleOrder(hs: seq<Chunk>, c: Chunk)
    requires SortedBySize(hs) && Distinct(hs)
    ensures SortedBySize(EraseHole(hs, c)) && Distinct(EraseHole(hs, c))
  {
    if hs != [] {
      EraseHoleOrder(hs[1..], c);
      EraseHoleMembers(hs[1..], c);
      var t := EraseHole(hs[1..], c);
      forall k | 0 <= k < |t| ensures hs[0].size <= t[k].size && hs[0] != t[k] {
        assert t[k] in hs[1..];
        var m :| 1 <= m < |hs| && hs[m] == t[k];
      }
    }
  }

  lemma {:induction false} InsertHoleTwice(hs: seq<Chunk>, c: Chunk)
    requires c in hs
    ensures !Distinct(InsertHole(hs, c))
  {
    var t := InsertHole(hs, c);
    if c.size < hs[0].size {
      var k :| 0 <= k < |hs| && hs[k] == c;
      assert t[0] == t[k + 1];
    } else if c in hs[1..] {
      InsertHoleTwice(hs[1..], c);
      var i, j :| 0 <= i < j < |t| - 1 && t[1..][i] == t[1..][j];
      assert t[i + 1] == t[j + 1];
    } else {
      InsertHoleMembers(hs[1..], c);
      var k :| 0 <= k < |t| - 1 && t[1..][k] == c;
      assert t[0] == t[k + 1];
    }
  }

  /** `std::multimap::upper_bound`: the first hole larger than `size`. */
  function UpperBound(hs: seq<Chunk>, size: int): (i: nat)
    ensures i <= |hs|
    ensures forall k :: 0 <= k < i ==> hs[k].size <= size
    ensures i < |hs| ==> size < hs[i].size
  {
    if hs == [] || size < hs[0].size then 0 else 1 + UpperBound(hs[1..], size)
  }

  /** A hole is listed behind those that are not larger. */
  lemma {:induction false} InsertHolePlace(hs: seq<Chunk>, c: Chunk)
    ensures var i := UpperBound(hs, c.size); InsertHole(hs, c) == hs[..i] + [c] + hs[i..]
  {
    if hs != [] && hs[0].size <= c.size {
      var t, i := hs[1..], UpperBound(hs[1..], c.size);
      InsertHolePlace(t, c);
      assert hs[..i + 1] == [hs[0]] + t[..i] && hs[i + 1..] == t[i..];
    }
  }

  /** Of a hole listed several times the first goes. */
  lemma {:induction false} EraseHolePlace(hs: seq<Chunk>, c: Chunk) returns (i: nat)
    requires c in hs
    ensures i < |hs| && hs[i] == c && c !in hs[..i] && EraseHole(hs, c) == hs[..i] + hs[i + 1..]
  {
    if hs[0] == c {
      i := 0;
    } else {
      var t := hs[1..];
      var j := EraseHolePlace(t, c);
      i := j + 1;
      assert hs[..i] == [hs[0]] + t[..j] && hs[i + 1..] == t[j + 1..];
    }
  }

  ghost predicate Inserted(hs: seq<Chunk>, hs': seq<Chunk>, c: Chunk) {
    hs' == InsertHole(hs, c)
  }

  ghost predicate Erased(hs: seq<Chunk>, hs': seq<Chunk>, c: Chunk) {
    hs' == EraseHole(hs, c)
  }

  lemma NewHole(a: seq<Chunk>, c: Chunk, b: seq<Chunk>, hs: seq<Chunk>)
    requires HolesOf(a + b, hs) && !c.isAllocated && c !in a + b
    ensures HolesOf(a + [c] + b, InsertHole(hs, c))
  {
    InsertHoleMembers(hs, c);
    InsertHoleOrder(hs, c);
  }

  lemma HoleGone(a: seq<Chunk>, c: Chunk, b: seq<Chunk>, hs: seq<Chunk>)
    requires HolesOf(a + [c] + b, hs) && !c.isAllocated && c !in a + b
    ensures HolesOf(a + b, EraseHole(hs, c))
  {
    EraseHoleMembers(hs, c);
    EraseHoleOrder(hs, c);
  }

  lemma PointerIsNoHole(a: seq<Chunk>, c: Chunk, b: seq<Chunk>, hs: seq<Chunk>)
    requires c.isAllocated
    ensures HolesOf(a + b, hs) <==> HolesOf(a + [c] + b, hs)
  {
  }

  // ---------- Tiling ----------

  /** A small chunk lies within one page, a large one is allocated and made of whole
      pages; none reaches the last page of the address space. */
  ghost predicate FitsPages(c: Chunk) {
    && 1 <= c.size && 0 <= c.address && c.End() <= LAST_PAGE
    && if c.size <= PAGE_SIZE then c.End() <= Tag(c.address) + PAGE_SIZE
       else c.isAllocated && c.address % PAGE_SIZE == 0 && c.size % PAGE_SIZE == 0
  }

  predicate SamePage(a: int, b: int) {
    Tag(a) == Tag(b)
  }

  /** `y` starts where `x` ends, or both are at a page boundary with a gap between. */
  ghost predicate Joint(x: Chunk, y: Chunk) {
    x.End() == y.address
    || (x.End() % PAGE_SIZE == 0 && y.address % PAGE_SIZE == 0 && x.End() < y.address)
  }

  ghost predicate Merged(x: Chunk, y: Chunk) {
    x.isAllocated || y.isAllocated || !SamePage(x.address, y.address)
  }

  ghost predicate LinkAt(cs: seq<Chunk>, i: int)
    requires 0 <= i < |cs| - 1
  {
    Joint(cs[i], cs[i + 1]) && Merged(cs[i], cs[i + 1])
  }

  ghost predicate Linked(cs: seq<Chunk>) {
    forall i {:trigger LinkAt(cs, i)} :: 0 <= i < |cs| - 1 ==> LinkAt(cs, i)
  }

  ghost predicate AllFit(cs: seq<Chunk>) {
    forall c {:trigger FitsPages(c)} :: c in cs ==> FitsPages(c)
  }

  ghost predicate NoWholeHole(cs: seq<Chunk>) {
    forall c :: c in cs && !c.isAllocated ==> c.size < PAGE_SIZE
  }

  /** Chunks in address order, whole pages tiled from boundary to boundary, no two
      neighbouring holes in one page. */
  ghost predicate Tiled(cs: seq<Chunk>) {
    && AllFit(cs) && Linked(cs)
    && (cs != [] ==> cs[0].address % PAGE_SIZE == 0 && cs[|cs| - 1].End() % PAGE_SIZE == 0)
  }

  ghost predicate LinkOk(a: seq<Chunk>, b: seq<Chunk>) {
    a != [] && b != [] ==> Joint(a[|a| - 1], b[0]) && Merged(a[|a| - 1], b[0])
  }

  lemma LinkedParts(a: seq<Chunk>, b: seq<Chunk>)
    ensures Linked(a + b) <==> Linked(a) && Linked(b) && LinkOk(a, b)
  {
    var cs := a + b;
    if Linked(cs) {
      forall i | 0 <= i < |a| - 1 ensures LinkAt(a, i) {
        assert LinkAt(cs, i);
      }
      forall i | 0 <= i < |b| - 1 ensures LinkAt(b, i) {
        assert LinkAt(cs, |a| + i);
      }
      assert a != [] && b != [] ==> LinkAt(cs, |a| - 1);
    }
    if Linked(a) && Linked(b) && LinkOk(a, b) {
      forall i | 0 <= i < |cs| - 1 ensures LinkAt(cs, i) {
        if i + 1 < |a| {
          assert LinkAt(a, i);
        } else if |a| <= i {
          assert LinkAt(b, i - |a|);
        }
      }
    }
  }

  lemma {:induction false} ChunksIncrease(cs: seq<Chunk>, i: int, j: int)
    requires AllFit(cs) && Linked(cs) && 0 <= i < j < |cs|
    ensures cs[i].End() <= cs[j].address
    decreases j - i
  {
    assert LinkAt(cs, i) && FitsPages(cs[i]) && FitsPages(cs[i + 1]);
    if i + 1 < j {
      ChunksIncrease(cs, i + 1, j);
    }
  }

  /** The blocks of a tiling are disjoint. */
  lemma ChunksDisjoint(cs: seq<Chunk>, x: Chunk, y: Chunk)
    requires Tiled(cs) && x in cs && y in cs && x != y
    ensures x.End() <= y.address || y.End() <= x.address
  {
    var i :| 0 <= i < |cs| && cs[i] == x;
    var j :| 0 <= j < |cs| && cs[j] == y;
    if i < j {
      ChunksIncrease(cs, i, j);
    } else {
      ChunksIncrease(cs, j, i);
    }
  }

  lemma SplitAround(a: seq<Chunk>, c: Chunk, b: seq<Chunk>)
    requires AllFit(a + [c] + b) && Linked(a + [c] + b)
    ensures Around(a, c.address, c.End(), b) && c.address < c.End() && c !in a + b
    ensures forall i :: 0 <= i < |a| ==> a[i].End() <= c.address
  {
    var cs := a + [c] + b;
    assert cs[|a|] == c && FitsPages(c);
    forall i | 0 <= i < |a| ensures a[i].End() <= c.address && a[i].address < c.address {
      assert cs[i] == a[i] && FitsPages(a[i]);
      ChunksIncrease(cs, i, |a|);
    }
    forall i | 0 <= i < |b| ensures c.End() <= b[i].address {
      assert cs[|a| + 1 + i] == b[i] && FitsPages(b[i]);
      ChunksIncrease(cs, |a|, |a| + 1 + i);
    }
  }

  /** Replacing one chunk by pieces that tile the same bytes keeps the tiling. */
  lemma ReplaceTiles(a: seq<Chunk>, old_: seq<Chunk>, new_: seq<Chunk>, b: seq<Chunk>)
    requires Tiled(a + old_ + b) && old_ != [] && new_ != []
    requires AllFit(new_) && Linked(new_)
    requires new_[0].address == old_[0].address && new_[|new_| - 1].End() == old_[|old_| - 1].End()
    requires LinkOk(a, new_) && LinkOk(new_, b)
    ensures Tiled(a + new_ + b)
  {
    LinkedParts(a + old_, b);
    LinkedParts(a, old_);
    LinkedParts(a, new_);
    LinkedParts(a + new_, b);
    assert (a + new_)[|a + new_| - 1] == new_[|new_| - 1];
    assert forall c :: c in a + new_ + b ==> c in a + old_ + b || c in new_;
    assert (a + old_ + b)[0] == if a == [] then old_[0] else a[0];
    assert b == [] ==> (a + old_ + b)[|a + old_ + b| - 1] == old_[|old_| - 1];
    assert b != [] ==> (a + old_ + b)[|a + old_ + b| - 1] == b[|b| - 1];
  }

  // ---------- Alignment and carving ----------

  /** Rounds up to a multiple of the alignment, as the ceiling on doubles does. */
  function NextAligned(address: int, alignment: int): int
    requires 0 < alignment
  {
    (address + alignment - 1) / alignment * alignment
  }

  predicate IsAligned(address: int, alignment: int)
    requires 0 < alignment
  {
    address % alignment == 0
  }

  lemma Multiples(k: int, alignment: int)
    requires 0 < alignment
    ensures k >= 1 ==> k * alignment >= alignment
    ensures k <= -1 ==> k * alignment <= -alignment
  {
    assert k >= 1 ==> (k - 1) * alignment >= 0;
    assert k <= -1 ==> (k + 1) * alignment <= 0;
  }

  lemma MultipleIsAligned(q: int, alignment: int)
    requires 0 < alignment
    ensures IsAligned(q * alignment, alignment)
  {
    var r, d := q * alignment % alignment, q - q * alignment / alignment;
    assert d * alignment == r;
    Multiples(d, alignment);
  }

  /** NextAligned is the least aligned address not below `address`. */
  lemma NextAlignedIsNext(address: int, alignment: int)
    requires 0 <= address && 0 < alignment
    ensures address <= NextAligned(address, alignment) < address + alignment
    ensures IsAligned(NextAligned(address, alignment), alignment)
  {
    var n := address + alignment - 1;
    assert n == alignment * (n / alignment) + n % alignment;
    MultipleIsAligned(n / alignment, alignment);
  }

  lemma SameMultiple(m: int, q: int, alignment: int)
    requires 0 < alignment && 0 <= m * alignment - q * alignment < alignment
    ensures m == q
  {
    assert m * alignment - q * alignment == (m - q) * alignment;
    Multiples(m - q, alignment);
  }

  lemma AlignedStays(address: int, alignment: int)
    requires 0 <= address && 0 < alignment
    ensures NextAligned(address, alignment) == address <==> IsAligned(address, alignment)
  {
    NextAlignedIsNext(address, alignment);
    if IsAligned(address, alignment) {
      var q, m := address / alignment, (address + alignment - 1) / alignment;
      assert address == q * alignment && NextAligned(address, alignment) == m * alignment;
      SameMultiple(m, q, alignment);
    }
  }

  /** A page boundary is aligned to every divisor of the page size. */
  lemma PagesAreAligned(page: int, alignment: int)
    requires 0 < alignment && PAGE_SIZE % alignment == 0 && page % PAGE_SIZE == 0
    ensures IsAligned(page, alignment)
  {
    var k, m := page / PAGE_SIZE, PAGE_SIZE / alignment;
    assert page == (k * m) * alignment by {
      assert PAGE_SIZE == m * alignment && page == k * PAGE_SIZE;
      assert k * (m * alignment) == (k * m) * alignment;
    }
    MultipleIsAligned(k * m, alignment);
  }

  predicate CanHoleContain(hole: Chunk, size: int, alignment: int)
    requires 0 < alignment
  {
    size + (NextAligned(hole.address, alignment) - hole.address) <= hole.size
  }

  /** A hole can contain a request exactly when some aligned address in it leaves enough room. */
  lemma ContainsWhereAligned(hole: Chunk, size: int, alignment: int)
    requires 0 <= hole.address && 0 < alignment
    ensures CanHoleContain(hole, size, alignment) <==>
      exists at :: hole.address <= at && IsAligned(at, alignment) && at + size <= hole.End()
  {
    NextAlignedIsNext(hole.address, alignment);
    forall at | hole.address <= at && IsAligned(at, alignment) ensures NextAligned(hole.address, alignment) <= at {
      LeastAligned(hole.address, at, alignment);
    }
  }

  lemma LeastAligned(address: int, at: int, alignment: int)
    requires 0 <= address <= at && 0 < alignment && IsAligned(at, alignment)
    ensures NextAligned(address, alignment) <= at
  {
    NextAlignedIsNext(address, alignment);
    var q, m := at / alignment, (address + alignment - 1) / alignment;
    if at < NextAligned(address, alignment) {
      SameMultiple(m, q, alignment);
    }
  }

  /** What is left of a hole before an allocation at `at`, and behind one that ends at `end`. */
  function Front(hole: Chunk, at: int): seq<Chunk> {
    if hole.address < at then [Chunk(hole.address, at - hole.address, false)] else []
  }

  function Back(hole: Chunk, end: int): seq<Chunk> {
    if end < hole.End() then [Chunk(end, hole.End() - end, false)] else []
  }

  /** The pieces of a hole after `size` bytes at `at` are taken out of it. */
  function Carve(hole: Chunk, at: int, size: int): seq<Chunk> {
    Front(hole, at) + [Chunk(at, size, true)] + Back(hole, at + size)
  }

  lemma CarveFits(hole: Chunk, at: int, size: int)
    requires FitsPages(hole) && !hole.isAllocated && 1 <= size
    requires hole.address <= at && at + size <= hole.End()
    ensures var new_ := Carve(hole, at, size);
      && AllFit(new_) && Linked(new_)
      && new_[0].address == hole.address && new_[|new_| - 1].End() == hole.End()
      && SamePage(new_[|new_| - 1].address, hole.address)
    ensures forall c :: c in Carve(hole, at, size) && !c.isAllocated ==> c.size < PAGE_SIZE
  {
    var new_ := Carve(hole, at, size);
    SamePageInside(hole, at);
    if at + size < hole.End() {
      SamePageInside(hole, at + size);
    }
    forall c | c in new_ ensures FitsPages(c) {
      if c.address == hole.address < at {
        FrontFits(hole, c);
      } else if c.address == at {
        FrontFits(Chunk(at, hole.End() - at, false), c);
      }
    }
  }

  lemma FrontFits(c: Chunk, d: Chunk)
    requires FitsPages(c) && c.size <= PAGE_SIZE && d.address == c.address && 1 <= d.size <= c.size
    ensures FitsPages(d)
  {
  }

  lemma CarveTiles(a: seq<Chunk>, hole: Chunk, b: seq<Chunk>, at: int, size: int)
    requires Tiled(a + [hole] + b) && !hole.isAllocated && 1 <= size
    requires hole.address <= at && at + size <= hole.End()
    ensures Tiled(a + Carve(hole, at, size) + b)
    ensures NoWholeHole(a + b) ==> NoWholeHole(a + Carve(hole, at, size) + b)
  {
    var cs, new_ := a + [hole] + b, Carve(hole, at, size);
    assert hole in cs;
    CarveFits(hole, at, size);
    LinkedParts(a + [hole], b);
    LinkedParts(a, [hole]);
    assert LinkOk(a, new_) && LinkOk(new_, b);
    ReplaceTiles(a, [hole], new_, b);
    forall c | c in a + new_ + b && !c.isAllocated && NoWholeHole(a + b) ensures c.size < PAGE_SIZE {
      assert c in new_ || c in a + b;
    }
  }

  lemma SamePageInside(c: Chunk, at: int)
    requires FitsPages(c) && c.size <= PAGE_SIZE && c.address <= at < c.End()
    ensures SamePage(at, c.address) && FitsPages(Chunk(at, c.End() - at, false))
  {
  }

  // ---------- Pages ----------

  ghost predicate Covers(c: Chunk, t: int) {
    IsTag(t) && Tag(c.address) <= t < c.End()
  }

  ghost predicate Owned(cs: seq<Chunk>, t: int) {
    exists c :: c in cs && Covers(c, t)
  }

  /** The mapped pages are the initial ones plus, disjointly, those of the chunks. */
  ghost predicate PagesOk(mapped: set<int>, initial: set<int>, cs: seq<Chunk>) {
    && (forall t :: t in mapped <==> t in initial || Owned(cs, t))
    && forall t :: t in initial ==> !Owned(cs, t)
  }

  lemma SmallChunkCoversItsPage(c: Chunk, t: int)
    requires FitsPages(c) && c.size <= PAGE_SIZE
    ensures Covers(c, t) <==> t == Tag(c.address)
  {
  }

  /** Exchanging small chunks for small chunks of the same page owns the same pages. */
  lemma ReplaceOwns(a: seq<Chunk>, old_: seq<Chunk>, new_: seq<Chunk>, b: seq<Chunk>, t: int)
    requires AllFit(old_) && AllFit(new_) && old_ != [] && new_ != []
    requires forall c, d :: c in old_ + new_ && d in old_ + new_ ==>
      c.size <= PAGE_SIZE && SamePage(c.address, d.address)
    ensures Owned(a + old_ + b, t) <==> Owned(a + new_ + b, t)
  {
    var o, n := old_[0], new_[0];
    assert o in old_ && n in new_;
    SmallChunkCoversItsPage(o, t);
    SmallChunkCoversItsPage(n, t);
    forall c | c in old_ + new_ ensures Covers(c, t) <==> t == Tag(o.address) {
      assert c in old_ || c in new_;
      SmallChunkCoversItsPage(c, t);
    }
    assert Owned(a + old_ + b, t) ==> (exists c :: (c in a || c in b) && Covers(c, t)) || Covers(o, t);
    assert Covers(n, t) <==> Covers(o, t);
  }

  ghost predicate WholePages(c: Chunk) {
    FitsPages(c) && c.address % PAGE_SIZE == 0 && c.End() % PAGE_SIZE == 0
  }

  /** Where a block of unowned pages goes among the chunks. */
  lemma NewBlock(cs: seq<Chunk>, c: Chunk) returns (a: seq<Chunk>, b: seq<Chunk>)
    requires Tiled(cs) && WholePages(c)
    requires forall t :: IsTag(t) && c.address <= t < c.End() ==> !Owned(cs, t)
    ensures cs == a + b && Around(a, c.address, c.End(), b) && Tiled(a + [c] + b)
  {
    var i := LowerBound(cs, c.address);
    a, b := cs[..i], cs[i..];
    assert cs == a + b;
    forall k | 0 <= k < |a| ensures a[k].address < c.address && a[k].End() <= c.address {
      assert a[k] == cs[k] && a[k] in cs;
      assert Covers(a[k], c.address) || a[k].End() <= c.address;
    }
    forall k | 0 <= k < |b| ensures c.End() <= b[k].address {
      assert b[k] == cs[i + k] && FitsPages(cs[i]) && FitsPages(b[k]);
      if 0 < k {
        ChunksIncrease(cs, i, i + k);
      }
      BlockBelow(cs, c, b[k]);
    }
    BlockTiles(a, c, b);
  }

  lemma BlockTiles(a: seq<Chunk>, c: Chunk, b: seq<Chunk>)
    requires Tiled(a + b) && WholePages(c)
    requires forall k :: 0 <= k < |a| ==> a[k].End() <= c.address
    requires forall k :: 0 <= k < |b| ==> c.End() <= b[k].address
    ensures Tiled(a + [c] + b)
  {
    var cs := a + b;
    LinkedParts(a, b);
    LinkedParts(a, [c]);
    LinkedParts(a + [c], b);
    if a != [] {
      assert cs[0] == a[0] && cs[|a| - 1] == a[|a| - 1] && a[|a| - 1] in cs;
    }
    if b != [] {
      assert cs[|cs| - 1] == b[|b| - 1] && cs[|a|] == b[0];
    }
    assert a != [] ==> FitsPages(a[|a| - 1]);
    assert b != [] ==> FitsPages(b[0]);
    assert LinkOk(a, [c]) && LinkOk([c], b);
    assert Linked([c]);
    assert LinkOk(a + [c], b);
    assert forall x :: x in a + [c] + b ==> x in cs || x == c;
  }

  lemma BlockBelow(cs: seq<Chunk>, c: Chunk, y: Chunk)
    requires y in cs && FitsPages(y) && WholePages(c) && c.address <= y.address
    requires forall t :: IsTag(t) && c.address <= t < c.End() ==> !Owned(cs, t)
    ensures c.End() <= y.address
  {
    var t := Tag(y.address);
    assert c.address <= t;
    assert Covers(y, t);
  }

  lemma NewBlockOwns(mapped: set<int>, initial: set<int>, a: seq<Chunk>, c: Chunk, b: seq<Chunk>)
    requires PagesOk(mapped, initial, a + b) && WholePages(c)
    requires forall t :: t in mapped ==> !(c.address <= t < c.End())
    ensures PagesOk(mapped + Tags(c.address, c.End()), initial, a + [c] + b)
  {
    forall t ensures Owned(a + [c] + b, t) <==> Owned(a + b, t) || Covers(c, t) {
      assert Covers(c, t) ==> c in a + [c] + b;
    }
    assert forall t :: t in Tags(c.address, c.End()) <==> Covers(c, t);
  }

  /** Taking a block of whole pages out keeps the tiling and frees exactly its pages. */
  lemma RemoveBlock(mapped: set<int>, initial: set<int>, a: seq<Chunk>, c: Chunk, b: seq<Chunk>)
    requires Tiled(a + [c] + b) && PagesOk(mapped, initial, a + [c] + b) && WholePages(c)
    ensures Tiled(a + b) && PagesOk(mapped - Tags(c.address, c.End()), initial, a + b)
  {
    var cs := a + [c] + b;
    LinkedParts(a + [c], b);
    LinkedParts(a, [c]);
    SplitAround(a, c, b);
    LinkedParts(a, b);
    assert forall x :: x in a + b ==> x in cs;
    assert a != [] ==> cs[0] == a[0];
    assert b != [] ==> cs[|cs| - 1] == b[|b| - 1];
    assert c in cs;
    forall t ensures Owned(cs, t) <==> Owned(a + b, t) || Covers(c, t) {
    }
    forall t | Covers(c, t) ensures !Owned(a + b, t) {
      forall x | x in a + b ensures !Covers(x, t) {
        assert (exists i :: 0 <= i < |a| && a[i] == x) || exists i :: 0 <= i < |b| && b[i] == x;
        BlockApart(c, x, t);
      }
    }
    assert forall t :: t in Tags(c.address, c.End()) <==> Covers(c, t);
  }

  lemma BlockApart(c: Chunk, x: Chunk, t: int)
    requires WholePages(c) && Covers(c, t) && (x.End() <= c.address || c.End() <= x.address)
    ensures !Covers(x, t)
  {
  }

  // ---------- Coalescing ----------

  /** The neighbours MergeHoles joins with the hole at `address`: free and in its page. */
  function JoinsRight(address: int, b: seq<Chunk>): bool {
    b != [] && SamePage(address, b[0].address) && !b[0].isAllocated
  }

  function JoinsLeft(address: int, a: seq<Chunk>): bool {
    a != [] && SamePage(address, a[|a| - 1].address) && !a[|a| - 1].isAllocated
  }

  function JoinedRight(h: Chunk, b: seq<Chunk>): Chunk {
    if JoinsRight(h.address, b) then Chunk(h.address, h.size + b[0].size, false) else h
  }

  function RestRight(h: Chunk, b: seq<Chunk>): seq<Chunk> {
    if JoinsRight(h.address, b) then b[1..] else b
  }

  function JoinedLeft(h: Chunk, a: seq<Chunk>): Chunk {
    if JoinsLeft(h.address, a) then Chunk(a[|a| - 1].address, a[|a| - 1].size + h.size, false) else h
  }

  function RestLeft(h: Chunk, a: seq<Chunk>): seq<Chunk> {
    if JoinsLeft(h.address, a) then a[..|a| - 1] else a
  }

  /** The hole freeing `p` between `a` and `b` ends up in. */
  function FreedHole(a: seq<Chunk>, p: Chunk, b: seq<Chunk>): Chunk {
    JoinedLeft(JoinedRight(p.(isAllocated := false), b), a)
  }

  /** The chunks after freeing `p`: the joined hole, or nothing if it is a whole page. */
  function AfterFree(a: seq<Chunk>, p: Chunk, b: seq<Chunk>): seq<Chunk> {
    var hole := FreedHole(a, p, b);
    RestLeft(p, a) + (if hole.size == PAGE_SIZE then [] else [hole]) + RestRight(p, b)
  }

  lemma SamePageTouch(x: Chunk, y: Chunk)
    requires FitsPages(x) && x.size <= PAGE_SIZE && Joint(x, y) && SamePage(x.address, y.address)
    ensures x.End() == y.address
  {
  }

  /** Small neighbours in one page become one hole. */
  lemma JoinGroup(l: seq<Chunk>, group: seq<Chunk>, m: Chunk, r: seq<Chunk>)
    requires Tiled(l + group + r) && group != []
    requires forall c, d :: c in group && d in group ==> c.size <= PAGE_SIZE && SamePage(c.address, d.address)
    requires m.address == group[0].address && m.End() == group[|group| - 1].End() && !m.isAllocated
    requires !JoinsLeft(m.address, l) && !JoinsRight(m.address, r)
    ensures FitsPages(m) && m.size <= PAGE_SIZE && Tiled(l + [m] + r)
    ensures forall t :: Owned(l + group + r, t) <==> Owned(l + [m] + r, t)
  {
    var cs, last := l + group + r, group[|group| - 1];
    assert forall c :: c in group ==> c in cs;
    assert group[0] in group && last in group;
    GroupGrows(l, group, r);
    GroupFits(group[0], last, m);
    LinkedParts(l + group, r);
    LinkedParts(l, group);
    assert Linked([m]) && LinkOk(l, [m]) && LinkOk([m], r);
    ReplaceTiles(l, group, [m], r);
    forall t ensures Owned(cs, t) <==> Owned(l + [m] + r, t) {
      ReplaceOwns(l, group, [m], r, t);
    }
  }

  lemma GroupGrows(l: seq<Chunk>, group: seq<Chunk>, r: seq<Chunk>)
    requires Tiled(l + group + r) && group != []
    ensures group[0].address < group[|group| - 1].End()
  {
    var cs := l + group + r;
    assert cs[|l|] == group[0] && cs[|l| + |group| - 1] == group[|group| - 1];
    assert FitsPages(group[0]) && FitsPages(group[|group| - 1]);
    if |group| > 1 {
      ChunksIncrease(cs, |l|, |l| + |group| - 1);
    }
  }

  lemma GroupFits(first: Chunk, last: Chunk, m: Chunk)
    requires FitsPages(first) && FitsPages(last) && last.size <= PAGE_SIZE && SamePage(first.address, last.address)
    requires m.address == first.address < m.End() == last.End()
    ensures FitsPages(m) && m.size <= PAGE_SIZE
  {
  }

  /** Links inside a group of one page: each chunk starts where the one before ends. */
  lemma Touch(l: seq<Chunk>, x: Chunk, y: Chunk, r: seq<Chunk>)
    requires Tiled(l + [x, y] + r) && x.size <= PAGE_SIZE && SamePage(x.address, y.address)
    ensures x.End() == y.address
  {
    assert [x, y] == [x] + [y] && l + [x, y] + r == (l + [x]) + ([y] + r);
    LinkedParts(l + [x], [y] + r);
    assert x in l + [x, y] + r;
    SamePageTouch(x, y);
  }

  lemma Ungroup<T>(a: seq<T>, x: seq<T>, y: seq<T>, z: seq<T>, b: seq<T>)
    ensures (a + x) + y + (z + b) == a + (x + y + z) + b
  {
  }

  /** The freed hole with its neighbours, before a whole page is given back. */
  lemma CoalesceTiles(a: seq<Chunk>, p: Chunk, b: seq<Chunk>)
    requires Tiled(a + [p] + b) && p.size <= PAGE_SIZE
    ensures var hole, l, r := FreedHole(a, p, b), RestLeft(p, a), RestRight(p, b);
      && FitsPages(hole) && hole.size <= PAGE_SIZE && !hole.isAllocated
      && Tiled(l + [hole] + r)
      && forall t :: Owned(a + [p] + b, t) <==> Owned(l + [hole] + r, t)
  {
    var cs := a + [p] + b;
    var hole, l, r := FreedHole(a, p, b), RestLeft(p, a), RestRight(p, b);
    var left := if JoinsLeft(p.address, a) then [a[|a| - 1]] else [];
    var right := if JoinsRight(p.address, b) then [b[0]] else [];
    assert a == l + left && b == right + r;
    Ungroup(l, left, [p], right, r);
    CoalesceGroup(l, left, p, right, r, hole);
  }

  ghost predicate Neighbour(p: Chunk, side: seq<Chunk>) {
    side == [] || (|side| == 1 && !side[0].isAllocated && SamePage(p.address, side[0].address))
  }

  lemma CoalesceGroup(l: seq<Chunk>, left: seq<Chunk>, p: Chunk, right: seq<Chunk>, r: seq<Chunk>, hole: Chunk)
    requires Tiled(l + (left + [p] + right) + r) && p.size <= PAGE_SIZE
    requires Neighbour(p, left) && Neighbour(p, right)
    requires left == [] ==> !JoinsLeft(p.address, l)
    requires right == [] ==> !JoinsRight(p.address, r)
    requires hole == Chunk(if left == [] then p.address else left[0].address,
                           (if left == [] then 0 else left[0].size)
                           + (p.size + (if right == [] then 0 else right[0].size)),
                           false)
    ensures FitsPages(hole) && hole.size <= PAGE_SIZE && Tiled(l + [hole] + r)
    ensures forall t :: Owned(l + (left + [p] + right) + r, t) <==> Owned(l + [hole] + r, t)
  {
    var group := left + [p] + right;
    assert forall c :: c in group ==> c in l + group + r;
    TouchBoth(l, left, p, right, r);
    NeighboursDone(l, left, p, right, r);
    GroupIsSmall(l + group + r, left, p, right);
    assert group[|group| - 1] == if right == [] then p else right[0];
    JoinGroup(l, group, hole, r);
  }

  lemma TouchBoth(l: seq<Chunk>, left: seq<Chunk>, p: Chunk, right: seq<Chunk>, r: seq<Chunk>)
    requires Tiled(l + (left + [p] + right) + r) && p.size <= PAGE_SIZE
    requires Neighbour(p, left) && Neighbour(p, right)
    ensures left != [] ==> left[0].End() == p.address
    ensures right != [] ==> p.End() == right[0].address
  {
    var cs := l + (left + [p] + right) + r;
    if left != [] {
      var x := left[0];
      assert left == [x] && cs == l + [x, p] + (right + r);
      assert x in cs && FitsPages(x);
      Touch(l, x, p, right + r);
    }
    if right != [] {
      var y := right[0];
      assert right == [y] && cs == (l + left) + [p, y] + r;
      Touch(l + left, p, y, r);
    }
  }

  lemma GroupIsSmall(cs: seq<Chunk>, left: seq<Chunk>, p: Chunk, right: seq<Chunk>)
    requires AllFit(cs) && p.size <= PAGE_SIZE && Neighbour(p, left) && Neighbour(p, right)
    requires forall c :: c in left + [p] + right ==> c in cs
    ensures forall c, d :: c in left + [p] + right && d in left + [p] + right ==>
      c.size <= PAGE_SIZE && SamePage(c.address, d.address)
  {
    forall c | c in left + [p] + right ensures c.size <= PAGE_SIZE && SamePage(c.address, p.address) {
      assert c in cs && FitsPages(c);
    }
  }

  /** Beyond the joined neighbours there is nothing more to join. */
  lemma NeighboursDone(l: seq<Chunk>, left: seq<Chunk>, p: Chunk, right: seq<Chunk>, r: seq<Chunk>)
    requires Linked(l + (left + [p] + right) + r)
    requires Neighbour(p, left) && Neighbour(p, right)
    requires left == [] ==> !JoinsLeft(p.address, l)
    requires right == [] ==> !JoinsRight(p.address, r)
    ensures !JoinsLeft(p.address, l) && !JoinsRight(p.address, r)
  {
    var group := left + [p] + right;
    LinkedParts(l + group, r);
    LinkedParts(l, group);
  }

  // ---------- The manager ----------

  datatype AllocResult = Allocated(address: int) | OutOfMemory

  datatype FreeResult = Freed | NotAllocated

  /** The first hole of at least `size` bytes, where the search for a hole starts. */
  function FirstOfSize(hs: seq<Chunk>, size: int): (i: nat)
    ensures i <= |hs|
    ensures forall k :: 0 <= k < i ==> hs[k].size < size
  {
    if hs == [] || size <= hs[0].size then 0 else 1 + FirstOfSize(hs[1..], size)
  }

  ghost function Live(cs: seq<Chunk>): set<Chunk> {
    set c | c in cs && c.isAllocated
  }

  /** The size of a request rounded up to whole pages. */
  function PageAligned(size: int): int {
    (size + PAGE_SIZE - 1) / PAGE_SIZE * PAGE_SIZE
  }

  /** A page can be found for a small request below the last page, on which Map would
      not end. */
  ghost predicate NewPageMappable(mapped: set<int>) {
    LAST_PAGE in mapped || exists t :: IsTag(t) && MAP_BASE_ADDRESS <= t < LAST_PAGE && t !in mapped
  }

  /** The whole state is consistent. */
  ghost predicate Consistent(mapped: set<int>, initial: set<int>, cs: seq<Chunk>, hs: seq<Chunk>) {
    Tiled(cs) && HolesOf(cs, hs) && NoWholeHole(cs) && PagesOk(mapped, initial, cs)
  }

  lemma PageAlignedFacts(size: int)
    requires PAGE_SIZE < size <= LAST_PAGE
    ensures size <= PageAligned(size) < size + PAGE_SIZE && PageAligned(size) % PAGE_SIZE == 0
    ensures PAGE_SIZE < PageAligned(size) <= LAST_PAGE
  {
  }

  lemma LargeLastTag(size: int, address: int)
    requires PAGE_SIZE < size <= LAST_PAGE && address % PAGE_SIZE == 0
    ensures Tag(address + size - 1) + PAGE_SIZE == address + PageAligned(size)
  {
    assert (address + size - 1) % PAGE_SIZE == (size - 1) % PAGE_SIZE;
  }

  lemma LargeIsWhole(size: int, address: int)
    requires PAGE_SIZE < size <= LAST_PAGE && IsTag(address) && address + PageAligned(size) <= LAST_PAGE
    ensures WholePages(Chunk(address, PageAligned(size), true))
  {
    PageAlignedFacts(size);
    WholeBlock(address, PageAligned(size));
  }

  lemma WholeBlock(address: int, size: int)
    requires IsTag(address) && PAGE_SIZE < size && size % PAGE_SIZE == 0 && address + size <= LAST_PAGE
    ensures WholePages(Chunk(address, size, true))
  {
    TagSum(address, size);
  }

  lemma TagSum(t: int, u: int)
    requires t % PAGE_SIZE == 0 && u % PAGE_SIZE == 0
    ensures (t + u) % PAGE_SIZE == 0
  {
  }

  lemma CarveOwns(mapped: set<int>, initial: set<int>, a: seq<Chunk>, hole: Chunk, b: seq<Chunk>, at: int, size: int)
    requires FitsPages(hole) && !hole.isAllocated && 1 <= size
    requires hole.address <= at && at + size <= hole.End()
    requires PagesOk(mapped, initial, a + [hole] + b)
    ensures PagesOk(mapped, initial, a + Carve(hole, at, size) + b)
  {
    var new_ := Carve(hole, at, size);
    CarveFits(hole, at, size);
    SamePageInside(hole, at);
    if at + size < hole.End() {
      SamePageInside(hole, at + size);
    }
    forall c | c in [hole] + new_ ensures c.size <= PAGE_SIZE && SamePage(c.address, hole.address) {
    }
    forall t ensures Owned(a + [hole] + b, t) <==> Owned(a + new_ + b, t) {
      ReplaceOwns(a, [hole], new_, b, t);
    }
  }

  lemma {:induction false} ErasedHoles(hs: seq<Chunk>, c: Chunk)
    ensures forall d :: d in hs && d != c ==> d in EraseHole(hs, c)
  {
    if hs != [] {
      assert hs == [hs[0]] + hs[1..];
      ErasedHoles(hs[1..], c);
    }
  }

  /** Newly mapped pages and their chunk fit in with the rest. */
  lemma NewChunk(pages: PageTable, initial: set<int>, cs: seq<Chunk>, c: Chunk) returns (a: seq<Chunk>, b: seq<Chunk>)
    requires Tiled(cs) && PagesOk(pages.Keys, initial, cs) && WholePages(c) && IsFree(pages, c.address, c.size)
    ensures cs == a + b && Around(a, c.address, c.address + 1, b) && Tiled(a + [c] + b) && c !in cs
    ensures PagesOk(pages.Keys + Tags(c.address, c.End()), initial, a + [c] + b)
  {
    a, b := NewBlock(cs, c);
    NewBlockOwns(pages.Keys, initial, a, c, b);
  }

  lemma NewPointer(a: seq<Chunk>, c: Chunk, b: seq<Chunk>)
    requires c.isAllocated
    ensures Live(a + [c] + b) == Live(a + b) + {c}
    ensures NoWholeHole(a + b) ==> NoWholeHole(a + [c] + b)
  {
  }

  lemma BelowLastPage(pages: PageTable, addr: int)
    requires NewPageMappable(pages.Keys) && IsTag(addr) && MAP_BASE_ADDRESS <= addr && IsFree(pages, addr, PAGE_SIZE)
    requires IsPageTable(pages) && NoFit(pages, PAGE_SIZE, MAP_BASE_ADDRESS, addr)
    ensures addr + PAGE_SIZE <= LAST_PAGE
  {
    if LAST_PAGE in pages {
      assert addr < LAST_PAGE by {
        assert addr !in pages;
        EndTagFacts(addr, 1);
      }
      TagsApart(addr, addr);
    } else {
      var t :| IsTag(t) && MAP_BASE_ADDRESS <= t < LAST_PAGE && t !in pages;
      FreeAbove(pages, t, t);
      assert addr <= t;
      TagsApart(addr, t);
    }
  }

  /** The page that becomes free when `p` is freed, if there is one. */
  function GivenBack(a: seq<Chunk>, p: Chunk, b: seq<Chunk>): set<int> {
    if FreedHole(a, p, b).size == PAGE_SIZE then {FreedHole(a, p, b).address} else {}
  }

  lemma IndexOfChunk(a: seq<Chunk>, c: Chunk, b: seq<Chunk>)
    requires Around(a, c.address, c.address, b)
    ensures LowerBound(a + [c] + b, c.address) == |a|
  {
    assert a + [c] + b == a + ([c] + b);
    LowerBoundAt(a, [c] + b, c.address);
  }

  /** Where MergeHoles finds the new hole. */
  lemma FreedIndex(a: seq<Chunk>, p: Chunk, b: seq<Chunk>)
    requires Tiled(a + [p] + b)
    ensures LowerBound(a + [p.(isAllocated := false)] + b, p.address) == |a|
  {
    SplitAround(a, p, b);
    IndexOfChunk(a, p.(isAllocated := false), b);
  }

  /** Where it finds it after the merge with the chunk behind. */
  lemma FreedIndexAgain(a: seq<Chunk>, p: Chunk, b: seq<Chunk>, h1: Chunk)
    requires Tiled(a + [p] + b) && h1.address == p.address
    ensures LowerBound(a + [h1] + RestRight(p, b), p.address) == |a|
  {
    SplitAround(a, p, b);
    IndexOfChunk(a, h1, RestRight(p, b));
  }

  lemma FinalIndex(a: seq<Chunk>, p: Chunk, b: seq<Chunk>)
    requires Tiled(a + [p] + b) && p.size <= PAGE_SIZE
    ensures var hole := FreedHole(a, p, b);
      && LowerBound(RestLeft(p, a) + [hole] + RestRight(p, b), hole.address) == |RestLeft(p, a)|
      && Around(RestLeft(p, a), hole.address, hole.address + 1, RestRight(p, b))
      && (hole.size == PAGE_SIZE ==> IsTag(hole.address) && hole.End() <= LAST_PAGE)
  {
    CoalesceTiles(a, p, b);
    var hole := FreedHole(a, p, b);
    SplitAround(RestLeft(p, a), hole, RestRight(p, b));
    IndexOfChunk(RestLeft(p, a), hole, RestRight(p, b));
    if hole.size == PAGE_SIZE {
      WholePageHole(hole);
    }
  }

  lemma WholePageHole(c: Chunk)
    requires FitsPages(c) && c.size == PAGE_SIZE
    ensures WholePages(c) && IsTag(c.address)
  {
  }

  /** What two small neighbours of one page look like to the chunk map. */
  lemma PairAround(a: seq<Chunk>, x: Chunk, y: Chunk, r: seq<Chunk>)
    requires Tiled(a + [x] + ([y] + r)) && x.size <= PAGE_SIZE && SamePage(x.address, y.address)
    ensures x.End() == y.address && x.address < y.address && Around(a, x.address, y.address + 1, r)
  {
    SplitAround(a, x, [y] + r);
    assert a + [x] + ([y] + r) == (a + [x]) + [y] + r;
    SplitAround(a + [x], y, r);
    assert a + [x] + ([y] + r) == a + [x, y] + r;
    Touch(a, x, y, r);
  }

  lemma Bracket0<T>(a: seq<T>, x: T, r: seq<T>)
    ensures a + [x] + r == a + ([x] + r)
  {
  }

  lemma Bracket<T>(a: seq<T>, x: T, y: T, r: seq<T>)
    ensures a + [x] + ([y] + r) == a + [x, y] + r && (a + [x]) + [y] + r == a + [x, y] + r
  {
  }

  /** The freed chunk and a free right neighbour, as the merge finds them. */
  lemma RightPair(a: seq<Chunk>, p: Chunk, b: seq<Chunk>)
    requires Tiled(a + [p] + b) && p.size <= PAGE_SIZE && JoinsRight(p.address, b)
    ensures var h := p.(isAllocated := false);
      && p.End() == b[0].address && p.address < b[0].address
      && Around(a, p.address, b[0].address + 1, b[1..])
      && a + [h] + b == a + [h, b[0]] + b[1..]
  {
    var h, y, r := p.(isAllocated := false), b[0], b[1..];
    assert b == [y] + r;
    PairAround(a, p, y, r);
    Bracket(a, h, y, r);
  }

  lemma LeftPair(a: seq<Chunk>, p: Chunk, b: seq<Chunk>, h1: Chunk, r: seq<Chunk>)
    requires Tiled(a + [p] + b) && p.size <= PAGE_SIZE && JoinsLeft(p.address, a)
    requires h1.address == p.address && r == RestRight(p, b)
    ensures var x, l := a[|a| - 1], a[..|a| - 1];
      && x.End() == p.address && x.address < p.address
      && Around(l, x.address, p.address + 1, r)
      && a + [h1] + r == l + [x, h1] + r
  {
    var x, l := a[|a| - 1], a[..|a| - 1];
    assert a == l + [x];
    Bracket0(l + [x], p, b);
    Bracket0(l, x, [p] + b);
    assert l + [x] + ([p] + b) == a + [p] + b;
    assert FitsPages(x) by {
      assert x in a + [p] + b;
    }
    PairAround(l, x, p, b);
    Bracket(l, x, h1, r);
  }

  lemma LeftIsApart(a: seq<Chunk>, p: Chunk, b: seq<Chunk>)
    requires Tiled(a + [p] + b)
    ensures a != [] ==> a[|a| - 1] != p.(isAllocated := false) && a[|a| - 1] !in b
  {
    SplitAround(a, p, b);
  }

  /** Everything Free leaves behind for a live block of at most a page. */
  lemma AfterFreeConsistent(mapped: set<int>, initial: set<int>, a: seq<Chunk>, p: Chunk, b: seq<Chunk>, hs: seq<Chunk>)
    requires Tiled(a + [p] + b) && NoWholeHole(a + [p] + b) && PagesOk(mapped, initial, a + [p] + b)
    requires p.isAllocated && p.size <= PAGE_SIZE && HolesOf(AfterFree(a, p, b), hs)
    ensures Consistent(mapped - GivenBack(a, p, b), initial, AfterFree(a, p, b), hs)
  {
    var hole, l, r := FreedHole(a, p, b), RestLeft(p, a), RestRight(p, b);
    CoalesceTiles(a, p, b);
    assert PagesOk(mapped, initial, l + [hole] + r);
    assert forall c :: c in l + r ==> c in a + [p] + b;
    if hole.size == PAGE_SIZE {
      WholePageHole(hole);
      RemoveBlock(mapped, initial, l, hole, r);
      TagsNext(hole.address, hole.address);
      assert Tags(hole.address, hole.address) == {};
      assert l + [] + r == l + r;
    }
  }

  /** The live blocks after a free are those before but the freed one. */
  lemma AfterFreeLive(a: seq<Chunk>, p: Chunk, b: seq<Chunk>)
    requires p.isAllocated && p !in a + b
    ensures Live(AfterFree(a, p, b)) == Live(a + [p] + b) - {p}
  {
    var cs := AfterFree(a, p, b);
    assert JoinsRight(p.address, b) ==> b == [b[0]] + RestRight(p, b);
    assert JoinsLeft(p.address, a) ==> a == RestLeft(p, a) + [a[|a| - 1]];
    forall c ensures c in Live(cs) <==> c in Live(a + [p] + b) - {p} {
      assert c in cs && c.isAllocated <==> (c in RestLeft(p, a) || c in RestRight(p, b)) && c.isAllocated;
    }
  }

  lemma CarveLive(a: seq<Chunk>, hole: Chunk, b: seq<Chunk>, at: int, size: int)
    requires Tiled(a + [hole] + b) && !hole.isAllocated && hole.address <= at < hole.End()
    ensures Live(a + Carve(hole, at, size) + b) == Live(a + b) + {Chunk(at, size, true)}
    ensures Chunk(at, size, true) !in Live(a + b)
  {
    SplitAround(a, hole, b);
    var new_, c := Carve(hole, at, size), Chunk(at, size, true);
    assert forall d :: d in new_ ==> d == c || !d.isAllocated;
    assert c in new_;
    assert forall d :: d in a + new_ + b <==> d in a || d in b || d in new_;
  }

  lemma CarveNoWhole(a: seq<Chunk>, hole: Chunk, b: seq<Chunk>, at: int, size: int)
    requires FitsPages(hole) && !hole.isAllocated && NoWholeHole(a + b)
    requires 1 <= size && hole.address <= at && at + size <= hole.End()
    ensures NoWholeHole(a + Carve(hole, at, size) + b)
  {
    forall d | d in a + Carve(hole, at, size) + b && !d.isAllocated ensures d.size < PAGE_SIZE {
      assert d in a + b || d in Carve(hole, at, size);
    }
  }

  /** Everything Allocate leaves behind when it carves a block out of a hole. */
  lemma CarveConsistent(mapped: set<int>, initial: set<int>, a: seq<Chunk>, hole: Chunk, b: seq<Chunk>, hs: seq<Chunk>,
                        at: int, size: int)
    requires Tiled(a + [hole] + b) && PagesOk(mapped, initial, a + [hole] + b) && NoWholeHole(a + b)
    requires !hole.isAllocated && 1 <= size && hole.address <= at && at + size <= hole.End()
    requires HolesOf(a + Carve(hole, at, size) + b, hs)
    ensures Consistent(mapped, initial, a + Carve(hole, at, size) + b, hs)
    ensures NewLive(a + b, a + Carve(hole, at, size) + b, Chunk(at, size, true))
  {
    assert hole in a + [hole] + b && FitsPages(hole);
    CarveTiles(a, hole, b, at, size);
    CarveOwns(mapped, initial, a, hole, b, at, size);
    CarveNoWhole(a, hole, b, at, size);
    CarveLive(a, hole, b, at, size);
    NewBlockDisjoint(a + Carve(hole, at, size) + b, Chunk(at, size, true), Live(a + b));
  }

  lemma HoleLiveness(a: seq<Chunk>, hole: Chunk, b: seq<Chunk>)
    requires !hole.isAllocated
    ensures Live(a + [hole] + b) == Live(a + b)
  {
  }

  /** A hole starts at `address`: what Free mistakes for a block it may free. */
  ghost predicate StartsHole(cs: seq<Chunk>, address: int) {
    exists c :: c in cs && c.address == address && !c.isAllocated
  }

  /** The new block overlaps no block that was live. */
  ghost predicate DisjointFrom(c: Chunk, live: set<Chunk>) {
    forall d :: d in live ==> c.End() <= d.address || d.End() <= c.address
  }

  lemma NewBlockDisjoint(cs: seq<Chunk>, c: Chunk, live: set<Chunk>)
    requires Tiled(cs) && Live(cs) == live + {c} && c !in live
    ensures DisjointFrom(c, live)
  {
    assert c in Live(cs);
    forall d | d in live ensures c.End() <= d.address || d.End() <= c.address {
      assert d in Live(cs);
      ChunksDisjoint(cs, c, d);
    }
  }

  lemma FindChunk(cs: seq<Chunk>, address: int)
    requires Tiled(cs)
    ensures var i := LowerBound(cs, address);
      forall c :: c in cs && c.address == address ==> i < |cs| && c == cs[i]
  {
    var i := LowerBound(cs, address);
    forall c | c in cs && c.address == address ensures i < |cs| && c == cs[i] {
      var k :| 0 <= k < |cs| && cs[k] == c;
      assert i < |cs| ==> FitsPages(cs[i]);
      if i < k {
        ChunksIncrease(cs, i, k);
      }
    }
  }

  /** Once no block is live there are no chunks left, and exactly the initial pages are
      mapped. */
  lemma NothingLiveNothingMapped(mapped: set<int>, initial: set<int>, cs: seq<Chunk>, hs: seq<Chunk>)
    requires Consistent(mapped, initial, cs, hs) && Live(cs) == {}
    ensures cs == [] && hs == [] && mapped == initial
  {
    assert hs != [] ==> hs[0] in hs;
    forall c | c in cs ensures !c.isAllocated {
      assert c !in Live(cs);
    }
    OnlyHolesIsEmpty(cs);
    forall t ensures t in mapped <==> t in initial {
      assert !Owned(cs, t);
    }
  }

  lemma OnlyHolesIsEmpty(cs: seq<Chunk>)
    requires Tiled(cs) && NoWholeHole(cs) && forall c :: c in cs ==> !c.isAllocated
    ensures cs == []
  {
    assert |cs| > 1 ==> LinkAt(cs, 0) && cs[1] in cs;
    if cs != [] {
      assert cs[0] in cs && FitsPages(cs[0]);
      HoleEndsInside(cs[0]);
    }
  }

  lemma HoleEndsInside(c: Chunk)
    requires FitsPages(c) && c.address % PAGE_SIZE == 0 && c.size < PAGE_SIZE
    ensures c.End() % PAGE_SIZE != 0 && SamePage(c.address, c.End())
  {
  }

  lemma PageEdges(e: int, t: int, x: int)
    requires e % PAGE_SIZE == 0 && t % PAGE_SIZE == 0 && t <= x < t + PAGE_SIZE
    ensures e <= t || t + PAGE_SIZE <= e
  {
  }

  lemma CoversFromBelow(o: Chunk, t: int)
    requires Covers(o, t)
    ensures o.address < t + PAGE_SIZE && t < o.End()
  {
  }

  /** The last chunk that starts at or before a byte of an owned page reaches over it. */
  lemma NoGapAt(cs: seq<Chunk>, n: int, k: int, t: int, x: int)
    requires Tiled(cs) && 0 <= k < |cs| && Covers(cs[k], t) && t <= x < t + PAGE_SIZE
    requires 0 <= n <= |cs| && (n < |cs| ==> x < cs[n].address)
    ensures n > 0 && x < cs[n - 1].End()
  {
    CoversFromBelow(cs[k], t);
    assert n < |cs| ==> FitsPages(cs[n]);
    if n < k {
      ChunksIncrease(cs, n, k);
    }
    if n == 0 {
      PageEdges(cs[0].address, t, x);
    } else {
      assert FitsPages(cs[n - 1]) && FitsPages(cs[k]);
      if k < n - 1 {
        ChunksIncrease(cs, k, n - 1);
      }
      if n == |cs| {
        PageEdges(cs[n - 1].End(), t, x);
      } else {
        assert LinkAt(cs, n - 1);
        if cs[n - 1].End() != cs[n].address {
          PageEdges(cs[n - 1].End(), t, x);
          PageEdges(cs[n].address, t, x);
        }
      }
    }
  }

  /** The chunks tile the pages exactly: every byte of an owned page lies in a chunk,
      and by `ChunksDisjoint` in one only. */
  lemma OwnedPagesAreTiled(cs: seq<Chunk>, t: int, x: int)
    requires Tiled(cs) && Owned(cs, t) && t <= x < t + PAGE_SIZE
    ensures exists c :: c in cs && c.address <= x < c.End()
  {
    var o :| o in cs && Covers(o, t);
    var k :| 0 <= k < |cs| && cs[k] == o;
    var n := LowerBound(cs, x + 1);
    NoGapAt(cs, n, k, t, x);
    assert cs[n - 1] in cs;
  }

  lemma BlockGoneLive(a: seq<Chunk>, p: Chunk, b: seq<Chunk>)
    requires p !in a + b
    ensures Live(a + b) == Live(a + [p] + b) - {p}
    ensures NoWholeHole(a + [p] + b) ==> NoWholeHole(a + b)
  {
  }

  /** Where MergeHoles finds free neighbours they are listed as holes; next to a hole
      it finds none. */
  lemma NeighbourHoles(a: seq<Chunk>, p: Chunk, b: seq<Chunk>, hs: seq<Chunk>)
    requires Tiled(a + [p] + b) && HolesOf(a + [p] + b, hs) && NoWholeHole(a + [p] + b)
    ensures JoinsRight(p.address, b) ==> b[0] in hs
    ensures JoinsLeft(p.address, a) ==> a[|a| - 1] in hs
    ensures !p.isAllocated ==> p in hs && !JoinsRight(p.address, b) && !JoinsLeft(p.address, a) && p.size < PAGE_SIZE
  {
    LinkedParts(a + [p], b);
    LinkedParts(a, [p]);
    assert p in a + [p] + b;
    assert b != [] ==> b[0] in a + [p] + b;
    assert a != [] ==> a[|a| - 1] in a + [p] + b;
  }

  lemma HoleStays(a: seq<Chunk>, p: Chunk, b: seq<Chunk>)
    requires !p.isAllocated && !JoinsRight(p.address, b) && !JoinsLeft(p.address, a) && p.size < PAGE_SIZE
    ensures AfterFree(a, p, b) == a + [p] + b && GivenBack(a, p, b) == {}
  {
  }

  /** Allocation adds the block `c`, disjoint from every live block, and touches no other. */
  ghost predicate NewLive(cs: seq<Chunk>, cs': seq<Chunk>, c: Chunk) {
    c !in Live(cs) && Live(cs') == Live(cs) + {c} && DisjointFrom(c, Live(cs))
  }

  /** No page changes but that some are given back. */
  ghost predicate OnlyGivenBack(pages: PageTable, pages': PageTable) {
    forall t :: t in pages' ==> t in pages && pages'[t] == pages[t]
  }

  /** What 32-bit arithmetic makes of a number. */
  function Unsigned(x: int): int {
    x % ADDRESS_SPACE
  }

  /** Some listed hole is larger than a page. */
  ghost predicate Overflown(hs: seq<Chunk>) {
    exists h :: h in hs && h.size > PAGE_SIZE
  }

  lemma OverflownNotConsistent(mapped: set<int>, initial: set<int>, cs: seq<Chunk>, hs: seq<Chunk>)
    requires Overflown(hs)
    ensures !Consistent(mapped, initial, cs, hs)
  {
    var h :| h in hs && h.size > PAGE_SIZE;
    assert FitsPages(h) ==> h.isAllocated;
  }

  /** Where whole pages go: the highest free region that ends at the base page and avoids page
      zero. */
  ghost predicate HighestFit(pages: PageTable, size: int, address: int) {
    && IsTag(address) && 0 < address && address + size <= 0xb7fb_1000 && IsFree(pages, address, size)
    && forall t :: IsTag(t) && address < t && t + size <= 0xb7fb_1000 ==> !IsFree(pages, t, size)
  }

  ghost predicate NoRoom(pages: PageTable, size: int) {
    forall t :: IsTag(t) && 0 < t && t + size <= 0xb7fb_1000 ==> !IsFree(pages, t, size)
  }

  /** The page that a request for a new one gets: the first unmapped one. */
  ghost predicate NextPage(pages: PageTable, page: int) {
    && IsTag(page) && MAP_BASE_ADDRESS <= page && IsFree(pages, page, PAGE_SIZE)
    && NoFit(pages, PAGE_SIZE, MAP_BASE_ADDRESS, page)
  }

  /** The page as the one hole it starts as. */
  function PageHole(page: int): Chunk {
    Chunk(page, PAGE_SIZE, false)
  }

  /** A small request that no hole can contain. */
  ghost predicate NeedsPage(hs: seq<Chunk>, size: int, alignment: int)
    requires 0 < alignment
  {
    size <= PAGE_SIZE && forall h :: h in hs ==> !CanHoleContain(h, size, alignment)
  }

  /** The block a request is granted at an address. */
  function Block(address: int, size: int): Chunk {
    Chunk(address, if size <= PAGE_SIZE then size else PageAligned(size), true)
  }

  /** A block is live at the start of a new page exactly when the page is aligned. */
  lemma PageBlockLive(a: seq<Chunk>, page: int, b: seq<Chunk>, cs': seq<Chunk>, size: int, alignment: int)
    requires Around(a, page, page + 1, b) && 0 <= page && 1 <= size <= PAGE_SIZE && 1 <= alignment
    requires var c := Chunk(NextAligned(page, alignment), size, true);
      && (forall d :: d in cs' && d.isAllocated ==> d in a + b || d == c)
      && (IsAligned(page, alignment) ==> c in Live(cs'))
    ensures Block(page, size) in Live(cs') <==> IsAligned(page, alignment)
  {
    AlignedStays(page, alignment);
    assert forall d :: d in a + b ==> d.address != page;
  }

  /** At an aligned page the whole page is left for the request. */
  lemma AlignedPageFits(page: int, size: int, alignment: int)
    requires 0 <= page && 1 <= size <= PAGE_SIZE && 1 <= alignment && IsAligned(page, alignment)
    ensures NextAligned(page, alignment) == page && CanHoleContain(PageHole(page), size, alignment)
  {
    AlignedStays(page, alignment);
  }

  /** The hole at `k` is the first, in the order of sizes, that can contain the request. */
  ghost predicate FirstContaining(hs: seq<Chunk>, k: int, size: int, alignment: int)
    requires 0 <= k < |hs| && 0 < alignment
  {
    CanHoleContain(hs[k], size, alignment) && forall j :: 0 <= j < k ==> !CanHoleContain(hs[j], size, alignment)
  }

  lemma HoleTooSmall(cs: seq<Chunk>, hs: seq<Chunk>, h: Chunk, size: int, alignment: int)
    requires Tiled(cs) && HolesOf(cs, hs) && h in hs && h.size < size && 1 <= alignment
    ensures !CanHoleContain(h, size, alignment)
  {
    assert FitsPages(h);
    NextAlignedIsNext(h.address, alignment);
  }

  lemma SplitAt(cs: seq<Chunk>, c: Chunk) returns (a: seq<Chunk>, b: seq<Chunk>)
    requires c in cs
    ensures cs == a + [c] + b
  {
    var k :| 0 <= k < |cs| && cs[k] == c;
    a, b := cs[..k], cs[k + 1..];
  }

  class Manager {
    const memory: Memory
    var chunks: seq<Chunk>
    var holes: seq<Chunk>
    ghost const initial: set<int>

    ghost predicate Valid()
      reads this, memory
    {
      memory.Valid() && Consistent(memory.pages.Keys, initial, chunks, holes)
    }

    constructor (memory: Memory)
      requires memory.Valid()
      ensures Valid() && this.memory == memory && initial == memory.pages.Keys && chunks == [] && holes == []
    {
      this.memory, chunks, holes, initial := memory, [], [], memory.pages.Keys;
    }

    /** Adds a hole; the map of chunks stays as it is if the address is taken. */
    method CreateHole(addr: int, size: int, ghost a: seq<Chunk>, ghost b: seq<Chunk>) returns (hole: Chunk)
      requires chunks == a + b
      modifies this`chunks, this`holes
      ensures hole == Chunk(addr, size, false)
      ensures Inserted(old(holes), holes, hole)
      ensures forall d :: d in holes <==> d == hole || d in old(holes)
      ensures forall d :: d in chunks ==> d == hole || d in old(chunks)
      ensures hole in old(holes) ==> !Distinct(holes)
      ensures Around(a, addr, addr + 1, b) ==> chunks == a + [hole] + b
      ensures Around(a, addr, addr + 1, b) && HolesOf(a + b, old(holes)) ==> HolesOf(chunks, holes)
    {
      hole := Chunk(addr, size, false);
      InsertHoleMembers(holes, hole);
      InsertChunkMembers(chunks, hole);
      if hole in holes {
        InsertHoleTwice(holes, hole);
      }
      if Around(a, addr, addr + 1, b) {
        InsertAt(a, hole, b);
        if HolesOf(a + b, holes) {
          NewHole(a, hole, b, holes);
        }
      }
      chunks := InsertChunk(chunks, hole);
      holes := InsertHole(holes, hole);
    }

    method RemoveHole(hole: Chunk, ghost a: seq<Chunk>, ghost b: seq<Chunk>)
      requires hole in holes && !hole.isAllocated
      requires chunks == a + [hole] + b && Around(a, hole.address, hole.address + 1, b)
      modifies this`chunks, this`holes
      ensures chunks == a + b
      ensures Erased(old(holes), holes, hole)
      ensures forall d :: d in old(holes) && d != hole ==> d in holes
      ensures HolesOf(old(chunks), old(holes)) ==> HolesOf(chunks, holes)
    {
      EraseAt(a, hole, b);
      ErasedHoles(holes, hole);
      if HolesOf(chunks, holes) {
        HoleGone(a, hole, b, holes);
      }
      holes := EraseHole(holes, hole);
      chunks := EraseChunk(chunks, hole.address);
    }

    method CreatePointer(addr: int, size: int, ghost a: seq<Chunk>, ghost b: seq<Chunk>)
      requires chunks == a + b
      modifies this`chunks
      ensures forall d :: d in chunks ==> d == Chunk(addr, size, true) || d in old(chunks)
      ensures Around(a, addr, addr + 1, b) ==> chunks == a + [Chunk(addr, size, true)] + b
      ensures Around(a, addr, addr + 1, b) && HolesOf(old(chunks), holes) ==> HolesOf(chunks, holes)
    {
      InsertChunkMembers(chunks, Chunk(addr, size, true));
      if Around(a, addr, addr + 1, b) {
        InsertAt(a, Chunk(addr, size, true), b);
        PointerIsNoHole(a, Chunk(addr, size, true), b, holes);
      }
      chunks := InsertChunk(chunks, Chunk(addr, size, true));
    }

    method RemovePointer(pointer: Chunk, ghost a: seq<Chunk>, ghost b: seq<Chunk>)
      requires chunks == a + [pointer] + b && Around(a, pointer.address, pointer.address + 1, b)
      modifies this`chunks
      ensures chunks == a + b
      ensures pointer.isAllocated && HolesOf(old(chunks), holes) ==> HolesOf(chunks, holes)
    {
      EraseAt(a, pointer, b);
      if pointer.isAllocated {
        PointerIsNoHole(a, pointer, b, holes);
      }
      chunks := EraseChunk(chunks, pointer.address);
    }

    method DeallocatePage(addr: int)
      requires memory.Valid() && IsTag(addr) && addr + PAGE_SIZE <= LAST_PAGE
      modifies memory`pages
      ensures memory.Valid() && memory.pages == old(memory.pages) - {addr}
    {
      EndTagIs(addr, PAGE_SIZE);
      LastTag(addr, PAGE_SIZE);
      memory.Unmap(addr, PAGE_SIZE);
      TagsNext(addr, addr);
      assert Tags(addr, addr) == {};
    }

    /** Takes `size` aligned bytes out of `hole`, leaving a hole before and one behind.  The
        code does not check that the hole can contain them. */
    method AllocateIn(hole: Chunk, size: int, alignment: int, ghost a: seq<Chunk>, ghost b: seq<Chunk>)
      returns (address: int)
      requires chunks == a + [hole] + b && Around(a, hole.address, hole.End(), b) && HolesOf(chunks, holes)
      requires !hole.isAllocated && 0 <= hole.address && 1 <= hole.size <= PAGE_SIZE && hole.End() <= LAST_PAGE
      requires 1 <= size <= PAGE_SIZE && 1 <= alignment <= PAGE_SIZE
      modifies this`chunks, this`holes
      ensures address == NextAligned(hole.address, alignment)
      ensures CanHoleContain(hole, size, alignment) ==>
        chunks == a + Carve(hole, address, size) + b && HolesOf(chunks, holes)
      ensures !CanHoleContain(hole, size, alignment) ==> Overflown(holes)
      ensures forall d :: d in chunks && d.isAllocated ==> d in a + b || d == Chunk(address, size, true)
    {
      NextAlignedIsNext(hole.address, alignment);
      address := NextAligned(hole.address, alignment);
      SplitHole(hole, address, size, a, b);
    }

    method SplitHole(hole: Chunk, at: int, size: int, ghost a: seq<Chunk>, ghost b: seq<Chunk>)
      requires chunks == a + [hole] + b && Around(a, hole.address, hole.End(), b) && HolesOf(chunks, holes)
      requires !hole.isAllocated && 0 <= hole.address && 1 <= hole.size <= PAGE_SIZE && hole.End() <= LAST_PAGE
      requires 1 <= size <= PAGE_SIZE && hole.address <= at < hole.address + PAGE_SIZE
      modifies this`chunks, this`holes
      ensures at + size <= hole.End() ==> chunks == a + Carve(hole, at, size) + b && HolesOf(chunks, holes)
      ensures hole.End() < at + size ==> Overflown(holes)
      ensures forall d :: d in chunks && d.isAllocated ==> d in a + b || d == Chunk(at, size, true)
    {
      assert hole in chunks;
      RemoveHole(hole, a, b);
      ghost var l := LeaveFront(hole, at, a, b);
      ghost var l', r := LeaveBack(hole, at, size, l, b);
      CreatePointer(at, size, l', r);
      if at + size <= hole.End() {
        Ungroup(a, Front(hole, at), [Chunk(at, size, true)], Back(hole, at + size), b);
      }
    }

    /** The hole in front of the block. */
    method LeaveFront(hole: Chunk, at: int, ghost a: seq<Chunk>, ghost b: seq<Chunk>) returns (ghost l: seq<Chunk>)
      requires chunks == a + b && Around(a, hole.address, hole.End(), b) && HolesOf(chunks, holes)
      requires 1 <= hole.size && hole.address <= at
      modifies this`chunks, this`holes
      ensures l == a + Front(hole, at) && chunks == l + b && HolesOf(chunks, holes)
      ensures forall d :: d in chunks && d.isAllocated ==> d in a + b
    {
      l := a;
      var hole1_size := at - hole.address;
      if hole1_size > 0 {
        var hole1 := CreateHole(hole.address, hole1_size, a, b);
        l := a + [hole1];
      }
    }

    /** The hole behind it; its size is a difference of unsigned numbers. */
    method LeaveBack(hole: Chunk, at: int, size: int, ghost l: seq<Chunk>, ghost b: seq<Chunk>)
      returns (ghost l': seq<Chunk>, ghost r: seq<Chunk>)
      requires chunks == l + b && HolesOf(chunks, holes)
      requires 0 <= hole.address && 1 <= hole.size <= PAGE_SIZE && hole.End() <= LAST_PAGE
      requires 1 <= size <= PAGE_SIZE && hole.address <= at < hole.address + PAGE_SIZE
      requires at + size <= hole.End() ==> Around(l, at, hole.End(), b)
      modifies this`chunks, this`holes
      ensures chunks == l' + r
      ensures at + size <= hole.End() ==> l' == l && r == Back(hole, at + size) + b && HolesOf(chunks, holes)
      ensures hole.End() < at + size ==> Overflown(holes)
      ensures forall d :: d in chunks && d.isAllocated ==> d in l + b
    {
      l', r := l, b;
      var hole2_size := Unsigned(hole.size - size - (at - hole.address));
      if hole2_size > 0 {
        var hole2 := CreateHole(Unsigned(at + size), hole2_size, l, b);
        if at + size <= hole.End() {
          r := [hole2] + b;
          Bracket0(l, hole2, b);
        } else {
          l', r := chunks, [];
        }
      }
    }

    /** Maps one more page and makes it a hole. */
    method RequestOnePage(base_address: int) returns (hole: Chunk, ok: bool, ghost a: seq<Chunk>, ghost b: seq<Chunk>)
      requires Valid() && base_address == MAP_BASE_ADDRESS && NewPageMappable(memory.pages.Keys)
      modifies this`chunks, this`holes, memory`pages
      ensures memory.Valid()
      ensures !ok ==> chunks == old(chunks) && holes == old(holes) && memory.pages == old(memory.pages)
      ensures !ok ==> NoFit(old(memory.pages), PAGE_SIZE, MAP_BASE_ADDRESS, ADDRESS_SPACE)
      ensures ok ==> NextPage(old(memory.pages), hole.address)
      ensures ok ==> old(chunks) == a + b && chunks == a + [hole] + b
      ensures ok ==> WholePages(hole) && hole == Chunk(hole.address, PAGE_SIZE, false) && IsTag(hole.address)
      ensures ok ==> PagesAdded(old(memory.pages), memory.pages, hole.address, hole.End(),
                                {AccessRead, AccessWrite, AccessExec})
      ensures ok ==> Tiled(chunks) && HolesOf(chunks, holes) && PagesOk(memory.pages.Keys, initial, chunks)
    {
      var addr := MapOnePage(base_address);
      if addr == NO_SPACE {
        hole, ok, a, b := Chunk(0, 0, false), false, [], [];
        return;
      }
      a, b := NewChunk(old(memory.pages), initial, chunks, Chunk(addr, PAGE_SIZE, false));
      hole := CreateHole(addr, PAGE_SIZE, a, b);
      ok := true;
    }

    method MapOnePage(base_address: int) returns (addr: int)
      requires memory.Valid() && base_address == MAP_BASE_ADDRESS && NewPageMappable(memory.pages.Keys)
      modifies memory`pages
      ensures memory.Valid()
      ensures addr == NO_SPACE ==> memory.pages == old(memory.pages)
      ensures addr == NO_SPACE ==> NoFit(old(memory.pages), PAGE_SIZE, MAP_BASE_ADDRESS, ADDRESS_SPACE)
      ensures addr != NO_SPACE ==> NextPage(old(memory.pages), addr) && addr + PAGE_SIZE <= LAST_PAGE
      ensures addr != NO_SPACE ==> PagesAdded(old(memory.pages), memory.pages, addr, addr + PAGE_SIZE,
                                              {AccessRead, AccessWrite, AccessExec})
    {
      addr := memory.MapSpace(base_address, PAGE_SIZE);
      if addr != NO_SPACE {
        BelowLastPage(memory.pages, addr);
        EndTagIs(addr, PAGE_SIZE);
        LastTag(addr, PAGE_SIZE);
        MappedFree(memory.pages, addr, addr + PAGE_SIZE, {AccessRead, AccessWrite, AccessExec});
        memory.Map(addr, PAGE_SIZE, {AccessRead, AccessWrite, AccessExec});
      }
    }

    /** A block larger than a page gets pages of its own. */
    method AllocateLarge(size: int) returns (r: AllocResult)
      requires Valid() && PAGE_SIZE < size <= LAST_PAGE
      modifies this`chunks, memory`pages
      ensures Valid()
      ensures r == OutOfMemory ==> chunks == old(chunks) && memory.pages == old(memory.pages)
      ensures r.Allocated? ==> IsTag(r.address) && NewLive(old(chunks), chunks, Block(r.address, size))
      ensures r.Allocated? ==> PagesAdded(old(memory.pages), memory.pages, r.address, r.address + PageAligned(size),
                                          {AccessRead, AccessWrite, AccessExec})
      ensures r.Allocated? ==> HighestFit(old(memory.pages), PageAligned(size), r.address)
      ensures r == OutOfMemory ==> NoRoom(old(memory.pages), PageAligned(size))
    {
      var address := MapLarge(size);
      if address == NO_SPACE {
        return OutOfMemory;
      }
      ghost var c := Chunk(address, PageAligned(size), true);
      ghost var a, b := NewChunk(old(memory.pages), initial, chunks, c);
      CreatePointer(address, PageAligned(size), a, b);
      NewPointer(a, c, b);
      NewBlockDisjoint(chunks, c, Live(old(chunks)));
      return Allocated(address);
    }

    method MapLarge(size: int) returns (address: int)
      requires memory.Valid() && PAGE_SIZE < size <= LAST_PAGE
      modifies memory`pages
      ensures memory.Valid()
      ensures address == NO_SPACE ==> memory.pages == old(memory.pages)
      ensures address != NO_SPACE ==> WholePages(Chunk(address, PageAligned(size), true))
      ensures address != NO_SPACE ==> IsFree(old(memory.pages), address, PageAligned(size))
      ensures address != NO_SPACE ==> PagesAdded(old(memory.pages), memory.pages, address, address + PageAligned(size),
                                                 {AccessRead, AccessWrite, AccessExec})
      ensures address != NO_SPACE ==> HighestFit(old(memory.pages), PageAligned(size), address)
      ensures address == NO_SPACE ==> NoRoom(old(memory.pages), PageAligned(size))
    {
      var page_aligned_size := PageAligned(size);
      PageAlignedFacts(size);
      address := memory.MapSpaceDown(MAP_BASE_ADDRESS, page_aligned_size);
      if address != NO_SPACE {
        PageAlignedFacts(size);
        EndTagIs(address, size);
        LargeLastTag(size, address);
        LargeIsWhole(size, address);
        memory.Map(address, size, {AccessRead, AccessWrite, AccessExec});
        MappedFree(old(memory.pages), address, address + PageAligned(size), {AccessRead, AccessWrite, AccessExec});
      }
    }

    method Merge2Holes(hole1: Chunk, hole2: Chunk, ghost a: seq<Chunk>, ghost b: seq<Chunk>) returns (ghost m: Chunk)
      requires hole1 in holes && hole2 in holes && !hole1.isAllocated && !hole2.isAllocated
      requires hole1.End() == hole2.address && hole1.address < hole2.address
      requires chunks == a + [hole1, hole2] + b && Around(a, hole1.address, hole2.address + 1, b)
      modifies this`chunks, this`holes
      ensures m == Chunk(hole1.address, hole1.size + hole2.size, false)
      ensures chunks == a + [m] + b
      ensures m in holes && forall d :: d in old(holes) && d != hole1 && d != hole2 ==> d in holes
      ensures HolesOf(old(chunks), old(holes)) ==> HolesOf(chunks, holes)
    {
      var addr, size1, size2 := hole1.address, hole1.size, hole2.size;
      Bracket(a, hole1, hole2, b);
      RemoveHole(hole2, a + [hole1], b);
      RemoveHole(hole1, a, b);
      m := CreateHole(addr, size1 + size2, a, b);
    }

    /** The first step of MergeHoles: the chunk behind. */
    method MergeForward(hole: Chunk, ghost a: seq<Chunk>, ghost p: Chunk, ghost b: seq<Chunk>)
      requires Tiled(a + [p] + b) && p.size <= PAGE_SIZE && hole == p.(isAllocated := false)
      requires chunks == a + [hole] + b && hole in holes
      requires JoinsRight(p.address, b) ==> b[0] in holes
      modifies this`chunks, this`holes
      ensures chunks == a + [JoinedRight(hole, b)] + RestRight(p, b)
      ensures JoinedRight(hole, b) in holes
      ensures forall h :: h in old(holes) && h != hole && h !in b ==> h in holes
      ensures HolesOf(old(chunks), old(holes)) ==> HolesOf(chunks, holes)
      ensures !JoinsRight(p.address, b) ==> holes == old(holes)
    {
      FreedIndex(a, p, b);
      var it := LowerBound(chunks, hole.address) + 1;
      assert b != [] ==> chunks[it] == b[0];
      if it < |chunks| && SamePage(hole.address, chunks[it].address) && !chunks[it].isAllocated {
        RightPair(a, p, b);
        var _ := Merge2Holes(hole, chunks[it], a, b[1..]);
      }
    }

    /** The second step: the chunk before. */
    method MergeBack(addr: int, ghost a: seq<Chunk>, ghost p: Chunk, ghost b: seq<Chunk>) returns (merged_addr: int)
      requires Tiled(a + [p] + b) && p.size <= PAGE_SIZE && addr == p.address
      requires var h1 := JoinedRight(p.(isAllocated := false), b);
        chunks == a + [h1] + RestRight(p, b) && h1 in holes
      requires JoinsLeft(p.address, a) ==> a[|a| - 1] in holes
      modifies this`chunks, this`holes
      ensures merged_addr == FreedHole(a, p, b).address
      ensures chunks == RestLeft(p, a) + [FreedHole(a, p, b)] + RestRight(p, b)
      ensures FreedHole(a, p, b) in holes
      ensures HolesOf(old(chunks), old(holes)) ==> HolesOf(chunks, holes)
      ensures !JoinsLeft(p.address, a) ==> holes == old(holes)
    {
      FreedIndexAgain(a, p, b, JoinedRight(p.(isAllocated := false), b));
      merged_addr := addr;
      var it := LowerBound(chunks, addr);
      if it != 0 {
        var chunk1 := chunks[it];
        it := it - 1;
        var chunk2 := chunks[it];
        assert chunk2 == a[|a| - 1];
        if SamePage(addr, chunk2.address) && !chunk2.isAllocated {
          LeftPair(a, p, b, chunk1, RestRight(p, b));
          var _ := Merge2Holes(chunk2, chunk1, a[..|a| - 1], RestRight(p, b));
          merged_addr := chunk2.address;
        }
      }
    }

    /** Joins a new hole with its free neighbours in the page and gives back a page that
        has become one hole. */
    method MergeHoles(hole: Chunk, ghost a: seq<Chunk>, ghost p: Chunk, ghost b: seq<Chunk>)
      requires Tiled(a + [p] + b) && p.size <= PAGE_SIZE && hole == p.(isAllocated := false)
      requires chunks == a + [hole] + b && memory.Valid() && hole in holes
      requires JoinsRight(p.address, b) ==> b[0] in holes
      requires JoinsLeft(p.address, a) ==> a[|a| - 1] in holes
      modifies this`chunks, this`holes, memory`pages
      ensures memory.Valid() && chunks == AfterFree(a, p, b)
      ensures HolesOf(old(chunks), old(holes)) ==> HolesOf(chunks, holes)
      ensures !JoinsRight(p.address, b) && !JoinsLeft(p.address, a) && p.size < PAGE_SIZE ==> holes == old(holes)
      ensures memory.pages == old(memory.pages) - GivenBack(a, p, b)
    {
      LeftIsApart(a, p, b);
      MergeForward(hole, a, p, b);
      var merged_addr := MergeBack(hole.address, a, p, b);
      FinalIndex(a, p, b);
      GiveBackPage(merged_addr, RestLeft(p, a), FreedHole(a, p, b), RestRight(p, b));
    }

    /** The last step: a page that has become one hole is unmapped. */
    method GiveBackPage(merged_addr: int, ghost l: seq<Chunk>, ghost hole: Chunk, ghost r: seq<Chunk>)
      requires chunks == l + [hole] + r && hole in holes && !hole.isAllocated && memory.Valid()
      requires merged_addr == hole.address && LowerBound(chunks, hole.address) == |l|
      requires Around(l, hole.address, hole.address + 1, r)
      requires hole.size == PAGE_SIZE ==> IsTag(hole.address) && hole.End() <= LAST_PAGE
      modifies this`chunks, this`holes, memory`pages
      ensures memory.Valid()
      ensures chunks == l + (if hole.size == PAGE_SIZE then [] else [hole]) + r
      ensures HolesOf(old(chunks), old(holes)) ==> HolesOf(chunks, holes)
      ensures hole.size != PAGE_SIZE ==> holes == old(holes)
      ensures memory.pages == old(memory.pages) - (if hole.size == PAGE_SIZE then {hole.address} else {})
    {
      var it := LowerBound(chunks, merged_addr);
      if chunks[it].size == PAGE_SIZE {
        DeallocatePage(merged_addr);
        RemoveHole(chunks[it], l, r);
        assert l + [] + r == l + r;
      }
    }

    /** Gives back the pages of a block larger than a page. */
    method FreeLarge(pointer: Chunk, ghost a: seq<Chunk>, ghost b: seq<Chunk>)
      requires memory.Valid() && WholePages(pointer)
      requires chunks == a + [pointer] + b && Around(a, pointer.address, pointer.address + 1, b)
      requires pointer.isAllocated
      modifies this`chunks, memory`pages
      ensures memory.Valid() && chunks == a + b
      ensures HolesOf(old(chunks), holes) ==> HolesOf(chunks, holes)
      ensures memory.pages == old(memory.pages) - Tags(pointer.address, pointer.End())
    {
      var num_pages := pointer.size / PAGE_SIZE;
      var address := pointer.address;
      assert pointer.size == num_pages * PAGE_SIZE;
      for i := 0 to num_pages
        invariant chunks == old(chunks) && memory.Valid() && address == pointer.address + i * PAGE_SIZE
        invariant memory.pages == old(memory.pages) - Tags(pointer.address, address)
      {
        TagsNext(pointer.address, address);
        DeallocatePage(address);
        address := address + PAGE_SIZE;
      }
      RemovePointer(pointer, a, b);
    }

    /** Frees the block at `address`.  An address where a hole starts is not rejected,
        although the comment on the declaration promises it: its hole is listed twice. */
    method Free(address: int) returns (r: FreeResult)
      requires Valid()
      modifies this`chunks, this`holes, memory`pages
      ensures r == NotAllocated <==> forall c :: c in old(chunks) ==> c.address != address
      ensures r == NotAllocated ==> chunks == old(chunks) && holes == old(holes) && memory.pages == old(memory.pages)
      ensures Valid() <==> !StartsHole(old(chunks), address)
      ensures forall c :: c in Live(old(chunks)) && c.address == address ==> Live(chunks) == Live(old(chunks)) - {c}
      ensures StartsHole(old(chunks), address) ==>
        chunks == old(chunks) && !Distinct(holes) && memory.pages == old(memory.pages)
      ensures forall c :: c in old(chunks) && c.address == address && !c.isAllocated ==>
        Inserted(old(holes), holes, c)
      ensures OnlyGivenBack(old(memory.pages), memory.pages)
    {
      FindChunk(chunks, address);
      var it := LowerBound(chunks, address);
      if it == |chunks| || chunks[it].address != address {
        return NotAllocated;
      }
      var p := chunks[it];
      ghost var a, b := chunks[..it], chunks[it + 1..];
      assert chunks == a + [p] + b;
      SplitAround(a, p, b);
      if p.size > PAGE_SIZE {
        FreeLargeBlock(p, a, b);
        return Freed;
      }
      FreeSmallBlock(p, a, b);
      return Freed;
    }

    method FreeLargeBlock(p: Chunk, ghost a: seq<Chunk>, ghost b: seq<Chunk>)
      requires Valid() && chunks == a + [p] + b && p.size > PAGE_SIZE
      modifies this`chunks, memory`pages
      ensures Valid() && p.isAllocated && Live(chunks) == Live(old(chunks)) - {p}
      ensures OnlyGivenBack(old(memory.pages), memory.pages)
    {
      assert p in chunks && FitsPages(p);
      SplitAround(a, p, b);
      RemoveBlock(memory.pages.Keys, initial, a, p, b);
      FreeLarge(p, a, b);
      BlockGoneLive(a, p, b);
    }

    method FreeSmallBlock(p: Chunk, ghost a: seq<Chunk>, ghost b: seq<Chunk>)
      requires Valid() && chunks == a + [p] + b && p.size <= PAGE_SIZE
      modifies this`chunks, this`holes, memory`pages
      ensures p.isAllocated ==> Valid() && Live(chunks) == Live(old(chunks)) - {p}
      ensures !p.isAllocated ==> chunks == old(chunks) && Inserted(old(holes), holes, p) && !Distinct(holes)
      ensures !p.isAllocated ==> memory.pages == old(memory.pages)
      ensures OnlyGivenBack(old(memory.pages), memory.pages)
    {
      NeighbourHoles(a, p, b, holes);
      BecomesHole(p, a, b);
      if p.isAllocated {
        SplitAround(a, p, b);
        AfterFreeConsistent(old(memory.pages.Keys), initial, a, p, b, holes);
        AfterFreeLive(a, p, b);
      } else {
        HoleStays(a, p, b);
      }
    }

    /** The pointer makes way for a hole, which is merged with its neighbours. */
    method BecomesHole(p: Chunk, ghost a: seq<Chunk>, ghost b: seq<Chunk>)
      requires memory.Valid() && Tiled(chunks) && HolesOf(chunks, holes) && NoWholeHole(chunks)
      requires chunks == a + [p] + b && p.size <= PAGE_SIZE
      modifies this`chunks, this`holes, memory`pages
      ensures memory.Valid() && chunks == AfterFree(a, p, b) && memory.pages == old(memory.pages) - GivenBack(a, p, b)
      ensures p.isAllocated ==> HolesOf(chunks, holes)
      ensures !p.isAllocated ==> Inserted(old(holes), holes, p) && !Distinct(holes)
    {
      SplitAround(a, p, b);
      NeighbourHoles(a, p, b, holes);
      RemovePointer(p, a, b);
      var hole := CreateHole(p.address, p.size, a, b);
      ghost var h := holes;
      assert !p.isAllocated ==> hole == p && Inserted(old(holes), h, p) && !Distinct(h);
      MergeHoles(hole, a, p, b);
      assert !p.isAllocated ==> holes == h;
    }

    method AllocateInHole(hole: Chunk, size: int, alignment: int) returns (address: int)
      requires Valid() && hole in holes && 1 <= size && 1 <= alignment <= PAGE_SIZE &&
        CanHoleContain(hole, size, alignment)
      modifies this`chunks, this`holes
      ensures Valid() && address == NextAligned(hole.address, alignment)
      ensures IsAligned(address, alignment) && NewLive(old(chunks), chunks, Chunk(address, size, true))
    {
      ghost var a, b := SplitAt(chunks, hole);
      SplitAround(a, hole, b);
      assert FitsPages(hole);
      NextAlignedIsNext(hole.address, alignment);
      address := AllocateIn(hole, size, alignment, a, b);
      HoleLiveness(a, hole, b);
      CarveConsistent(memory.pages.Keys, initial, a, hole, b, holes, address, size);
    }

    /** The returned address is that of the page, not the one that was carved: it is a live
        block's exactly when the page is aligned.  Nothing checks that the page can contain
        the request: the state stays consistent exactly when it can. */
    method AllocateInNewPage(size: int, alignment: int) returns (r: AllocResult)
      requires Valid() && 1 <= size <= PAGE_SIZE && 1 <= alignment <= PAGE_SIZE
      requires NewPageMappable(memory.pages.Keys)
      modifies this`chunks, this`holes, memory`pages
      ensures r == OutOfMemory ==>
        && Valid() && chunks == old(chunks) && holes == old(holes) && memory.pages == old(memory.pages)
        && NoFit(memory.pages, PAGE_SIZE, MAP_BASE_ADDRESS, ADDRESS_SPACE)
      ensures r.Allocated? ==> NextPage(old(memory.pages), r.address)
      ensures r.Allocated? ==> PagesAdded(old(memory.pages), memory.pages, r.address, r.address + PAGE_SIZE,
                                          {AccessRead, AccessWrite, AccessExec})
      ensures r.Allocated? ==> (Valid() <==> CanHoleContain(PageHole(r.address), size, alignment))
      ensures r.Allocated? ==> (Block(r.address, size) in Live(chunks) <==> IsAligned(r.address, alignment))
      ensures r.Allocated? && Valid() ==>
        NewLive(old(chunks), chunks, Block(NextAligned(r.address, alignment), size))
    {
      var hole, ok, a, b := RequestOnePage(MAP_BASE_ADDRESS);
      if !ok {
        return OutOfMemory;
      }
      CarveNewPage(hole, size, alignment, a, b);
      return Allocated(hole.address);
    }

    /** The block is carved out of the new page. */
    method CarveNewPage(hole: Chunk, size: int, alignment: int, ghost a: seq<Chunk>, ghost b: seq<Chunk>)
      requires 1 <= size <= PAGE_SIZE && 1 <= alignment <= PAGE_SIZE
      requires memory.Valid() && WholePages(hole) && hole == PageHole(hole.address) && chunks == a + [hole] + b
      requires Tiled(chunks) && HolesOf(chunks, holes) && PagesOk(memory.pages.Keys, initial, chunks)
      requires NoWholeHole(a + b)
      modifies this`chunks, this`holes
      ensures Valid() <==> CanHoleContain(hole, size, alignment)
      ensures Block(hole.address, size) in Live(chunks) <==> IsAligned(hole.address, alignment)
      ensures Valid() ==> NewLive(a + b, chunks, Block(NextAligned(hole.address, alignment), size))
    {
      SplitAround(a, hole, b);
      var aligned := AllocateIn(hole, size, alignment, a, b);
      NextAlignedIsNext(hole.address, alignment);
      if CanHoleContain(hole, size, alignment) {
        CarveConsistent(memory.pages.Keys, initial, a, hole, b, holes, aligned, size);
      } else {
        OverflownNotConsistent(memory.pages.Keys, initial, chunks, holes);
      }
      if IsAligned(hole.address, alignment) {
        AlignedPageFits(hole.address, size, alignment);
      }
      PageBlockLive(a, hole.address, b, chunks, size, alignment);
    }

    /** Allocates in the first hole, by size, that can contain the request; failing that
        in a new page; and requests above a page in pages of their own. */
    method Allocate(size: int, alignment: int) returns (r: AllocResult)
      requires Valid() && 1 <= size <= LAST_PAGE && 1 <= alignment <= PAGE_SIZE
      requires NeedsPage(holes, size, alignment) ==> NewPageMappable(memory.pages.Keys)
      modifies this`chunks, this`holes, memory`pages
      ensures r == OutOfMemory ==>
        Valid() && chunks == old(chunks) && holes == old(holes) && memory.pages == old(memory.pages)
      ensures r.Allocated? && (!NeedsPage(old(holes), size, alignment) || PAGE_SIZE % alignment == 0) ==>
        Valid() && NewLive(old(chunks), chunks, Block(r.address, size))
      ensures r.Allocated? && PAGE_SIZE % alignment == 0 ==> IsAligned(r.address, alignment)
      ensures size <= PAGE_SIZE && !NeedsPage(old(holes), size, alignment) ==>
        r.Allocated? && IsAligned(r.address, alignment) && memory.pages == old(memory.pages)
      ensures size <= PAGE_SIZE ==> forall k ::
        0 <= k < |old(holes)| && FirstContaining(old(holes), k, size, alignment) ==>
          r == Allocated(NextAligned(old(holes)[k].address, alignment))
      ensures size > PAGE_SIZE && r.Allocated? ==> PagesAdded(old(memory.pages), memory.pages, r.address,
        r.address + PageAligned(size), {AccessRead, AccessWrite, AccessExec})
      ensures size > PAGE_SIZE && r.Allocated? ==> HighestFit(old(memory.pages), PageAligned(size), r.address)
      ensures size > PAGE_SIZE && r == OutOfMemory ==> NoRoom(old(memory.pages), PageAligned(size))
      ensures NeedsPage(old(holes), size, alignment) && r.Allocated? ==>
        && NextPage(old(memory.pages), r.address)
        && PagesAdded(old(memory.pages), memory.pages, r.address, r.address + PAGE_SIZE,
                      {AccessRead, AccessWrite, AccessExec})
        && (Valid() <==> CanHoleContain(PageHole(r.address), size, alignment))
        && (Block(r.address, size) in Live(chunks) <==> IsAligned(r.address, alignment))
        && (IsAligned(r.address, alignment) ==> Valid() && NewLive(old(chunks), chunks, Block(r.address, size)))
      ensures NeedsPage(old(holes), size, alignment) && r == OutOfMemory ==>
        NoFit(old(memory.pages), PAGE_SIZE, MAP_BASE_ADDRESS, ADDRESS_SPACE)
    {
      if size > PAGE_SIZE {
        r := AllocateLarge(size);
        if r.Allocated? && PAGE_SIZE % alignment == 0 {
          PagesAreAligned(r.address, alignment);
        }
        return r;
      }
      var it := FindHole(size, alignment);
      if it < |holes| {
        var address := AllocateInHole(holes[it], size, alignment);
        return Allocated(address);
      }
      r := AllocateInNewPage(size, alignment);
      if r.Allocated? {
        if PAGE_SIZE % alignment == 0 {
          PagesAreAligned(r.address, alignment);
        }
        if IsAligned(r.address, alignment) {
          AlignedPageFits(r.address, size, alignment);
        }
      }
    }

    /** The search of Allocate: the index of the first hole that can contain the request. */
    method FindHole(size: int, alignment: int) returns (it: int)
      requires Tiled(chunks) && HolesOf(chunks, holes) && 1 <= alignment
      ensures 0 <= it <= |holes|
      ensures forall k :: 0 <= k < it ==> !CanHoleContain(holes[k], size, alignment)
      ensures it < |holes| ==> CanHoleContain(holes[it], size, alignment)
    {
      it := FirstOfSize(holes, size);
      forall k | 0 <= k < it ensures !CanHoleContain(holes[k], size, alignment) {
        HoleTooSmall(chunks, holes, holes[k], size, alignment);
      }
      while it < |holes| && !CanHoleContain(holes[it], size, alignment)
        invariant 0 <= it <= |holes|
        invariant forall k :: 0 <= k < it ==> !CanHoleContain(holes[k], size, alignment)
      {
        it := it + 1;
      }
    }
  }
  // ---------- Inputs on which the promises fail ----------

  /** Behind a small live block, in its page, there is a hole exactly when no live block
      starts there. */
  lemma HoleBehind(mapped: set<int>, initial: set<int>, cs: seq<Chunk>, hs: seq<Chunk>, c: Chunk)
    requires Consistent(mapped, initial, cs, hs) && c in Live(cs) && SamePage(c.address, c.End())
    ensures StartsHole(cs, c.End()) <==> forall d :: d in Live(cs) ==> d.address != c.End()
  {
    assert FitsPages(c);
    SmallChunkCoversItsPage(c, Tag(c.address));
    assert Owned(cs, Tag(c.address));
    OwnedPagesAreTiled(cs, Tag(c.address), c.End());
    var o :| o in cs && o.address <= c.End() < o.End();
    ChunksDisjoint(cs, c, o);
    assert o.address == c.End();
    FindChunk(cs, c.End());
    assert o.isAllocated ==> o in Live(cs);
  }

  lemma FirstPage(page: int)
    ensures NextPage(map[], page) <==> page == MAP_BASE_ADDRESS
    ensures !NoFit(map[], PAGE_SIZE, MAP_BASE_ADDRESS, ADDRESS_SPACE)
    ensures NewPageMappable({})
  {
    assert IsTag(MAP_BASE_ADDRESS) && IsFree(map[], MAP_BASE_ADDRESS, PAGE_SIZE);
  }

  /** One byte aligned to 3 fits into the first page, but not at its start. */
  lemma FirstPageMisplaces()
    ensures !IsAligned(MAP_BASE_ADDRESS, 3) && CanHoleContain(PageHole(MAP_BASE_ADDRESS), 1, 3)
  {
  }

  /** A whole page aligned to 3 does not fit into it. */
  lemma FirstPageOverflows()
    ensures !IsAligned(MAP_BASE_ADDRESS, 3) && !CanHoleContain(PageHole(MAP_BASE_ADDRESS), PAGE_SIZE, 3)
  {
  }

  /** The same alignment is right on the page behind: what counts is the page, not whether
      the alignment divides the page size. */
  lemma SecondPageIsRight()
    ensures PAGE_SIZE % 3 != 0 && IsAligned(MAP_BASE_ADDRESS + PAGE_SIZE, 3)
  {
  }

  method NewManager() returns (m: Manager)
    ensures fresh(m) && fresh(m.memory) && m.Valid() && m.chunks == [] && m.holes == [] && m.memory.pages == map[]
  {
    var memory := new Memory(true);
    m := new Manager(memory);
  }

  /** Allocate returns an address at which no block is live. */
  method MisplacedBlock() returns (m: Manager, r: AllocResult)
    ensures r == Allocated(MAP_BASE_ADDRESS) && m.Valid() && Block(MAP_BASE_ADDRESS, 1) !in Live(m.chunks)
  {
    m := NewManager();
    FirstPage(MAP_BASE_ADDRESS);
    FirstPageMisplaces();
    r := m.Allocate(1, 3);
    FirstPage(if r.Allocated? then r.address else 0);
  }

  /** Allocate leaves a hole of almost the whole address space. */
  method OverflownPage() returns (m: Manager, r: AllocResult)
    ensures r == Allocated(MAP_BASE_ADDRESS) && !m.Valid()
  {
    m := NewManager();
    FirstPage(MAP_BASE_ADDRESS);
    FirstPageOverflows();
    r := m.Allocate(PAGE_SIZE, 3);
    FirstPage(if r.Allocated? then r.address else 0);
  }

  /** Free of an address that Allocate never returned is not rejected, and its hole is
      listed twice. */
  method FreedHoleAgain() returns (m: Manager, r: FreeResult)
    ensures r == Freed && !m.Valid() && !Distinct(m.holes)
  {
    m := NewManager();
    FirstPage(MAP_BASE_ADDRESS);
    var block := m.Allocate(16, 16);
    FirstPage(if block.Allocated? then block.address else 0);
    ghost var c := Block(MAP_BASE_ADDRESS, 16);
    assert Live(m.chunks) == {c};
    HoleBehind(m.memory.pages.Keys, m.initial, m.chunks, m.holes, c);
    r := m.Free(MAP_BASE_ADDRESS + 16);
  }
}
