/** The speculative overlay of memory/SpecMem.cc: small copy-on-write pages in a chained hash
    table over the real memory. */
module SpeculativeMemory {

  import M = PagedMemory

  const PAGE_SIZE := 16
  const TABLE_SIZE := 32
  const MAX_PAGES := 100

  /** The small page an address lies in. */
  function PageOf(a: int): int {
    a - a % PAGE_SIZE
  }

  /** The hash chain of an address. */
  function Hash(a: int): (h: int)
    ensures 0 <= h < TABLE_SIZE
  {
    PageOf(a) / PAGE_SIZE % TABLE_SIZE
  }

  // ---------- The overlay as a value ----------

  /** The contents of the speculative pages, by address. */
  type Overlay = map<int, seq<M.byte>>

  predicate IsPage(t: int, data: seq<M.byte>) {
    M.IsAddress(t) && t % PAGE_SIZE == 0 && |data| == PAGE_SIZE
  }

  predicate IsOverlay(o: Overlay) {
    |o.Keys| <= MAX_PAGES && forall t {:trigger o[t]} :: t in o ==> IsPage(t, o[t])
  }

  /** What speculative execution sees at an address. */
  function View(p: M.PageTable, o: Overlay, a: int): M.byte
    requires M.IsPageTable(p) && IsOverlay(o)
  {
    var t := PageOf(a);
    if t in o then o[t][a - t] else M.ByteAt(p, a)
  }

  /** The initial contents of a page: a copy of the real memory. */
  function Copied(p: M.PageTable, t: int): (data: seq<M.byte>)
    requires M.IsPageTable(p)
    ensures |data| == PAGE_SIZE && forall k {:trigger data[k]} :: 0 <= k < PAGE_SIZE ==> data[k] == M.ByteAt(p, t + k)
  {
    seq(PAGE_SIZE, k requires 0 <= k < PAGE_SIZE => M.ByteAt(p, t + k))
  }

  predicate WithinPage(at: int, n: int) {
    M.IsAddress(at) && 0 <= n && at % PAGE_SIZE + n <= PAGE_SIZE
  }

  /** A write is dropped when it needs a new page and the limit is reached. */
  predicate Accepts(o: Overlay, at: int) {
    PageOf(at) in o || |o.Keys| < MAX_PAGES
  }

  function Contents(p: M.PageTable, o: Overlay, at: int): (data: seq<M.byte>)
    requires M.IsPageTable(p) && IsOverlay(o)
    ensures |data| == PAGE_SIZE
  {
    if PageOf(at) in o then o[PageOf(at)] else Copied(p, PageOf(at))
  }

  function Patched(data: seq<M.byte>, offset: int, bytes: seq<M.byte>): (r: seq<M.byte>)
    requires |data| == PAGE_SIZE && 0 <= offset && offset + |bytes| <= PAGE_SIZE
    ensures |r| == PAGE_SIZE
    ensures forall k {:trigger r[k]} :: 0 <= k < PAGE_SIZE ==>
      r[k] == if offset <= k < offset + |bytes| then bytes[k - offset] else data[k]
  {
    data[..offset] + bytes + data[offset + |bytes|..]
  }

  /** The overlay after a write within one page. */
  function WriteAligned(p: M.PageTable, o: Overlay, at: int, bytes: seq<M.byte>): (r: Overlay)
    requires M.IsPageTable(p) && IsOverlay(o) && WithinPage(at, |bytes|)
  {
    if !Accepts(o, at) then o
    else o[PageOf(at) := Patched(Contents(p, o, at), at % PAGE_SIZE, bytes)]
  }

  lemma KeysGrow(o: Overlay, t: int, data: seq<M.byte>)
    ensures o[t := data].Keys == o.Keys + {t}
    ensures |o[t := data].Keys| == |o.Keys| + if t in o then 0 else 1
  {
    if t in o {
      assert o.Keys + {t} == o.Keys;
    }
  }

  lemma PageOfAligned(a: int)
    requires M.IsAddress(a)
    ensures M.IsAddress(PageOf(a)) && PageOf(a) % PAGE_SIZE == 0 && a - PageOf(a) == a % PAGE_SIZE
    ensures 0 <= a % PAGE_SIZE < PAGE_SIZE
  {
  }

  lemma WriteAlignedKeeps(p: M.PageTable, o: Overlay, at: int, bytes: seq<M.byte>)
    requires M.IsPageTable(p) && IsOverlay(o) && WithinPage(at, |bytes|)
    ensures IsOverlay(WriteAligned(p, o, at, bytes))
    ensures WriteAligned(p, o, at, bytes).Keys == if Accepts(o, at) then o.Keys + {PageOf(at)} else o.Keys
  {
    if Accepts(o, at) {
      var data := Patched(Contents(p, o, at), at % PAGE_SIZE, bytes);
      KeysGrow(o, PageOf(at), data);
      PageOfAligned(at);
    }
  }

  lemma SamePage(at: int, n: int, x: int)
    requires WithinPage(at, n) && M.IsAddress(x)
    ensures at <= x < at + n ==> PageOf(x) == PageOf(at)
    ensures PageOf(x) == PageOf(at) ==> x - at == x % PAGE_SIZE - at % PAGE_SIZE
  {
  }

  /** A byte is seen at its offset in the contents of its page. */
  lemma ViewIsContents(p: M.PageTable, o: Overlay, x: int)
    requires M.IsPageTable(p) && IsOverlay(o) && M.IsAddress(x)
    ensures 0 <= x % PAGE_SIZE < PAGE_SIZE
    ensures View(p, o, x) == Contents(p, o, x)[x % PAGE_SIZE]
  {
    PageOfAligned(x);
  }

  lemma ContentsAfter(p: M.PageTable, o: Overlay, at: int, bytes: seq<M.byte>, x: int)
    requires M.IsPageTable(p) && IsOverlay(o) && WithinPage(at, |bytes|)
    ensures IsOverlay(WriteAligned(p, o, at, bytes))
    ensures Contents(p, WriteAligned(p, o, at, bytes), x) ==
      if Accepts(o, at) && PageOf(x) == PageOf(at) then Patched(Contents(p, o, at), at % PAGE_SIZE, bytes)
      else Contents(p, o, x)
  {
    WriteAlignedKeeps(p, o, at, bytes);
  }

  lemma SameContents(p: M.PageTable, o: Overlay, at: int, x: int)
    requires M.IsPageTable(p) && IsOverlay(o) && PageOf(x) == PageOf(at)
    ensures Contents(p, o, x) == Contents(p, o, at)
  {
  }

  lemma HitView(p: M.PageTable, o: Overlay, at: int, bytes: seq<M.byte>, x: int)
    requires M.IsPageTable(p) && IsOverlay(o) && WithinPage(at, |bytes|) && M.IsAddress(x)
    requires Accepts(o, at) && PageOf(x) == PageOf(at)
    ensures IsOverlay(WriteAligned(p, o, at, bytes)) && 0 <= x % PAGE_SIZE < PAGE_SIZE
    ensures View(p, WriteAligned(p, o, at, bytes), x) ==
      Patched(Contents(p, o, at), at % PAGE_SIZE, bytes)[x % PAGE_SIZE]
    ensures View(p, o, x) == Contents(p, o, at)[x % PAGE_SIZE]
  {
    ContentsAfter(p, o, at, bytes, x);
    ViewIsContents(p, o, x);
    ViewIsContents(p, WriteAligned(p, o, at, bytes), x);
    SameContents(p, o, at, x);
  }

  lemma MissView(p: M.PageTable, o: Overlay, at: int, bytes: seq<M.byte>, x: int)
    requires M.IsPageTable(p) && IsOverlay(o) && WithinPage(at, |bytes|) && M.IsAddress(x)
    requires !Accepts(o, at) || PageOf(x) != PageOf(at)
    ensures IsOverlay(WriteAligned(p, o, at, bytes))
    ensures View(p, WriteAligned(p, o, at, bytes), x) == View(p, o, x)
  {
    ContentsAfter(p, o, at, bytes, x);
    ViewIsContents(p, o, x);
    ViewIsContents(p, WriteAligned(p, o, at, bytes), x);
  }

  lemma PatchSeen(data: seq<M.byte>, offset: int, bytes: seq<M.byte>, k: int, at: int, x: int)
    requires |data| == PAGE_SIZE && 0 <= offset && offset + |bytes| <= PAGE_SIZE && 0 <= k < PAGE_SIZE
    requires x - at == k - offset
    ensures Patched(data, offset, bytes)[k] == if at <= x < at + |bytes| then bytes[x - at] else data[k]
  {
  }

  /** An accepted write changes exactly the bytes written, as speculative execution sees them. */
  lemma WriteAlignedView(p: M.PageTable, o: Overlay, at: int, bytes: seq<M.byte>, x: int)
    requires M.IsPageTable(p) && IsOverlay(o) && WithinPage(at, |bytes|) && M.IsAddress(x)
    ensures IsOverlay(WriteAligned(p, o, at, bytes))
    ensures View(p, WriteAligned(p, o, at, bytes), x) ==
      if Accepts(o, at) && at <= x < at + |bytes| then bytes[x - at] else View(p, o, x)
  {
    SamePage(at, |bytes|, x);
    if Accepts(o, at) && PageOf(x) == PageOf(at) {
      HitView(p, o, at, bytes, x);
      PageOfAligned(at);
      PatchSeen(Contents(p, o, at), at % PAGE_SIZE, bytes, x % PAGE_SIZE, at, x);
    } else {
      MissView(p, o, at, bytes, x);
    }
  }

  // ---------- Whole accesses ----------

  /** How many of `n` bytes from `at` on lie in its page. */
  function Chunk(at: int, n: int): (c: int)
    requires M.IsAddress(at) && 0 < n
    ensures 0 < c <= n && WithinPage(at, c)
  {
    if n < PAGE_SIZE - at % PAGE_SIZE then n else PAGE_SIZE - at % PAGE_SIZE
  }

  /** A write of any length, page by page. */
  function WriteAll(p: M.PageTable, o: Overlay, at: int, bytes: seq<M.byte>): (r: Overlay)
    requires M.IsPageTable(p) && IsOverlay(o) && M.IsAddress(at)
    ensures IsOverlay(r)
    decreases |bytes|
  {
    if bytes == [] then o
    else
      var c := Chunk(at, |bytes|);
      WriteAlignedKeeps(p, o, at, bytes[..c]);
      WriteAll(p, WriteAligned(p, o, at, bytes[..c]), M.Plus(at, c), bytes[c..])
  }

  /** The pages of `n` bytes from `at` on. */
  function Touched(at: int, n: int): set<int>
    requires M.IsAddress(at) && 0 <= n
    decreases n
  {
    if n == 0 then {} else {PageOf(at)} + Touched(M.Plus(at, Chunk(at, n)), n - Chunk(at, n))
  }

  /** Every byte of the range lies in one of the touched pages. */
  lemma {:induction false} TouchedIs(at: int, n: int, k: int)
    requires M.IsAddress(at) && 0 <= k < n
    ensures PageOf(M.Plus(at, k)) in Touched(at, n)
    decreases n
  {
    var c := Chunk(at, n);
    if k < c {
      InChunk(at, c, k);
    } else {
      TouchedIs(M.Plus(at, c), n - c, k - c);
      M.PlusPlus(at, c, k - c);
    }
  }

  /** Every touched page holds a byte of the range. */
  lemma {:induction false} TouchedOnly(at: int, n: int, t: int) returns (k: int)
    requires M.IsAddress(at) && 0 <= n && t in Touched(at, n)
    ensures 0 <= k < n && t == PageOf(M.Plus(at, k))
    decreases n
  {
    var c := Chunk(at, n);
    if t == PageOf(at) {
      k := 0;
      PlusZero(at);
    } else {
      var j := TouchedOnly(M.Plus(at, c), n - c, t);
      M.PlusPlus(at, c, j);
      k := c + j;
    }
  }

  /** The pages of a range are the aligned runs of sixteen bytes that hold a byte of it. */
  lemma TouchedIff(at: int, n: int, t: int)
    requires M.IsAddress(at) && 0 <= n
    ensures t in Touched(at, n) <==> t % 16 == 0 && exists k :: 0 <= k < n && t <= M.Plus(at, k) < t + 16
  {
    if t in Touched(at, n) {
      var k := TouchedOnly(at, n, t);
      PageBounds(M.Plus(at, k), t);
    }
    if t % 16 == 0 && exists k :: 0 <= k < n && t <= M.Plus(at, k) < t + 16 {
      var k :| 0 <= k < n && t <= M.Plus(at, k) < t + 16;
      PageBounds(M.Plus(at, k), t);
      TouchedIs(at, n, k);
    }
  }

  lemma PageBounds(a: int, t: int)
    ensures PageOf(a) == t <==> t % 16 == 0 && t <= a < t + 16
  {
  }

  lemma InChunk(at: int, c: int, k: int)
    requires WithinPage(at, c) && 0 <= k < c
    ensures M.Plus(at, k) == at + k && PageOf(at + k) == PageOf(at)
  {
    NoWrap(at, k);
  }

  lemma NoWrap(at: int, k: int)
    requires M.IsAddress(at) && 0 <= k && at % PAGE_SIZE + k < PAGE_SIZE
    ensures at + k < M.ADDRESS_SPACE
  {
    assert (at - at % PAGE_SIZE) % PAGE_SIZE == 0;
  }

  lemma ChunkEnd(at: int, c: int)
    requires WithinPage(at, c)
    ensures at + c <= M.ADDRESS_SPACE
  {
    assert (at - at % PAGE_SIZE) % PAGE_SIZE == 0;
  }

  lemma SubsetSize(a: set<int>, b: set<int>)
    requires a <= b
    ensures |a| <= |b|
  {
    assert b == a + (b - a);
  }

  /** One byte through a first chunk and the rest; `d` is its distance from the start. */
  lemma Glue(bytes: seq<M.byte>, c: int, d: int, d': int, v0: M.byte, v1: M.byte, v2: M.byte)
    requires 0 < c <= |bytes| < M.ADDRESS_SPACE && 0 <= d < M.ADDRESS_SPACE
    requires d' == if c <= d then d - c else d - c + M.ADDRESS_SPACE
    requires v1 == if d < c then bytes[d] else v0
    requires v2 == if d' < |bytes| - c then bytes[c + d'] else v1
    ensures v2 == if d < |bytes| then bytes[d] else v0
  {
  }

  lemma ChunkView(p: M.PageTable, o: Overlay, at: int, bytes: seq<M.byte>, c: int, x: int)
    requires M.IsPageTable(p) && IsOverlay(o) && M.IsAddress(x) && c <= |bytes| && WithinPage(at, c) && Accepts(o, at)
    ensures IsOverlay(WriteAligned(p, o, at, bytes[..c]))
    ensures View(p, WriteAligned(p, o, at, bytes[..c]), x) ==
      if M.Distance(at, x) < c then bytes[M.Distance(at, x)] else View(p, o, x)
  {
    WriteAlignedView(p, o, at, bytes[..c], x);
    ChunkEnd(at, c);
    M.DistanceWithin(x, at, c);
  }

  /** When the limit leaves room for all its pages, a write is fully effective: speculative
      execution then sees its bytes, wrapping around, and everything else as before. */
  lemma {:induction false} WriteAllView(p: M.PageTable, o: Overlay, at: int, bytes: seq<M.byte>, x: int)
    requires M.IsPageTable(p) && IsOverlay(o) && M.IsAddress(at) && M.IsAddress(x) && |bytes| < M.ADDRESS_SPACE
    requires |o.Keys + Touched(at, |bytes|)| <= MAX_PAGES
    ensures View(p, WriteAll(p, o, at, bytes), x) ==
      if M.Distance(at, x) < |bytes| then bytes[M.Distance(at, x)] else View(p, o, x)
    decreases |bytes|
  {
    if bytes != [] {
      var c := Chunk(at, |bytes|);
      var o1 := WriteAligned(p, o, at, bytes[..c]);
      RoomForPage(o, at, |bytes|);
      RoomForRest(p, o, at, bytes);
      ChunkView(p, o, at, bytes, c, x);
      WriteAllView(p, o1, M.Plus(at, c), bytes[c..], x);
      M.DistanceSplits(at, c, x);
      Glue(bytes, c, M.Distance(at, x), M.Distance(M.Plus(at, c), x),
           View(p, o, x), View(p, o1, x), View(p, WriteAll(p, o, at, bytes), x));
    }
  }

  lemma RoomForRest(p: M.PageTable, o: Overlay, at: int, bytes: seq<M.byte>)
    requires M.IsPageTable(p) && IsOverlay(o) && M.IsAddress(at) && bytes != [] && Accepts(o, at)
    ensures var c := Chunk(at, |bytes|);
      var o1 := WriteAligned(p, o, at, bytes[..c]);
      IsOverlay(o1) && o1.Keys + Touched(M.Plus(at, c), |bytes| - c) == o.Keys + Touched(at, |bytes|)
  {
    WriteAlignedKeeps(p, o, at, bytes[..Chunk(at, |bytes|)]);
  }

  /** It has then put all its pages in the overlay, and never takes one out. */
  lemma {:induction false} WriteAllKeys(p: M.PageTable, o: Overlay, at: int, bytes: seq<M.byte>)
    requires M.IsPageTable(p) && IsOverlay(o) && M.IsAddress(at)
    ensures o.Keys <= WriteAll(p, o, at, bytes).Keys <= o.Keys + Touched(at, |bytes|)
    ensures |o.Keys + Touched(at, |bytes|)| <= MAX_PAGES ==>
      WriteAll(p, o, at, bytes).Keys == o.Keys + Touched(at, |bytes|)
    decreases |bytes|
  {
    if bytes != [] {
      var c := Chunk(at, |bytes|);
      WriteAlignedKeeps(p, o, at, bytes[..c]);
      WriteAllKeys(p, WriteAligned(p, o, at, bytes[..c]), M.Plus(at, c), bytes[c..]);
      if |o.Keys + Touched(at, |bytes|)| <= MAX_PAGES {
        RoomForPage(o, at, |bytes|);
        RoomForRest(p, o, at, bytes);
      }
    }
  }

  /** A write is dropped in part exactly when its pages and those present exceed the limit. */
  lemma AllKeptIff(p: M.PageTable, o: Overlay, at: int, bytes: seq<M.byte>)
    requires M.IsPageTable(p) && IsOverlay(o) && M.IsAddress(at)
    ensures Touched(at, |bytes|) <= WriteAll(p, o, at, bytes).Keys <==> |o.Keys + Touched(at, |bytes|)| <= 100
  {
    WriteAllKeys(p, o, at, bytes);
    var r := WriteAll(p, o, at, bytes);
    if Touched(at, |bytes|) <= r.Keys {
      SubsetSize(o.Keys + Touched(at, |bytes|), r.Keys);
    }
  }

  /** The first page of a write that has room for all of them is accepted. */
  lemma RoomForPage(o: Overlay, at: int, n: int)
    requires M.IsAddress(at) && 0 < n && |o.Keys + Touched(at, n)| <= MAX_PAGES
    ensures Accepts(o, at)
  {
    var all := o.Keys + Touched(at, n);
    if PageOf(at) !in o {
      assert PageOf(at) in all;
      SubsetSize(o.Keys + {PageOf(at)}, all);
    }
  }

  // ---------- Runs ----------

  datatype Write = Write(at: int, bytes: seq<M.byte>)

  predicate IsWrite(w: Write) {
    M.IsAddress(w.at) && |w.bytes| < M.ADDRESS_SPACE
  }

  predicate AreWrites(ws: seq<Write>) {
    forall i :: 0 <= i < |ws| ==> IsWrite(ws[i])
  }

  /** The overlay after the writes of a run; reads leave it as it is. */
  function After(p: M.PageTable, ws: seq<Write>): (o: Overlay)
    requires M.IsPageTable(p) && AreWrites(ws)
    ensures IsOverlay(o)
  {
    if ws == [] then map[]
    else
      var w := ws[|ws| - 1];
      WriteAll(p, After(p, ws[..|ws| - 1]), w.at, w.bytes)
  }

  function AllTouched(ws: seq<Write>): set<int>
    requires AreWrites(ws)
  {
    if ws == [] then {}
    else AllTouched(ws[..|ws| - 1]) + Touched(ws[|ws| - 1].at, |ws[|ws| - 1].bytes|)
  }

  /** A flat private copy of the memory after the writes. */
  function FlatByte(p: M.PageTable, ws: seq<Write>, x: int): M.byte
    requires M.IsPageTable(p) && AreWrites(ws)
  {
    if ws == [] then M.ByteAt(p, x)
    else
      var w := ws[|ws| - 1];
      if M.Distance(w.at, x) < |w.bytes| then w.bytes[M.Distance(w.at, x)]
      else FlatByte(p, ws[..|ws| - 1], x)
  }

  /** While at most 100 different small pages are written, the overlay is a flat private copy
      of the memory. */
  lemma {:induction false} RunIsFlat(p: M.PageTable, ws: seq<Write>, x: int)
    requires M.IsPageTable(p) && AreWrites(ws) && M.IsAddress(x) && |AllTouched(ws)| <= 100
    ensures View(p, After(p, ws), x) == FlatByte(p, ws, x) && After(p, ws).Keys == AllTouched(ws)
  {
    if ws != [] {
      var init, w := ws[..|ws| - 1], ws[|ws| - 1];
      SubsetSize(AllTouched(init), AllTouched(ws));
      RunIsFlat(p, init, x);
      WriteAllKeys(p, After(p, init), w.at, w.bytes);
      WriteAllView(p, After(p, init), w.at, w.bytes, x);
    }
  }

  /** Beyond the limit each byte written is either seen or dropped; nothing else changes. */
  lemma {:induction false} WriteAllEither(p: M.PageTable, o: Overlay, at: int, bytes: seq<M.byte>, x: int)
    requires M.IsPageTable(p) && IsOverlay(o) && M.IsAddress(at) && M.IsAddress(x) && |bytes| < M.ADDRESS_SPACE
    ensures var v, d := View(p, WriteAll(p, o, at, bytes), x), M.Distance(at, x);
      v == View(p, o, x) || (d < |bytes| && v == bytes[d])
    decreases |bytes|
  {
    if bytes != [] {
      var c := Chunk(at, |bytes|);
      var o1 := WriteAligned(p, o, at, bytes[..c]);
      ChunkEither(p, o, at, bytes, c, x);
      WriteAllEither(p, o1, M.Plus(at, c), bytes[c..], x);
      var v0, v1, v2 := View(p, o, x), View(p, o1, x), View(p, WriteAll(p, o1, M.Plus(at, c), bytes[c..]), x);
      var d, d' := M.Distance(at, x), M.Distance(M.Plus(at, c), x);
      M.DistanceSplits(at, c, x);
      GlueEither(bytes, c, d, d', v0, v1, v2);
    }
  }

  lemma ChunkEither(p: M.PageTable, o: Overlay, at: int, bytes: seq<M.byte>, c: int, x: int)
    requires M.IsPageTable(p) && IsOverlay(o) && M.IsAddress(x) && c <= |bytes| && WithinPage(at, c)
    ensures IsOverlay(WriteAligned(p, o, at, bytes[..c]))
    ensures var v, d := View(p, WriteAligned(p, o, at, bytes[..c]), x), M.Distance(at, x);
      v == View(p, o, x) || (d < c && v == bytes[d])
  {
    WriteAlignedView(p, o, at, bytes[..c], x);
    ChunkEnd(at, c);
    M.DistanceWithin(x, at, c);
  }

  lemma GlueEither(bytes: seq<M.byte>, c: int, d: int, d': int, v0: M.byte, v1: M.byte, v2: M.byte)
    requires 0 < c <= |bytes| < M.ADDRESS_SPACE && 0 <= d < M.ADDRESS_SPACE
    requires d' == if c <= d then d - c else d - c + M.ADDRESS_SPACE
    requires v1 == v0 || (d < c && v1 == bytes[d])
    requires v2 == v1 || (d' < |bytes[c..]| && v2 == bytes[c..][d'])
    ensures v2 == v0 || (d < |bytes| && v2 == bytes[d])
  {
  }

  // ---------- The hash table ----------

  class Page {
    const address: int
    const data: array<M.byte>
    var next: Page?

    constructor (address: int)
      ensures this.address == address && next == null && fresh(data) && data.Length == PAGE_SIZE
    {
      this.address := address;
      data := new M.byte[PAGE_SIZE];
      next := null;
    }
  }

  class SpecMem {
    const memory: M.Memory
    var numPages: int
    const pages: array<Page?>
    /** The pages of each chain, in order. */
    ghost var chains: seq<seq<Page>>
    /** The page for each address in the overlay, and its contents. */
    ghost var pageAt: map<int, Page>
    ghost var overlay: Overlay

    /** The chain at `h` is linked up as recorded. */
    ghost predicate Linked(h: int)
      requires |chains| == TABLE_SIZE && 0 <= h < TABLE_SIZE && pages.Length == TABLE_SIZE
      reads this`chains, pages, chains[h]`next
    {
      && pages[h] == (if chains[h] == [] then null else chains[h][0])
      && forall k {:trigger chains[h][k]} :: 0 <= k < |chains[h]| ==>
           chains[h][k].next == if k + 1 < |chains[h]| then chains[h][k + 1] else null
    }

    /** Every page of a chain is the page recorded for its address, and hashes there. */
    ghost predicate Listed(h: int)
      requires |chains| == TABLE_SIZE && 0 <= h < TABLE_SIZE
      reads this`chains, this`pageAt
    {
      forall k {:trigger chains[h][k]} :: 0 <= k < |chains[h]| ==>
        var page := chains[h][k];
        Hash(page.address) == h && page.address in pageAt && pageAt[page.address] == page
    }

    /** The page recorded for an address is in its chain and has the recorded contents. */
    ghost predicate PageOk(t: int)
      requires t in pageAt && t in overlay && |chains| == TABLE_SIZE
      reads this`chains, this`pageAt, this`overlay, pageAt[t].data
    {
      var page := pageAt[t];
      && page.address == t && page in chains[Hash(t)]
      && page.data.Length == PAGE_SIZE && page.data[..] == overlay[t]
    }

    /** Pages have buffers of their own. */
    ghost predicate OwnData(t: int)
      requires t in pageAt
      reads this`pageAt
    {
      forall u {:trigger pageAt[u]} :: u in pageAt && u != t ==> pageAt[u].data != pageAt[t].data
    }

    ghost function Buffers(): set<object>
      reads this`pageAt
    {
      set t | t in pageAt :: pageAt[t].data
    }

    ghost function Nodes(): set<Page>
      reads this`pageAt
    {
      set t | t in pageAt :: pageAt[t]
    }

    ghost predicate ChainsOk()
      reads this`chains, this`pageAt, pages, Nodes()`next
    {
      && |chains| == TABLE_SIZE && pages.Length == TABLE_SIZE
      && (forall h {:trigger Listed(h)} :: 0 <= h < TABLE_SIZE ==> Listed(h))
      && (forall h, k {:trigger chains[h][k]} :: 0 <= h < TABLE_SIZE && 0 <= k < |chains[h]| ==>
        chains[h][k] in Nodes())
      && (forall h {:trigger Linked(h)} :: 0 <= h < TABLE_SIZE ==> Linked(h))
    }

    ghost predicate PagesOk()
      reads this`chains, this`pageAt, this`overlay, this`numPages, Buffers()
    {
      && |chains| == TABLE_SIZE
      && IsOverlay(overlay) && pageAt.Keys == overlay.Keys && numPages == |overlay.Keys|
      && (forall t {:trigger OwnData(t)} :: t in pageAt ==> OwnData(t))
      && (forall t {:trigger PageOk(t)} :: t in pageAt ==> pageAt[t].data in Buffers() && PageOk(t))
    }

    ghost predicate Valid()
      reads this, memory, pages, Nodes()`next, Buffers()
    {
      ChainsOk() && PagesOk() && memory.Valid()
    }

    constructor (memory: M.Memory)
      requires memory.Valid()
      ensures Valid() && this.memory == memory && overlay == map[] && fresh(pages)
    {
      this.memory := memory;
      numPages := 0;
      pages := new Page?[TABLE_SIZE](_ => null);
      chains := seq(TABLE_SIZE, _ => []);
      pageAt, overlay := map[], map[];
    }

    lemma SamePageHash(a: int)
      ensures PageOf(PageOf(a)) == PageOf(a) && Hash(PageOf(a)) == Hash(a)
    {
    }

    /** A page of the right chain with the address is the one recorded. */
    lemma ListedPage(h: int, page: Page)
      requires |chains| == TABLE_SIZE && 0 <= h < TABLE_SIZE && Listed(h) && page in chains[h]
      ensures page.address in pageAt && pageAt[page.address] == page && Hash(page.address) == h
    {
      var k :| 0 <= k < |chains[h]| && chains[h][k] == page;
    }

    lemma SameKeys(t: int)
      requires PagesOk()
      ensures t in pageAt <==> t in overlay
    {
      assert t in pageAt.Keys <==> t in overlay.Keys;
    }

    lemma Found(t: int, page: Page)
      requires Valid() && page in chains[Hash(t)] && page.address == t
      ensures t in pageAt && pageAt[t] == page && t in overlay
    {
      assert Listed(Hash(t));
      ListedPage(Hash(t), page);
      SameKeys(t);
    }

    lemma NotFound(t: int)
      requires Valid() && forall k {:trigger chains[Hash(t)][k]} :: 0 <= k < |chains[Hash(t)]| ==>
        chains[Hash(t)][k].address != t
      ensures t !in pageAt && t !in overlay
    {
      SameKeys(t);
      assert t in pageAt ==> PageOk(t);
    }

    /** The page of an address, found along its chain. */
    method GetPage(address: int) returns (page: Page?)
      requires Valid()
      ensures Valid()
      ensures page == if PageOf(address) in pageAt then pageAt[PageOf(address)] else null
      ensures page == null <==> PageOf(address) !in overlay
    {
      var t, h := PageOf(address), Hash(address);
      SamePageHash(address);
      assert Linked(h);
      page := pages[h];
      ghost var k := 0;
      while page != null && page.address != t
        invariant 0 <= k <= |chains[h]|
        invariant page == if k < |chains[h]| then chains[h][k] else null
        invariant forall j {:trigger chains[h][j]} :: 0 <= j < k ==> chains[h][j].address != t
        decreases |chains[h]| - k
      {
        assert chains[h][k] == page;
        page := page.next;
        k := k + 1;
      }
      if page != null {
        Found(t, page);
      } else {
        NotFound(t);
      }
    }

    /** A read of the real memory in unsafe mode, which never fails. */
    method ReadUnsafe(address: int, size: int, buffer: array<M.byte>)
      requires memory.Valid() && M.IsAddress(address) && 0 <= size <= buffer.Length && size < M.ADDRESS_SPACE
      modifies memory, buffer
      ensures memory.Valid() && memory.pages == old(memory.pages) && memory.safe == old(memory.safe)
      ensures forall k {:trigger buffer[k]} :: 0 <= k < buffer.Length ==>
        buffer[k] == if k < size then M.ByteAt(memory.pages, M.Plus(address, k)) else old(buffer[k])
    {
      var safe := memory.safe;
      memory.safe := false;
      ghost var b0 := buffer[..];
      var r, n := memory.Access(address, size, buffer, M.AccessRead);
      assert forall k {:trigger buffer[k]} :: 0 <= k < buffer.Length ==> buffer[k] == buffer[..][k];
      memory.safe := safe;
    }

    /** The contents of a new page. */
    method FillPage(page: Page)
      requires memory.Valid() && M.IsAddress(page.address) && page.address % PAGE_SIZE == 0
      requires page.data.Length == PAGE_SIZE
      modifies memory, page.data
      ensures memory.Valid() && memory.pages == old(memory.pages) && memory.safe == old(memory.safe)
      ensures page.data[..] == Copied(memory.pages, page.address)
    {
      ReadUnsafe(page.address, PAGE_SIZE, page.data);
      forall k | 0 <= k < PAGE_SIZE ensures M.Plus(page.address, k) == page.address + k {
        NoWrap(page.address, k);
      }
    }

    /** Puts a page at the head of its chain. */
    method Insert(page: Page)
      requires ChainsOk() && page !in Nodes() && page.address !in pageAt
      modifies this`chains, this`pageAt, pages, page`next
      ensures ChainsOk() && pageAt == old(pageAt)[page.address := page]
      ensures var h := Hash(page.address); chains == old(chains)[h := [page] + old(chains)[h]]
    {
      var h := Hash(page.address);
      ghost var nodes := Nodes();
      assert Linked(h);
      page.next := pages[h];
      pages[h] := page;
      chains := chains[h := [page] + chains[h]];
      pageAt := pageAt[page.address := page];
      forall i | 0 <= i < TABLE_SIZE ensures Linked(i) {
        assert old(Linked(i));
        assert i != h ==> chains[i] == old(chains)[i];
        assert forall q :: q in old(chains)[i] ==> q in nodes;
      }
      forall i | 0 <= i < TABLE_SIZE ensures Listed(i) {
        assert old(Listed(i));
      }
      forall i, k | 0 <= i < TABLE_SIZE && 0 <= k < |chains[i]| ensures chains[i][k] in Nodes() {
        assert Listed(i);
        assert chains[i][k].address in pageAt;
      }
    }

    /** The invariants of the pages after a new one has been recorded. */
    twostate lemma RecordedOk(new page: Page)
      requires old(PagesOk()) && |old(overlay.Keys)| < MAX_PAGES && page.address !in old(pageAt)
      requires page.data !in old(Buffers()) && IsPage(page.address, page.data[..])
      requires pageAt == old(pageAt)[page.address := page]
      requires chains == old(chains)[Hash(page.address) := [page] + old(chains)[Hash(page.address)]]
      requires overlay == old(overlay)[page.address := page.data[..]] && numPages == old(numPages) + 1
      requires forall t :: t in old(pageAt) ==> old(pageAt)[t].data[..] == old(pageAt[t].data[..])
      ensures PagesOk()
    {
      KeysGrow(old(overlay), page.address, page.data[..]);
      forall t | t in pageAt ensures OwnData(t) {
        assert t != page.address ==> old(OwnData(t));
        assert t != page.address ==> old(pageAt)[t].data in old(Buffers());
      }
      forall t | t in pageAt ensures pageAt[t].data in Buffers() && PageOk(t) {
        assert t != page.address ==> old(PageOk(t));
      }
    }

    /** A page with a copy of the real memory, not yet in the table. */
    method MakePage(t: int) returns (page: Page)
      requires memory.Valid() && M.IsAddress(t) && t % PAGE_SIZE == 0
      modifies memory
      ensures memory.Valid() && memory.pages == old(memory.pages) && memory.safe == old(memory.safe)
      ensures fresh(page) && fresh(page.data) && page.address == t && page.data[..] == Copied(memory.pages, t)
    {
      page := new Page(t);
      FillPage(page);
    }

    /** Puts a filled page in the table. */
    method AddPage(page: Page)
      requires ChainsOk() && PagesOk() && |overlay.Keys| < MAX_PAGES && page.address !in pageAt
      requires page !in Nodes() && page.data !in Buffers() && IsPage(page.address, page.data[..])
      modifies this`chains, this`pageAt, this`overlay, this`numPages, pages, page`next
      ensures ChainsOk() && PagesOk()
      ensures overlay == old(overlay)[page.address := page.data[..]]
      ensures pageAt == old(pageAt)[page.address := page]
    {
      Insert(page);
      label Inserted:
      numPages := numPages + 1;
      overlay := overlay[page.address := page.data[..]];
      assert ChainsOk() == old@Inserted(ChainsOk());
      RecordedOk(page);
    }

    /** Creates the page of an address, a copy of the real memory. */
    method NewPage(address: int) returns (page: Page)
      requires Valid() && M.IsAddress(address) && PageOf(address) !in overlay && |overlay.Keys| < MAX_PAGES
      modifies this`chains, this`pageAt, this`overlay, this`numPages, pages, memory
      ensures Valid() && memory.pages == old(memory.pages) && memory.safe == old(memory.safe)
      ensures overlay == old(overlay)[PageOf(address) := Copied(memory.pages, PageOf(address))]
      ensures pageAt == old(pageAt)[PageOf(address) := page] && fresh(page) && fresh(page.data)
    {
      PageOfAligned(address);
      SameKeys(PageOf(address));
      page := MakePage(PageOf(address));
      assert ChainsOk() == old(ChainsOk()) && PagesOk() == old(PagesOk());
      assert Nodes() == old(Nodes()) && Buffers() == old(Buffers());
      AddPage(page);
    }

    /** A read of the real memory into the middle of the buffer. */
    method ReadAround(address: int, size: int, buffer: array<M.byte>, lo: int, ghost bytes: seq<M.byte>)
      requires memory.Valid() && M.IsAddress(address) && 0 <= size < M.ADDRESS_SPACE
      requires 0 <= lo && lo + size <= buffer.Length
      requires |bytes| == size
      requires forall k {:trigger bytes[k]} :: 0 <= k < size ==> bytes[k] == M.ByteAt(memory.pages, M.Plus(address, k))
      modifies memory, buffer
      ensures memory.Valid() && memory.pages == old(memory.pages) && memory.safe == old(memory.safe)
      ensures Filled(old(buffer[..]), buffer[..], lo, bytes)
    {
      // the code passes a pointer into the buffer
      var part := new M.byte[size];
      ReadUnsafe(address, size, part);
      for i := 0 to size
        invariant memory.pages == old(memory.pages) && memory.safe == old(memory.safe) && memory.Valid()
        invariant forall k {:trigger part[k]} :: 0 <= k < size ==> part[k] == bytes[k]
        invariant Filled(old(buffer[..]), buffer[..], lo, bytes[..i])
      {
        buffer[lo + i] := part[i];
      }
      assert bytes[..size] == bytes;
    }

    /** memcpy out of a page. */
    method CopyOut(page: Page, offset: int, size: int, buffer: array<M.byte>, lo: int)
      requires 0 <= offset && 0 <= size && offset + size <= page.data.Length && page.data != buffer
      requires 0 <= lo && lo + size <= buffer.Length
      modifies buffer
      ensures Filled(old(buffer[..]), buffer[..], lo, page.data[offset..offset + size])
    {
      for i := 0 to size
        invariant Filled(old(buffer[..]), buffer[..], lo, page.data[offset..offset + i])
      {
        buffer[lo + i] := page.data[offset + i];
      }
    }

    /** memcpy into a page. */
    method CopyIn(page: Page, offset: int, size: int, buffer: array<M.byte>, lo: int)
      requires 0 <= offset && 0 <= size && offset + size <= PAGE_SIZE == page.data.Length && page.data != buffer
      requires 0 <= lo && lo + size <= buffer.Length
      modifies page.data
      ensures page.data[..] == Patched(old(page.data[..]), offset, buffer[lo..lo + size])
    {
      for i := 0 to size
        invariant forall k {:trigger page.data[k]} :: 0 <= k < PAGE_SIZE ==>
          page.data[k] == if offset <= k < offset + i then buffer[lo + k - offset] else old(page.data[k])
      {
        page.data[offset + i] := buffer[lo + i];
      }
    }

    /** The bytes of the buffer into the page of the address. */
    method StoreInPage(page: Page, address: int, size: int, buffer: array<M.byte>, lo: int)
      requires PagesOk() && WithinPage(address, size) && PageOf(address) in pageAt && pageAt[PageOf(address)] == page
      requires 0 <= lo && lo + size <= buffer.Length && buffer !in Buffers()
      modifies this`overlay, page.data
      ensures PagesOk()
      ensures overlay == old(overlay)[PageOf(address) :=
        Patched(old(overlay)[PageOf(address)], address % PAGE_SIZE, buffer[lo..lo + size])]
    {
      var t := PageOf(address);
      assert PageOk(t) && OwnData(t);
      PageOfAligned(address);
      CopyIn(page, address % PAGE_SIZE, size, buffer, lo);
      overlay := overlay[t := page.data[..]];
      KeysGrow(old(overlay), t, page.data[..]);
      forall u | u in pageAt ensures pageAt[u].data in Buffers() && PageOk(u) {
        assert old(PageOk(u));
      }
      forall u | u in pageAt ensures OwnData(u) {
        assert old(OwnData(u));
      }
    }

    /** A read within one small page. */
    method ReadAligned(address: int, size: int, buffer: array<M.byte>, lo: int)
      requires Valid() && WithinPage(address, size) && 0 <= lo && lo + size <= buffer.Length && buffer !in Buffers()
      modifies memory, buffer
      ensures Valid() && memory.pages == old(memory.pages) && memory.safe == old(memory.safe)
      ensures Filled(old(buffer[..]), buffer[..], lo, Seen(memory.pages, overlay, address, size))
    {
      var page := GetPage(address);
      SeenInPage(memory.pages, overlay, address, size);
      if page == null {
        ReadAround(address, size, buffer, lo, Seen(memory.pages, overlay, address, size));
      } else {
        assert PageOk(PageOf(address));
        CopyOut(page, address % PAGE_SIZE, size, buffer, lo);
      }
      assert ChainsOk() == old(ChainsOk()) && PagesOk() == old(PagesOk());
    }

    /** The page to write to: found, or created, or null when the limit is reached. */
    method PageToWrite(address: int) returns (page: Page?)
      requires Valid() && M.IsAddress(address)
      modifies this`chains, this`pageAt, this`overlay, this`numPages, pages, memory
      ensures Valid() && memory.pages == old(memory.pages) && memory.safe == old(memory.safe)
      ensures page == null <==> !Accepts(old(overlay), address)
      ensures page == null ==> overlay == old(overlay)
      ensures page != null ==>
        && PageOf(address) in pageAt && pageAt[PageOf(address)] == page
        && overlay == old(overlay)[PageOf(address) := Contents(memory.pages, old(overlay), address)]
      ensures fresh(Buffers() - old(Buffers()))
    {
      page := GetPage(address);
      if page != null {
        assert overlay[PageOf(address) := overlay[PageOf(address)]] == overlay;
        return;
      }
      if numPages >= MAX_PAGES {
        return null;
      }
      page := NewPage(address);
    }

    /** The same for the whole table. */
    method StoreInTable(page: Page, address: int, size: int, buffer: array<M.byte>, lo: int)
      requires Valid() && WithinPage(address, size) && PageOf(address) in pageAt && pageAt[PageOf(address)] == page
      requires 0 <= lo && lo + size <= buffer.Length && buffer !in Buffers()
      modifies this`overlay, page.data
      ensures Valid()
      ensures overlay == old(overlay)[PageOf(address) :=
        Patched(old(overlay)[PageOf(address)], address % PAGE_SIZE, buffer[lo..lo + size])]
    {
      StoreInPage(page, address, size, buffer, lo);
    }

    /** A write within one small page; it may be dropped. */
    method WriteWithin(address: int, size: int, buffer: array<M.byte>, lo: int)
      requires Valid() && WithinPage(address, size) && 0 <= lo && lo + size <= buffer.Length && buffer !in Buffers()
      modifies this`chains, this`pageAt, this`overlay, this`numPages, pages, memory, Buffers()
      ensures Valid() && memory.pages == old(memory.pages) && memory.safe == old(memory.safe)
      ensures overlay == WriteAligned(memory.pages, old(overlay), address, buffer[lo..lo + size])
      ensures buffer !in Buffers() && fresh(Buffers() - old(Buffers()))
    {
      var page := PageToWrite(address);
      if page == null {
        return;
      }
      ghost var o1 := overlay;
      StoreInTable(page, address, size, buffer, lo);
      StoredIs(memory.pages, old(overlay), o1, overlay, address, buffer[lo..lo + size]);
    }

    /** An access within one small page, which is a read or a write. */
    method AccessAligned(address: int, size: int, buffer: array<M.byte>, lo: int, access: M.AccessType)
      requires Valid() && WithinPage(address, size) && 0 <= lo && lo + size <= buffer.Length && buffer !in Buffers()
      requires access == M.AccessRead || access == M.AccessWrite
      modifies this`chains, this`pageAt, this`overlay, this`numPages, pages, memory, buffer, Buffers()
      ensures Valid() && memory.pages == old(memory.pages) && memory.safe == old(memory.safe)
      ensures buffer !in Buffers() && fresh(Buffers() - old(Buffers()))
      ensures AccessedPart(memory.pages, old(overlay), overlay, old(buffer[..]), buffer[..], address, lo, size,
                           access == M.AccessRead)
    {
      if access == M.AccessRead {
        ReadAligned(address, size, buffer, lo);
      } else {
        WriteWithin(address, size, buffer, lo);
        assert buffer[lo..lo + size] == old(buffer[..])[lo..lo + size];
      }
    }

    /** One turn of Access: the rest of one small page. */
    method AccessChunk(address: int, done: int, size: int, buffer: array<M.byte>, access: M.AccessType,
                       ghost p: M.PageTable, ghost target: (Overlay, seq<M.byte>)) returns (next: int)
      requires Valid() && memory.pages == p && M.IsAddress(address) && 0 <= done < size <= buffer.Length
      requires buffer !in Buffers() && (access == M.AccessRead || access == M.AccessWrite)
      requires Outcome(p, overlay, buffer[..], address, done, size, access == M.AccessRead) == target
      modifies this`chains, this`pageAt, this`overlay, this`numPages, pages, memory, buffer, Buffers()
      ensures Valid() && memory.pages == p && memory.safe == old(memory.safe)
      ensures buffer !in Buffers() && fresh(Buffers() - old(Buffers()))
      ensures done < next <= size
      ensures Outcome(p, overlay, buffer[..], address, next, size, access == M.AccessRead) == target
    {
      var at := M.Plus(address, done);
      var chunk := Chunk(at, size - done);
      next := done + chunk;
      AccessAligned(at, chunk, buffer, done, access);
      AccessStep(p, old(overlay), overlay, old(buffer[..]), buffer[..], address, done, chunk, size,
                 access == M.AccessRead);
    }

    /** An access of `size` bytes after `done` of them: what is left leads to `target`. */
    ghost predicate Ongoing(p: M.PageTable, safe: bool, buffer: array<M.byte>, address: int, done: int, size: int,
                            read: bool, target: (Overlay, seq<M.byte>))
      requires 0 <= done <= size <= buffer.Length && M.IsAddress(address)
      reads this, memory, pages, Nodes()`next, Buffers(), buffer
    {
      && Valid() && memory.pages == p && memory.safe == safe && buffer !in Buffers()
      && Outcome(p, overlay, buffer[..], address, done, size, read) == target
    }

    /** The same, for an access that goes on. */
    method AccessTurn(address: int, done: int, size: int, buffer: array<M.byte>, access: M.AccessType,
                      ghost p: M.PageTable, ghost safe: bool, ghost target: (Overlay, seq<M.byte>))
      returns (next: int, ghost more: set<object>)
      requires M.IsAddress(address) && 0 <= done < size <= buffer.Length
      requires access == M.AccessRead || access == M.AccessWrite
      requires Ongoing(p, safe, buffer, address, done, size, access == M.AccessRead, target)
      modifies this`chains, this`pageAt, this`overlay, this`numPages, pages, memory, buffer, Buffers()
      ensures done < next <= size && fresh(more) && Buffers() <= old(Buffers()) + more
      ensures Ongoing(p, safe, buffer, address, next, size, access == M.AccessRead, target)
    {
      next := AccessChunk(address, done, size, buffer, access, p, target);
      more := Buffers() - old(Buffers());
    }

    lemma GrowsBy(start: set<object>, added: set<object>, before: set<object>, more: set<object>, after: set<object>)
      requires before <= start + added && after <= before + more
      ensures after <= start + (added + more)
    {
    }

    /** An access of any range, one small page at a time. */
    method Access(address: int, size: int, buffer: array<M.byte>, access: M.AccessType)
      requires Valid() && M.IsAddress(address) && 0 <= size <= buffer.Length && size < M.ADDRESS_SPACE
      requires buffer !in Buffers() && (access == M.AccessRead || access == M.AccessWrite)
      modifies this`chains, this`pageAt, this`overlay, this`numPages, pages, memory, buffer, Buffers()
      ensures Valid() && memory.pages == old(memory.pages) && memory.safe == old(memory.safe)
      ensures buffer !in Buffers() && fresh(Buffers() - old(Buffers()))
      ensures Outcome(memory.pages, overlay, buffer[..], address, size, size, access == M.AccessRead) ==
        Outcome(memory.pages, old(overlay), old(buffer[..]), address, 0, size, access == M.AccessRead)
    {
      var done := 0;
      ghost var start, added: set<object> := Buffers(), {};
      ghost var p, safe, read := memory.pages, memory.safe, access == M.AccessRead;
      ghost var target := Outcome(p, overlay, buffer[..], address, 0, size, read);
      while done < size
        invariant 0 <= done <= size && Ongoing(p, safe, buffer, address, done, size, read, target)
        invariant fresh(added) && Buffers() <= start + added
      {
        ghost var before := Buffers();
        ghost var more;
        done, more := AccessTurn(address, done, size, buffer, access, p, safe, target);
        GrowsBy(start, added, before, more, Buffers());
        added := added + more;
      }
    }

    /** A read of any range: what speculative execution sees. */
    method Read(address: int, size: int, buffer: array<M.byte>)
      requires Valid() && M.IsAddress(address) && 0 <= size <= buffer.Length && size < M.ADDRESS_SPACE
      requires buffer !in Buffers()
      modifies this`chains, this`pageAt, this`overlay, this`numPages, pages, memory, buffer, Buffers()
      ensures Valid() && memory.pages == old(memory.pages) && memory.safe == old(memory.safe)
      ensures overlay == old(overlay) && buffer !in Buffers() && fresh(Buffers() - old(Buffers()))
      ensures buffer[..size] == Seen(memory.pages, overlay, address, size) && buffer[size..] == old(buffer[size..])
    {
      Access(address, size, buffer, M.AccessRead);
      ReadEnds(memory.pages, overlay, old(overlay), old(buffer[..]), buffer[..], address, size);
    }

    /** A write of any range. */
    method Write(address: int, size: int, buffer: array<M.byte>)
      requires Valid() && M.IsAddress(address) && 0 <= size <= buffer.Length && size < M.ADDRESS_SPACE
      requires buffer !in Buffers()
      modifies this`chains, this`pageAt, this`overlay, this`numPages, pages, memory, buffer, Buffers()
      ensures Valid() && memory.pages == old(memory.pages) && memory.safe == old(memory.safe)
      ensures buffer[..] == old(buffer[..]) && buffer !in Buffers() && fresh(Buffers() - old(Buffers()))
      ensures overlay == WriteAll(memory.pages, old(overlay), address, buffer[..size])
    {
      Access(address, size, buffer, M.AccessWrite);
      WriteEnds(memory.pages, overlay, old(overlay), old(buffer[..]), buffer[..], address, size);
    }

    /** Goes along a chain, freeing its pages. */
    method FreeChain(h: int)
      requires |chains| == TABLE_SIZE && pages.Length == TABLE_SIZE && 0 <= h < TABLE_SIZE && Linked(h)
      modifies pages
      ensures pages[h] == null && forall i :: 0 <= i < TABLE_SIZE && i != h ==> pages[i] == old(pages[i])
    {
      var page := pages[h];
      ghost var k := 0;
      while page != null
        invariant 0 <= k <= |chains[h]|
        invariant page == if k < |chains[h]| then chains[h][k] else null
        decreases |chains[h]| - k
      {
        assert chains[h][k] == page;
        page := page.next;
        k := k + 1;
      }
      pages[h] := null;
    }

    /** Frees the pages of all chains. */
    method FreeChains()
      requires ChainsOk()
      modifies pages
      ensures forall h {:trigger pages[h]} :: 0 <= h < TABLE_SIZE ==> pages[h] == null
    {
      for i := 0 to TABLE_SIZE
        invariant forall h {:trigger pages[h]} :: 0 <= h < i ==> pages[h] == null
        invariant forall h {:trigger pages[h]} :: i <= h < TABLE_SIZE ==> pages[h] == old(pages[h])
      {
        assert old(Linked(i));
        FreeChain(i);
      }
    }

    /** Discards the speculative contents. */
    method Clear()
      requires Valid()
      modifies this`chains, this`pageAt, this`overlay, this`numPages, pages
      ensures Valid() && overlay == map[] && numPages == 0
    {
      FreeChains();
      numPages := 0;
      chains := seq(TABLE_SIZE, _ => []);
      pageAt, overlay := map[], map[];
    }
  }

  /** The overlay and the buffer that an access of `size` bytes from `at` leads to, when the
      first `n` bytes are done. */
  function Outcome(p: M.PageTable, o: Overlay, b: seq<M.byte>, at: int, n: int, size: int, read: bool): (Overlay,
                                                                                                         seq<M.byte>)
    requires M.IsPageTable(p) && IsOverlay(o) && M.IsAddress(at) && 0 <= n <= size <= |b|
  {
    if read then (o, b[..n] + Seen(p, o, M.Plus(at, n), size - n) + b[size..])
    else (WriteAll(p, o, M.Plus(at, n), b[n..size]), b)
  }

  lemma PlusZero(at: int)
    requires M.IsAddress(at)
    ensures M.Plus(at, 0) == at
  {
  }

  lemma ReadEnds(p: M.PageTable, o: Overlay, o0: Overlay, b0: seq<M.byte>, b: seq<M.byte>, at: int, size: int)
    requires M.IsPageTable(p) && IsOverlay(o) && IsOverlay(o0) && M.IsAddress(at) && 0 <= size <= |b0| == |b|
    requires Outcome(p, o, b, at, size, size, true) == Outcome(p, o0, b0, at, 0, size, true)
    ensures o == o0 && b[..size] == Seen(p, o, at, size) && b[size..] == b0[size..]
  {
    PlusZero(at);
    var seen := Seen(p, o, at, size);
    assert Seen(p, o, M.Plus(at, size), 0) == [];
    assert b[..size] + [] + b[size..] == b && b0[..0] + seen + b0[size..] == seen + b0[size..];
    assert (seen + b0[size..])[..size] == seen && (seen + b0[size..])[size..] == b0[size..];
  }

  lemma WriteEnds(p: M.PageTable, o: Overlay, o0: Overlay, b0: seq<M.byte>, b: seq<M.byte>, at: int, size: int)
    requires M.IsPageTable(p) && IsOverlay(o) && IsOverlay(o0) && M.IsAddress(at) && 0 <= size <= |b0| == |b|
    requires Outcome(p, o, b, at, size, size, false) == Outcome(p, o0, b0, at, 0, size, false)
    ensures b == b0 && o == WriteAll(p, o0, at, b[..size])
  {
    PlusZero(at);
    assert b[size..size] == [] && b0[0..size] == b0[..size];
  }

  lemma WriteAllStep(p: M.PageTable, o: Overlay, at: int, bytes: seq<M.byte>, c: int, next: int)
    requires M.IsPageTable(p) && IsOverlay(o) && M.IsAddress(at) && bytes != []
    requires c == Chunk(at, |bytes|) && next == M.Plus(at, c)
    ensures IsOverlay(WriteAligned(p, o, at, bytes[..c]))
    ensures WriteAll(p, o, at, bytes) == WriteAll(p, WriteAligned(p, o, at, bytes[..c]), next, bytes[c..])
  {
    WriteAlignedKeeps(p, o, at, bytes[..c]);
  }

  lemma WriteStep(p: M.PageTable, o: Overlay, b: seq<M.byte>, at: int, n: int, size: int)
    requires M.IsPageTable(p) && IsOverlay(o) && M.IsAddress(at) && 0 <= n < size <= |b|
    ensures var c := Chunk(M.Plus(at, n), size - n);
      var o2 := WriteAligned(p, o, M.Plus(at, n), b[n..n + c]);
      IsOverlay(o2) && Outcome(p, o2, b, at, n + c, size, false) == Outcome(p, o, b, at, n, size, false)
  {
    var c, rest := Chunk(M.Plus(at, n), size - n), b[n..size];
    M.PlusPlus(at, n, c);
    WriteAllStep(p, o, M.Plus(at, n), rest, c, M.Plus(at, n + c));
    assert rest[..c] == b[n..n + c] && rest[c..] == b[n + c..size];
  }

  lemma SeenSplit(p: M.PageTable, o: Overlay, at: int, c: int, n: int)
    requires M.IsPageTable(p) && IsOverlay(o) && M.IsAddress(at) && 0 <= c <= n
    ensures Seen(p, o, at, n) == Seen(p, o, at, c) + Seen(p, o, M.Plus(at, c), n - c)
  {
    forall j | 0 <= j < n - c ensures View(p, o, M.Plus(M.Plus(at, c), j)) == View(p, o, M.Plus(at, c + j)) {
      M.PlusPlus(at, c, j);
    }
  }

  lemma ReadStep(p: M.PageTable, o: Overlay, b: seq<M.byte>, b': seq<M.byte>, at: int, n: int, c: int, size: int)
    requires M.IsPageTable(p) && IsOverlay(o) && M.IsAddress(at) && 0 <= n && 0 <= c && n + c <= size <= |b|
    requires Filled(b, b', n, Seen(p, o, M.Plus(at, n), c))
    ensures Outcome(p, o, b', at, n + c, size, true) == Outcome(p, o, b, at, n, size, true)
  {
    var seen, rest := Seen(p, o, M.Plus(at, n), c), Seen(p, o, M.Plus(at, n + c), size - n - c);
    M.PlusPlus(at, n, c);
    SeenSplit(p, o, M.Plus(at, n), c, size - n);
    FilledPrefix(b, b', n, size, seen, rest);
  }

  /** The `n` bytes of one small page at `at` were read into the buffer from `lo` on, or
      written from there. */
  ghost predicate AccessedPart(p: M.PageTable, o: Overlay, o': Overlay, b: seq<M.byte>, b': seq<M.byte>,
                               at: int, lo: int, n: int, read: bool)
    requires M.IsPageTable(p) && IsOverlay(o) && WithinPage(at, n) && 0 <= lo && lo + n <= |b|
  {
    if read then o' == o && Filled(b, b', lo, Seen(p, o, at, n))
    else b' == b && o' == WriteAligned(p, o, at, b[lo..lo + n])
  }

  /** One turn of Access, of either kind, leads on to the same outcome. */
  lemma AccessStep(p: M.PageTable, o: Overlay, o': Overlay, b: seq<M.byte>, b': seq<M.byte>,
                   at: int, n: int, c: int, size: int, read: bool)
    requires M.IsPageTable(p) && IsOverlay(o) && IsOverlay(o') && M.IsAddress(at) && 0 <= n < size <= |b| == |b'|
    requires c == Chunk(M.Plus(at, n), size - n)
    requires AccessedPart(p, o, o', b, b', M.Plus(at, n), n, c, read)
    ensures Outcome(p, o', b', at, n + c, size, read) == Outcome(p, o, b, at, n, size, read)
  {
    if read {
      ReadStep(p, o, b, b', at, n, c, size);
    } else {
      WriteStep(p, o, b, at, n, size);
    }
  }

  lemma FilledPrefix(b: seq<M.byte>, b': seq<M.byte>, n: int, size: int, bytes: seq<M.byte>, rest: seq<M.byte>)
    requires 0 <= n && n + |bytes| <= size <= |b| && Filled(b, b', n, bytes)
    ensures b'[..n + |bytes|] + rest + b'[size..] == b[..n] + (bytes + rest) + b[size..]
  {
    assert b'[..n + |bytes|] == b[..n] + bytes && b'[size..] == b[size..];
    assert b[..n] + bytes + rest == b[..n] + (bytes + rest);
  }

  /** Taking a page up and writing to it is a write within the page. */
  lemma StoredIs(p: M.PageTable, o: Overlay, o1: Overlay, o2: Overlay, at: int, bytes: seq<M.byte>)
    requires M.IsPageTable(p) && IsOverlay(o) && WithinPage(at, |bytes|) && Accepts(o, at)
    requires o1 == o[PageOf(at) := Contents(p, o, at)]
    requires o2 == o1[PageOf(at) := Patched(o1[PageOf(at)], at % PAGE_SIZE, bytes)]
    ensures o2 == WriteAligned(p, o, at, bytes)
  {
  }

  /** The buffer `b` became `b'`: `bytes` from `lo` on, the rest as before. */
  ghost predicate Filled(b: seq<M.byte>, b': seq<M.byte>, lo: int, bytes: seq<M.byte>) {
    && |b'| == |b|
    && forall k {:trigger b'[k]} :: 0 <= k < |b'| ==> b'[k] == if lo <= k < lo + |bytes| then bytes[k - lo] else b[k]
  }

  /** What speculative execution sees in a range, wrapping around. */
  function Seen(p: M.PageTable, o: Overlay, at: int, n: int): (bytes: seq<M.byte>)
    requires M.IsPageTable(p) && IsOverlay(o) && 0 <= n
    ensures |bytes| == n && forall k {:trigger bytes[k]} :: 0 <= k < n ==> bytes[k] == View(p, o, M.Plus(at, k))
  {
    seq(n, k requires 0 <= k < n => View(p, o, M.Plus(at, k)))
  }

  /** A range within one page is a slice of the page, or of the real memory. */
  lemma SeenInPage(p: M.PageTable, o: Overlay, at: int, n: int)
    requires M.IsPageTable(p) && IsOverlay(o) && WithinPage(at, n)
    ensures PageOf(at) in o ==> Seen(p, o, at, n) == o[PageOf(at)][at % PAGE_SIZE..at % PAGE_SIZE + n]
    ensures PageOf(at) !in o ==>
      forall k {:trigger Seen(p, o, at, n)[k]} :: 0 <= k < n ==> Seen(p, o, at, n)[k] == M.ByteAt(p, M.Plus(at, k))
  {
    forall k | 0 <= k < n
      ensures Seen(p, o, at, n)[k] ==
        if PageOf(at) in o then o[PageOf(at)][at % PAGE_SIZE + k] else M.ByteAt(p, M.Plus(at, k))
    {
      ViewInPage(p, o, at, n, k);
    }
  }

  /** A byte of a range within one page. */
  lemma ViewInPage(p: M.PageTable, o: Overlay, at: int, n: int, k: int)
    requires M.IsPageTable(p) && IsOverlay(o) && WithinPage(at, n) && 0 <= k < n
    ensures 0 <= at % PAGE_SIZE + k < PAGE_SIZE
    ensures View(p, o, M.Plus(at, k)) ==
      if PageOf(at) in o then o[PageOf(at)][at % PAGE_SIZE + k] else M.ByteAt(p, M.Plus(at, k))
  {
    InChunk(at, n, k);
    PageOfAligned(at);
  }
}
