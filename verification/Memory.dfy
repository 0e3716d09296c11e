/** The paged 32-bit memory of memory/Memory.cc. */
module PagedMemory {

  const PAGE_SIZE := 4096
  const ADDRESS_SPACE := 0x1_0000_0000
  const LAST_PAGE := 0xffff_f000
  /** What MapSpace and MapSpaceDown return when they find no room: (unsigned) -1. */
  const NO_SPACE := 0xffff_ffff

  newtype byte = x: int | 0 <= x < 256

  datatype Option<T> = None | Some(value: T)

  datatype AccessType = AccessRead | AccessWrite | AccessExec | AccessInit | AccessModified

  datatype Page = Page(perm: set<AccessType>, data: Option<seq<byte>>)

  datatype Status = Done | SegmentationFault(at: int) | PermissionDenied(at: int)

  predicate IsAddress(a: int) {
    0 <= a < ADDRESS_SPACE
  }

  predicate IsTag(t: int) {
    IsAddress(t) && t % PAGE_SIZE == 0
  }

  /** The page an address lies in. */
  function Tag(a: int): int {
    a - a % PAGE_SIZE
  }

  /** Pages have 4096 bytes. */
  lemma TagBounds(a: int)
    ensures Tag(a) % 4096 == 0 && Tag(a) <= a < Tag(a) + 4096
  {
  }

  /** The last page of the `size` bytes from an address, in 32-bit arithmetic. */
  function EndTag(address: int, size: int): int {
    Tag((address + size - 1) % ADDRESS_SPACE)
  }

  type PageTable = map<int, Page>

  predicate IsPageTable(pages: PageTable) {
    forall t {:trigger pages[t]} :: t in pages ==> IsTag(t) && (pages[t].data.Some? ==>
      |pages[t].data.value| == PAGE_SIZE)
  }

  /** The tags from `lo` up to but not including `hi`. */
  function Tags(lo: int, hi: int): set<int> {
    set t | lo <= t < hi && t % PAGE_SIZE == 0
  }

  /** No page of the `size` bytes from `start` is mapped. */
  ghost predicate IsFree(pages: PageTable, start: int, size: int) {
    forall t :: t in pages ==> !(start <= t < start + size)
  }

  function PermittedPage(pages: PageTable, tag: int, perm: set<AccessType>): Page {
    if tag in pages then pages[tag].(perm := pages[tag].perm + perm) else Page(perm, None)
  }

  /** The table after Map gives the tags in `[lo, hi)` the permissions `perm`. */
  function Mapped(pages: PageTable, lo: int, hi: int, perm: set<AccessType>): PageTable {
    map t | t in pages.Keys + Tags(lo, hi) ::
      if t in pages then
        if lo <= t < hi then pages[t].(perm := pages[t].perm + perm) else pages[t]
      else Page(perm, None)
  }

  /** Every page of `pages'` has the permissions and the data it had, if any, and in `[lo, hi)` the
      permissions `perm` as well. */
  ghost predicate PagesMapped(pages: PageTable, pages': PageTable, lo: int, hi: int, perm: set<AccessType>) {
    forall t :: t in pages' ==>
      && pages'[t].perm == (if t in pages then pages[t].perm else {}) + (if lo <= t < hi then perm else {})
      && pages'[t].data == if t in pages then pages[t].data else None
  }

  /** `pages'` has the pages of `[lo, hi)` in addition, with the permissions `perm` and no data
      yet; all others are as they were. */
  ghost predicate PagesAdded(pages: PageTable, pages': PageTable, lo: int, hi: int, perm: set<AccessType>) {
    && pages'.Keys == pages.Keys + Tags(lo, hi)
    && (forall t :: t in pages ==> t in pages' && pages'[t] == pages[t])
    && (forall t :: t in pages' && t !in pages ==> pages'[t] == Page(perm, None))
  }

  /** The byte at `a`; unmapped pages and pages without data read as zero. */
  function ByteAt(pages: PageTable, a: int): byte
    requires IsPageTable(pages)
  {
    var t := Tag(a);
    if t in pages && pages[t].data.Some? then pages[t].data.value[a - t] else 0
  }

  /** Whether an access at `a` raises no error: always in unsafe mode. */
  predicate Allowed(pages: PageTable, safe: bool, a: int, access: AccessType) {
    !safe || (Tag(a) in pages && access in pages[Tag(a)].perm)
  }

  predicate IsRead(access: AccessType) {
    access == AccessRead || access == AccessExec
  }

  predicate IsWrite(access: AccessType) {
    access == AccessWrite || access == AccessInit
  }

  /** The address `k` bytes after `start`, going round the 32-bit address space. */
  function Plus(start: int, k: int): int {
    (start + k) % ADDRESS_SPACE
  }

  /** How far `a` lies behind `start`, the same way round. */
  function Distance(start: int, a: int): int {
    (a - start) % ADDRESS_SPACE
  }

  /** `pages'` holds `bytes` from `start` on, wrapping around, and `pages` elsewhere. */
  ghost predicate Overwrites(pages: PageTable, pages': PageTable, start: int, bytes: seq<byte>)
    requires IsPageTable(pages) && IsPageTable(pages')
  {
    forall a :: IsAddress(a) ==>
      ByteAt(pages', a) == if Distance(start, a) < |bytes| then bytes[Distance(start, a)] else ByteAt(pages, a)
  }

  /** Permissions and mappings grow: none is taken away. */
  ghost predicate Grows(pages: PageTable, pages': PageTable) {
    forall t :: t in pages ==> t in pages' && pages[t].perm <= pages'[t].perm <= pages[t].perm + {AccessModified}
  }

  lemma DistanceSplits(start: int, n: int, a: int)
    requires IsAddress(start) && IsAddress(a) && 0 <= n < ADDRESS_SPACE
    ensures Distance(Plus(start, n), a) ==
      if n <= Distance(start, a) then Distance(start, a) - n else Distance(start, a) - n + ADDRESS_SPACE
  {
    var d := Distance(start, a);
    var d' := Distance(Plus(start, n), a);
    assert (d' - (d - n)) % ADDRESS_SPACE == 0;
    assert 0 <= d' < ADDRESS_SPACE && 0 <= d < ADDRESS_SPACE;
  }

  lemma PlusPlus(start: int, n: int, k: int)
    requires IsAddress(start)
    ensures Plus(Plus(start, n), k) == Plus(start, n + k)
  {
  }

  lemma DistanceWithin(a: int, start: int, size: int)
    requires IsAddress(a) && IsAddress(start) && 0 <= size && start + size <= ADDRESS_SPACE
    ensures Distance(start, a) < size <==> start <= a < start + size
    ensures start <= a ==> Distance(start, a) == a - start
  {
  }

  /** Writing `more` right behind `bytes` writes their concatenation. */
  lemma OverwritesOn(p0: PageTable, p1: PageTable, p2: PageTable, start: int, bytes: seq<byte>, more: seq<byte>)
    requires IsPageTable(p0) && IsPageTable(p1) && IsPageTable(p2) && IsAddress(start)
    requires |bytes| + |more| < ADDRESS_SPACE
    requires Overwrites(p0, p1, start, bytes) && Overwrites(p1, p2, Plus(start, |bytes|), more)
    ensures Overwrites(p0, p2, start, bytes + more)
  {
    forall a | IsAddress(a)
      ensures ByteAt(p2, a) == if Distance(start, a) < |bytes + more| then (bytes + more)[Distance(start, a)]
                               else ByteAt(p0, a)
    {
      DistanceSplits(start, |bytes|, a);
    }
  }

  function PageData(page: Page): seq<byte> {
    if page.data.Some? then page.data.value else seq(PAGE_SIZE, _ => 0)
  }

  const ALL_RIGHTS := {AccessRead, AccessWrite, AccessExec, AccessInit}

  /** The error an access to one page raises, if any. */
  function ChunkStatus(pages: PageTable, safe: bool, address: int, access: AccessType): Status {
    if Allowed(pages, safe, address, access) then Done
    else if Tag(address) in pages then PermissionDenied(address)
    else SegmentationFault(address)
  }

  /** The page a write finds: a missing one is created in unsafe mode, and a plain
      write marks the page modified before its permissions are looked at. */
  function PageForWrite(pages: PageTable, address: int, access: AccessType): Page {
    var page := if Tag(address) in pages then pages[Tag(address)] else Page(ALL_RIGHTS, None);
    if access == AccessWrite then page.(perm := page.perm + {AccessModified}) else page
  }

  /** The table after a write of `bytes` within one page. */
  function PagesAfterWrite(pages: PageTable, safe: bool, address: int, bytes: seq<byte>, access: AccessType): PageTable
    requires IsPageTable(pages) && IsAddress(address) && address % PAGE_SIZE + |bytes| <= PAGE_SIZE
  {
    if safe && Tag(address) !in pages then pages
    else
      var page, o := PageForWrite(pages, address, access), address % PAGE_SIZE;
      if Allowed(pages, safe, address, access) then
        var data := PageData(page);
        pages[Tag(address) := page.(data := Some(data[..o] + bytes + data[o + |bytes|..]))]
      else pages[Tag(address) := page]
  }

  /** A write within one page takes no page and no permission away. */
  lemma WriteGrows(pages: PageTable, safe: bool, address: int, bytes: seq<byte>, access: AccessType)
    requires IsPageTable(pages) && IsAddress(address) && address % PAGE_SIZE + |bytes| <= PAGE_SIZE
    requires IsWrite(access)
    ensures var pages' := PagesAfterWrite(pages, safe, address, bytes, access);
      IsPageTable(pages') && Grows(pages, pages') && (safe ==> pages'.Keys == pages.Keys)
  {
  }

  lemma WrittenByte(pages: PageTable, safe: bool, address: int, bytes: seq<byte>, access: AccessType, a: int)
    requires IsPageTable(pages) && IsAddress(address) && address % PAGE_SIZE + |bytes| <= PAGE_SIZE
    requires IsWrite(access) && Allowed(pages, safe, address, access) && IsAddress(a)
    requires IsPageTable(PagesAfterWrite(pages, safe, address, bytes, access))
    ensures ByteAt(PagesAfterWrite(pages, safe, address, bytes, access), a) ==
      if Distance(address, a) < |bytes| then bytes[Distance(address, a)] else ByteAt(pages, a)
  {
    DistanceWithin(a, address, |bytes|);
  }

  lemma RefusedByte(pages: PageTable, safe: bool, address: int, bytes: seq<byte>, access: AccessType, a: int)
    requires IsPageTable(pages) && IsAddress(address) && address % PAGE_SIZE + |bytes| <= PAGE_SIZE
    requires IsWrite(access) && !Allowed(pages, safe, address, access) && IsAddress(a)
    requires IsPageTable(PagesAfterWrite(pages, safe, address, bytes, access))
    ensures ByteAt(PagesAfterWrite(pages, safe, address, bytes, access), a) == ByteAt(pages, a)
  {
  }

  lemma WriteChunk(pages: PageTable, safe: bool, address: int, bytes: seq<byte>, access: AccessType)
    requires IsPageTable(pages) && IsAddress(address) && address % PAGE_SIZE + |bytes| <= PAGE_SIZE
    requires IsWrite(access)
    ensures var pages' := PagesAfterWrite(pages, safe, address, bytes, access);
      && IsPageTable(pages') && Grows(pages, pages') && (safe ==> pages'.Keys == pages.Keys)
      && Overwrites(pages, pages', address, if Allowed(pages, safe, address, access) then bytes else [])
  {
    WriteGrows(pages, safe, address, bytes, access);
    if Allowed(pages, safe, address, access) {
      forall a | IsAddress(a)
        ensures ByteAt(PagesAfterWrite(pages, safe, address, bytes, access), a) ==
          if Distance(address, a) < |bytes| then bytes[Distance(address, a)] else ByteAt(pages, a)
      {
        WrittenByte(pages, safe, address, bytes, access, a);
      }
    } else {
      forall a | IsAddress(a)
        ensures ByteAt(PagesAfterWrite(pages, safe, address, bytes, access), a) == ByteAt(pages, a)
      {
        RefusedByte(pages, safe, address, bytes, access, a);
      }
    }
  }

  lemma MappedNext(pages: PageTable, lo: int, tag: int, perm: set<AccessType>)
    requires IsPageTable(pages) && lo <= tag && tag % PAGE_SIZE == 0
    ensures var m := Mapped(pages, lo, tag, perm);
      m[tag := PermittedPage(m, tag, perm)] == Mapped(pages, lo, tag + PAGE_SIZE, perm)
  {
    TagsNext(lo, tag);
    var m := Mapped(pages, lo, tag, perm);
    var a, b := m[tag := PermittedPage(m, tag, perm)], Mapped(pages, lo, tag + PAGE_SIZE, perm);
    assert a.Keys == b.Keys;
    forall t | t in b ensures a[t] == b[t] {
      if t in pages {
        assert pages[t] == pages[t];
        OneTagPerPage(t, tag);
      }
    }
  }

  lemma OneTagPerPage(t: int, tag: int)
    requires t % PAGE_SIZE == 0 && tag % PAGE_SIZE == 0
    ensures tag <= t < tag + PAGE_SIZE ==> t == tag
  {
  }

  lemma TagsNext(lo: int, tag: int)
    requires lo <= tag && tag % PAGE_SIZE == 0
    ensures Tags(lo, tag + PAGE_SIZE) == Tags(lo, tag) + {tag}
  {
  }

  lemma EndTagFacts(address: int, size: int)
    requires IsAddress(address)
    ensures IsTag(Tag(address)) && IsTag(EndTag(address, size)) && EndTag(address, size) <= LAST_PAGE
    ensures Tag(address) <= LAST_PAGE
  {
  }

  /** The range that does not go round. */
  lemma EndTagIs(address: int, size: int)
    requires 0 <= address && 0 < address + size <= ADDRESS_SPACE
    ensures EndTag(address, size) == Tag(address + size - 1)
  {
  }

  lemma TagsApart(tag: int, tag2: int)
    requires tag % PAGE_SIZE == 0 && tag2 % PAGE_SIZE == 0 && tag <= tag2 < LAST_PAGE
    ensures tag2 + PAGE_SIZE <= LAST_PAGE
  {
  }

  lemma TagsUpTo(lo: int, tag: int, last: int)
    requires tag % PAGE_SIZE == 0 && last % PAGE_SIZE == 0 && lo <= tag && last < tag
    requires tag == lo || tag <= last + PAGE_SIZE
    ensures Tags(lo, tag) == Tags(lo, last + PAGE_SIZE)
  {
    if tag <= last + PAGE_SIZE {
      NextTag(tag, last);
    } else {
      assert Tags(lo, tag) == {} == Tags(lo, last + PAGE_SIZE);
    }
  }

  lemma MappedNone(pages: PageTable, lo: int, hi: int, perm: set<AccessType>)
    requires hi <= lo
    ensures Mapped(pages, lo, hi, perm) == pages
  {
    assert Tags(lo, hi) == {};
    assert Mapped(pages, lo, hi, perm).Keys == pages.Keys;
  }

  lemma NextTag(tag: int, last: int)
    requires tag % PAGE_SIZE == 0 && last % PAGE_SIZE == 0 && last < tag <= last + PAGE_SIZE
    ensures tag == last + PAGE_SIZE
  {
  }

  /** Where the loop of Map ends, also when it makes no turn. */
  lemma MappedUpTo(pages: PageTable, lo: int, tag: int, last: int, perm: set<AccessType>)
    requires tag % PAGE_SIZE == 0 && last % PAGE_SIZE == 0 && lo <= tag && last < tag
    requires tag == lo || tag <= last + PAGE_SIZE
    ensures Mapped(pages, lo, tag, perm) == Mapped(pages, lo, last + PAGE_SIZE, perm)
  {
    if tag <= last + PAGE_SIZE {
      NextTag(tag, last);
    } else {
      MappedNone(pages, lo, tag, perm);
      MappedNone(pages, lo, last + PAGE_SIZE, perm);
    }
  }

  lemma MappedPages(pages: PageTable, lo: int, hi: int, perm: set<AccessType>)
    ensures PagesMapped(pages, Mapped(pages, lo, hi, perm), lo, hi, perm)
  {
  }

  lemma MappedKeys(pages: PageTable, lo: int, hi: int, perm: set<AccessType>)
    ensures Mapped(pages, lo, hi, perm).Keys == pages.Keys + Tags(lo, hi)
  {
  }

  lemma MapEnds(pages: PageTable, pages': PageTable, lo: int, tag: int, last: int, perm: set<AccessType>)
    requires tag % PAGE_SIZE == 0 && last % PAGE_SIZE == 0 && lo <= tag && last < tag
    requires tag == lo || tag <= last + PAGE_SIZE
    requires pages' == Mapped(pages, lo, tag, perm)
    ensures pages' == Mapped(pages, lo, last + PAGE_SIZE, perm)
    ensures pages'.Keys == pages.Keys + Tags(lo, last + PAGE_SIZE)
    ensures PagesMapped(pages, pages', lo, last + PAGE_SIZE, perm)
  {
    MappedUpTo(pages, lo, tag, last, perm);
    MappedKeys(pages, lo, last + PAGE_SIZE, perm);
    MappedPages(pages, lo, last + PAGE_SIZE, perm);
  }

  lemma MappedFree(pages: PageTable, lo: int, hi: int, perm: set<AccessType>)
    requires IsFree(pages, lo, hi - lo)
    ensures PagesAdded(pages, Mapped(pages, lo, hi, perm), lo, hi, perm)
  {
  }

  lemma LastTag(address: int, size: int)
    requires address % PAGE_SIZE == 0 && size % PAGE_SIZE == 0
    ensures Tag(address + size - 1) == address + size - PAGE_SIZE
  {
    assert (address + size - PAGE_SIZE) % PAGE_SIZE == 0;
  }

  /** A mapped page rules out every region that covers it. */
  lemma MappedPageBlocks(pages: PageTable, x: int, t: int, size: int)
    requires x in pages && t <= x < t + size
    ensures !IsFree(pages, t, size)
  {
  }

  /** Regions of `size` bytes that end above the tag `x` and at most at `top` cover `x`,
      when fewer than `size` bytes lie between them. */
  lemma EndsAboveCovers(x: int, top: int, t: int, size: int)
    requires x % PAGE_SIZE == 0 && top % PAGE_SIZE == 0 && t % PAGE_SIZE == 0 && size % PAGE_SIZE == 0
    requires x < t + size <= top + PAGE_SIZE && top - x < size
    ensures t <= x
  {
    assert (size - (top - x)) % PAGE_SIZE == 0;
  }

  /** What the first `n` bytes of an access from `address` have done: a read has filled
      the buffer `b0` from memory, a write has put the buffer's bytes there. */
  ghost predicate Transferred(p0: PageTable, p: PageTable, safe: bool, address: int, n: int, access: AccessType,
                              b0: seq<byte>, b: seq<byte>)
    requires IsPageTable(p0) && IsPageTable(p) && 0 <= n <= |b0|
  {
    && |b| == |b0| && Grows(p0, p) && (safe ==> p.Keys == p0.Keys)
    && if IsRead(access) then
         p == p0 && forall k :: 0 <= k < |b| ==> b[k] == if k < n then ByteAt(p, Plus(address, k)) else b0[k]
       else
         b == b0 && Overwrites(p0, p, address, b[..n])
  }

  lemma ReadOn(p: PageTable, safe: bool, address: int, n: int, chunk: int, access: AccessType,
               b0: seq<byte>, b: seq<byte>, b': seq<byte>, r: Status)
    requires IsPageTable(p) && IsAddress(address) && IsRead(access) && 0 <= n && 0 <= chunk && n + chunk <= |b0|
    requires Transferred(p, p, safe, address, n, access, b0, b)
    requires Plus(address, n) % PAGE_SIZE + chunk <= PAGE_SIZE && |b'| == |b|
    requires forall k :: 0 <= k < |b| ==>
      b'[k] == if r == Done && n <= k < n + chunk then ByteAt(p, Plus(address, n) + k - n) else b[k]
    ensures Transferred(p, p, safe, address, if r == Done then n + chunk else n, access, b0, b')
  {
    forall k | n <= k < n + chunk
      ensures ByteAt(p, Plus(address, n) + k - n) == ByteAt(p, Plus(address, k))
    {
      ChunkDoesNotWrap(address, n, k - n);
    }
  }

  lemma WriteOn(p0: PageTable, p: PageTable, safe: bool, address: int, n: int, chunk: int, access: AccessType,
                b: seq<byte>)
    requires IsPageTable(p0) && IsPageTable(p) && IsAddress(address) && IsWrite(access)
    requires 0 <= n && 0 <= chunk && n + chunk <= |b| && n + chunk < ADDRESS_SPACE
    requires Transferred(p0, p, safe, address, n, access, b, b)
    requires Plus(address, n) % PAGE_SIZE + chunk <= PAGE_SIZE
    ensures var p' := PagesAfterWrite(p, safe, Plus(address, n), b[n..n + chunk], access);
      && IsPageTable(p')
      && Transferred(p0, p', safe, address, if Allowed(p, safe, Plus(address, n), access) then n + chunk else n,
                     access, b, b)
  {
    var bytes := b[n..n + chunk];
    var p' := PagesAfterWrite(p, safe, Plus(address, n), bytes, access);
    WriteChunk(p, safe, Plus(address, n), bytes, access);
    OverwritesOn(p0, p, p', address, b[..n], if Allowed(p, safe, Plus(address, n), access) then bytes else []);
    assert b[..n] + bytes == b[..n + chunk] && b[..n] + [] == b[..n];
  }

  /** What an access within one page does to the table `p` and the buffer `b`. */
  ghost predicate ChunkDone(p: PageTable, p': PageTable, safe: bool, at: int, size: int, lo: int, access: AccessType,
                            b: seq<byte>, b': seq<byte>, r: Status)
    requires IsPageTable(p) && IsAddress(at) && at % PAGE_SIZE + size <= PAGE_SIZE
    requires 0 <= lo && 0 <= size && lo + size <= |b|
  {
    && |b'| == |b| && r == ChunkStatus(p, safe, at, access)
    && if IsRead(access) then
         p' == p && forall k :: 0 <= k < |b| ==>
           b'[k] == if r == Done && lo <= k < lo + size then ByteAt(p, at + k - lo) else b[k]
       else
         b' == b && p' == PagesAfterWrite(p, safe, at, b[lo..lo + size], access)
  }

  lemma ChunkOn(p0: PageTable, p: PageTable, p': PageTable, safe: bool, address: int, n: int, chunk: int,
                access: AccessType, b0: seq<byte>, b: seq<byte>, b': seq<byte>, r: Status)
    requires IsPageTable(p0) && IsPageTable(p) && IsAddress(address) && (IsRead(access) || IsWrite(access))
    requires 0 <= n && 0 <= chunk && n + chunk <= |b0| && n + chunk < ADDRESS_SPACE
    requires Transferred(p0, p, safe, address, n, access, b0, b)
    requires Plus(address, n) % PAGE_SIZE + chunk <= PAGE_SIZE
    requires ChunkDone(p, p', safe, Plus(address, n), chunk, n, access, b, b', r)
    ensures IsPageTable(p')
    ensures Transferred(p0, p', safe, address, if r == Done then n + chunk else n, access, b0, b')
    ensures r != Done ==> r.at == Plus(address, n) && !Allowed(p0, safe, r.at, access)
  {
    if IsRead(access) {
      ReadOn(p, safe, address, n, chunk, access, b0, b, b', r);
    } else {
      WriteOn(p0, p, safe, address, n, chunk, access, b);
    }
    StillAllowed(p0, p, safe, Plus(address, n), access);
  }

  // ---------- Permissions and pages of an access ----------

  /** In safe mode the first `n` bytes from `address` lie on mapped pages with the permission. */
  ghost predicate Permitted(p0: PageTable, safe: bool, address: int, n: int, access: AccessType) {
    forall k {:trigger Plus(address, k)} :: 0 <= k < n && safe ==>
      Tag(Plus(address, k)) in p0 && access in p0[Tag(Plus(address, k))].perm
  }

  /** The error at `at`: no such page, or one without the permission. */
  ghost predicate Refused(p0: PageTable, safe: bool, at: int, access: AccessType, r: Status) {
    && safe
    && if Tag(at) in p0 then access !in p0[Tag(at)].perm && r == PermissionDenied(at) else r == SegmentationFault(at)
  }

  /** One of the first `n` bytes from `address` lies on page `t`. */
  ghost predicate Touched(address: int, n: int, t: int) {
    exists k {:trigger Plus(address, k)} :: 0 <= k < n && Tag(Plus(address, k)) == t
  }

  /** The pages after a write of `n` bytes, of which `m` were tried: missing ones are created with
      all rights, and a plain write marks those it has tried as modified. */
  ghost predicate Marked(p0: PageTable, p: PageTable, address: int, n: int, m: int, access: AccessType) {
    && (forall t {:trigger Touched(address, n, t)} :: t in p <==> t in p0 || Touched(address, n, t))
    && (forall t {:trigger Touched(address, m, t)} :: t in p ==>
          p[t].perm == (if t in p0 then p0[t].perm else {AccessRead, AccessWrite, AccessExec, AccessInit})
                       + (if access == AccessWrite && Touched(address, m, t) then {AccessModified} else {}))
  }

  /** The bytes of a chunk lie on one page. */
  lemma ChunkTouches(address: int, n: int, chunk: int, t: int)
    requires IsAddress(address) && 0 <= n && 0 < chunk && Plus(address, n) % PAGE_SIZE + chunk <= PAGE_SIZE
    ensures Touched(address, n + chunk, t) <==> Touched(address, n, t) || t == Tag(Plus(address, n))
  {
    forall k | n <= k < n + chunk ensures Tag(Plus(address, k)) == Tag(Plus(address, n)) {
      ChunkPage(address, n, k - n);
    }
    assert Touched(address, n, t) ==> Touched(address, n + chunk, t);
    assert n < n + chunk && Tag(Plus(address, n)) == Tag(Plus(address, n));
  }

  lemma ChunkPage(address: int, n: int, j: int)
    requires IsAddress(address) && 0 <= j < PAGE_SIZE - Plus(address, n) % PAGE_SIZE
    ensures Tag(Plus(address, n + j)) == Tag(Plus(address, n))
  {
    ChunkDoesNotWrap(address, n, j);
    SameTag(Plus(address, n), j);
  }

  lemma ChunkPermitted(p0: PageTable, p: PageTable, safe: bool, address: int, n: int, chunk: int, access: AccessType)
    requires IsAddress(address) && 0 <= n && Plus(address, n) % PAGE_SIZE + chunk <= PAGE_SIZE
    requires Permitted(p0, safe, address, n, access) && Allowed(p0, safe, Plus(address, n), access)
    ensures Permitted(p0, safe, address, n + chunk, access)
  {
    forall k {:trigger Plus(address, k)} | n <= k < n + chunk ensures Tag(Plus(address, k)) == Tag(Plus(address, n)) {
      ChunkPage(address, n, k - n);
    }
  }

  /** What a write within a page does to the pages and their permissions. */
  lemma WriteMarks(pages: PageTable, safe: bool, at: int, bytes: seq<byte>, access: AccessType)
    requires IsPageTable(pages) && IsAddress(at) && at % PAGE_SIZE + |bytes| <= PAGE_SIZE
    requires !safe || Tag(at) in pages
    ensures var p' := PagesAfterWrite(pages, safe, at, bytes, access);
      && p'.Keys == pages.Keys + {Tag(at)}
      && (forall t :: t in pages && t != Tag(at) ==> p'[t].perm == pages[t].perm)
      && p'[Tag(at)].perm ==
        (if Tag(at) in pages then pages[Tag(at)].perm else {AccessRead, AccessWrite, AccessExec, AccessInit})
        + (if access == AccessWrite then {AccessModified} else {})
  {
  }

  lemma MarksOn(p0: PageTable, p: PageTable, p': PageTable, safe: bool, address: int, n: int, chunk: int,
                access: AccessType, bytes: seq<byte>, done: bool)
    requires IsPageTable(p) && IsAddress(address) && 0 <= n && |bytes| == chunk && 0 < chunk
    requires Plus(address, n) % PAGE_SIZE + chunk <= PAGE_SIZE && Marked(p0, p, address, n, n, access)
    requires p' == PagesAfterWrite(p, safe, Plus(address, n), bytes, access)
    requires done == Allowed(p, safe, Plus(address, n), access)
    ensures Marked(p0, p', address, if done then n + chunk else n, if done then n + chunk else n + 1, access)
  {
    var at, n', m' := Plus(address, n), if done then n + chunk else n, if done then n + chunk else n + 1;
    forall t ensures Touched(address, n + chunk, t) <==> Touched(address, n, t) || t == Tag(at) {
      ChunkTouches(address, n, chunk, t);
    }
    forall t ensures Touched(address, n + 1, t) <==> Touched(address, n, t) || t == Tag(at) {
      ChunkTouches(address, n, 1, t);
    }
    if !safe || Tag(at) in p {
      WriteMarks(p, safe, at, bytes, access);
    }
    forall t ensures t in p' <==> t in p0 || Touched(address, n', t) {
      assert Touched(address, n, t) ==> Touched(address, m', t);
    }
    forall t | t in p'
      ensures p'[t].perm == (if t in p0 then p0[t].perm else {AccessRead, AccessWrite, AccessExec, AccessInit})
                            + (if access == AccessWrite && Touched(address, m', t) then {AccessModified} else {})
    {
      assert Touched(address, n, t) ==> Touched(address, m', t);
    }
  }

  /** An access that has got as far as byte `n`. */
  ghost predicate Accessed(p0: PageTable, p: PageTable, safe: bool, address: int, n: int, m: int, access: AccessType,
                           b0: seq<byte>, b: seq<byte>)
    requires IsPageTable(p0) && IsPageTable(p) && 0 <= n <= |b0|
  {
    && Transferred(p0, p, safe, address, n, access, b0, b)
    && Permitted(p0, safe, address, n, access)
    && (IsWrite(access) ==> Marked(p0, p, address, n, m, access))
  }

  /** What an access within a page does for the access as a whole. */
  lemma ChunkAccessed(p0: PageTable, p: PageTable, p': PageTable, safe: bool, address: int, n: int, chunk: int,
                      access: AccessType, b0: seq<byte>, b: seq<byte>, b': seq<byte>, r: Status)
    requires IsPageTable(p0) && IsPageTable(p) && IsAddress(address) && (IsRead(access) || IsWrite(access))
    requires 0 <= n && 0 < chunk && n + chunk <= |b0| && n + chunk < ADDRESS_SPACE
    requires Accessed(p0, p, safe, address, n, n, access, b0, b)
    requires Plus(address, n) % PAGE_SIZE + chunk <= PAGE_SIZE
    requires ChunkDone(p, p', safe, Plus(address, n), chunk, n, access, b, b', r)
    ensures IsPageTable(p')
    ensures r == Done ==> Accessed(p0, p', safe, address, n + chunk, n + chunk, access, b0, b')
    ensures r != Done ==> Accessed(p0, p', safe, address, n, n + 1, access, b0, b')
    ensures r != Done ==> Refused(p0, safe, Plus(address, n), access, r)
  {
    var at := Plus(address, n);
    ChunkOn(p0, p, p', safe, address, n, chunk, access, b0, b, b', r);
    StillAllowed(p0, p, safe, at, access);
    if IsWrite(access) {
      MarksOn(p0, p, p', safe, address, n, chunk, access, b[n..n + chunk], r == Done);
    }
    if r == Done {
      ChunkPermitted(p0, p, safe, address, n, chunk, access);
    }
  }

  lemma SizeNotReached(start: int, end: int, size: int)
    requires start % PAGE_SIZE == 0 && end % PAGE_SIZE == 0 && size % PAGE_SIZE == 0
    requires end - start < size && end - start + PAGE_SIZE != size
    ensures end - start + PAGE_SIZE < size
  {
    assert (size - (end - start)) % PAGE_SIZE == 0;
  }

  lemma FreeBelow(pages: PageTable, start: int, size: int)
    requires IsPageTable(pages) && start % PAGE_SIZE == 0 && start !in pages
    requires IsFree(pages, start + PAGE_SIZE, size)
    ensures IsFree(pages, start, size + PAGE_SIZE)
  {
  }

  lemma FreeAbove(pages: PageTable, start: int, end: int)
    requires IsPageTable(pages) && end % PAGE_SIZE == 0 && end !in pages
    requires IsFree(pages, start, end - start)
    ensures IsFree(pages, start, end - start + PAGE_SIZE)
  {
  }

  /** A chunk that stays within a page does not go round the address space. */
  lemma ChunkDoesNotWrap(start: int, n: int, j: int)
    requires IsAddress(start) && 0 <= j < PAGE_SIZE - Plus(start, n) % PAGE_SIZE
    ensures Plus(start, n) + j == Plus(start, n + j)
  {
    var at := Plus(start, n);
    assert at + j < ADDRESS_SPACE by {
      assert at == PAGE_SIZE * (at / PAGE_SIZE) + at % PAGE_SIZE;
      assert at / PAGE_SIZE < ADDRESS_SPACE / PAGE_SIZE;
    }
    PlusPlus(start, n, j);
  }

  /** No region of `size` bytes that starts at a page in `[lo, hi)` is free. */
  ghost predicate NoFit(pages: PageTable, size: int, lo: int, hi: int) {
    forall t :: IsTag(t) && lo <= t < hi && t + size <= ADDRESS_SPACE ==> !IsFree(pages, t, size)
  }

  lemma NoFitUp(pages: PageTable, size: int, lo: int, start: int, x: int)
    requires NoFit(pages, size, lo, start) && x in pages && x % PAGE_SIZE == 0 && start <= x < start + size
    ensures NoFit(pages, size, lo, x + PAGE_SIZE)
  {
    forall t | IsTag(t) && start <= t < x + PAGE_SIZE
      ensures !IsFree(pages, t, size)
    {
      assert t <= x;
      MappedPageBlocks(pages, x, t, size);
    }
  }

  /** No region of `size` bytes that ends above `lo` and at most at `hi` is free. */
  ghost predicate NoFitDown(pages: PageTable, size: int, lo: int, hi: int) {
    forall t :: IsTag(t) && lo < t + size <= hi ==> !IsFree(pages, t, size)
  }

  lemma NoFitBelow(pages: PageTable, size: int, x: int, end: int, hi: int)
    requires NoFitDown(pages, size, end + PAGE_SIZE, hi) && x in pages && x <= end && end - x < size
    requires x % PAGE_SIZE == 0 && end % PAGE_SIZE == 0 && size % PAGE_SIZE == 0
    ensures NoFitDown(pages, size, x, hi)
  {
    forall t | IsTag(t) && x < t + size <= end + PAGE_SIZE
      ensures !IsFree(pages, t, size)
    {
      EndsAboveCovers(x, end, t, size);
      MappedPageBlocks(pages, x, t, size);
    }
  }

  lemma StillAllowed(p0: PageTable, p: PageTable, safe: bool, a: int, access: AccessType)
    requires Grows(p0, p) && (safe ==> p.Keys == p0.Keys) && access != AccessModified
    ensures Allowed(p0, safe, a, access) <==> Allowed(p, safe, a, access)
  {
  }

  lemma TagSteps(t: int)
    requires t % PAGE_SIZE == 0
    ensures (t + PAGE_SIZE) % PAGE_SIZE == 0 && (t - PAGE_SIZE) % PAGE_SIZE == 0
  {
  }

  lemma SameTag(address: int, k: int)
    requires IsAddress(address) && 0 <= k && address % PAGE_SIZE + k < PAGE_SIZE
    ensures Tag(address + k) == Tag(address) && address + k - Tag(address + k) == address % PAGE_SIZE + k
  {
  }

  /** The tag of the loop of Map after `k` turns, as an unsigned number. */
  function TagAfter(tag1: int, k: nat): int {
    (tag1 + k * PAGE_SIZE) % ADDRESS_SPACE
  }

  lemma WholePagesBelow(tag1: int, k: nat)
    requires IsTag(tag1)
    ensures TagAfter(tag1, k) <= LAST_PAGE
  {
    assert TagAfter(tag1, k) % PAGE_SIZE == 0;
  }

  lemma PassesLastTag(tag1: int, tag2: int)
    requires IsTag(tag1) && IsTag(tag2) && tag1 <= tag2 < LAST_PAGE
    ensures exists k: nat :: TagAfter(tag1, k) > tag2
  {
    var k := (tag2 - tag1) / PAGE_SIZE + 1;
    assert tag1 + k * PAGE_SIZE == tag2 + PAGE_SIZE;
    assert TagAfter(tag1, k) == tag2 + PAGE_SIZE;
  }

  /** The loops of Map and Unmap go on for ever exactly when the range reaches the last page. */
  lemma MapNeverEnds(tag1: int, tag2: int)
    requires IsTag(tag1) && IsTag(tag2)
    ensures (forall k: nat :: TagAfter(tag1, k) <= tag2) <==> tag2 == LAST_PAGE
  {
    if tag2 == LAST_PAGE {
      forall k: nat ensures TagAfter(tag1, k) <= tag2 {
        WholePagesBelow(tag1, k);
      }
    } else if tag1 <= tag2 {
      PassesLastTag(tag1, tag2);
    } else {
      assert TagAfter(tag1, 0) > tag2;
    }
  }

  class Memory {
    var pages: PageTable
    var safe: bool
    var last_address: int

    ghost predicate Valid()
      reads this
    {
      IsPageTable(pages)
    }

    constructor (safe_mode: bool)
      ensures Valid() && pages == map[] && safe == safe_mode
    {
      pages, safe, last_address := map[], safe_mode, 0;
    }

    /** The bytes of a page into the buffer; a page without data reads as zero. */
    method ReadPage(page: Page, address: int, size: int, buffer: array<byte>, lo: int)
      requires Valid() && IsAddress(address) && 0 < size && address % PAGE_SIZE + size <= PAGE_SIZE
      requires 0 <= lo && lo + size <= buffer.Length
      requires (page.data.Some? ==> |page.data.value| == PAGE_SIZE)
      requires if Tag(address) in pages then page.data == pages[Tag(address)].data else page.data.None?
      modifies buffer
      ensures forall k {:trigger buffer[k]} :: 0 <= k < buffer.Length ==>
        buffer[k] == if lo <= k < lo + size then ByteAt(pages, address + k - lo) else old(buffer[k])
    {
      var offset, data := address % PAGE_SIZE, PageData(page);
      for i := 0 to size
        invariant forall k {:trigger buffer[k]} :: 0 <= k < buffer.Length ==>
          buffer[k] == if lo <= k < lo + i then ByteAt(pages, address + k - lo) else old(buffer[k])
      {
        SameTag(address, i);
        buffer[lo + i] := data[offset + i];
      }
    }

    /** The bytes of the buffer into a page. */
    method WritePage(page: Page, address: int, bytes: seq<byte>)
      requires Valid() && IsAddress(address) && address % PAGE_SIZE + |bytes| <= PAGE_SIZE
      requires page.data.Some? ==> |page.data.value| == PAGE_SIZE
      modifies this`pages
      ensures var o, data := address % PAGE_SIZE, PageData(page);
        pages == old(pages)[Tag(address) := page.(data := Some(data[..o] + bytes + data[o + |bytes|..]))]
    {
      var offset, data := address % PAGE_SIZE, PageData(page);
      data := data[..offset] + bytes + data[offset + |bytes|..];
      pages := pages[Tag(address) := page.(data := Some(data))];
    }

    /** Accesses bytes within one page. */
    method AccessAtPageBoundary(address: int, size: int, buffer: array<byte>, lo: int, access: AccessType)
      returns (r: Status)
      requires Valid() && IsAddress(address) && 0 < size && address % PAGE_SIZE + size <= PAGE_SIZE
      requires 0 <= lo && lo + size <= buffer.Length
      requires IsRead(access) || IsWrite(access)
      modifies this`pages, buffer
      ensures ChunkDone(old(pages), pages, safe, address, size, lo, access, old(buffer[..]), buffer[..], r)
    {
      var tag := Tag(address);
      if tag !in pages {
        if safe {
          return SegmentationFault(address);
        }
        if IsRead(access) {
          ReadPage(Page({}, None), address, size, buffer, lo);
          return Done;
        }
      }
      // the page is updated through the pointer: stored back where the code leaves it
      var page := if tag in pages then pages[tag] else Page(ALL_RIGHTS, None);
      if access == AccessWrite {
        page := page.(perm := page.perm + {AccessModified});
      }
      if safe && access !in page.perm {
        if access == AccessWrite {
          pages := pages[tag := page];
        }
        return PermissionDenied(address);
      }
      if IsRead(access) {
        ReadPage(page, address, size, buffer, lo);
        return Done;
      }
      WritePage(page, address, buffer[lo..lo + size]);
      return Done;
    }

    /** One turn of Access: the bytes from `at` on, up to the end of their page. */
    method AccessChunk(address: int, at: int, n: int, size: int, buffer: array<byte>, access: AccessType,
                       ghost p0: PageTable, ghost b0: seq<byte>)
      returns (r: Status, chunksize: int)
      requires Valid() && IsPageTable(p0) && IsAddress(address) && at == Plus(address, n)
      requires 0 <= n < size < ADDRESS_SPACE && size <= buffer.Length && size <= |b0|
      requires IsRead(access) || IsWrite(access)
      requires Accessed(p0, pages, safe, address, n, n, access, b0, buffer[..])
      modifies this`pages, buffer
      ensures Valid() && 0 < chunksize && n + chunksize <= size
      ensures r == Done ==>
        Accessed(p0, pages, safe, address, n + chunksize, n + chunksize, access, b0, buffer[..])
      ensures r != Done ==> Accessed(p0, pages, safe, address, n, n + 1, access, b0, buffer[..])
      ensures r != Done ==> Refused(p0, safe, at, access, r)
    {
      ghost var before, bytes := pages, buffer[..];
      var offset := at % PAGE_SIZE;
      chunksize := if size - n < PAGE_SIZE - offset then size - n else PAGE_SIZE - offset;
      r := AccessAtPageBoundary(at, chunksize, buffer, n, access);
      ChunkAccessed(p0, before, pages, safe, address, n, chunksize, access, b0, bytes, buffer[..], r);
    }

    /** Accesses any range, one page at a time, going round at the end of the address
        space; `n` is the number of bytes transferred before an error. */
    method Access(address: int, size: int, buffer: array<byte>, access: AccessType)
      returns (r: Status, ghost n: int)
      requires Valid() && IsAddress(address) && 0 <= size < ADDRESS_SPACE && size <= buffer.Length
      requires IsRead(access) || IsWrite(access)
      modifies this`pages, this`last_address, buffer
      ensures Valid() && last_address == address
      ensures 0 <= n <= size && (r == Done <==> n == size)
      ensures r != Done ==> Refused(old(pages), safe, Plus(address, n), access, r)
      ensures Accessed(old(pages), pages, safe, address, n, if r == Done then n else n + 1, access, old(buffer[..]),
                       buffer[..])
    {
      last_address := address;
      var at, done := address, 0;
      while done < size
        invariant 0 <= done <= size && at == Plus(address, done) && last_address == address
        invariant Valid()
        invariant Accessed(old(pages), pages, safe, address, done, done, access, old(buffer[..]), buffer[..])
      {
        var chunksize;
        r, chunksize := AccessChunk(address, at, done, size, buffer, access, old(pages), old(buffer[..]));
        if r != Done {
          n := done;
          return;
        }
        PlusPlus(address, done, chunksize);
        done := done + chunksize;
        at := Plus(at, chunksize);
      }
      r, n := Done, size;
    }

    /** One turn of Map: the page is created if it is not there, and gets the permissions. */
    method MapPage(tag: int, perm: set<AccessType>)
      requires Valid() && IsTag(tag)
      modifies this`pages
      ensures Valid() && pages == old(pages)[tag := PermittedPage(old(pages), tag, perm)]
    {
      if tag !in pages {
        pages := pages[tag := Page(perm, None)];
      }
      pages := pages[tag := pages[tag].(perm := pages[tag].perm + perm)];
      assert perm + perm == perm;
    }

    /** Maps the pages of the `size` bytes from `address`.  Of a range that goes round at the
        end of the address space nothing is mapped but a page in which it starts and ends.  A
        range that ends in the last page is excluded: there the loop does not end, by
        MapNeverEnds. */
    method Map(address: int, size: int, perm: set<AccessType>)
      requires Valid() && IsAddress(address) && 0 <= size < ADDRESS_SPACE && EndTag(address, size) != LAST_PAGE
      modifies this`pages
      ensures Valid()
      ensures pages == Mapped(old(pages), Tag(address), EndTag(address, size) + PAGE_SIZE, perm)
      ensures pages.Keys == old(pages.Keys) + Tags(Tag(address), EndTag(address, size) + PAGE_SIZE)
      ensures PagesMapped(old(pages), pages, Tag(address), EndTag(address, size) + PAGE_SIZE, perm)
    {
      var tag1 := Tag(address);
      var tag2 := EndTag(address, size);
      var tag := tag1;
      EndTagFacts(address, size);
      MappedNone(pages, tag1, tag1, perm);
      while tag <= tag2
        invariant tag1 <= tag <= LAST_PAGE && tag % PAGE_SIZE == 0 && (tag == tag1 || tag <= tag2 + PAGE_SIZE)
        invariant Valid() && pages == Mapped(old(pages), tag1, tag, perm)
      {
        MapPage(tag, perm);
        MappedNext(old(pages), tag1, tag, perm);
        TagSteps(tag);
        TagsApart(tag, tag2);
        tag := tag + PAGE_SIZE;
      }
      MapEnds(old(pages), pages, tag1, tag, tag2, perm);
    }

    /** Removes the pages of the `size` bytes from `address`; unmapped ones are skipped, and
        of a range that goes round at the end of the address space none is removed. */
    method Unmap(address: int, size: int)
      requires Valid() && IsTag(address) && 0 <= size < ADDRESS_SPACE && size % PAGE_SIZE == 0
      requires EndTag(address, size) != LAST_PAGE
      modifies this`pages
      ensures Valid() && pages == old(pages) - Tags(address, EndTag(address, size) + PAGE_SIZE)
    {
      var tag2 := EndTag(address, size);
      EndTagFacts(address, size);
      var tag := address;
      assert Tags(address, address) == {};
      while tag <= tag2
        invariant address <= tag <= LAST_PAGE && tag % PAGE_SIZE == 0 && (tag == address || tag <= tag2 + PAGE_SIZE)
        invariant Valid() && pages == old(pages) - Tags(address, tag)
      {
        TagsNext(address, tag);
        TagSteps(tag);
        TagsApart(tag, tag2);
        pages := pages - {tag};
        tag := tag + PAGE_SIZE;
      }
      TagsUpTo(address, tag, tag2);
    }

    /** First fit upwards from `address`. */
    method MapSpace(address: int, size: int) returns (r: int)
      requires Valid() && IsTag(address)
      requires 0 < size < ADDRESS_SPACE && size % PAGE_SIZE == 0
      ensures r != NO_SPACE ==>
        IsTag(r) && address <= r && r + size <= ADDRESS_SPACE && IsFree(pages, r, size) &&
          NoFit(pages, size, address, r)
      ensures r == NO_SPACE ==> address == 0 || NoFit(pages, size, address, ADDRESS_SPACE)
      ensures address == 0 ==> r == NO_SPACE
    {
      var tag_start := address;
      var tag_end := address;
      while true
        invariant address <= tag_start <= tag_end <= ADDRESS_SPACE && (address == 0 ==> tag_end == 0)
        invariant tag_start % PAGE_SIZE == 0 && tag_end % PAGE_SIZE == 0
        invariant tag_end - tag_start < size
        invariant IsFree(pages, tag_start, tag_end - tag_start)
        invariant NoFit(pages, size, address, tag_start)
        decreases ADDRESS_SPACE - tag_end
      {
        // the unsigned tag is zero, from the start or because it has wrapped around
        if tag_end % ADDRESS_SPACE == 0 {
          return NO_SPACE;
        }
        TagSteps(tag_end);
        if tag_end in pages {
          NoFitUp(pages, size, address, tag_start, tag_end);
          tag_end := tag_end + PAGE_SIZE;
          tag_start := tag_end;
        } else {
          FreeAbove(pages, tag_start, tag_end);
          if tag_end - tag_start + PAGE_SIZE == size {
            return tag_start;
          }
          SizeNotReached(tag_start, tag_end, size);
          tag_end := tag_end + PAGE_SIZE;
        }
      }
    }

    /** Highest fit whose last page is at most `address`; page zero is never used. */
    method MapSpaceDown(address: int, size: int) returns (r: int)
      requires Valid() && IsTag(address)
      requires 0 < size < ADDRESS_SPACE && size % PAGE_SIZE == 0
      ensures r != NO_SPACE ==>
        && IsTag(r) && 0 < r && r + size <= address + PAGE_SIZE && IsFree(pages, r, size)
        && NoFitDown(pages, size, r + size, address + PAGE_SIZE)
      ensures r == NO_SPACE ==> forall t :: IsTag(t) && 0 < t && t + size <= address + PAGE_SIZE ==>
        !IsFree(pages, t, size)
    {
      var tag_start := address;
      var tag_end := address;
      while true
        invariant 0 <= tag_start <= tag_end <= address
        invariant tag_start % PAGE_SIZE == 0 && tag_end % PAGE_SIZE == 0
        invariant tag_end - tag_start < size
        invariant IsFree(pages, tag_start + PAGE_SIZE, tag_end - tag_start)
        invariant NoFitDown(pages, size, tag_end + PAGE_SIZE, address + PAGE_SIZE)
        decreases tag_start
      {
        if tag_start == 0 {
          return NO_SPACE;
        }
        TagSteps(tag_start);
        if tag_start in pages {
          NoFitBelow(pages, size, tag_start, tag_end, address + PAGE_SIZE);
          tag_start := tag_start - PAGE_SIZE;
          tag_end := tag_start;
        } else {
          FreeBelow(pages, tag_start, tag_end - tag_start);
          if tag_end - tag_start + PAGE_SIZE == size {
            return tag_start;
          }
          SizeNotReached(tag_start, tag_end, size);
          tag_start := tag_start - PAGE_SIZE;
        }
      }
    }
  }
}
