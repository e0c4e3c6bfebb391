/** The kernel's page allocator: first fit over a bitmap, with a header at the start of every block. */
module PageAlloc {
  import opened Bitmaps
  import opened PageRuns
  import opened Sequences

  datatype Header = Header(magic: nat, npages: nat, size: nat, reserved: nat)

  function RoundDown(a: nat): nat { a - a % PAGE }

  /** Rounded up to a page in 32-bit arithmetic. */
  function AlignPage(a: nat): nat { RoundDown((a + PAGE - 1) % WORD) }

  /** The first address after the bitmap, on a page boundary. */
  function AllocStart(heapStart: nat, totalPages: nat): nat {
    RoundDown(heapStart + (totalPages + 7) / 8 + PAGE - 1)
  }

  /** A heap on a page boundary with room for its bitmap and at least one page more. The machine
      stops on any other. */
  predicate GoodHeap(heapStart: nat, heapSize: nat) {
    && 0 < heapStart && heapStart % PAGE == 0 && heapStart + heapSize + PAGE <= WORD
    && AllocStart(heapStart, heapSize / PAGE) < heapStart + heapSize / PAGE * PAGE
  }

  /** The first page that is handed out. */
  function FirstPage(heapStart: nat, heapSize: nat): (p: nat)
    requires GoodHeap(heapStart, heapSize)
    ensures p < heapSize / PAGE && (heapSize / PAGE + 7) / 8 <= p * PAGE
    ensures heapStart + p * PAGE == AllocStart(heapStart, heapSize / PAGE)
  {
    var b := heapStart + (heapSize / PAGE + 7) / 8 + PAGE - 1;
    assert b == b / PAGE * PAGE + b % PAGE;
    assert heapStart == heapStart / PAGE * PAGE;
    assert AllocStart(heapStart, heapSize / PAGE) - heapStart == (b / PAGE - heapStart / PAGE) * PAGE;
    (AllocStart(heapStart, heapSize / PAGE) - heapStart) / PAGE
  }

  /** A bitmap with all pages used, then those from `first` on cleared. */
  method EmptyHeap(total: nat, first: nat) returns (bits: Bitmap)
    requires first <= total
    ensures bits.Valid() && bits.size == total && fresh(bits) && fresh(bits.bytes)
    ensures bits.marked == Upto(total) - Run(first, total - first)
  {
    hide Run, Upto, Bitmap.Valid;
    bits := new Bitmap(total);
    bits.FillAll();
    assert Run(first, 0) == {};
    for page := first to total
      invariant bits.Valid() && bits.size == total && fresh(bits) && fresh(bits.bytes)
      invariant bits.marked == Upto(total) - Run(first, page - first)
    {
      bits.Clear(page);
    }
  }

  /** Rounded out to whole pages, a range covers the pages it touches. */
  lemma RangePages(start: nat, end: nat, base: nat, total: nat, p: nat)
    requires start < end && end + PAGE - 1 < WORD && base % PAGE == 0 && p < total
    ensures var s, e := RoundDown(start), AlignPage(end);
      (start < base + p * PAGE + PAGE && base + p * PAGE < end) <==> (s <= base + p * PAGE < e)
  {
    var q := base / PAGE + p;
    assert base + p * PAGE == q * PAGE;
    assert start == start / PAGE * PAGE + start % PAGE;
    var f := end + PAGE - 1;
    assert f == f / PAGE * PAGE + f % PAGE;
  }

  /** Page `p` is one of those from `s` to `e`, counted in pages of the heap. */
  predicate Cut(s: nat, e: nat, base: nat, total: nat, p: nat) {
    var top := base + total * PAGE;
    && e > base && s < top
    && (if s < base then 0 else (s - base) / PAGE) <= p < ((if e > top then top else e) - base) / PAGE
  }

  /** Rounded out and cut to the heap, it covers those of the heap. */
  lemma CutToHeap(start: nat, end: nat, base: nat, total: nat, p: nat)
    requires start < end < WORD && base % PAGE == 0 && p < total
    ensures Cut(RoundDown(start), AlignPage(end), base, total, p) <==>
      end + PAGE - 1 < WORD && start < base + p * PAGE + PAGE && base + p * PAGE < end
  {
    if end + PAGE - 1 < WORD {
      RangePages(start, end, base, total, p);
      hide RoundDown;
      Rounded(start);
      Rounded(end + PAGE - 1);
      CutMeans(RoundDown(start), AlignPage(end), base, total, p);
    }
  }

  lemma Rounded(a: nat)
    ensures RoundDown(a) % PAGE == 0
  {
  }

  lemma CutMeans(s: nat, e: nat, base: nat, total: nat, p: nat)
    requires s % PAGE == 0 && e % PAGE == 0 && base % PAGE == 0 && p < total
    ensures Cut(s, e, base, total, p) <==> s <= base + p * PAGE < e
  {
    var b, x, y := base / PAGE, s / PAGE, e / PAGE;
    assert base == b * PAGE && s == x * PAGE && e == y * PAGE;
    if s >= base { assert s - base == (x - b) * PAGE; }
    if e >= base { assert e - base == (y - b) * PAGE; }
  }

  lemma NeverFits(used: set<nat>, first: nat, n: nat, last: nat)
    ensures n > last - first ==> forall p :: first <= p ==> !Fits(used, p, n, last)
  {
  }

  lemma LateNeverFits(used: set<nat>, page: nat, n: nat, last: nat)
    ensures page + n > last ==> forall p :: page <= p ==> !Fits(used, p, n, last)
  {
  }

  lemma LiveBelow(used: set<nat>, live: map<nat, nat>, owner: map<nat, nat>, reserved: set<nat>, lo: nat, hi: nat)
    requires Exact(used, live, owner, reserved, lo, hi)
    ensures forall f :: f in live ==> lo <= f && 0 < live[f] && f + live[f] <= hi
  {
  }

  /** What was asked for ends within the block. */
  lemma BlockHolds(start: nat, n: nat, size: nat)
    requires LeastPages(size, n)
    ensures start + HEADER + size <= start + n * PAGE
  {
  }

  /** `first` is the first page behind a bitmap of `total` bits. */
  predicate BehindBitmap(total: nat, first: nat) {
    (total + 7) / 8 <= first * PAGE && (first > 0 ==> (first - 1) * PAGE < (total + 7) / 8)
  }

  lemma FirstPageLeast(heapStart: nat, heapSize: nat)
    requires GoodHeap(heapStart, heapSize)
    ensures BehindBitmap(heapSize / PAGE, FirstPage(heapStart, heapSize))
  {
    var b := heapStart + (heapSize / PAGE + 7) / 8 + PAGE - 1;
    assert b == b / PAGE * PAGE + b % PAGE;
  }

  lemma HeapFacts(heapStart: nat, heapSize: nat)
    requires GoodHeap(heapStart, heapSize)
    ensures heapStart > 0 && heapStart % PAGE == 0 && heapStart + heapSize / PAGE * PAGE + PAGE <= WORD
    ensures BehindBitmap(heapSize / PAGE, FirstPage(heapStart, heapSize))
  {
    FirstPageLeast(heapStart, heapSize);
    hide BehindBitmap, FirstPage, AllocStart;
  }

  /** A heap is good when a page is left behind its bitmap. */
  lemma GoodHeapLeaves(heapStart: nat, heapSize: nat)
    requires 0 < heapStart && heapStart % PAGE == 0 && heapStart + heapSize + PAGE <= WORD
    ensures GoodHeap(heapStart, heapSize) <==>
      exists p :: 0 <= p < heapSize / PAGE && (heapSize / PAGE + 7) / 8 <= p * PAGE
  {
    var bytes := (heapSize / PAGE + 7) / 8;
    var b := heapStart + bytes + PAGE - 1;
    var q := b / PAGE - heapStart / PAGE;
    assert b == b / PAGE * PAGE + b % PAGE && heapStart == heapStart / PAGE * PAGE;
    assert AllocStart(heapStart, heapSize / PAGE) == heapStart + q * PAGE;
    if GoodHeap(heapStart, heapSize) { assert q < heapSize / PAGE && bytes <= q * PAGE; }
    if p :| 0 <= p < heapSize / PAGE && bytes <= p * PAGE { assert q <= p; }
  }

  class Allocator {
    const heapStart: nat
    const totalPages: nat
    const firstPage: nat
    const bits: Bitmap
    /** The words at the start of each page. */
    const headers: array<Header>
    var mallocCalls: nat
    var freeCalls: nat
    /** The blocks handed out, by first page, and the pages set aside. */
    ghost var live: map<nat, nat>
    ghost var owner: map<nat, nat>
    ghost var setAside: set<nat>

    ghost predicate Valid()
      reads this, bits, bits.bytes, headers
    {
      && bits.Valid() && bits.size == totalPages == headers.Length && firstPage < totalPages
      && 0 < heapStart && heapStart % PAGE == 0 && heapStart + totalPages * PAGE + PAGE <= WORD
      && (totalPages + 7) / 8 <= firstPage * PAGE && bits.bytes as object != headers as object
      && Exact(bits.marked, live, owner, setAside, firstPage, totalPages)
      && (forall f :: f in live ==> headers[f].magic == MAGIC && headers[f].npages == live[f])
    }

    /** The address a block is handed out at. */
    function AddressOf(page: nat): nat { heapStart + page * PAGE + HEADER }

    constructor (heapStart: nat, heapSize: nat)
      requires GoodHeap(heapStart, heapSize)
      ensures Valid() && live == map[] && owner == map[] && setAside == {} && fresh(bits) && fresh(bits.bytes)
      ensures fresh(headers)
      ensures this.heapStart == heapStart && totalPages == heapSize / PAGE
      ensures AddressOf(firstPage) - HEADER == AllocStart(heapStart, heapSize / PAGE)
      ensures BehindBitmap(totalPages, firstPage)
    {
      hide Bitmap.Valid, Exact, Run, Upto, AllocStart, FirstPage, BehindBitmap, GoodHeap;
      HeapFacts(heapStart, heapSize);
      var total := heapSize / PAGE;
      var first := FirstPage(heapStart, heapSize);
      this.heapStart, totalPages, firstPage := heapStart, total, first;
      var map0 := EmptyHeap(total, first);
      bits := map0;
      headers := new Header[total](_ => Header(0, 0, 0, 0));
      mallocCalls, freeCalls, live, owner, setAside := 0, 0, map[], map[], {};
      new;
      StartExact(first, total);
    }

    /** `[start, end)` has a byte in page `p` of the heap, and its end can be rounded up. */
    predicate Touches(start: nat, end: nat, p: nat) {
      start < end && end + PAGE - 1 < WORD && start < heapStart + p * PAGE + PAGE && heapStart + p * PAGE < end
    }

    /** Sets aside the pages that `[start, end)` touches. An end in the last page of the address space
        wraps when it is rounded up, and then nothing is set aside. */
    method ReserveRange(start: nat, end: nat)
      requires Valid() && live == owner == map[] && start < WORD && end < WORD
      modifies this`setAside, bits, bits.bytes
      ensures Valid()
      ensures forall p :: 0 <= p < totalPages ==> (p in setAside <==> p in old(setAside) || Touches(start, end, p))
    {
      hide Bitmap.Valid, Exact, RoundDown, AlignPage;
      if end <= start { return; }
      var s, e := RoundDown(start), AlignPage(end);
      var allocEnd := heapStart + totalPages * PAGE;
      forall p | 0 <= p < totalPages
        ensures Cut(s, e, heapStart, totalPages, p) <==> Touches(start, end, p)
      {
        CutToHeap(start, end, heapStart, totalPages, p);
      }
      if e <= heapStart || s >= allocEnd { return; }
      if s < heapStart { s := heapStart; }
      if e > allocEnd { e := allocEnd; }
      SetAsideRun((s - heapStart) / PAGE, (e - heapStart) / PAGE);
    }

    /** Marks the pages `[first, last)`. */
    method SetAsideRun(first: nat, last: nat)
      requires Valid() && live == owner == map[] && last <= totalPages
      modifies this`setAside, bits, bits.bytes
      ensures Valid() && forall p :: p in setAside <==> p in old(setAside) || first <= p < last
    {
      hide Exact, Run, Bitmap.Valid;
      var page := first;
      while page < last
        invariant Valid() && live == owner == map[]
        invariant forall p :: p in setAside <==> p in old(setAside) || first <= p < page
        invariant page <= last || page == first
      {
        SetOneAside(bits.marked, setAside, firstPage, totalPages, page);
        bits.Set(page);
        setAside := setAside + {page};
        page := page + 1;
      }
    }

    /** How many pages can be handed out, how many of them are used and how many are free. */
    method UsageInfo() returns (total: nat, used: nat, free: nat)
      requires Valid()
      ensures total == totalPages - firstPage && used + free == total
      ensures used + firstPage == |bits.marked|
    {
      total := totalPages - firstPage;
      used := bits.CountMarked(firstPage, totalPages);
      var all := bits.MarkedIn(firstPage, totalPages);
      assert bits.marked == Run(0, firstPage) + all;
      SubsetSize(all, Run(firstPage, total));
      free := total - used;
    }

    /** Whether `n` pages from `page` are free; if not, how far on a used one is. */
    method Probe(page: nat, n: nat) returns (found: bool, j: nat)
      requires Valid() && page + n <= totalPages
      ensures found <==> Fits(bits.marked, page, n, totalPages)
      ensures !found ==> j < n && page + j in bits.marked
    {
      j := 0;
      while j < n
        invariant j <= n && forall q :: page <= q < page + j ==> q !in bits.marked
      {
        var used := bits.IsMarked(page + j);
        if used { return false, j; }
        j := j + 1;
      }
      return true, j;
    }

    method SetRun(page: nat, n: nat)
      requires bits.Valid() && page + n <= bits.size
      modifies bits, bits.bytes
      ensures bits.Valid() && bits.marked == old(bits.marked) + Run(page, n)
    {
      hide Run, Bitmap.Valid;
      for j := 0 to n
        invariant bits.Valid() && bits.marked == old(bits.marked) + Run(page, j)
      {
        bits.Set(page + j);
      }
    }

    method ClearRun(page: nat, n: nat)
      requires bits.Valid() && page + n <= bits.size
      modifies bits, bits.bytes
      ensures bits.Valid() && bits.marked == old(bits.marked) - Run(page, n)
    {
      hide Run, Bitmap.Valid;
      for j := 0 to n
        invariant bits.Valid() && bits.marked == old(bits.marked) - Run(page, j)
      {
        bits.Clear(page + j);
      }
    }

    /** The first page of the lowest free run of `n` pages, or the end of the heap. */
    method FirstFit(n: nat) returns (page: nat)
      requires Valid() && 0 < n <= totalPages - firstPage
      ensures firstPage <= page
      ensures forall p :: firstPage <= p < page ==> !Fits(bits.marked, p, n, totalPages)
      ensures Fits(bits.marked, page, n, totalPages) || page + n > totalPages
    {
      page := firstPage;
      while page + n <= totalPages
        invariant firstPage <= page
        invariant forall p :: firstPage <= p < page ==> !Fits(bits.marked, p, n, totalPages)
        decreases totalPages - page
      {
        var found, j := Probe(page, n);
        if found { return; }
        Skip(bits.marked, page, j, n, totalPages);
        page := page + j + 1;
      }
    }

    /** The pages to ask for, or 0 when no heap of this size can hold the request. */
    method PagesFor(size0: nat) returns (n: nat)
      requires Valid() && size0 < WORD
      ensures if n == 0 then Need(size0) > totalPages - firstPage else n == Need(size0) <= totalPages - firstPage
    {
      hide Exact, Bitmap.Valid;
      var size := if size0 == 0 then 1 else size0;
      if size > WORD - 1 - HEADER { return 0; }
      WrapIsZero(size);
      n := PagesForSize(size + HEADER);
      if n == 0 || n > totalPages - firstPage { return 0; }
    }

    /** Marks a free run used and writes its header. */
    method Take(page: nat, n: nat, size: nat)
      requires Valid() && n > 0 && firstPage <= page && page + n <= totalPages && Fits(bits.marked, page, n, totalPages)
      modifies this`live, this`owner, bits, bits.bytes, headers
      ensures Valid() && page !in old(live) && live == old(live)[page := n]
      ensures bits.marked == old(bits.marked) + Run(page, n) && |bits.marked| == |old(bits.marked)| + n
      ensures headers[..] == old(headers[..])[page := Header(MAGIC, n, size, 0)]
    {
      hide Exact, Run, Owned, Fits, Bitmap.Valid;
      TakeRun(bits.marked, live, owner, setAside, firstPage, totalPages, page, n);
      LiveBelow(bits.marked, live, owner, setAside, firstPage, totalPages);
      SetRun(page, n);
      headers[page] := Header(MAGIC, n, size, 0);
      live, owner := live[page := n], owner + Owned(page, n);
    }

    /** Hands out the lowest free run that holds the request and its header; 0 only when there is none. */
    method Malloc(size: nat) returns (addr: nat)
      requires Valid() && size < WORD
      modifies this, bits, bits.bytes, headers
      ensures Valid() && setAside == old(setAside) && mallocCalls == old(mallocCalls) + 1 && freeCalls == old(freeCalls)
      ensures addr == 0 <==> NoneHolds(old(bits.marked), size, firstPage, totalPages)
      ensures addr == 0 ==> live == old(live) && bits.marked == old(bits.marked) && headers[..] == old(headers[..])
      ensures addr != 0 ==> Handed(old(bits.marked), old(live), old(headers[..]), size, addr)
    {
      hide Exact, Need, Fits, Bitmap.Valid, LeastPages, NoneHolds;
      NoneHoldsNeed(bits.marked, size, firstPage, totalPages);
      NeedLeast(size, Need(size));
      mallocCalls := mallocCalls + 1;
      var n := PagesFor(size);
      NeverFits(bits.marked, firstPage, Need(size), totalPages);
      if n == 0 { return 0; }
      var page := FirstFit(n);
      LateNeverFits(bits.marked, page, n, totalPages);
      if page + n > totalPages { return 0; }
      Take(page, n, if size == 0 then 1 else size);
      addr := AddressOf(page);
      BlockHolds(heapStart + page * PAGE, n, size);
      assert HandedAt(old(bits.marked), old(live), old(headers[..]), size, addr, page);
    }

    /** A request of `size` was answered with `addr`: the block has room for the request behind its header and
        no page more than that takes; it is the lowest such run that was free, its pages are used now, it is
        live, and its header is filled in. */
    ghost predicate Handed(used: set<nat>, blocks: map<nat, nat>, heads: seq<Header>, size: nat, addr: nat)
      requires headers.Length == totalPages == |heads|
      reads this, bits, headers
    {
      exists page: nat :: HandedAt(used, blocks, heads, size, addr, page)
    }

    ghost predicate HandedAt(used: set<nat>, blocks: map<nat, nat>, heads: seq<Header>, size: nat, addr: nat, page: nat)
      requires headers.Length == totalPages == |heads|
      reads this, bits, headers
    {
      && addr == AddressOf(page) && firstPage <= page < totalPages && page !in blocks
      && page in live && var n := live[page];
      && LeastPages(size, n) && addr + size <= heapStart + (page + n) * PAGE && addr == heapStart + page * PAGE + HEADER
      && Fits(used, page, n, totalPages)
      && (forall p :: firstPage <= p < page ==> !Fits(used, p, n, totalPages))
      && bits.marked == used + Run(page, n) && |bits.marked| == |used| + n && live == blocks[page := n]
      && headers[..] == heads[page := Header(MAGIC, n, if size == 0 then 1 else size, 0)]
    }

    /** Whether `addr` is what Malloc returned for the block at `page`. */
    predicate PointsTo(addr: nat, page: nat) {
      addr == AddressOf(page)
    }

    /** No page but the first ones of live blocks starts with what looks like a live header. */
    ghost predicate NotForged(addr: nat)
      requires headers.Length == totalPages
      reads this, headers
    {
      forall page :: firstPage <= page < totalPages && PointsTo(addr, page) && headers[page].magic == MAGIC ==>
        page in live
    }

    /** Takes back the block at `addr`; any other address changes nothing. */
    method Free(addr: nat)
      requires Valid() && addr < WORD && NotForged(addr)
      modifies this, bits, bits.bytes, headers
      ensures Valid() && setAside == old(setAside) && freeCalls == old(freeCalls) + 1 && mallocCalls == old(mallocCalls)
      ensures forall page :: page in old(live) && PointsTo(addr, page) ==>
        && live == old(live) - {page} && bits.marked == old(bits.marked) - Run(page, old(live)[page])
        && |bits.marked| == old(|bits.marked|) - old(live)[page]
        && headers[..] == old(headers[..])[page := Header(0, 0, 0, 0)]
      ensures (forall page :: page in old(live) ==> !PointsTo(addr, page)) ==>
        live == old(live) && bits.marked == old(bits.marked) && headers[..] == old(headers[..])
    {
      hide Exact, Run, Bitmap.Valid;
      freeCalls := freeCalls + 1;
      var page, n := Find(addr);
      if n > 0 { Release(page, n); }
    }

    /** The block that was handed out at `addr`: its first page and its length, 0 when there is none. */
    method Find(addr: nat) returns (page: nat, n: nat)
      requires Valid() && addr < WORD && NotForged(addr)
      ensures if n > 0 then page in live && live[page] == n && PointsTo(addr, page)
              else forall p :: p in live ==> !PointsTo(addr, p)
    {
      hide Exact, Run, Bitmap.Valid;
      LiveBelow(bits.marked, live, owner, setAside, firstPage, totalPages);
      page, n := 0, 0;
      if addr == 0 { return; }
      var allocStart, allocEnd := heapStart + firstPage * PAGE, heapStart + totalPages * PAGE;
      if addr < heapStart + HEADER || addr >= allocEnd { return; }
      var hdr := addr - HEADER;
      if hdr < allocStart || hdr >= allocEnd { return; }
      if (hdr - allocStart) % PAGE != 0 { return; }
      page := (hdr - heapStart) / PAGE;
      assert PointsTo(addr, page);
      if headers[page].magic != MAGIC { return; }
      var length := headers[page].npages;
      if page < firstPage || page >= totalPages { return; }
      if page + length > totalPages || length == 0 { return; }
      n := length;
    }

    method Release(page: nat, n: nat)
      requires Valid() && page in live && live[page] == n
      modifies this`live, this`owner, bits, bits.bytes, headers
      ensures Valid() && live == old(live) - {page} && bits.marked == old(bits.marked) - Run(page, n)
      ensures |bits.marked| == |old(bits.marked)| - n && headers[..] == old(headers[..])[page := Header(0, 0, 0, 0)]
    {
      hide Exact, Run, Bitmap.Valid;
      LiveBelow(bits.marked, live, owner, setAside, firstPage, totalPages);
      GiveRun(bits.marked, live, owner, setAside, firstPage, totalPages, page);
      ClearRun(page, n);
      headers[page] := Header(0, 0, 0, 0);
      live, owner := live - {page}, owner - Run(page, n);
    }

    /** A program writes over the start of a page of its block, anywhere past the header. */
    method Scribble(page: nat, words: Header, ghost first: nat)
      requires Valid() && InBlock(live, first, page) && page != first
      modifies headers
      ensures Valid()
    {
      hide Bitmap.Valid, Exact;
      InsideNotFirst(bits.marked, live, owner, setAside, firstPage, totalPages, first, page);
      LiveBelow(bits.marked, live, owner, setAside, firstPage, totalPages);
      headers[page] := words;
    }
  }

  /** Freeing what was just handed out gives back the state before. */
  method GiveBack(a: Allocator, size: nat) returns (addr: nat)
    requires a.Valid() && size < WORD
    modifies a, a.bits, a.bits.bytes, a.headers
    ensures a.Valid() && a.live == old(a.live) && a.bits.marked == old(a.bits.marked)
  {
    hide Exact, Run, Fits, Need, Bitmap.Valid;
    addr := a.Malloc(size);
    if addr == 0 { return; }
    ghost var page :| a.HandedAt(old(a.bits.marked), old(a.live), old(a.headers[..]), size, addr, page);
    assert a.PointsTo(addr, page) && page in a.live;
    ghost var n := a.live[page];
    a.Free(addr);
    assert old(a.bits.marked) + Run(page, n) - Run(page, n) == old(a.bits.marked);
  }
}
