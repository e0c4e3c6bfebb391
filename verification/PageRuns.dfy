/** Pages, runs of pages and the blocks the allocator has handed out, as values. */
module PageRuns {
  import opened Sequences

  const PAGE: nat := 4096
  const HEADER: nat := 16
  const WORD: nat := 0x1_0000_0000
  const MAGIC: nat := 0x4d41_5030

  /** The pages `[first, first + n)`. */
  function Run(first: nat, n: nat): (s: set<nat>)
    ensures forall p :: p in s <==> first <= p < first + n
    ensures |s| == n
  {
    if n == 0 then {} else Run(first, n - 1) + {first + n - 1}
  }

  /** The pages a request needs: its bytes (at least one) and its header, rounded up. */
  function Need(size: nat): (n: nat)
    ensures n >= 1
  {
    ((if size == 0 then 1 else size) + HEADER + PAGE - 1) / PAGE
  }

  /** The page count in 32-bit arithmetic. */
  function PagesForSize(size: nat): nat {
    (size + PAGE - 1) % WORD / PAGE
  }

  /** The bytes of a block: its header and what was asked for, one byte when nothing was. */
  function BlockBytes(size: nat): nat { HEADER + (if size == 0 then 1 else size) }

  /** `n` pages are the least that hold the header and the request. */
  predicate LeastPages(size: nat, n: nat) {
    n > 0 && BlockBytes(size) <= n * PAGE && (n - 1) * PAGE < BlockBytes(size)
  }

  lemma NeedLeast(size: nat, n: nat)
    ensures LeastPages(size, Need(size)) && (LeastPages(size, n) ==> n == Need(size))
    ensures n * PAGE >= BlockBytes(size) <==> n >= Need(size)
  {
  }

  /** No run of free pages from `first` on holds a header and `size` bytes. */
  ghost predicate NoneHolds(used: set<nat>, size: nat, first: nat, last: nat) {
    forall p: nat, n: nat :: first <= p && Fits(used, p, n, last) ==> n * PAGE < BlockBytes(size)
  }

  /** So it is exactly when the pages needed are nowhere free in a row. */
  lemma NoneHoldsNeed(used: set<nat>, size: nat, first: nat, last: nat)
    ensures NoneHolds(used, size, first, last) <==> forall p: nat :: first <= p ==> !Fits(used, p, Need(size), last)
  {
    NeedLeast(size, Need(size));
    forall p: nat, n: nat | first <= p && Fits(used, p, n, last) && n * PAGE >= BlockBytes(size)
      ensures Fits(used, p, Need(size), last)
    {
      NeedLeast(size, n);
    }
  }

  /** A page count that wraps comes out as zero; any other is right. */
  lemma WrapIsZero(size: nat)
    requires 0 < size && size + HEADER < WORD
    ensures PagesForSize(size + HEADER) == if size + HEADER + PAGE - 1 < WORD then Need(size) else 0
    ensures size + HEADER + PAGE - 1 >= WORD ==> Need(size) >= WORD / PAGE
  {
  }

  /** A free run of `n` pages starts at `p`. */
  ghost predicate Fits(used: set<nat>, p: nat, n: nat, last: nat) {
    p + n <= last && forall q :: p <= q < p + n ==> q !in used
  }

  /** A used page rules out every start that would cover it. */
  lemma Skip(used: set<nat>, page: nat, j: nat, n: nat, last: nat)
    requires j < n && page + j in used
    ensures forall p :: page <= p <= page + j ==> !Fits(used, p, n, last)
  {
  }

  // ------------------------------------------------------------------ the blocks handed out

  /** Page `p` belongs to the block that starts at `first`. */
  predicate InBlock(live: map<nat, nat>, first: nat, p: nat) {
    first in live && first <= p < first + live[first]
  }

  /** The used pages are the ones below `lo`, the reserved ones and the ones of live blocks. `owner`
      gives each page of a live block the block's first page, so no page belongs to two blocks. */
  ghost predicate Exact(used: set<nat>, live: map<nat, nat>, owner: map<nat, nat>, reserved: set<nat>, lo: nat,
                        hi: nat) {
    && (forall f :: f in live ==> lo <= f && 0 < live[f] && f + live[f] <= hi)
    && (forall p :: p in owner ==> InBlock(live, owner[p], p) && p !in reserved)
    && (forall f, p :: InBlock(live, f, p) ==> p in owner && owner[p] == f)
    && (forall p :: p in used ==> p < hi)
    && (forall p :: p in used <==> 0 <= p < hi && (p < lo || p in reserved || p in owner))
    && lo <= hi
  }

  /** Live blocks are disjoint runs that avoid the bitmap's pages and the reserved ones. */
  lemma LiveApart(used: set<nat>, live: map<nat, nat>, owner: map<nat, nat>, reserved: set<nat>, lo: nat, hi: nat,
                  f: nat, g: nat)
    requires Exact(used, live, owner, reserved, lo, hi) && f in live && g in live
    ensures f != g ==> Run(f, live[f]) !! Run(g, live[g])
    ensures Run(f, live[f]) !! reserved && Run(f, live[f]) <= used && forall p :: p in Run(f, live[f]) ==> p >= lo
  {
    forall p | p in Run(f, live[f])
      ensures p in owner && owner[p] == f
    {
      assert InBlock(live, f, p);
    }
    forall p | p in Run(g, live[g])
      ensures p in owner && owner[p] == g
    {
      assert InBlock(live, g, p);
    }
  }

  function Owned(page: nat, n: nat): map<nat, nat> {
    map p | p in Run(page, n) :: page
  }

  lemma TakeRun(used: set<nat>, live: map<nat, nat>, owner: map<nat, nat>, reserved: set<nat>, lo: nat, hi: nat,
                page: nat, n: nat)
    requires Exact(used, live, owner, reserved, lo, hi) && Fits(used, page, n, hi) && n > 0 && lo <= page
    ensures page !in live && Exact(used + Run(page, n), live[page := n], owner + Owned(page, n), reserved, lo, hi)
    ensures |used + Run(page, n)| == |used| + n
  {
    hide Run;
    var live1, owner1 := live[page := n], owner + Owned(page, n);
    assert page !in used;
    assert page in live ==> InBlock(live, page, page);
    assert used !! Run(page, n);
    forall p | p in owner1
      ensures InBlock(live1, owner1[p], p) && p !in reserved
    {
      assert p in owner ==> p in used && owner[p] != page;
    }
    forall f, p | InBlock(live1, f, p)
      ensures p in owner1 && owner1[p] == f
    {
      assert f != page ==> InBlock(live, f, p);
    }
  }

  lemma GiveRun(used: set<nat>, live: map<nat, nat>, owner: map<nat, nat>, reserved: set<nat>, lo: nat, hi: nat,
                page: nat)
    requires Exact(used, live, owner, reserved, lo, hi) && page in live
    ensures Exact(used - Run(page, live[page]), live - {page}, owner - Run(page, live[page]), reserved, lo, hi)
    ensures |used - Run(page, live[page])| == |used| - live[page]
  {
    hide Run, InBlock;
    GivenUsed(used, live, owner, reserved, lo, hi, page);
    RemovedSize(used, Run(page, live[page]));
    GivenOwner(used, live, owner, reserved, lo, hi, page);
    GivenBlocks(used, live, owner, reserved, lo, hi, page);
  }

  lemma GivenBlocks(used: set<nat>, live: map<nat, nat>, owner: map<nat, nat>, reserved: set<nat>, lo: nat, hi: nat,
                    page: nat)
    requires Exact(used, live, owner, reserved, lo, hi) && page in live
    ensures forall p :: p in owner - Run(page, live[page]) ==> InBlock(live - {page}, owner[p], p) && p !in reserved
  {
    forall p | p in owner - Run(page, live[page])
      ensures InBlock(live - {page}, owner[p], p)
    {
      assert InBlock(live, owner[p], p);
    }
  }

  lemma GivenOwner(used: set<nat>, live: map<nat, nat>, owner: map<nat, nat>, reserved: set<nat>, lo: nat, hi: nat,
                   page: nat)
    requires Exact(used, live, owner, reserved, lo, hi) && page in live
    ensures forall f, p :: InBlock(live - {page}, f, p) ==> p in owner - Run(page, live[page]) && owner[p] == f
  {
    hide Run;
    GivenUsed(used, live, owner, reserved, lo, hi, page);
    forall f, p | InBlock(live - {page}, f, p)
      ensures p in owner - Run(page, live[page]) && owner[p] == f
    {
      assert InBlock(live, f, p);
    }
  }

  lemma GivenUsed(used: set<nat>, live: map<nat, nat>, owner: map<nat, nat>, reserved: set<nat>, lo: nat, hi: nat,
                  page: nat)
    requires Exact(used, live, owner, reserved, lo, hi) && page in live
    ensures forall p :: p in Run(page, live[page]) ==>
      p in owner && owner[p] == page && p in used && p >= lo && p !in reserved
    ensures Run(page, live[page]) <= used
  {
    LiveApart(used, live, owner, reserved, lo, hi, page, page);
    forall p | p in Run(page, live[page])
      ensures p in owner && owner[p] == page && p !in reserved
    {
      assert InBlock(live, page, p);
    }
  }

  /** The start of a page further on in a block is not the start of a block. */
  lemma InsideNotFirst(used: set<nat>, live: map<nat, nat>, owner: map<nat, nat>, reserved: set<nat>, lo: nat, hi: nat,
                       first: nat, page: nat)
    requires Exact(used, live, owner, reserved, lo, hi) && InBlock(live, first, page) && page != first
    ensures page !in live && page < hi
  {
    assert page in live ==> InBlock(live, page, page);
  }

  /** Before anything is handed out only the pages below `lo` are used. */
  lemma StartExact(lo: nat, hi: nat)
    requires lo <= hi
    ensures Exact(Upto(hi) - Run(lo, hi - lo), map[], map[], {}, lo, hi)
  {
  }

  /** Setting one page aside while nothing is handed out. */
  lemma SetOneAside(used: set<nat>, reserved: set<nat>, lo: nat, hi: nat, page: nat)
    requires Exact(used, map[], map[], reserved, lo, hi) && page < hi
    ensures Exact(used + {page}, map[], map[], reserved + {page}, lo, hi)
  {
  }
}
