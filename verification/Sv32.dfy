/** The application's page tables, and the two-level address translation of section 4.3.2 of the RISC-V
    Privileged Architecture, version 20211203. */
module Sv32 {
  import opened Arithmetic

  const PAGE: nat := 4096
  const ENTRIES: nat := 1024
  const MEGA: nat := 0x40_0000
  const CHUNKS: nat := 4
  const SPACE: nat := 0x1_0000_0000

  const V: nat := 1
  const R: nat := 2
  const W: nat := 4
  const X: nat := 8
  const U: nat := 16
  const A: nat := 64
  const D: nat := 128

  /** The flag with value `f` of an entry. */
  predicate Has(pte: nat, f: nat)
    requires f > 0
  {
    pte / f % 2 == 1
  }

  function Ppn(pte: nat): nat { pte / 1024 }

  datatype Access = Load | Store | Fetch

  datatype Result = Fault | Physical(pa: nat)

  /** Physical memory as far as the walk may read it: the root table and the second-level tables, one
      behind the other. */
  datatype Tables = Tables(root: seq<nat>, rootPa: nat, l2: seq<nat>, l2Pa: nat)
  {
    predicate Mapped(a: nat) {
      || (rootPa <= a < rootPa + 4 * |root| && (a - rootPa) % 4 == 0)
      || (l2Pa <= a < l2Pa + 4 * |l2| && (a - l2Pa) % 4 == 0)
    }

    function Word(a: nat): nat
      requires Mapped(a)
    {
      if rootPa <= a < rootPa + 4 * |root| && (a - rootPa) % 4 == 0 then root[(a - rootPa) / 4] else l2[(a - l2Pa) / 4]
    }
  }

  /** One step of the walk at level `i` with the table at physical address `a`, for an access from user
      mode. Reading what is not there faults. */
  function Walk(t: Tables, a: nat, i: nat, va: nat, access: Access): Result
    requires i <= 1
    decreases i
  {
    var vpn := if i == 1 then va / MEGA % ENTRIES else va / PAGE % ENTRIES;
    if !t.Mapped(a + 4 * vpn) then Fault
    else
      var pte := t.Word(a + 4 * vpn);
      if !Has(pte, V) || (!Has(pte, R) && Has(pte, W)) then Fault
      else if !Has(pte, R) && !Has(pte, X) then
        if i == 0 then Fault else Walk(t, Ppn(pte) * PAGE, i - 1, va, access)
      else if !Has(pte, U) || (access == Load && !Has(pte, R)) || (access == Store && !Has(pte, W))
        || (access == Fetch && !Has(pte, X)) then Fault
      else if i == 1 && Ppn(pte) % ENTRIES != 0 then Fault
      else if !Has(pte, A) || (access == Store && !Has(pte, D)) then Fault
      else if i == 1 then Physical(Ppn(pte) / ENTRIES * MEGA + va % MEGA)
      else Physical(Ppn(pte) * PAGE + va % PAGE)
  }

  function Translate(t: Tables, satp: nat, va: nat, access: Access): Result {
    Walk(t, satp % 0x40_0000 * PAGE, 1, va, access)
  }

  // ------------------------------------------------------------------ the entries the kernel writes

  function Leaf(pa: nat): nat { pa / PAGE * 1024 + (V + R + W + X + U + A + D) }

  function Pointer(table: nat): nat { table / PAGE * 1024 + V }

  lemma LeafBits(pa: nat)
    ensures var e := Leaf(pa);
      Has(e, V) && Has(e, R) && Has(e, W) && Has(e, X) && Has(e, U) && Has(e, A) && Has(e, D) && Ppn(e) == pa / PAGE
  {
    var n := pa / PAGE;
    var e := Leaf(pa);
    DivMod(e, 2, n * 512 + 111, 1);
    DivMod(e, 4, n * 256 + 55, 3);
    DivMod(e, 8, n * 128 + 27, 7);
    DivMod(e, 16, n * 64 + 13, 15);
    DivMod(e, 64, n * 16 + 3, 31);
    DivMod(e, 128, n * 8 + 1, 95);
    DivMod(e, 1024, n, 223);
    OddQuotients(n);
  }

  lemma OddQuotients(n: nat)
    ensures (n * 512 + 111) % 2 == (n * 256 + 55) % 2 == (n * 128 + 27) % 2 == (n * 64 + 13) % 2 == 1
    ensures (n * 16 + 3) % 2 == (n * 8 + 1) % 2 == 1
  {
    DivMod(n * 512 + 111, 2, n * 256 + 55, 1);
    DivMod(n * 256 + 55, 2, n * 128 + 27, 1);
    DivMod(n * 128 + 27, 2, n * 64 + 13, 1);
    DivMod(n * 64 + 13, 2, n * 32 + 6, 1);
    DivMod(n * 16 + 3, 2, n * 8 + 1, 1);
    DivMod(n * 8 + 1, 2, n * 4, 1);
  }

  lemma PointerBits(table: nat)
    ensures var e := Pointer(table);
      Has(e, V) && !Has(e, R) && !Has(e, W) && !Has(e, X) && Ppn(e) == table / PAGE
  {
    var n := table / PAGE;
    var e := Pointer(table);
    assert e == n * 1024 + 1;
    assert e / 2 == n * 512 && e / 4 == n * 256 && e / 8 == n * 128;
  }

  lemma EmptyBits()
    ensures !Has(0, V)
  {
  }

  // ------------------------------------------------------------------ the tables after filling

  /** The page, counted from page `sp`, that the `r`-th multiple of 4 MiB is. */
  function MegaPage(sp: nat, r: nat): int { r * ENTRIES - sp }

  /** The page, counted from page `sp`, whose entry is the `k`-th of the second-level tables. */
  function SmallPage(sp: nat, k: nat): nat {
    k / ENTRIES * ENTRIES + (k % ENTRIES + ENTRIES - sp % ENTRIES) % ENTRIES
  }

  predicate RootEntry(root: seq<nat>, l2Pa: nat, sp: nat, n: nat, r: nat)
    requires r < |root|
  {
    root[r] == if 0 <= MegaPage(sp, r) < n then Pointer(l2Pa + MegaPage(sp, r) / ENTRIES * PAGE) else 0
  }

  predicate SmallEntry(l2: seq<nat>, sp: nat, n: nat, k: nat)
    requires k < |l2|
  {
    l2[k] == if SmallPage(sp, k) < n then Leaf((sp + SmallPage(sp, k)) * PAGE) else 0
  }

  /** The tables after the first `n` pages from page `sp` have been entered. */
  ghost predicate Entered(t: Tables, sp: nat, n: nat) {
    && |t.root| == ENTRIES && |t.l2| == CHUNKS * ENTRIES
    && (forall r :: 0 <= r < ENTRIES ==> RootEntry(t.root, t.l2Pa, sp, n, r))
    && (forall k :: 0 <= k < CHUNKS * ENTRIES ==> SmallEntry(t.l2, sp, n, k))
  }

  lemma MegaHit(sp: nat, page: nat, r: nat)
    requires r < ENTRIES && sp + page < ENTRIES * ENTRIES
    ensures MegaPage(sp, r) == page <==> (sp + page) % ENTRIES == 0 && r == (sp + page) / ENTRIES
  {
    assert sp + page == (sp + page) / ENTRIES * ENTRIES + (sp + page) % ENTRIES;
  }

  lemma SmallHit(sp: nat, page: nat, k: nat)
    ensures SmallPage(sp, k) == page <==> k == page / ENTRIES * ENTRIES + (sp + page) % ENTRIES
  {
    var a, b, i := sp % ENTRIES, page % ENTRIES, k % ENTRIES;
    assert page == page / ENTRIES * ENTRIES + b && k == k / ENTRIES * ENTRIES + i;
    AddWraps(sp, page);
    Wraps(i, a, b);
  }

  lemma AddWraps(x: nat, y: nat)
    ensures (x + y) % ENTRIES == (x % ENTRIES + y % ENTRIES) % ENTRIES
  {
    var a, b := x % ENTRIES, y % ENTRIES;
    var e := if a + b < ENTRIES then 0 else 1;
    assert x == x / ENTRIES * ENTRIES + a && y == y / ENTRIES * ENTRIES + b;
    DivMod(x + y, ENTRIES, x / ENTRIES + y / ENTRIES + e, a + b - e * ENTRIES);
    DivMod(a + b, ENTRIES, e, a + b - e * ENTRIES);
  }

  /** Taking away and adding in a circle undo each other. */
  lemma Wraps(i: nat, a: nat, b: nat)
    requires i < ENTRIES && a < ENTRIES && b < ENTRIES
    ensures (i + ENTRIES - a) % ENTRIES == b <==> i == (a + b) % ENTRIES
  {
    var d, s := i + ENTRIES - a, a + b;
    var e, f := if d < ENTRIES then 0 else 1, if s < ENTRIES then 0 else 1;
    DivMod(d, ENTRIES, e, d - e * ENTRIES);
    DivMod(s, ENTRIES, f, s - f * ENTRIES);
  }

  /** Entering one more page. */
  lemma EnterOne(t: Tables, sp: nat, page: nat)
    requires Entered(t, sp, page) && sp + page < ENTRIES * ENTRIES && page < CHUNKS * ENTRIES
    ensures var p := sp + page;
      var root := if p % ENTRIES == 0 then t.root[p / ENTRIES := Pointer(t.l2Pa + page / ENTRIES * PAGE)] else t.root;
      Entered(t.(root := root, l2 := t.l2[page / ENTRIES * ENTRIES + p % ENTRIES := Leaf(p * PAGE)]), sp, page + 1)
  {
    var p := sp + page;
    var root := if p % ENTRIES == 0 then t.root[p / ENTRIES := Pointer(t.l2Pa + page / ENTRIES * PAGE)] else t.root;
    var l2 := t.l2[page / ENTRIES * ENTRIES + p % ENTRIES := Leaf(p * PAGE)];
    hide MegaPage, SmallPage, Pointer, Leaf;
    var n := page + 1;
    forall r | 0 <= r < ENTRIES
      ensures RootEntry(root, t.l2Pa, sp, n, r)
    {
      MegaHit(sp, page, r);
      assert RootEntry(t.root, t.l2Pa, sp, page, r);
    }
    forall k | 0 <= k < CHUNKS * ENTRIES
      ensures SmallEntry(l2, sp, n, k)
    {
      SmallHit(sp, page, k);
      assert SmallEntry(t.l2, sp, page, k);
    }
  }

  class AddressSpace {
    const root: array<nat>
    /** The four second-level tables, one behind the other. */
    const l2: array<nat>
    /** Where the tables are in physical memory. */
    const rootPa: nat
    const l2Pa: nat
    var satp: nat

    ghost predicate Valid() {
      root.Length == ENTRIES && l2.Length == CHUNKS * ENTRIES && root != l2 && GoodPlaces(rootPa, l2Pa)
    }

    constructor (rootPa: nat, l2Pa: nat)
      requires GoodPlaces(rootPa, l2Pa)
      ensures Valid() && this.rootPa == rootPa && this.l2Pa == l2Pa && fresh(root) && fresh(l2)
    {
      this.rootPa, this.l2Pa, satp := rootPa, l2Pa, 0;
      root, l2 := new nat[ENTRIES](_ => 0), new nat[CHUNKS * ENTRIES](_ => 0);
    }

    ghost function View(): Tables
      reads root, l2
    {
      Tables(root[..], rootPa, l2[..], l2Pa)
    }

    method Clear()
      requires Valid()
      modifies root, l2
      ensures root[..] == Zeros(ENTRIES) && l2[..] == Zeros(CHUNKS * ENTRIES)
    {
      for r := 0 to ENTRIES
        invariant forall k :: 0 <= k < r ==> root[k] == 0
      {
        root[r] := 0;
      }
      for r := 0 to CHUNKS * ENTRIES
        invariant forall k :: 0 <= k < ENTRIES ==> root[k] == 0
        invariant forall k :: 0 <= k < r ==> l2[k] == 0
      {
        l2[r] := 0;
      }
    }

    /** Fills the tables for the application region `[start, end)`, at most 16 MiB of it. */
    method Reset(start: nat, end: nat)
      requires Valid() && start % PAGE == 0 && end % PAGE == 0 && start <= end < SPACE
      modifies this`satp, root, l2
      ensures Entered(View(), start / PAGE, Pages(start, end)) && satp == 0x8000_0000 + rootPa / PAGE
      ensures start < end ==> (IdentityOn(View(), satp, start, end) <==> GoodRegion(start, end))
    {
      hide Entered, IdentityOn, GoodRegion;
      Clear();
      var pa, page := start, 0;
      ghost var sp := start / PAGE;
      NoneEntered(View(), sp);
      while pa < end
        invariant pa == (sp + page) * PAGE && page < CHUNKS * ENTRIES && pa <= end && Entered(View(), sp, page)
      {
        Enter(sp, pa, page);
        pa := pa + PAGE;
        page := page + 1;
        if page >= CHUNKS * ENTRIES { break; }
      }
      assert page == Pages(start, end);
      satp := 0x8000_0000 + rootPa / PAGE;
      if start < end { IdentityExactly(View(), satp, start, end); }
    }

    /** Enters page number `page`, counted from page `sp`. */
    method Enter(ghost sp: nat, pa: nat, page: nat)
      requires Valid() && pa == (sp + page) * PAGE < SPACE && page < CHUNKS * ENTRIES && Entered(View(), sp, page)
      modifies root, l2
      ensures Entered(View(), sp, page + 1)
    {
      ghost var t := View();
      EnterOne(t, sp, page);
      PageParts(sp + page);
      hide Entered;
      var rootIdx := pa / MEGA % ENTRIES;
      var l2Idx := pa / PAGE % ENTRIES;
      var chunk := page / ENTRIES;
      if pa % MEGA == 0 {
        root[rootIdx] := Pointer(l2Pa + chunk * PAGE);
      }
      l2[chunk * ENTRIES + l2Idx] := Leaf(pa);
      assert l2[..] == t.l2[chunk * ENTRIES + l2Idx := Leaf(pa)];
    }
  }

  predicate GoodPlaces(rootPa: nat, l2Pa: nat) {
    && rootPa % PAGE == 0 && l2Pa % PAGE == 0 && rootPa + PAGE <= SPACE && l2Pa + CHUNKS * PAGE <= SPACE
    && (rootPa + PAGE <= l2Pa || l2Pa + CHUNKS * PAGE <= rootPa)
  }

  function Zeros(n: nat): (s: seq<nat>)
    ensures |s| == n && forall k :: 0 <= k < n ==> s[k] == 0
  {
    seq(n, _ => 0)
  }

  /** The pages of a region that the tables have room for. */
  function Pages(start: nat, end: nat): nat
    requires start <= end
  {
    if (end - start) / PAGE < CHUNKS * ENTRIES then (end - start) / PAGE else CHUNKS * ENTRIES
  }

  lemma NoneEntered(t: Tables, sp: nat)
    requires t.root == Zeros(ENTRIES) && t.l2 == Zeros(CHUNKS * ENTRIES)
    ensures Entered(t, sp, 0)
  {
  }

  lemma PageParts(p: nat)
    requires p * PAGE < SPACE
    ensures p < ENTRIES * ENTRIES && p * PAGE / MEGA % ENTRIES == p / ENTRIES
    ensures p * PAGE / PAGE % ENTRIES == p % ENTRIES
    ensures p * PAGE % MEGA == 0 <==> p % ENTRIES == 0
  {
    assert p == p / ENTRIES * ENTRIES + p % ENTRIES;
    DivMod(p * PAGE, MEGA, p / ENTRIES, p % ENTRIES * PAGE);
  }

  // ------------------------------------------------------------------ what the tables translate

  /** Every address of the region is mapped to itself for every access, and nothing else is mapped. */
  ghost predicate IdentityOn(t: Tables, satp: nat, start: nat, end: nat) {
    forall va, access :: 0 <= va < SPACE ==>
      Translate(t, satp, va, access) == if start <= va < end then Physical(va) else Fault
  }

  predicate GoodTables(t: Tables, satp: nat) {
    GoodPlaces(t.rootPa, t.l2Pa) && |t.root| == ENTRIES && |t.l2| == CHUNKS * ENTRIES
      && satp == 0x8000_0000 + t.rootPa / PAGE
  }

  /** The walk starts at the root entry of the address. */
  lemma RootRead(t: Tables, satp: nat, va: nat)
    requires GoodTables(t, satp) && va < SPACE
    ensures va / MEGA < ENTRIES && satp % 0x40_0000 * PAGE == t.rootPa
    ensures t.Mapped(t.rootPa + 4 * (va / MEGA)) && t.Word(t.rootPa + 4 * (va / MEGA)) == t.root[va / MEGA]
  {
    assert t.rootPa == t.rootPa / PAGE * PAGE;
    DivMod(satp, 0x40_0000, 0x200, t.rootPa / PAGE);
  }

  lemma RootEmpty(t: Tables, satp: nat, va: nat, access: Access)
    requires GoodTables(t, satp) && va < SPACE && t.root[va / MEGA] == 0
    ensures Translate(t, satp, va, access) == Fault
  {
    RootRead(t, satp, va);
    EmptyBits();
    assert va / MEGA % ENTRIES == va / MEGA;
  }

  /** The walk goes on at a pointer. */
  lemma WalkOn(t: Tables, a: nat, va: nat, access: Access)
    requires t.Mapped(a + 4 * (va / MEGA % ENTRIES))
    requires var e := t.Word(a + 4 * (va / MEGA % ENTRIES)); Has(e, V) && !Has(e, R) && !Has(e, W) && !Has(e, X)
    ensures Walk(t, a, 1, va, access) == Walk(t, Ppn(t.Word(a + 4 * (va / MEGA % ENTRIES))) * PAGE, 0, va, access)
  {
    hide Has, Ppn, Tables.Word, Tables.Mapped;
  }

  lemma RootStep(t: Tables, satp: nat, c: nat, va: nat, access: Access)
    requires GoodTables(t, satp) && va < SPACE && c < CHUNKS && t.root[va / MEGA] == Pointer(t.l2Pa + c * PAGE)
    ensures Translate(t, satp, va, access) == Walk(t, t.l2Pa + c * PAGE, 0, va, access)
  {
    RootRead(t, satp, va);
    TopIndex(va);
    PointerBits(t.l2Pa + c * PAGE);
    PointerTable(t.l2Pa, c);
    hide Pointer, Has, Ppn, Tables.Word, Tables.Mapped, GoodTables, Walk;
    WalkOn(t, t.rootPa, va, access);
  }

  lemma TopIndex(va: nat)
    requires va < SPACE
    ensures va / MEGA % ENTRIES == va / MEGA
  {
  }

  /** A pointer leads to its table. */
  lemma PointerTable(l2Pa: nat, c: nat)
    requires l2Pa % PAGE == 0
    ensures Ppn(Pointer(l2Pa + c * PAGE)) * PAGE == l2Pa + c * PAGE
  {
    PointerBits(l2Pa + c * PAGE);
    DivMod(l2Pa + c * PAGE, PAGE, l2Pa / PAGE + c, 0);
    hide Pointer, Ppn;
  }

  /** A second-level entry is where the walk looks for it. */
  lemma LeafRead(t: Tables, c: nat, i: nat)
    requires GoodPlaces(t.rootPa, t.l2Pa) && |t.root| == ENTRIES && |t.l2| == CHUNKS * ENTRIES
    requires c < CHUNKS && i < ENTRIES
    ensures t.Mapped(t.l2Pa + c * PAGE + 4 * i) && t.Word(t.l2Pa + c * PAGE + 4 * i) == t.l2[c * ENTRIES + i]
  {
    var a, k := t.l2Pa + c * PAGE + 4 * i, c * ENTRIES + i;
    assert a == t.l2Pa + 4 * k;
    assert (a - t.l2Pa) / 4 == k && (a - t.l2Pa) % 4 == 0;
  }

  /** A leaf entry of its own page leads an address back to itself. */
  lemma LeafBack(va: nat)
    ensures Ppn(Leaf(va / PAGE * PAGE)) * PAGE + va % PAGE == va
  {
    LeafBits(va / PAGE * PAGE);
    DivMod(va / PAGE * PAGE, PAGE, va / PAGE, 0);
    hide Ppn, Leaf, Has;
  }

  /** The walk reads a second-level entry. */
  lemma LeafStep(t: Tables, c: nat, va: nat, access: Access)
    requires GoodPlaces(t.rootPa, t.l2Pa) && |t.root| == ENTRIES && |t.l2| == CHUNKS * ENTRIES && va < SPACE
    requires c < CHUNKS
    ensures var e := t.l2[c * ENTRIES + va / PAGE % ENTRIES];
      && (e == 0 ==> Walk(t, t.l2Pa + c * PAGE, 0, va, access) == Fault)
      && (e == Leaf(va / PAGE * PAGE) ==> Walk(t, t.l2Pa + c * PAGE, 0, va, access) == Physical(va))
  {
    hide Has, Ppn, Leaf, Tables.Word, Tables.Mapped, GoodPlaces;
    LeafRead(t, c, va / PAGE % ENTRIES);
    EmptyBits();
    LeafBits(va / PAGE * PAGE);
    LeafBack(va);
  }

  /** The region starts on a multiple of 4 MiB and has at most 16 MiB. */
  predicate GoodRegion(start: nat, end: nat) {
    start % MEGA == 0 && end - start <= CHUNKS * MEGA
  }

  lemma SmallPlace(sp: nat, c: nat, k: nat)
    requires sp % ENTRIES == 0 && k < ENTRIES
    ensures SmallPage(sp, c * ENTRIES + k) == c * ENTRIES + k
  {
    DivMod(c * ENTRIES + k, ENTRIES, c, k);
  }

  /** A region that starts on a multiple of 4 MiB, by pages. */
  lemma StartParts(start: nat)
    requires start % MEGA == 0
    ensures start == start / MEGA * MEGA && start / PAGE == start / MEGA * ENTRIES && start / PAGE % ENTRIES == 0
  {
    DivMod(start, PAGE, start / MEGA * ENTRIES, 0);
    DivMod(start / PAGE, ENTRIES, start / MEGA, 0);
  }

  /** A page by its multiple of 4 MiB and its place in it. */
  lemma VaParts(va: nat)
    ensures va / PAGE == va / MEGA * ENTRIES + va / PAGE % ENTRIES
  {
    var a, b := va / MEGA, va % MEGA;
    assert va == a * MEGA + b;
    DivMod(va, PAGE, a * ENTRIES + b / PAGE, b % PAGE);
    DivMod(va / PAGE, ENTRIES, a, b / PAGE);
  }

  /** In a good region every address is mapped to itself and every other address faults. */
  lemma GoodMapped(t: Tables, satp: nat, start: nat, end: nat, va: nat, access: Access)
    requires GoodTables(t, satp) && start % PAGE == 0 && end % PAGE == 0 && start < end < SPACE
    requires GoodRegion(start, end)
    requires Entered(t, start / PAGE, Pages(start, end)) && va < SPACE
    ensures Translate(t, satp, va, access) == if start <= va < end then Physical(va) else Fault
  {
    hide Walk, Has, Leaf, Pointer, Tables.Word, Tables.Mapped, SmallPage, Pages, MegaPage, GoodPlaces, Translate;
    var sp, n, r, k := start / PAGE, Pages(start, end), va / MEGA, va / PAGE % ENTRIES;
    RegionParts(start, end, va);
    assert RootEntry(t.root, t.l2Pa, sp, n, r);
    var c := r - start / MEGA;
    hide Entered;
    if 0 <= c && c * ENTRIES < n {
      RootStep(t, satp, c, va, access);
      LeafStep(t, c, va, access);
      RegionLeaf(t, sp, n, c, k, va / PAGE);
    } else {
      RootEmpty(t, satp, va, access);
    }
  }

  /** The second-level entry of a page of a good region. */
  lemma RegionLeaf(t: Tables, sp: nat, n: nat, c: nat, k: nat, page: nat)
    requires Entered(t, sp, n) && sp % ENTRIES == 0 && c < CHUNKS && k < ENTRIES && sp + (c * ENTRIES + k) == page
    ensures t.l2[c * ENTRIES + k] == if c * ENTRIES + k < n then Leaf(page * PAGE) else 0
  {
    SmallPlace(sp, c, k);
    assert SmallEntry(t.l2, sp, n, c * ENTRIES + k);
    hide SmallPage, Leaf;
  }

  /** Where an address is in a good region: `c` tables of 1024 pages and `k` pages on. */
  lemma RegionParts(start: nat, end: nat, va: nat)
    requires start % PAGE == 0 && end % PAGE == 0 && start < end < SPACE && GoodRegion(start, end) && va < SPACE
    ensures var sp, n, r, k := start / PAGE, Pages(start, end), va / MEGA, va / PAGE % ENTRIES;
      var c := r - start / MEGA;
      && n <= CHUNKS * ENTRIES && sp % ENTRIES == 0 && MegaPage(sp, r) == c * ENTRIES
      && (c >= 0 ==> MegaPage(sp, r) / ENTRIES == c)
      && sp + (c * ENTRIES + k) == va / PAGE && (start <= va < end <==> 0 <= c * ENTRIES + k < n)
  {
    StartParts(start);
    VaParts(va);
    assert end - start == (end - start) / PAGE * PAGE;
    assert va == va / PAGE * PAGE + va % PAGE;
  }

  /** The first page of a region that does not start on a multiple of 4 MiB, and the page 16 MiB after
      the start of one that does, are not mapped. */
  lemma BadUnmapped(t: Tables, satp: nat, start: nat, end: nat)
    requires GoodTables(t, satp) && start % PAGE == 0 && end % PAGE == 0 && start < end < SPACE
    requires !GoodRegion(start, end)
    requires Entered(t, start / PAGE, Pages(start, end))
    ensures var va := if start % MEGA != 0 then start else start + CHUNKS * MEGA;
      start <= va < end && Translate(t, satp, va, Load) == Fault
  {
    var sp, n := start / PAGE, Pages(start, end);
    var va := if start % MEGA != 0 then start else start + CHUNKS * MEGA;
    var r := va / MEGA;
    assert start == sp * PAGE && start == start / MEGA * MEGA + start % MEGA;
    assert RootEntry(t.root, t.l2Pa, sp, n, r);
    if start % MEGA == 0 {
      StartParts(start);
      DivMod(va, MEGA, start / MEGA + CHUNKS, 0);
    } else {
      VaParts(start);
      assert r * MEGA < start;
      assert MegaPage(sp, r) < 0;
    }
    RootEmpty(t, satp, va, Load);
  }

  /** The tables map exactly the region, to itself, if and only if it starts on a multiple of 4 MiB and
      has at most 16 MiB. */
  lemma IdentityExactly(t: Tables, satp: nat, start: nat, end: nat)
    requires GoodTables(t, satp) && start % PAGE == 0 && end % PAGE == 0 && start < end < SPACE
    requires Entered(t, start / PAGE, Pages(start, end))
    ensures IdentityOn(t, satp, start, end) <==> GoodRegion(start, end)
  {
    if GoodRegion(start, end) {
      forall va, access | 0 <= va < SPACE
        ensures Translate(t, satp, va, access) == if start <= va < end then Physical(va) else Fault
      {
        GoodMapped(t, satp, start, end, va, access);
      }
    } else {
      BadUnmapped(t, satp, start, end);
    }
  }
}
