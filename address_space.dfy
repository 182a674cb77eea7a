/**
 * The part of a task's address space that `mmap` and `munmap` see.
 *
 * A task's memory set is abstracted as a finite map from virtual page number
 * to the permission the page is mapped with: `translate(vpn)` yielding a valid
 * entry is `vpn in pages`, `insert_framed_area` adds a run of pages and the
 * memory set's per-page `munmap` removes one key.
 */
module AddressSpace {
  import opened Wrappers
  import opened Config

  /** A `MapPermission`: read, write, execute and user-accessible flags. */
  datatype Perm = Perm(read: bool, write: bool, exec: bool, user: bool)

  /** A task's mapped pages: virtual page number to permission. */
  type Pages = map<nat, Perm>

  // ---------------------------------------------------------------------------
  // Permission bits of the `port` argument
  // ---------------------------------------------------------------------------

  /**
   * `mmap`'s rejection test on `port`: a bit above the low three, or none of
   * them. It rejects exactly the ports outside 1..7.
   */
  predicate PortRejected(port: bv64): (rejected: bool)
    ensures rejected <==> port == 0 || port >= 8
  {
    port & !7 != 0 || port & 7 == 0
  }

  /**
   * The permission `mmap` grants for `port`: bit 0 read, bit 1 write,
   * bit 2 execute, plus the implicit user flag.
   */
  function PermFromPort(port: bv64): (p: Perm)
    ensures p.user
    ensures PortOf(p) == port & 7
    ensures !PortRejected(port) ==> p.read || p.write || p.exec
  {
    Perm(port & 1 != 0, port & 2 != 0, port & 4 != 0, true)
  }

  /** The `port` value that requests permission `p` (the user flag is implicit). */
  function PortOf(p: Perm): bv64
  {
    (if p.read then 1 else 0) | (if p.write then 2 else 0) | (if p.exec then 4 else 0)
  }

  /** Every accepted port is recovered from the permission it grants. */
  lemma PortRoundTrip(port: bv64)
    requires !PortRejected(port)
    ensures PortOf(PermFromPort(port)) == port
  {
  }

  /**
   * Every user-accessible permission with at least one of read, write and
   * execute is granted by exactly one accepted port.
   */
  lemma PermRoundTrip(p: Perm)
    requires p.user && (p.read || p.write || p.exec)
    ensures !PortRejected(PortOf(p))
    ensures PermFromPort(PortOf(p)) == p
  {
  }

  // ---------------------------------------------------------------------------
  // Byte ranges to page ranges
  // ---------------------------------------------------------------------------

  /** `VirtAddr(addr).into()`: the page that contains byte `addr`. */
  function VpnFloor(addr: nat): (vpn: nat)
    ensures vpn * PAGE_SIZE <= addr < (vpn + 1) * PAGE_SIZE
  {
    addr / PAGE_SIZE
  }

  /** `VirtAddr(addr).ceil()`: the first page that starts at or after byte `addr`. */
  function VpnCeil(addr: nat): (vpn: nat)
    ensures addr <= vpn * PAGE_SIZE
    ensures vpn == 0 || (vpn - 1) * PAGE_SIZE < addr
  {
    if addr == 0 then 0 else (addr - 1 + PAGE_SIZE) / PAGE_SIZE
  }

  /** `vpn` lies in the `VPNRange` built from `start` and `start + len`. */
  predicate InPageRange(start: nat, len: nat, vpn: nat)
  {
    VpnFloor(start) <= vpn < VpnCeil(start + len)
  }

  /**
   * For an aligned `start`, the page range holds exactly the pages whose
   * first byte lies in `[start, start + len)`.
   */
  lemma PageRangeExact(start: nat, len: nat, vpn: nat)
    requires start % PAGE_SIZE == 0
    ensures InPageRange(start, len, vpn) <==> start <= vpn * PAGE_SIZE < start + len
  {
  }

  // ---------------------------------------------------------------------------
  // The page-by-page searches of mmap and munmap
  // ---------------------------------------------------------------------------

  /** The first page of `[lo, hi)` that is mapped, as `mmap`'s `find` returns it. */
  function FindMapped(pages: Pages, lo: nat, hi: nat): (r: Option<nat>)
    decreases hi - lo
    ensures r.Some? ==> lo <= r.value < hi && r.value in pages
    ensures r.Some? ==> forall v :: lo <= v < r.value ==> v !in pages
    ensures r.None? <==> forall v :: lo <= v < hi ==> v !in pages
  {
    if lo >= hi then None
    else if lo in pages then Some(lo)
    else FindMapped(pages, lo + 1, hi)
  }

  /** The first page of `[lo, hi)` that is not mapped, as `munmap`'s `find` returns it. */
  function FindUnmapped(pages: Pages, lo: nat, hi: nat): (r: Option<nat>)
    decreases hi - lo
    ensures r.Some? ==> lo <= r.value < hi && r.value !in pages
    ensures r.Some? ==> forall v :: lo <= v < r.value ==> v in pages
    ensures r.None? <==> forall v :: lo <= v < hi ==> v in pages
  {
    if lo >= hi then None
    else if lo !in pages then Some(lo)
    else FindUnmapped(pages, lo + 1, hi)
  }

  /**
   * `insert_framed_area`: every page of `[lo, hi)` becomes mapped with
   * `perm`; every other page keeps its mapping or stays unmapped.
   */
  function InsertFramedArea(pages: Pages, lo: nat, hi: nat, perm: Perm): (r: Pages)
    decreases hi - lo
    ensures forall v :: v in r <==> v in pages || lo <= v < hi
    ensures forall v :: lo <= v < hi ==> r[v] == perm
    ensures forall v :: v in pages && !(lo <= v < hi) ==> r[v] == pages[v]
  {
    if lo >= hi then pages
    else InsertFramedArea(pages[lo := perm], lo + 1, hi, perm)
  }

  /**
   * The pages left after unmapping every page of `[lo, hi)` one by one:
   * the pages outside the range, with their permissions.
   */
  function RemoveRange(pages: Pages, lo: nat, hi: nat): (r: Pages)
    ensures forall v :: v in r <==> v in pages && !(lo <= v < hi)
    ensures forall v :: v in r ==> r[v] == pages[v]
  {
    map v | v in pages && !(lo <= v < hi) :: pages[v]
  }

  // ---------------------------------------------------------------------------
  // mmap and munmap on one task's pages
  // ---------------------------------------------------------------------------

  /**
   * The effect of `mmap(start, len, port)` on the current task's pages:
   * `None` is the `-1` return with nothing changed, `Some(p)` the `0`
   * return with the new pages `p`.
   */
  function MmapPages(pages: Pages, start: nat, len: nat, port: bv64): (r: Option<Pages>)
    ensures r.None? <==>
      start % PAGE_SIZE != 0 || PortRejected(port) ||
      exists v :: InPageRange(start, len, v) && v in pages
    ensures r.Some? ==> forall v :: InPageRange(start, len, v) ==>
      v in r.value && r.value[v] == PermFromPort(port)
    ensures r.Some? ==> forall v :: !InPageRange(start, len, v) ==>
      (v in r.value <==> v in pages) && (v in pages ==> r.value[v] == pages[v])
  {
    if start % PAGE_SIZE != 0 || PortRejected(port) then None
    else
      var startVpn, endVpn := VpnFloor(start), VpnCeil(start + len);
      if FindMapped(pages, startVpn, endVpn).Some? then None
      else Some(InsertFramedArea(pages, startVpn, endVpn, PermFromPort(port)))
  }

  /**
   * The effect of `munmap(start, len)` on the current task's pages, with the
   * same reading of `None` and `Some` as `MmapPages`.
   */
  function MunmapPages(pages: Pages, start: nat, len: nat): (r: Option<Pages>)
    ensures r.None? <==>
      start % PAGE_SIZE != 0 ||
      exists v :: InPageRange(start, len, v) && v !in pages
    ensures r.Some? ==> forall v :: v in r.value <==> v in pages && !InPageRange(start, len, v)
    ensures r.Some? ==> forall v :: v in r.value ==> r.value[v] == pages[v]
  {
    if start % PAGE_SIZE != 0 then None
    else
      var startVpn, endVpn := VpnFloor(start), VpnCeil(start + len);
      if FindUnmapped(pages, startVpn, endVpn).Some? then None
      else Some(RemoveRange(pages, startVpn, endVpn))
  }

  /** After unmapping a range, the post-unmap recheck finds no page still mapped. */
  lemma RecheckAfterUnmap(pages: Pages, lo: nat, hi: nat)
    ensures FindMapped(RemoveRange(pages, lo, hi), lo, hi).None?
  {
  }

  // ---------------------------------------------------------------------------
  // Properties relating several calls
  // ---------------------------------------------------------------------------

  /** Unmapping exactly the range a successful `mmap` mapped restores the pages. */
  lemma MunmapUndoesMmap(pages: Pages, start: nat, len: nat, port: bv64)
    requires MmapPages(pages, start, len, port).Some?
    ensures MunmapPages(MmapPages(pages, start, len, port).value, start, len) == Some(pages)
  {
    var mapped := MmapPages(pages, start, len, port).value;
    var back := MunmapPages(mapped, start, len);
    assert back.Some?;
    forall v ensures v in back.value <==> v in pages {
    }
    forall v | v in back.value ensures back.value[v] == pages[v] {
    }
    assert back.value == pages;
  }

  /**
   * A second `mmap` whose range shares a page with a successful first one
   * fails, so the first mapping stays intact.
   */
  lemma OverlappingMmapFails(pages: Pages, start1: nat, len1: nat, port1: bv64,
                             start2: nat, len2: nat, port2: bv64, vpn: nat)
    requires MmapPages(pages, start1, len1, port1).Some?
    requires InPageRange(start1, len1, vpn) && InPageRange(start2, len2, vpn)
    ensures MmapPages(MmapPages(pages, start1, len1, port1).value, start2, len2, port2).None?
  {
  }

  /**
   * `mmap(0x1000, 0x2000, 0b011)` on an empty address space maps pages 1 and
   * 2 readable, writable and user-accessible, not executable, and nothing else.
   */
  lemma MmapTwoPagesReadWrite()
    ensures MmapPages(map[], 0x1000, 0x2000, 3) ==
      Some(map[1 := Perm(true, true, false, true), 2 := Perm(true, true, false, true)])
  {
  }
}
