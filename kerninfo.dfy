/** `mon_kerninfo` (kern/monitor.c:43-57): the kernel's special symbols, their
    physical addresses and the kernel's memory footprint in kilobytes. The
    linker symbols and KERNBASE are parameters. `ROUNDUP` and `ROUNDDOWN` come
    from inc/types.h, which is not part of this model; they are taken as the
    usual JOS definitions, which compute in `uint32_t` and cast the result back
    to the argument's type. */
module KernInfo {
  import opened Uint32

  /** The unit of the footprint (kern/monitor.c:55). */
  const KB: nat := 1024

  /** The linker symbols `_start`, `entry`, `etext`, `edata` and `end`
      (kern/monitor.c:46), as 32-bit addresses. */
  datatype Symbols = Symbols(start: Word, entry: Word, etext: Word, edata: Word, end: Word)

  /** What `mon_kerninfo` prints: `_start`; the virtual and the physical
      address of each of `entry`, `etext`, `edata` and `end`; and the footprint
      in KB. */
  datatype Report = Report(start: int, entry: int, entryPhys: int, etext: int, etextPhys: int,
                           edata: int, edataPhys: int, end: int, endPhys: int, footprintKB: int)

  /** `ROUNDUP(a, 1024)` in `uint32_t`: round `(uint32_t) a + 1023` down to a
      multiple of 1024, wrapping at 2^32. */
  function RoundUpKB(a: int): (r: Word)
    ensures r % KB == 0
    ensures 0 <= a && a + KB - 1 < U32 ==> a <= r < a + KB
  {
    var x := (a % U32 + KB - 1) % U32;
    x - x % KB
  }

  /** `k` KB is the size `d` in KB rounded up: the least `k` with
      `k * 1024 >= d`. */
  predicate IsSizeInKB(k: int, d: int) {
    k >= 0 && k * KB >= d && (k == 0 || (k - 1) * KB < d)
  }

  /** The largest image size whose rounded-up size still reads as a positive
      `ptrdiff_t`: 2 GiB minus 1 KiB. */
  const MaxImage: int := 0x7FFF_FC00

  /** The footprint `ROUNDUP(end - entry, 1024) / 1024` (kern/monitor.c:54-55):
      the rounded difference is a `ptrdiff_t` again, and it is a multiple of
      1024, so the signed division is exact. Up to `MaxImage` bytes it is the
      kernel's size in KB rounded up. */
  function Footprint(entry: int, end: int): (k: int)
    ensures 0 <= end - entry <= MaxImage ==> IsSizeInKB(k, end - entry)
  {
    var r := RoundUpKB(end - entry);
    assert 0 <= end - entry <= MaxImage ==> Signed32(r) == r && (r / KB) * KB == r;
    Signed32(r) / KB
  }

  /** The address `va - KERNBASE`, printed as a 32-bit address. */
  predicate IsPhysOf(pa: int, va: int, kernbase: int) {
    0 <= pa < U32 && (pa + kernbase - va) % U32 == 0
  }

  /** `x - KERNBASE` printed as a 32-bit address (kern/monitor.c:50-53). */
  function Phys(va: int, kernbase: int): (pa: int)
    ensures IsPhysOf(pa, va, kernbase)
  {
    (va - kernbase) % U32
  }

  /** `mon_kerninfo`'s output (kern/monitor.c:48-55); it returns 0. `_start` is
      printed as it is, the other four symbols as they are and as physical
      addresses, and for
      an image of at most `MaxImage` bytes the footprint is its size in KB
      rounded up. */
  function Info(syms: Symbols, kernbase: int): (r: Report)
    ensures r.start == syms.start && r.entry == syms.entry && r.etext == syms.etext
    ensures r.edata == syms.edata && r.end == syms.end
    ensures IsPhysOf(r.entryPhys, syms.entry, kernbase) && IsPhysOf(r.etextPhys, syms.etext, kernbase)
    ensures IsPhysOf(r.edataPhys, syms.edata, kernbase) && IsPhysOf(r.endPhys, syms.end, kernbase)
    ensures 0 <= syms.end - syms.entry <= MaxImage ==> IsSizeInKB(r.footprintKB, syms.end - syms.entry)
  {
    Report(syms.start, syms.entry, Phys(syms.entry, kernbase), syms.etext, Phys(syms.etext, kernbase),
           syms.edata, Phys(syms.edata, kernbase), syms.end, Phys(syms.end, kernbase),
           Footprint(syms.entry, syms.end))
  }

  /** The footprint of an empty image is 0 KB, and one byte more costs a whole
      KB. */
  lemma FootprintSmallCases(entry: int)
    ensures Footprint(entry, entry) == 0
    ensures Footprint(entry, entry + 1) == 1
    ensures Footprint(entry, entry + KB) == 1
    ensures Footprint(entry, entry + KB + 1) == 2
  {
  }
}
