/** The validated UEFI memory map: regions whose end addresses fit in 64 bits. */
module MemoryMap {
  import opened Wrappers

  const PAGE_SIZE: nat := 4096

  datatype MemoryKind =
    | Reserved | LoaderCode | LoaderData | BootServicesCode | BootServicesData
    | RuntimeServicesCode | RuntimeServicesData | Conventional | Unusable | AcpiReclaim | AcpiNvs
    | Mmio | MmioPortSpace | PalCode | Persistent | Unaccepted | Unknown(raw: nat)
  {
    /** Unknown types are not RAM. */
    predicate IsRam()
      ensures IsRam() <==>
              !(Reserved? || Unusable? || Mmio? || MmioPortSpace? || PalCode? || Persistent? || Unaccepted? || Unknown?)
    {
      || LoaderCode? || LoaderData? || BootServicesCode? || BootServicesData?
      || RuntimeServicesCode? || RuntimeServicesData? || Conventional? || AcpiReclaim? || AcpiNvs?
    }
  }

  datatype Region = Region(kind: MemoryKind, base: nat, pages: nat) {
    function End(): nat { base + pages * PAGE_SIZE }

    predicate Overlaps(start: nat, end: nat) { base < end && start < End() }
  }

  ghost predicate RamByte(regions: seq<Region>, x: nat) {
    exists i :: 0 <= i < |regions| && regions[i].kind.IsRam() && regions[i].base <= x < regions[i].End()
  }

  /** `top` is the highest end of any RAM region. */
  ghost predicate IsRamTop(regions: seq<Region>, top: nat) {
    && (forall i :: 0 <= i < |regions| && regions[i].kind.IsRam() ==> regions[i].End() <= top)
    && (exists i :: 0 <= i < |regions| && regions[i].kind.IsRam() && regions[i].End() == top)
  }

  predicate HasRam(regions: seq<Region>) {
    exists i :: 0 <= i < |regions| && regions[i].kind.IsRam()
  }

  method RamTop(regions: seq<Region>) returns (top: Option<nat>)
    ensures top.Some? <==> HasRam(regions)
    ensures top.Some? ==> IsRamTop(regions, top.value)
  {
    top := None;
    for n := 0 to |regions|
      invariant top.None? <==> forall i :: 0 <= i < n ==> !regions[i].kind.IsRam()
      invariant top.Some? ==>
                  && (forall i :: 0 <= i < n && regions[i].kind.IsRam() ==> regions[i].End() <= top.value)
                  && (exists i :: 0 <= i < n && regions[i].kind.IsRam() && regions[i].End() == top.value)
    {
      if regions[n].kind.IsRam() && (top.None? || top.value < regions[n].End()) {
        top := Some(regions[n].End());
      }
    }
  }
}
