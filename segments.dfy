/**
 * The segment validator: an address is usable only when it lies inside one
 * of the module's loadable (PT_LOAD) segments, placed at the module's base.
 */
module Segments {
  import opened Elf

  datatype Option<T> = None | Some(value: T)

  /** `addr` lies in the memory image of header `ph` of a module loaded at `base`. */
  predicate InSegment(addr: u64, base: u64, ph: Phdr) {
    ph.pType == PT_LOAD &&
    AddrAdd(base, ph.vaddr) <= addr < AddrAdd(AddrAdd(base, ph.vaddr), ph.memsz)
  }

  /** `addr` is non-null and lies in some loadable segment of the module. */
  predicate Resolvable(addr: u64, base: u64, headers: seq<Phdr>) {
    addr != 0 && exists h :: 0 <= h < |headers| && InSegment(addr, base, headers[h])
  }

  /** The validated pointer: `addr` itself when it resolves, null otherwise. */
  function Resolve(addr: u64, base: u64, headers: seq<Phdr>): (r: Option<u64>)
    ensures r.Some? <==> Resolvable(addr, base, headers)
    ensures r.Some? ==> r.value == addr
  {
    if Resolvable(addr, base, headers) then Some(addr) else None
  }

  /**
   * `dynamic_pointer`: scans the headers in order and returns `addr` at the
   * first loadable segment that contains it.
   */
  method DynamicPointer(addr: u64, base: u64, headers: seq<Phdr>) returns (r: Option<u64>)
    ensures addr == 0 ==> r == None
    ensures r.Some? ==> r.value == addr
    ensures r.Some? <==> Resolvable(addr, base, headers)
  {
    if addr != 0 {
      var h := 0;
      while h < |headers|
        invariant 0 <= h <= |headers|
        invariant forall k :: 0 <= k < h ==> !InSegment(addr, base, headers[k])
      {
        if headers[h].pType == PT_LOAD {
          if addr >= AddrAdd(base, headers[h].vaddr) &&
             addr < AddrAdd(AddrAdd(base, headers[h].vaddr), headers[h].memsz)
          {
            return Some(addr);
          }
        }
        h := h + 1;
      }
    }
    return None;
  }

  /** Headers that are not PT_LOAD never change whether an address resolves. */
  lemma NonLoadHeaderIrrelevant(addr: u64, base: u64, headers: seq<Phdr>, i: nat, ph: Phdr)
    requires i <= |headers| && ph.pType != PT_LOAD
    ensures Resolvable(addr, base, headers[..i] + [ph] + headers[i..]) == Resolvable(addr, base, headers)
  {
    var hs := headers[..i] + [ph] + headers[i..];
    if Resolvable(addr, base, headers) {
      var h :| 0 <= h < |headers| && InSegment(addr, base, headers[h]);
      var h' := if h < i then h else h + 1;
      assert hs[h'] == headers[h];
    }
    if Resolvable(addr, base, hs) {
      var h :| 0 <= h < |hs| && InSegment(addr, base, hs[h]);
      assert h != i;
      var h' := if h < i then h else h - 1;
      assert hs[h] == headers[h'];
    }
  }

  /**
   * An address strictly inside a loadable segment (and non-null) is returned
   * unchanged; one outside every loadable segment is not resolvable.
   */
  lemma InsideOrOutside(addr: u64, base: u64, headers: seq<Phdr>, h: nat)
    ensures h < |headers| && addr != 0 && InSegment(addr, base, headers[h]) ==>
              Resolve(addr, base, headers) == Some(addr)
    ensures (forall k :: 0 <= k < |headers| && headers[k].pType == PT_LOAD ==>
               addr < AddrAdd(base, headers[k].vaddr) ||
               addr >= AddrAdd(AddrAdd(base, headers[k].vaddr), headers[k].memsz)) ==>
              Resolve(addr, base, headers) == None
  {
  }
}
