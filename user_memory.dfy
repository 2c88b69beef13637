/** The address space of the process that sent the request, as far as the
    driver uses it: regions it asks the memory manager to commit there, and
    copies into them that may fault part-way. */
module UserMemory {
  import opened DriverIo

  /** n zero bytes: freshly committed pages read as zero. */
  function Zeros(n: nat): (z: seq<Byte>)
    ensures |z| == n
    ensures forall i :: 0 <= i < n ==> z[i] == 0
  {
    seq(n, _ => 0)
  }

  /** `dest` holds the first k bytes of `src`, for some k, and zeros after them:
      what a zero-filled region looks like after a copy that may have faulted. */
  ghost predicate PartialCopy(dest: seq<Byte>, src: seq<Byte>) {
    |dest| == |src| &&
    exists k :: 0 <= k <= |src| && dest == src[..k] + Zeros(|src| - k)
  }

  class Process {
    /** Committed regions, by base address; the null address is never one. */
    var regions: map<Address, seq<Byte>>

    ghost predicate Valid()
      reads this
    {
      Null !in regions
    }

    constructor ()
      ensures Valid() && regions == map[]
    {
      regions := map[];
    }

    /** ZwAllocateVirtualMemory(NtCurrentProcess(), &region, 0, &size,
        MEM_COMMIT | MEM_RESERVE, PAGE_READWRITE): either fails, leaving the
        region pointer null, or commits a new zero-filled region of `size`
        bytes at an address that was not in use. */
    method Allocate(size: nat) returns (base: Address)
      requires Valid()
      modifies this
      ensures Valid()
      ensures base == Null ==> regions == old(regions)
      ensures base != Null ==> base !in old(regions) && regions == old(regions)[base := Zeros(size)]
    {
      base := Null;
      var granted: bool :| true;
      if granted {
        if a: int :| 0 < a < 0x1_0000_0000_0000_0000 && a !in regions {
          base := a;
          regions := regions[base := Zeros(size)];
        }
      }
    }

    /** memcpy(base, src, |src|) inside __try/__except(1): the copy may stop
        at any byte (the caller may unmap or protect the region meanwhile);
        the fault is swallowed and the bytes stored so far stay. */
    method GuardedCopy(base: Address, src: seq<Byte>) returns (ghost copied: nat)
      requires Valid()
      requires base in regions && |src| <= |regions[base]|
      modifies this
      ensures Valid()
      ensures copied <= |src|
      ensures regions == old(regions)[base := src[..copied] + old(regions)[base][copied..]]
    {
      var k: nat :| k <= |src|;
      regions := regions[base := src[..k] + regions[base][k..]];
      copied := k;
    }
  }
}
