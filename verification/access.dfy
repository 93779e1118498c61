/** What the memory and trap modules share: privilege levels, and the kinds of memory access. */
module MemoryAccess {

  // Privilege levels: bit 2 is the virtualization bit, bits 1..0 the nominal privilege.
  const USER: nat := 0
  const SUPERVISOR: nat := 1
  const MACHINE: nat := 3
  const VIRTUAL_USER: nat := 4
  const VIRTUAL_SUPERVISOR: nat := 5

  datatype Access = Fetch | Load | Store

  /** The page-fault code of an access. */
  function FaultCode(t: Access): nat {
    match t case Fetch => 12 case Load => 13 case Store => 15
  }

  /** Where caches keep an access type. */
  function AccessIndex(t: Access): nat {
    match t case Fetch => 0 case Load => 1 case Store => 2
  }
}
