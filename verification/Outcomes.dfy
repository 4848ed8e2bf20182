/** The result types of the interpreter, and its error values. */
module Outcomes {
  import opened Words

  datatype Option<+T> = None | Some(value: T)

  datatype Result<+T> = Ok(value: T) | Err(error: Error)

  /** The result of an operation that returns nothing. */
  datatype Status = Pass | Fail(error: Error)

  datatype OutOfBoundKind = Memory | ExternalData

  datatype Error =
    | CyclesExceeded
    | CyclesOverflow
    | ElfSegmentAddrOrSizeError(vaddr: u64)
    | ElfSegmentUnreadable(vaddr: u64)
    | ElfSegmentWritableAndExecutable(vaddr: u64)
    | External(tag: int)
    | InvalidEcall(code: u64)
    | InvalidInstruction(pc: u64, bits: nat)
    | InvalidOp(opcode: nat)
    | InvalidVersion
    | MemOutOfBound(addr: u64, kind: OutOfBoundKind)
    | MemOutOfStack
    | MemPageUnalignedAccess(addr: u64)
    | MemWriteOnExecutablePage(page: u64)
    | MemWriteOnFreezedPage(page: u64)
    | SnapshotDataLoadError
    | Unexpected
}
