/** The result and error values shared by every layer. */
module VmiTypes {

  datatype VmiError =
    | ReadFailed(address: nat, length: nat)
    | NonCanonicalAddress(address: nat, bits: nat)
    | PageNotPresent(address: nat, level: nat)
    | InvalidPageTableEntry(entry: nat, level: nat)
    | CapabilityMissing
    | Timeout
    | Backend(message: string)

  datatype Result<+T> = Ok(value: T) | Err(error: VmiError) {
    predicate IsFailure() { Err? }

    function PropagateFailure<U>(): Result<U>
      requires Err?
    {
      Err(error)
    }

    function Extract(): T
      requires Ok?
    {
      value
    }
  }

  datatype Option<+T> = None | Some(value: T)

  datatype Translation = Translation(physicalAddress: nat, pageSize: nat)
}
