/** Records shared by the address fetcher and the batch analyzer, and the
    small wrappers used for the source's (value, error) returns. */
module Base {

  datatype Option<+T> = None | Some(value: T)

  /** A Go `(value, error)` pair where exactly one side is meaningful. */
  datatype Outcome<+T, +E> = Ok(value: T) | Err(error: E)

  /** An entry of an address-list file: a wallet address and a free-text label. */
  datatype AddressItem = AddressItem(address: string, labelText: string)

  /** A qualifying address together with the label the analyzer generated for it. */
  datatype Result = Result(address: string, labelText: string)
}
