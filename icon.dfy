/**
 * Values the ICON runtime hands to every contract method: addresses (an
 * end-user "hx" account or a contract "cx" account), and the all-or-nothing
 * outcome of a transaction, which either commits or is reverted.
 */
module Icon {

  /** The two kinds of ICON address; `is_contract` is true exactly for `Contract`. */
  datatype AddressKind = Eoa | Contract

  /** An account address: its kind and its 20-byte body, kept as a number. */
  datatype Address = Address(kind: AddressKind, body: nat) {
    predicate IsContract() {
      kind == Contract
    }
  }

  /** The address of a deployed contract, which the runtime always gives the "cx" kind. */
  type ContractAddress = a: Address | a.IsContract() witness Address(Contract, 0)

  datatype Option<+T> = None | Some(value: T)

  /** The result of an operation that may `revert`; a failure carries the reason. */
  datatype Result<+T, +E> = Success(value: T) | Failure(error: E)
}
