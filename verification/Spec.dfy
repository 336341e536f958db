/** Contract-specification types, and the parts of a lifted function that grading and
    rendering look at. */
module Spec {
  import opened Ir

  datatype SpecType =
    | TVal | TBool | TVoid | TError | TU32 | TI32 | TU64 | TI64 | TU128 | TI128 | TU256 | TI256
    | TTimepoint | TDuration | TBytes | TString | TSymbol | TAddress | TMuxedAddress
    | TBytesN(n: nat)
    | TVec(element: SpecType)
    | TMap(key: SpecType, value: SpecType)
    | TOption(value: SpecType)
    | TResult(ok: SpecType, err: SpecType)
    | TTuple(types: seq<SpecType>)
    | TUdt(name: string)

  datatype ContractFn = ContractFn(
    name: string,
    returnType: Option<SpecType>,
    body: seq<Stmt>,
    hadHostCalls: bool,
    /** The number of wasm results, when a raw signature takes the place of the spec types. */
    wasmResults: Option<nat>
  )
}
