/** What the loader and its parts share: outcomes, and the reasons the kernel stops. */
module Outcomes {

  datatype Option<+T> = None | Some(value: T)

  /** `kpanic` and a failed `DEBUG_ASSERT` both stop the kernel; the model keeps the reason. */
  datatype Reason =
    | DependencyLoop(m: nat)
    | UnresolvedDependency(m: nat)
    | AlreadyDefined(name: string)
    | UndefinedReference(name: string)
    | NullAddress(name: string)
    | MissingEntryPoint(m: nat)
    | UnknownRelocation(kind: nat)
    | InvalidSectionType(kind: nat)
    | DuplicateModule(name: string)
    | DynamicSection(k: nat)
    | NoSymbolTable

  datatype Outcome<+T> = Ok(value: T) | Panic(why: Reason) {
    predicate IsFailure() { Panic? }
    function PropagateFailure<U>(): Outcome<U>
      requires Panic?
    {
      Panic(why)
    }
    function Extract(): T
      requires Ok?
    {
      value
    }
  }
}
