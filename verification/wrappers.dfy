/** Failure-compatible wrappers shared by every lowering module.

    The translator reports its failures by throwing; each kind of throw it can
    raise becomes one `Fault`, and an operation that may throw returns a
    `Result`.  A Java `null` that the translator hands on without throwing is an
    `Option` instead. */
module Wrappers {

  datatype Option<+T> = None | Some(value: T) {

    predicate IsFailure() {
      None?
    }

    function PropagateFailure<U>(): Option<U>
      requires None?
    {
      None
    }

    function Extract(): T
      requires Some?
    {
      value
    }

    function GetOr(default: T): T {
      match this
      case Some(v) => v
      case None => default
    }
  }

  /** The exceptions the lowering can raise, one per distinct cause. */
  datatype Fault =
    | NotImplemented            // a catch-all dispatch arm ("Not correctly implemented", "Not supported")
    | NoCodeGenerated           // a block child produced no fragment
    | NullPointer               // a Java null dereferenced (a missing fragment merged, say)
    | MultiBitAccess            // a reference with more than one bit range
    | SwitchWidthNotConstant    // a primitive switch expression whose width is not constant
    | WidthUnknown              // a constant case label with no switch width
    | MoreThanOneStatement      // getStatement on a fragment with several statements
    | NoStatementFound          // getStatement on a fragment without statements
    | IndexOutOfBounds          // a list or string index past its end
    | ClassCast                 // a node of an unexpected kind where one kind is required
    | Unresolved                // a reference the resolver could not resolve
    | NotConstant               // a value that had to be constant but is not
    | MissingValue              // a literal without a numeric value where one is needed
    | NumberFormat              // text that is not a number in the radix it is parsed in

  datatype Result<+T> = Ok(value: T) | Err(fault: Fault) {

    predicate IsFailure() {
      Err?
    }

    function PropagateFailure<U>(): Result<U>
      requires Err?
    {
      Err(fault)
    }

    function Extract(): T
      requires Ok?
    {
      value
    }
  }

  /** Turns an absent value into the given fault. */
  function Need<T>(o: Option<T>, f: Fault): (r: Result<T>)
    ensures r.Ok? <==> o.Some?
    ensures r.Ok? ==> r.value == o.value
    ensures r.Err? ==> r.fault == f
  {
    match o
    case Some(v) => Ok(v)
    case None => Err(f)
  }
}
