/**
 * ExceptionDetail::translate of cetlib/Ntuple/Exception.cc: the name of each
 * error category, and the LogicError exception it raises for a value of the
 * enumeration that is none of the four enumerators.
 */
module NtupleException {

  import opened Errors

  /**
   * A value of the error-code enumeration type: one of its four enumerators,
   * or Undeclared(value), which stands for the defensive path of translate:
   * a value that matches none of the four cases and reaches the throw after
   * the switch. Undeclared(value) is never one of the enumerators' values.
   */
  datatype CodeValue = Declared(code: ErrorCode) | Undeclared(value: int)

  /**
   * translate: each enumerator maps to its own name; any other value falls
   * through the switch and raises a LogicError.
   */
  function Translate(v: CodeValue): (r: Result<string>)
    ensures r.Success? <==> v.Declared?
    ensures v.Undeclared? ==> r == Failure(LogicError)
    ensures r.Success? ==> r.value != ""
  {
    match v
    case Declared(LogicError) => Success("LogicError")
    case Declared(SQLExecutionError) => Success("SQLExecutionError")
    case Declared(OtherError) => Success("OtherError")
    case Declared(Unknown) => Success("Unknown")
    case Undeclared(_) => Failure(LogicError)
  }

  /** The four names, one per enumerator. */
  lemma TranslateNames()
    ensures Translate(Declared(LogicError)) == Success("LogicError")
    ensures Translate(Declared(SQLExecutionError)) == Success("SQLExecutionError")
    ensures Translate(Declared(OtherError)) == Success("OtherError")
    ensures Translate(Declared(Unknown)) == Success("Unknown")
  {
  }

  /** Distinct enumerators get distinct names. */
  lemma TranslateInjective(a: ErrorCode, b: ErrorCode)
    requires Translate(Declared(a)) == Translate(Declared(b))
    ensures a == b
  {
  }
}
