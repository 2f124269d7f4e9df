/**
 The Python values that flow through click's parameter conversion, and the
 exceptions a conversion can end in.
 */
module Py {

  /** A Python value as a click parameter type may receive or return it. */
  datatype PyValue =
    | PyNone
    | PyStr(s: string)
    | PyInt(i: int)
    | PyList(items: seq<PyValue>)
    | PyDict(entries: map<string, PyValue>)
      /** any other object: not a str, list or dict, and without a `split` method */
    | PyObject(id: nat)

  /** The exceptions the converters raise or let through. */
  datatype Exc =
    | AttributeError
    | ValueError
    | TypeError
      /** click.BadParameter, raised by `ParamType.fail` */
    | BadParameter
    | OtherError(name: string)

  /** How a call to a converter ends: it returns a value or raises. */
  datatype Outcome = Returned(value: PyValue) | Raised(error: Exc)

  /** The `except AttributeError: self.fail(...)` clause around a conversion:
      an AttributeError becomes click.BadParameter, anything else propagates. */
  function FailOnAttributeError(e: Exc): (r: Exc)
    ensures e == AttributeError ==> r == BadParameter
    ensures e != AttributeError ==> r == e
  {
    if e == AttributeError then BadParameter else e
  }
}
