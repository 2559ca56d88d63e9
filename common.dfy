/** Types shared by every check: optional values, the platform a check runs
    on, and the three ways a check call can end (a value, `return False`, or an
    exception that escapes the call). */
module Common {

  datatype Option<+T> = None | Some(value: T)

  /** The `sys.platform` values the checks distinguish: 'linux2', 'darwin',
      any string containing 'freebsd', and everything else. */
  datatype Platform = Linux2 | Darwin | FreeBSD | OtherPlatform

  /** The Python exceptions the parsers can raise. */
  datatype Exc = IndexError | ValueError | KeyError | UnboundLocalError

  /** How a call to a check ends: it returns a value, it returns `False`
      (the source's failure marker), or an exception escapes it. */
  datatype Outcome<+T> = Ok(value: T) | ReturnsFalse | Raises(exc: Exc)
  {
    predicate IsFailure() { !Ok? }

    function PropagateFailure<U>(): (r: Outcome<U>)
      requires !Ok?
      ensures r.ReturnsFalse? == ReturnsFalse? && (Raises? ==> r == Raises(exc))
    {
      if ReturnsFalse? then ReturnsFalse else Raises(exc)
    }

    function Extract(): T
      requires Ok?
    {
      value
    }
  }
}
