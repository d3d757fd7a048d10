/**
 Values shared by every part of the model: optional values, the messages the
 application formats for its responses, and the result of a request step,
 which either carries a value or aborts the request with an HTTP status.
 */
module Common {

  /** The Some/None datatype, standing in for Python's `None`. */
  datatype Option<+T> = None | Some(value: T) {

    /** `dict.get(key, default)`: the value if present, the default otherwise. */
    function GetOr(default: T): T
    {
      match this
      case Some(v) => v
      case None => default
    }
  }

  /** A response message: a translation key, optionally formatted with an id.
      The translated text itself is not modelled; two messages are the same
      exactly when their keys and arguments are. */
  datatype Message = Text(key: string) | Formatted(key: string, arg: Option<int>)

  /** An aborted request: the HTTP status and the message sent back. */
  datatype Failure = Failure(status: int, message: Message)

  /** A request step that either yields a value or aborts with a failure.
      Usable with `:-`, so that the first failure aborts the whole step,
      as `abort` does in the application. */
  datatype Result<+T> = Ok(value: T) | Err(failure: Failure) {

    predicate IsFailure()
    {
      Err?
    }

    function PropagateFailure<U>(): Result<U>
      requires Err?
    {
      Err(failure)
    }

    function Extract(): T
      requires Ok?
    {
      value
    }
  }

  const StatusOk: int := 200
  const BadRequest: int := 400
  const NotFound: int := 404

  /** No element occurs twice. */
  predicate Distinct<T(==)>(s: seq<T>)
  {
    forall i, j :: 0 <= i < j < |s| ==> s[i] != s[j]
  }

  predicate StrictlyIncreasing(s: seq<int>)
  {
    forall i, j :: 0 <= i < j < |s| ==> s[i] < s[j]
  }

  /** A member of a non-empty set; calling it lets a `:|` pick from the set. */
  lemma MemberOf<T>(s: set<T>) returns (x: T)
    requires s != {}
    ensures x in s
  {
    if forall y :: y !in s {
      assert false;
    }
    x :| x in s;
  }
}
