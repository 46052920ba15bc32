/** `Status` and `Field<T>` of include/aview.hh. */
module Fields {
  import opened Numerals

  datatype Status =
    | Ok | Unsupported | PermDenied | NotFound | ParseError | InvalidArg | Redacted | InternalError

  function StatusCode(s: Status): string {
    match s
    case Ok => "ok"
    case Unsupported => "unsupported"
    case PermDenied => "perm_denied"
    case NotFound => "not_found"
    case ParseError => "parse_error"
    case InvalidArg => "invalid_arg"
    case Redacted => "redacted"
    case InternalError => "internal_error"
  }

  /** The code of a status names it, and only `Ok` prints as "ok". */
  lemma StatusCodeInjective(a: Status, b: Status)
    requires StatusCode(a) == StatusCode(b)
    ensures a == b
  {
    assert |StatusCode(a)| == |StatusCode(b)|;
    assert StatusCode(a)[0] == StatusCode(b)[0];
  }

  /** A value that is there, or a status that says why it is not.  The flag, the status
      and the content are separate members, as in the source. */
  datatype Field<+T> = Field(valid: bool, status: Status, content: T) {
    /** A field is valid exactly when its status is `Ok`. */
    predicate Honest() {
      valid <==> status == Ok
    }
  }

  type StringField = Field<string>
  type BoolField = Field<bool>
  type U32Field = Field<u32>
  type U64Field = Field<u64>
  type I64Field = Field<i64>

  function Available<T>(value: T): (f: Field<T>)
    ensures f.Honest() && f.valid && f.content == value
  {
    Field(true, Ok, value)
  }

  /** `zero` is the value-initialised content. */
  function Unavailable<T>(status: Status, zero: T): (f: Field<T>)
    ensures f.Honest() <==> status != Ok
    ensures !f.valid && f.status == status
  {
    Field(false, status, zero)
  }

  /** The default-constructed field. */
  function Missing<T>(zero: T): (f: Field<T>)
    ensures f.Honest() && !f.valid && f.status == NotFound
  {
    Field(false, NotFound, zero)
  }
}
