/** The type tests of src/crypto/utils.ts, `isNull` and `isError`, and how
    a function that returns "a value or an `Error`" presents its result to them. */
module TypeTests {
  import opened Outcomes

  /** A JavaScript value of static type `T | Error`, as `isNull` and
      `isError` receive it. */
  datatype JsValue<T> = Null | Undefined | ErrorInstance(message: string) | Object(value: T)

  /** `isNull` as written: it answers true exactly when the value is NOT null. */
  function IsNull<T>(obj: JsValue<T>): (answer: bool)
    ensures obj.Null? ==> !answer
    ensures obj.Undefined? || obj.ErrorInstance? || obj.Object? ==> answer
  {
    !obj.Null?
  }

  /** `isNull` as its name and documentation describe it. */
  predicate IsNullIntended<T>(obj: JsValue<T>) {
    obj.Null?
  }

  /** `isError`: `obj instanceof Error`. Only an `Error` instance passes;
      `null`, `undefined` and ordinary values do not. */
  function IsError<T>(obj: JsValue<T>): (answer: bool)
    ensures obj.ErrorInstance? ==> answer
    ensures obj.Null? || obj.Undefined? || obj.Object? ==> !answer
  {
    obj.ErrorInstance?
  }

  /** The JavaScript value a function of type `T | Error` hands back for a result. */
  function Returned<T>(r: Result<T>): JsValue<T> {
    match r
    case Ok(x) => Object(x)
    case Err(NumberTooBig) => ErrorInstance(TooBigMessage)
    case Err(Thrown(m)) => ErrorInstance(m)
  }

  /** `isError` tells failures from successes exactly; the oversize
      failure carries the source's message. */
  lemma IsErrorDetectsFailure<T>(r: Result<T>)
    ensures IsError(Returned(r)) <==> r.Err?
    ensures !IsError(Returned(r)) ==> Returned(r) == Object(r.value)
    ensures r == Err(NumberTooBig) ==> Returned(r).message == TooBigMessage
  {
  }

  /** As written, `isNull` rejects `null` and accepts everything else, so it
      answers "null" for every value a `T | Error` function returns. */
  lemma IsNullInverted<T>(r: Result<T>)
    ensures !IsNull<T>(Null)
    ensures IsNull<T>(Undefined)
    ensures IsNull(Returned(r))
  {
  }

  /** The intended test holds of `null` alone and is the negation of the
      test as written. */
  lemma IsNullIntendedIsNegation<T>(obj: JsValue<T>)
    ensures IsNullIntended<T>(Null)
    ensures IsNullIntended(obj) <==> !IsNull(obj)
    ensures IsNullIntended(obj) ==> obj.Null?
  {
  }
}
