/** Cached values and the text they are stored as in the distributed store.
    `Value` stands for the `object`/`T` values callers cache, with `Null` for
    C#'s `null`/`default`. The JSON serializer is replaced by a small
    reversible encoding with the same observable traits: `null` becomes the
    non-empty text "null", every other value a non-empty text, and text that
    is not an encoding fails to decode. */
module Values {

  datatype Option<+T> = None | Some(value: T)

  datatype Value = Null | Data(payload: string)

  /** The exceptions the model keeps: a stored text the serializer cannot read
      back, a lock lease that is not a positive duration, and an exception
      thrown by the action run under a lock. */
  datatype Failure = SerializationError | LeaseOutOfRange | ActionFailed

  /** A result, or the exception that escaped instead. */
  datatype Outcome<+T> = Ok(value: T) | Threw(error: Failure)

  /** Stand-in for `JsonSerializer.Deserialize`; `None` is a `JsonException`. */
  function Deserialize(json: string): (r: Option<Value>)
    ensures json == "" ==> r.None?
  {
    if json == "null" then Some(Null)
    else if |json| >= 2 && json[0] == '{' && json[|json| - 1] == '}' then Some(Data(json[1..|json| - 1]))
    else None
  }

  /** Stand-in for `JsonSerializer.Serialize`: never empty, and decoding gives the value back. */
  function Serialize(v: Value): (json: string)
    ensures json != ""
    ensures Deserialize(json) == Some(v)
  {
    match v
    case Null => "null"
    case Data(p) =>
      var json := "{" + p + "}";
      assert json[1..|json| - 1] == p;
      json
  }
}
