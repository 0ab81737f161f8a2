/** JSON field values, as JavaScript code reads them out of a parsed body. */
module Json {
  /**
   * A field of a parsed JSON object: a string, `null`, absent (`undefined`
   * in JavaScript), or any other JSON value (number, boolean, array, object),
   * which no code here looks into.
   */
  datatype Value = Str(s: string) | Null | Undefined | Other
}

/** The two personas a conversation can be held with. */
module Personas {
  /** The persona keys the page and the route exchange. */
  const HiteshKey := "hiteshSir"
  const PiyushKey := "piyushSir"

  /** The persona the page holds: it only ever stores one of the two keys. */
  datatype Persona = Hitesh | Piyush

  /** The key the page stores and sends for a persona. */
  function Key(p: Persona): (k: string)
    ensures k == HiteshKey <==> p == Hitesh
    ensures k == PiyushKey <==> p == Piyush
  {
    KeysDiffer();
    match p
    case Hitesh => HiteshKey
    case Piyush => PiyushKey
  }

  lemma KeysDiffer()
    ensures HiteshKey != PiyushKey
  {
    assert HiteshKey[0] != PiyushKey[0];
  }

  /**
   * The system prompts of the two personas. Their texts live in a module of
   * the repository that is not part of this model, so they are parameters.
   */
  datatype PromptTexts = PromptTexts(hitesh: string, piyush: string)
}
