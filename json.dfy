/** The values `json.loads` produces, as far as the recovery pipeline looks at them. */
module Json {
  import opened Wrappers

  /** A decoded JSON value. Numbers keep their literal text; objects map keys to values
      (a repeated key keeps its last value, as in Python's `dict`). */
  datatype Json =
    | Null
    | Bool(b: bool)
    | Number(literal: string)
    | String(text: string)
    | Array(items: seq<Json>)
    | Object(fields: map<string, Json>)

  /** `json.loads`: the decoded value, or `None` where it raises `JSONDecodeError`.
      Its parser is not part of this model: every operation that needs it takes one. */
  type Decoder = string -> Option<Json>

  /** A recovered flashcard, the dict `{"question": ..., "answer": ...}`. */
  datatype Card = Card(question: Json, answer: Json)
}
