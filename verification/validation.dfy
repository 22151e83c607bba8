/** What both request validators share: normalising an absent field to the
    empty string, and the `{ errors, isValid }` verdict they return. */
module Validation {
  import opened Outcomes

  /** The validator's answer: the field-error object and whether it is empty. */
  datatype Verdict = Verdict(errors: ErrorMap, isValid: bool)

  /** `!isEmpty(x) ? x : ""` for a field that is either absent or a string. */
  function Normalize(field: Option<string>): (s: string)
    ensures s == "" <==> field.None? || field == Some("")
    ensures field.Some? ==> s == field.value
  {
    match field
    case None => ""
    case Some(s) => s
  }

  /** `{ errors, isValid: isEmpty(errors) }`. */
  function Conclude(errors: ErrorMap): (v: Verdict)
    ensures v.errors == errors
    ensures v.isValid <==> |errors| == 0
  {
    Verdict(errors, errors == map[])
  }

  /** A field of the error object, or None when the key is not set. */
  function Lookup(errors: ErrorMap, key: string): Option<string>
  {
    if key in errors then Some(errors[key]) else None
  }
}
