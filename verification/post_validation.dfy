/** `validatePostInput`: the check both post creation and comment creation run
    on the request body before touching the store. */
module PostValidation {
  import opened Outcomes
  import opened Validation

  const MinLength: nat := 10
  const MaxLength: nat := 300
  const LengthMessage := "post length must be between 10 and 300"
  const RequiredMessage := "text field is required"

  /** `Validator.isLength(s, { min, max })`, counting characters. */
  predicate IsLength(s: string, min: nat, max: nat): (ok: bool)
    ensures ok ==> min <= max
    ensures s == "" && 0 < min ==> !ok
  {
    min <= |s| <= max
  }

  /** Normalise `text`, record the length error, then let the required error
      overwrite it. */
  function Validate(text: Option<string>): (v: Verdict)
    ensures v.errors.Keys <= {"text"}
    ensures v.isValid <==> v.errors == map[]
    ensures v.isValid <==> text.Some? && MinLength <= |text.value| <= MaxLength
    ensures Normalize(text) == "" ==>
              !IsLength(Normalize(text), MinLength, MaxLength) && v.errors == map["text" := RequiredMessage]
    ensures Normalize(text) != "" && !(MinLength <= |Normalize(text)| <= MaxLength) ==>
              v.errors == map["text" := LengthMessage]
  {
    var data := Normalize(text);
    var noErrors: ErrorMap := map[];
    var withLength := if !IsLength(data, MinLength, MaxLength) then noErrors["text" := LengthMessage] else noErrors;
    var withRequired := if data == "" then withLength["text" := RequiredMessage] else withLength;
    Conclude(withRequired)
  }

  /** The bounds are inclusive: 10 and 300 characters pass, 9 and 301 do not. */
  lemma LengthBoundaries(s: string)
    ensures |s| == MinLength || |s| == MaxLength ==> Validate(Some(s)).isValid
    ensures |s| == MinLength - 1 || |s| == MaxLength + 1 ==>
              Validate(Some(s)).errors == map["text" := LengthMessage]
  {
  }
}
