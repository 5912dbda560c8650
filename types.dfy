/** The field validators of app/models/types.py: the before-validator that
    truncates explanations and the after-validator that checks categories,
    and the two annotated field types built from them. */
module Types {
  import opened Wrappers
  import opened Config
  import opened Text

  /** A value handed to a validator: a `str`, or any other Python value. */
  datatype Value = Str(s: string) | NonStr(id: int)

  /** `truncate_logic`: a string longer than the ceiling becomes its first
      147 characters followed by the ellipsis, exactly 150 characters; any
      other value passes through unchanged. */
  function TruncateLogic(v: Value): (r: Value)
    ensures !v.Str? ==> r == v
    ensures v.Str? ==> r.Str? && |r.s| <= MaxExplanationLength
    ensures v.Str? && |v.s| <= MaxExplanationLength ==> r == v
    ensures v.Str? && |v.s| > MaxExplanationLength ==>
      && |r.s| == MaxExplanationLength
      && r.s[..MaxExplanationLength - 3] == v.s[..MaxExplanationLength - 3]
      && EndsWith(r.s, Ellipsis)
  {
    if v.Str? && |v.s| > MaxExplanationLength then
      Str(v.s[..MaxExplanationLength - 3] + Ellipsis)
    else v
  }

  /** Applying the before-validator twice is the same as applying it once. */
  lemma TruncateLogicIdempotent(v: Value)
    ensures TruncateLogic(TruncateLogic(v)) == TruncateLogic(v)
  {
  }

  /** The message `category_logic` raises with. */
  const CategoryError: string := "Category must be one of: " + Join(ValidCategories, ", ")

  /** `category_logic`: the argument itself exactly when it is one of the six
      categories (exact, case-sensitive), a ValueError otherwise. */
  function CategoryLogic(v: string): (r: Result<string, string>)
    ensures r.Success? <==> IsValidCategory(v)
    ensures r.Success? ==> r.value == v
    ensures r.Failure? ==> r.error == CategoryError
  {
    if !IsValidCategory(v) then Failure(CategoryError) else Success(v)
  }

  /** A `TruncatedExplanation` field: the before-validator, then the `str`
      type check, then `max_length=150`. A string is never rejected: it
      comes back truncated. */
  function ValidateExplanation(v: Value): (r: Result<string, string>)
    ensures v.Str? ==> r.Success? && r.value == TruncateLogic(v).s
    ensures r.Success? ==> |r.value| <= MaxExplanationLength
    ensures !v.Str? ==> r.Failure?
  {
    var t := TruncateLogic(v);
    if !t.Str? then Failure("Input should be a valid string")
    else if |t.s| > MaxExplanationLength then Failure("String should have at most 150 characters")
    else Success(t.s)
  }
}
