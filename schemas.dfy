/** The pydantic models of app/models/schemas.py that carry a classification.
    Building one runs the field validators of app/models/types.py. */
module Schemas {
  import opened Wrappers
  import opened Config
  import opened Types

  datatype LicenseClassification = LicenseClassification(
    licenseName: string, category: string, explanation: string)
  {
    /** What the field types guarantee of every constructed instance. */
    predicate WellFormed() {
      category in ValidCategories && |explanation| <= MaxExplanationLength
    }
  }

  datatype UpdateLicenseRequest = UpdateLicenseRequest(category: string, explanation: string)
  {
    predicate WellFormed() {
      category in ValidCategories && |explanation| <= MaxExplanationLength
    }
  }

  /** pydantic's ValidationError: one message per failing field, in field order. */
  datatype ValidationError = ValidationError(errors: seq<string>)

  function FieldErrors<T>(r: Result<T, string>): seq<string> {
    if r.Failure? then [r.error] else []
  }

  /** `LicenseClassification(license_name=..., category=..., explanation=...)`:
      rejected exactly when the category is not one of the six; otherwise
      the instance keeps name and category and holds the truncated
      explanation, so it is well formed. */
  function NewLicenseClassification(name: string, category: string, explanation: string)
    : (r: Result<LicenseClassification, ValidationError>)
    ensures r.Success? <==> category in ValidCategories
    ensures r.Success? ==>
      && r.value.WellFormed()
      && r.value.licenseName == name
      && r.value.category == category
      && r.value.explanation == TruncateLogic(Str(explanation)).s
    ensures r.Failure? ==> r.error.errors == [CategoryError]
  {
    var cat := CategoryLogic(category);
    var expl := ValidateExplanation(Str(explanation));
    if cat.Success? && expl.Success? then
      Success(LicenseClassification(name, cat.value, expl.value))
    else
      Failure(ValidationError(FieldErrors(cat) + FieldErrors(expl)))
  }

  /** `UpdateLicenseRequest(category=..., explanation=...)`, as the request
      body is parsed: the same two validators. */
  function NewUpdateLicenseRequest(category: string, explanation: string)
    : (r: Result<UpdateLicenseRequest, ValidationError>)
    ensures r.Success? <==> category in ValidCategories
    ensures r.Success? ==>
      && r.value.WellFormed()
      && r.value.category == category
      && r.value.explanation == TruncateLogic(Str(explanation)).s
    ensures r.Failure? ==> r.error.errors == [CategoryError]
  {
    var cat := CategoryLogic(category);
    var expl := ValidateExplanation(Str(explanation));
    if cat.Success? && expl.Success? then
      Success(UpdateLicenseRequest(cat.value, expl.value))
    else
      Failure(ValidationError(FieldErrors(cat) + FieldErrors(expl)))
  }

  /** Re-validating the fields of a well-formed instance changes nothing:
      the truncating validator is the identity on explanations that already
      fit. */
  lemma RevalidationKeepsWellFormed(c: LicenseClassification)
    requires c.WellFormed()
    ensures NewLicenseClassification(c.licenseName, c.category, c.explanation) == Success(c)
  {
  }
}
