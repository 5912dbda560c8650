/** old.py: the first, single-file version of the service. It reads the
    model's reply without stripping lines and without validating the
    category, skips a header row by a shorter keyword list on unstripped
    text, accepts only file names ending in ".csv" exactly, and aborts a
    batch at the first failure. Its store is the module-level dictionary
    `classifications_db`. */
module Legacy {
  import opened Wrappers
  import opened Config
  import opened Text
  import opened PyDict
  import opened Reply
  import opened Schemas
  import opened CategoryCounts
  import opened CsvParser
  import GroqService

  // ---------------------------------------------------------------------
  // classify_license: reading the reply

  /** The values on the last line starting with "Category:" and on the last
      line starting with "Explanation:", the lines taken as they are; ""
      for a tag no line starts with. The category is not checked. */
  function LegacyParsed(responseText: string): (string, string) {
    var lines := SplitOn(responseText, '\n');
    (LastTagValue(lines, CategoryTag), LastTagValue(lines, ExplanationTag))
  }

  /** The parse loop of `classify_license`. */
  method LegacyParseResponse(responseText: string) returns (category: string, explanation: string)
    ensures (category, explanation) == LegacyParsed(responseText)
  {
    var lines := SplitOn(responseText, '\n');
    category := "";
    explanation := "";
    for i := 0 to |lines|
      invariant category == LastTagValue(lines[..i], CategoryTag)
      invariant explanation == LastTagValue(lines[..i], ExplanationTag)
    {
      var line := lines[i];
      assert lines[..i + 1] == lines[..i] + [line];
      LastTagValueSnoc(lines[..i], line, CategoryTag);
      LastTagValueSnoc(lines[..i], line, ExplanationTag);
      TagsExclusive(line);
      if StartsWith(line, CategoryTag) {
        category := Strip(RemoveAll(line, CategoryTag));
      } else if StartsWith(line, ExplanationTag) {
        explanation := Strip(RemoveAll(line, ExplanationTag));
      }
    }
    assert lines[..|lines|] == lines;
  }

  /** The inline truncation, with its literal 147 and 150: the same string
      as the current service's `_truncate_explanation`. */
  function LegacyTruncate(explanation: string): (r: string)
    ensures r == GroqService.TruncateExplanation(explanation)
    ensures |r| <= MaxExplanationLength
  {
    if |explanation| > 150 then explanation[..147] + "..." else explanation
  }

  const ClassifyErrorPrefix: string := "Error classifying license: "

  /** `classify_license` once the model has answered: the stripped content
      is parsed, the explanation truncated, and the license name attached;
      a failed call becomes one error. */
  function LegacyClassify(licenseName: string, reply: ModelReply): (r: Result<LicenseClassification, string>)
    ensures r.Success? <==> reply.Completed?
    ensures r.Success? ==>
      r.value.licenseName == licenseName && |r.value.explanation| <= MaxExplanationLength
    ensures r.Failure? ==> r.error == ClassifyErrorPrefix + reply.reason
  {
    match reply
    case Failed(reason) => Failure(ClassifyErrorPrefix + reason)
    case Completed(content) =>
      var parsed := LegacyParsed(Strip(content));
      Success(LicenseClassification(licenseName, parsed.0, LegacyTruncate(parsed.1)))
  }

  /** `classify_license` */
  method LegacyClassifyLicense(licenseName: string, reply: ModelReply)
    returns (r: Result<LicenseClassification, string>)
    ensures r == LegacyClassify(licenseName, reply)
  {
    match reply
    case Failed(reason) =>
      r := Failure(ClassifyErrorPrefix + reason);
    case Completed(content) =>
      var responseText := Strip(content);
      var category, explanation := LegacyParseResponse(responseText);
      if |explanation| > 150 {
        explanation := explanation[..147] + "...";
      }
      r := Success(LicenseClassification(licenseName, category, explanation));
  }

  /** A reply in the requested format is read back exactly, whatever plain
      category it names: nothing checks it against the six. */
  lemma LegacyReadsAnyPlainCategory(category: string, explanation: string)
    requires PlainCategory(category) && PlainExplanation(explanation)
    ensures LegacyParsed(FormattedReply(category, explanation)) == (category, explanation)
  {
    FormattedReplySplit(category, explanation);
    FormattedReplyCategory(category, explanation);
    FormattedReplyExplanation(category, explanation);
  }

  /** On formatted replies naming one of the six categories the two versions
      read the same pair. */
  lemma LegacyAgreesOnFormattedReplies(category: string, explanation: string)
    requires category in ValidCategories && PlainExplanation(explanation)
    ensures LegacyParsed(FormattedReply(category, explanation))
         == GroqService.ParsedResponse(FormattedReply(category, explanation))
  {
    GroqService.CategoryShape(category);
    LegacyReadsAnyPlainCategory(category, explanation);
    GroqService.FormattedReplyReadBack(category, explanation);
  }

  /** A reply naming a category outside the six ("Misc") is stored as is by
      the old version, while the current one coerces it to "Development". */
  lemma LegacyKeepsOffListCategory(category: string, explanation: string)
    requires category == "Misc" && explanation == "General tools"
    ensures category !in ValidCategories
    ensures LegacyParsed(FormattedReply(category, explanation)) == (category, explanation)
    ensures GroqService.ParsedResponse(FormattedReply(category, explanation)) == (DefaultCategory, explanation)
  {
    GroqService.GeneralToolsIsPlain(explanation);
    LegacyReadsAnyPlainCategory(category, explanation);
    GroqService.MiscReadAsDevelopment(category, explanation);
  }

  /** An indented tagged line is not read by the old version, which tests
      each line before stripping it, and is read by the current one, which
      strips each line first. */
  lemma IndentedLineReadOnlyNow(lines: seq<string>, line: string, tag: string)
    requires tag != [] && !IsSpace(tag[0])
    requires line != [] && IsSpace(line[0]) && StartsWith(Strip(line), tag)
    ensures LastTagValue(lines + [line], tag) == LastTagValue(lines, tag)
    ensures LastTagValue(StrippedLines(lines + [line]), tag) == TagValue(Strip(line), tag)
  {
    LastTagValueSnoc(lines, line, tag);
    assert !StartsWith(line, tag) by {
      if |tag| <= |line| {
        assert line[..|tag|][0] == line[0];
      }
    }
    StrippedLinesSnoc(lines, line);
    LastTagValueSnoc(StrippedLines(lines), Strip(line), tag);
  }

  // ---------------------------------------------------------------------
  // classify_licenses: the file name and the rows

  /** The old upload check: the file name ends in ".csv", case-sensitively. */
  predicate LegacyAcceptsFilename(filename: string) {
    EndsWith(filename, ".csv")
  }

  /** Every file name the old check accepts, the current one accepts too. */
  lemma LegacyFilenameAcceptedNow(filename: string)
    requires LegacyAcceptsFilename(filename)
    ensures CsvParser.ValidateCsvFormat(filename)
  {
    var n := |filename|;
    assert Lower(filename)[n - 4..] == Lower(filename[n - 4..]);
  }

  /** The converse fails: an upper-case extension is accepted only now. */
  lemma UpperCaseExtensionAcceptedOnlyNow()
    ensures !LegacyAcceptsFilename("DATA.CSV")
    ensures CsvParser.ValidateCsvFormat("DATA.CSV")
  {
    assert "DATA.CSV"[4..] == ".CSV";
    assert Lower("DATA.CSV")[4..] == ".csv";
  }

  const LegacyHeaderKeywords: seq<string> := ["name", "license", "software", "product"]

  /** The old header test: the first cell, lower-cased but not stripped,
      contains one of four keywords ("title" is not one). */
  predicate IsLegacyHeaderCell(cell: string) {
    exists keyword :: keyword in LegacyHeaderKeywords && Contains(Lower(cell), keyword)
  }

  /** The names the old upload handler classifies. */
  function LegacyNames(rows: seq<Row>): seq<string> {
    KeptNames(rows, IsLegacyHeaderCell)
  }

  /** The row loop of `classify_licenses`. */
  method LegacyExtractNames(rows: seq<Row>) returns (licenses: seq<string>)
    ensures licenses == LegacyNames(rows)
  {
    licenses := [];
    for i := 0 to |rows|
      invariant licenses == KeptNames(rows[..i], IsLegacyHeaderCell)
    {
      KeptNamesSnoc(rows, i, IsLegacyHeaderCell);
      var row := rows[i];
      if row != [] && Strip(row[0]) != [] {
        if i == 0 && exists keyword :: keyword in LegacyHeaderKeywords && Contains(Lower(row[0]), keyword) {
          continue;
        }
        licenses := licenses + [Strip(row[0])];
      }
    }
    assert rows[..|rows|] == rows;
  }

  /** A first row that only the "title" keyword marks as a header is
      classified as a license by the old version and skipped by the current
      one; every other row is treated alike. */
  lemma TitleHeaderKeptByLegacy(rows: seq<Row>)
    requires rows != [] && CellName(rows[0]) != []
    requires Contains(Strip(Lower(rows[0][0])), "title") && !IsLegacyHeaderCell(rows[0][0])
    ensures LegacyNames(rows) == CellName(rows[0]) + KeptNames(rows, IsHeaderCell)
  {
    assert "title" in HeaderKeywords;
    assert IsHeaderCell(rows[0][0]);
    KeptNamesSkipOnlyFirst(rows, IsHeaderCell);
    KeptNamesSkipOnlyFirst(rows, IsLegacyHeaderCell);
  }

  // ---------------------------------------------------------------------
  // The batch

  /** The outcome of classifying each name, had the loop run to the end. */
  function LegacyOutcomes(names: seq<string>, replies: seq<ModelReply>)
    : (r: seq<Result<LicenseClassification, string>>)
    requires |replies| == |names|
    ensures |r| == |names|
    ensures forall i :: 0 <= i < |names| ==> r[i] == LegacyClassify(names[i], replies[i])
  {
    seq(|names|, i requires 0 <= i < |names| => LegacyClassify(names[i], replies[i]))
  }

  /** The index of the first failed outcome, or the length when none failed. */
  function FirstFailure(outcomes: seq<Result<LicenseClassification, string>>): (k: nat)
    ensures k <= |outcomes|
    ensures forall i :: 0 <= i < k ==> outcomes[i].Success?
    ensures k < |outcomes| ==> outcomes[k].Failure?
    decreases |outcomes|
  {
    if outcomes == [] || outcomes[0].Failure? then 0
    else 1 + FirstFailure(outcomes[1..])
  }

  /** Where the scan for the first failure stands after item `i`. */
  lemma FirstFailureStep(outcomes: seq<Result<LicenseClassification, string>>, i: int)
    requires 0 <= i <= FirstFailure(outcomes) && i < |outcomes|
    ensures outcomes[i].Success? ==> i < FirstFailure(outcomes)
    ensures outcomes[i].Failure? ==> i == FirstFailure(outcomes)
  {
  }

  /** The classifications of a run of successful outcomes. */
  function SuccessValues(outcomes: seq<Result<LicenseClassification, string>>): (r: seq<LicenseClassification>)
    requires forall i :: 0 <= i < |outcomes| ==> outcomes[i].Success?
    ensures |r| == |outcomes|
    ensures forall i :: 0 <= i < |outcomes| ==> r[i] == outcomes[i].value
  {
    seq(|outcomes|, i requires 0 <= i < |outcomes| => outcomes[i].value)
  }

  /** Taking one more successful outcome appends its classification. */
  lemma SuccessValuesSnoc(outcomes: seq<Result<LicenseClassification, string>>, i: int)
    requires 0 <= i < |outcomes|
    requires forall j :: 0 <= j <= i ==> outcomes[j].Success?
    ensures SuccessValues(outcomes[..i + 1]) == SuccessValues(outcomes[..i]) + [outcomes[i].value]
  {
  }

  /** The store keys every classification under its own name. */
  ghost predicate DbValid(d: Dict<LicenseClassification>) {
    && d.Valid()
    && forall k :: k in d.entries ==> d.entries[k].licenseName == k
  }

  /** `classifications_db[c.license_name] = c` for each classification in turn. */
  function StoreEach(d: Dict<LicenseClassification>, cs: seq<LicenseClassification>): (r: Dict<LicenseClassification>)
    requires DbValid(d)
    ensures DbValid(r)
    decreases |cs|
  {
    if cs == [] then d
    else
      var prev := StoreEach(d, cs[..|cs| - 1]);
      var c := cs[|cs| - 1];
      prev.Set(c.licenseName, c)
  }

  lemma StoreEachSnoc(d: Dict<LicenseClassification>, cs: seq<LicenseClassification>, c: LicenseClassification)
    requires DbValid(d)
    ensures StoreEach(d, cs + [c]) == StoreEach(d, cs).Set(c.licenseName, c)
  {
    assert (cs + [c])[..|cs|] == cs;
  }

  /** A stored classification is the last one written under its name. */
  lemma {:induction false} StoreEachLastWins(d: Dict<LicenseClassification>, cs: seq<LicenseClassification>, i: int)
    requires DbValid(d) && 0 <= i < |cs|
    requires forall j :: i < j < |cs| ==> cs[j].licenseName != cs[i].licenseName
    ensures StoreEach(d, cs).Get(cs[i].licenseName) == Some(cs[i])
    decreases |cs|
  {
    if i < |cs| - 1 {
      StoreEachLastWins(d, cs[..|cs| - 1], i);
    }
  }

  /** Names not written keep their stored value. */
  lemma {:induction false} StoreEachUntouched(d: Dict<LicenseClassification>, cs: seq<LicenseClassification>, k: string)
    requires DbValid(d)
    requires forall j :: 0 <= j < |cs| ==> cs[j].licenseName != k
    ensures StoreEach(d, cs).Get(k) == d.Get(k)
    decreases |cs|
  {
    if cs != [] {
      StoreEachUntouched(d, cs[..|cs| - 1], k);
    }
  }

  /** The errors the old handlers report. */
  datatype LegacyError =
    | NotCsv
    | NoLicensesFound
    | ClassificationFailed(detail: string)
    | NotFound(detail: string)
    | InvalidCategory(detail: string)
    | NoClassifications(message: string)

  const InvalidCategoryDetail: string := "Invalid category. Must be one of: " + Join(ValidCategories, ", ")

  /** The classification loop of `classify_licenses` on the outcomes of its
      calls: each success is stored as soon as it is made, the first failure
      ends the batch with the earlier items already stored, and a batch
      without failures returns every classification in order. */
  function BatchRun(d: Dict<LicenseClassification>, outcomes: seq<Result<LicenseClassification, string>>)
    : (out: (Result<seq<LicenseClassification>, LegacyError>, Dict<LicenseClassification>))
    requires DbValid(d)
    ensures DbValid(out.1)
    ensures out.0.Success? <==> forall i :: 0 <= i < |outcomes| ==> outcomes[i].Success?
    ensures out.0.Success? ==>
      |out.0.value| == |outcomes| && forall i :: 0 <= i < |outcomes| ==> out.0.value[i] == outcomes[i].value
    ensures out.0.Failure? ==>
      FirstFailure(outcomes) < |outcomes| && out.0.error == ClassificationFailed(outcomes[FirstFailure(outcomes)].error)
  {
    var k := FirstFailure(outcomes);
    var stored := StoreEach(d, SuccessValues(outcomes[..k]));
    if k == |outcomes| then (Success(SuccessValues(outcomes)), stored)
    else (Failure(ClassificationFailed(outcomes[k].error)), stored)
  }

  /** A failing item ends the batch with every item before it in the store,
      under the last classification made for its name. */
  lemma BatchRunKeepsEarlierItems(
    d: Dict<LicenseClassification>, outcomes: seq<Result<LicenseClassification, string>>, i: int)
    requires DbValid(d)
    requires 0 <= i < FirstFailure(outcomes)
    requires forall j :: i < j < FirstFailure(outcomes) ==>
      outcomes[j].value.licenseName != outcomes[i].value.licenseName
    ensures BatchRun(d, outcomes).1.Get(outcomes[i].value.licenseName) == Some(outcomes[i].value)
  {
    var k := FirstFailure(outcomes);
    var cs := SuccessValues(outcomes[..k]);
    assert cs[i] == outcomes[i].value;
    StoreEachLastWins(d, cs, i);
  }

  /** A name that no item before the first failure carries is not written,
      even if items after the failure carry it. */
  lemma BatchRunSkipsLaterItems(
    d: Dict<LicenseClassification>, outcomes: seq<Result<LicenseClassification, string>>, name: string)
    requires DbValid(d)
    requires forall j :: 0 <= j < FirstFailure(outcomes) ==> outcomes[j].value.licenseName != name
    ensures BatchRun(d, outcomes).1.Get(name) == d.Get(name)
  {
    var k := FirstFailure(outcomes);
    var cs := SuccessValues(outcomes[..k]);
    StoreEachUntouched(d, cs, name);
  }

  /** A batch that succeeds has stored every classification it returns,
      each under the last classification made for its name. */
  lemma BatchRunStoresAll(
    d: Dict<LicenseClassification>, outcomes: seq<Result<LicenseClassification, string>>, i: int)
    requires DbValid(d) && BatchRun(d, outcomes).0.Success?
    requires 0 <= i < |outcomes|
    requires forall j :: i < j < |outcomes| ==> outcomes[j].value.licenseName != outcomes[i].value.licenseName
    ensures BatchRun(d, outcomes).1.Get(outcomes[i].value.licenseName) == Some(outcomes[i].value)
  {
    var k := FirstFailure(outcomes);
    assert k == |outcomes|;
    StoreEachLastWins(d, SuccessValues(outcomes[..k]), i);
  }

  /** What `classify_licenses` returns and leaves in the store: a rejected
      file name or an empty name list stores nothing; otherwise the names
      are classified in order, one reply each, and stored as `BatchRun` says. */
  function LegacyBatch(d: Dict<LicenseClassification>, filename: string, rows: seq<Row>, replies: seq<ModelReply>)
    : (out: (Result<seq<LicenseClassification>, LegacyError>, Dict<LicenseClassification>))
    requires DbValid(d) && |replies| == |LegacyNames(rows)|
    ensures DbValid(out.1)
    ensures !LegacyAcceptsFilename(filename) ==> out == (Failure(NotCsv), d)
    ensures LegacyAcceptsFilename(filename) && LegacyNames(rows) == [] ==> out == (Failure(NoLicensesFound), d)
    ensures out.0.Success? ==>
      && |out.0.value| == |LegacyNames(rows)|
      && forall i :: 0 <= i < |out.0.value| ==>
           out.0.value[i].licenseName == LegacyNames(rows)[i] && replies[i].Completed?
    ensures (exists i :: 0 <= i < |replies| && replies[i].Failed?) ==> out.0.Failure?
  {
    if !LegacyAcceptsFilename(filename) then (Failure(NotCsv), d)
    else
      var names := LegacyNames(rows);
      if names == [] then (Failure(NoLicensesFound), d)
      else BatchRun(d, LegacyOutcomes(names, replies))
  }

  /** The old update request: it also carries a license name, which the
      handler ignores. */
  datatype UpdateRequest = UpdateRequest(licenseName: string, category: string, explanation: string)

  /** An update the old handler accepts is exactly one the current
      `UpdateLicenseRequest` and `LicenseClassification` validators accept,
      and it stores the same classification. */
  lemma LegacyUpdateAgrees(licenseName: string, update: UpdateRequest)
    ensures update.category in ValidCategories
      <==> NewLicenseClassification(licenseName, update.category, update.explanation).Success?
    ensures update.category in ValidCategories ==>
      NewLicenseClassification(licenseName, update.category, update.explanation).value
        == LicenseClassification(licenseName, update.category, LegacyTruncate(update.explanation))
  {
    GroqService.TruncationAgrees(update.explanation);
  }

  class LegacyApp {
    /** `classifications_db` */
    var db: Dict<LicenseClassification>

    ghost predicate Valid()
      reads this
    {
      DbValid(db)
    }

    constructor()
      ensures Valid() && db == Empty()
    {
      db := Empty();
    }

    /** `classify_licenses` on an upload named `filename` whose rows are
        `rows`; `replies` are the model's answers, one per name. */
    method ClassifyLicenses(filename: string, rows: seq<Row>, replies: seq<ModelReply>)
      returns (r: Result<seq<LicenseClassification>, LegacyError>)
      requires Valid() && |replies| == |LegacyNames(rows)|
      modifies this
      ensures Valid()
      ensures (r, db) == LegacyBatch(old(db), filename, rows, replies)
    {
      if !EndsWith(filename, ".csv") {
        return Failure(NotCsv);
      }
      var licenses := LegacyExtractNames(rows);
      if licenses == [] {
        return Failure(NoLicensesFound);
      }
      r := ClassifyAndStore(licenses, replies);
    }

    /** The loop of `classify_licenses` over the extracted names. */
    method ClassifyAndStore(licenses: seq<string>, replies: seq<ModelReply>)
      returns (r: Result<seq<LicenseClassification>, LegacyError>)
      requires Valid() && |replies| == |licenses|
      modifies this
      ensures Valid()
      ensures (r, db) == BatchRun(old(db), LegacyOutcomes(licenses, replies))
    {
      ghost var outcomes := LegacyOutcomes(licenses, replies);
      ghost var k := FirstFailure(outcomes);
      var results: seq<LicenseClassification> := [];
      var i := 0;
      while i < |licenses|
        invariant 0 <= i <= k
        invariant Valid()
        invariant results == SuccessValues(outcomes[..i])
        invariant db == StoreEach(old(db), results)
      {
        var classification := LegacyClassifyLicense(licenses[i], replies[i]);
        assert classification == outcomes[i];
        FirstFailureStep(outcomes, i);
        if classification.Failure? {
          return Failure(ClassificationFailed(classification.error));
        }
        SuccessValuesSnoc(outcomes, i);
        StoreEachSnoc(old(db), results, classification.value);
        results := results + [classification.value];
        db := db.Set(licenses[i], classification.value);
        i := i + 1;
      }
      assert outcomes[..i] == outcomes;
      r := Success(results);
    }

    /** `get_results`: the stored classifications in insertion order, or the
        "no classifications" reply for an empty store. */
    function GetResults(): (r: Result<seq<LicenseClassification>, LegacyError>)
      reads this
      requires Valid()
      ensures r.Failure? <==> db.entries == map[]
      ensures r.Success? ==>
        |r.value| == |db.keys| && forall i :: 0 <= i < |r.value| ==> r.value[i].licenseName == db.keys[i]
      ensures r.Success? ==> forall i :: 0 <= i < |r.value| ==> r.value[i] == db.entries[db.keys[i]]
    {
      if db.entries == map[] then
        Failure(NoClassifications("No classifications found. Please upload a CSV file first."))
      else Success(db.Values())
    }

    /** `get_result_by_name` */
    function GetResultByName(licenseName: string): (r: Result<LicenseClassification, LegacyError>)
      reads this
      requires Valid()
      ensures r.Success? <==> licenseName in db.entries
      ensures r.Success? ==> r.value.licenseName == licenseName
      ensures r.Success? ==> r.value == db.entries[licenseName]
      ensures r.Failure? ==> r.error == NotFound("License '" + licenseName + "' not found")
    {
      if licenseName !in db.entries then Failure(NotFound("License '" + licenseName + "' not found"))
      else Success(db.entries[licenseName])
    }

    /** `update_license`: an unknown name is rejected first, then a category
        outside the six; otherwise only that entry is replaced, with the
        explanation truncated. */
    method UpdateLicense(licenseName: string, update: UpdateRequest)
      returns (r: Result<LicenseClassification, LegacyError>)
      requires Valid()
      modifies this
      ensures Valid()
      ensures licenseName !in old(db.entries) ==>
        r == Failure(NotFound("License '" + licenseName + "' not found"))
      ensures licenseName in old(db.entries) && update.category !in ValidCategories ==>
        r == Failure(InvalidCategory(InvalidCategoryDetail))
      ensures licenseName in old(db.entries) && update.category in ValidCategories ==>
        r == Success(LicenseClassification(licenseName, update.category, LegacyTruncate(update.explanation)))
      ensures db == if r.Success? then old(db).Set(licenseName, r.value) else old(db)
    {
      if licenseName !in db.entries {
        return Failure(NotFound("License '" + licenseName + "' not found"));
      }
      if update.category !in ValidCategories {
        return Failure(InvalidCategory(InvalidCategoryDetail));
      }
      var explanation := update.explanation;
      if |explanation| > 150 {
        explanation := explanation[..147] + "...";
      }
      var updated := LicenseClassification(licenseName, update.category, explanation);
      db := db.Set(licenseName, updated);
      r := Success(updated);
    }

    /** `delete_result`: an unknown name is rejected; otherwise exactly that
        key is removed and its classification returned with a message. */
    method DeleteResult(licenseName: string)
      returns (r: Result<(string, LicenseClassification), LegacyError>)
      requires Valid()
      modifies this
      ensures Valid()
      ensures licenseName !in old(db.entries) ==>
        r == Failure(NotFound("License '" + licenseName + "' not found")) && db == old(db)
      ensures licenseName in old(db.entries) ==>
        && r == Success(("Classification for '" + licenseName + "' deleted successfully",
                         old(db).entries[licenseName]))
        && db == old(db).Pop(licenseName)
    {
      if licenseName !in db.entries {
        return Failure(NotFound("License '" + licenseName + "' not found"));
      }
      var deleted := db.entries[licenseName];
      db := db.Pop(licenseName);
      r := Success(("Classification for '" + licenseName + "' deleted successfully", deleted));
    }

    /** `get_statistics`: a message for an empty store, otherwise the same
        report as the current service. */
    method GetStatistics() returns (r: Result<Statistics, string>)
      requires Valid()
      ensures r.Failure? <==> db.entries == map[]
      ensures r.Failure? ==> r.error == "No classifications available"
      ensures r.Success? ==> r.value == StatisticsOf(db)
    {
      if db.entries == map[] {
        return Failure("No classifications available");
      }
      var counts := CountCategories(db.Values());
      LenIsKeyCount(db);
      r := Success(Statistics(|db.entries|, counts, db.keys));
    }
  }
}
