/** The classification pipeline of app/services/groq_service.py: prompt
    construction, reading the model's reply, coercing the category into the
    six labels, and enforcing the 150-character explanation ceiling. The
    chat-completion call is replaced by its outcome, a `ModelReply`. */
module GroqService {
  import opened Wrappers
  import opened Config
  import opened Text
  import opened Reply
  import opened Types

  // ---------------------------------------------------------------------
  // Prompt builder

  const LengthTarget: string := "140-145"

  const PromptIntro: string := "Classify this software license into ONE category from: "
  const PromptLicense: string := "\n\nSoftware License: "
  const PromptRules: string := "\n\nRules:\n1. Choose the MOST appropriate single category\n2. Explanation MUST be "
  const PromptFormat: string := " characters (strictly enforced)\n3. Focus on primary software function\n\nRespond EXACTLY in this format:\n"
  const PromptCategoryLine: string := " [category name]\n"
  const PromptClosing: string := " [your 140-145 character explanation]\n\nDo not include any other text."

  /** The pieces of the prompt's f-string, in order. */
  function PromptPieces(licenseName: string): seq<string> {
    [ PromptIntro, Join(ValidCategories, ", "), PromptLicense, licenseName, PromptRules, LengthTarget,
      PromptFormat, CategoryTag, PromptCategoryLine, ExplanationTag, PromptClosing ]
  }

  /** `_build_classification_prompt`: the prompt names every category verbatim,
      names the license, asks for the two tagged lines, and asks for an
      explanation of 140-145 characters. */
  function BuildClassificationPrompt(licenseName: string): (prompt: string)
    ensures forall c :: c in ValidCategories ==> Contains(prompt, c)
    ensures Contains(prompt, licenseName)
    ensures Contains(prompt, CategoryTag) && Contains(prompt, ExplanationTag)
    ensures Contains(prompt, LengthTarget)
  {
    var pieces := PromptPieces(licenseName);
    JoinedPiecesContain(pieces, ValidCategories);
    assert pieces[3] == licenseName && pieces[5] == LengthTarget;
    assert pieces[7] == CategoryTag && pieces[9] == ExplanationTag;
    Join(pieces, "")
  }

  /** Joined pieces hold each piece, and each item of a list joined into
      piece 1. */
  lemma JoinedPiecesContain(pieces: seq<string>, categories: seq<string>)
    requires |pieces| == 11 && pieces[1] == Join(categories, ", ")
    ensures forall c :: c in categories ==> Contains(Join(pieces, ""), c)
    ensures forall k :: 0 <= k < |pieces| ==> Contains(Join(pieces, ""), pieces[k])
  {
    var prompt := Join(pieces, "");
    forall k | 0 <= k < |pieces| ensures Contains(prompt, pieces[k]) {
      JoinContainsPart(pieces, "", k);
    }
    forall c | c in categories ensures Contains(prompt, c) {
      var k :| 0 <= k < |categories| && categories[k] == c;
      JoinContainsPart(categories, ", ", k);
      ContainsTransitive(prompt, pieces[1], c);
    }
  }

  // ---------------------------------------------------------------------
  // Response interpreter

  /** The first category, in list order, whose lower-case form occurs in the
      lower-cased reply. */
  function FirstMentioned(categories: seq<string>, responseText: string): (r: Option<string>)
    ensures r.Some? ==> r.value in categories
    decreases |categories|
  {
    if categories == [] then None
    else if Contains(Lower(responseText), Lower(categories[0])) then Some(categories[0])
    else FirstMentioned(categories[1..], responseText)
  }

  /** The mentioned category found at index `j` is the one chosen when no
      earlier category is mentioned. */
  lemma {:induction false} FirstMentionedAt(categories: seq<string>, responseText: string, j: int)
    requires 0 <= j < |categories|
    requires Contains(Lower(responseText), Lower(categories[j]))
    requires forall k :: 0 <= k < j ==> !Contains(Lower(responseText), Lower(categories[k]))
    ensures FirstMentioned(categories, responseText) == Some(categories[j])
    decreases j
  {
    if j > 0 {
      FirstMentionedAt(categories[1..], responseText, j - 1);
    }
  }

  /** When no category is mentioned nothing is chosen. */
  lemma {:induction false} FirstMentionedNone(categories: seq<string>, responseText: string)
    requires forall k :: 0 <= k < |categories| ==> !Contains(Lower(responseText), Lower(categories[k]))
    ensures FirstMentioned(categories, responseText) == None
    decreases |categories|
  {
    if categories != [] {
      FirstMentionedNone(categories[1..], responseText);
    }
  }

  /** A chosen category is mentioned, and no category before it is. */
  lemma {:induction false} FirstMentionedIsFirst(categories: seq<string>, responseText: string)
    ensures match FirstMentioned(categories, responseText)
      case None =>
        forall k :: 0 <= k < |categories| ==> !Contains(Lower(responseText), Lower(categories[k]))
      case Some(c) =>
        exists j :: 0 <= j < |categories| && categories[j] == c
          && Contains(Lower(responseText), Lower(c))
          && forall k :: 0 <= k < j ==> !Contains(Lower(responseText), Lower(categories[k]))
    decreases |categories|
  {
    if categories != [] && !Contains(Lower(responseText), Lower(categories[0])) {
      FirstMentionedIsFirst(categories[1..], responseText);
      var tail := categories[1..];
      match FirstMentioned(tail, responseText)
      case None =>
        assert forall k :: 1 <= k < |categories| ==> categories[k] == tail[k - 1];
      case Some(c) =>
        var j :| 0 <= j < |tail| && tail[j] == c
          && Contains(Lower(responseText), Lower(c))
          && forall k :: 0 <= k < j ==> !Contains(Lower(responseText), Lower(tail[k]));
        assert categories[j + 1] == c;
        assert forall k :: 1 <= k < j + 1 ==> categories[k] == tail[k - 1];
    } else if categories != [] {
      assert categories[0] == FirstMentioned(categories, responseText).value;
    }
  }

  /** The category kept by `_parse_response`: a valid parsed category as it
      is, otherwise the first category the reply mentions, otherwise
      "Development". Always one of the six. */
  function CoerceCategory(parsed: string, responseText: string): (c: string)
    ensures c in ValidCategories
    ensures parsed in ValidCategories ==> c == parsed
  {
    if parsed in ValidCategories then parsed
    else match FirstMentioned(ValidCategories, responseText)
      case Some(m) => m
      case None => DefaultCategory
  }

  /** The explanation supplied when the reply gives none. */
  function DefaultExplanation(category: string): (e: string)
    ensures e != []
  {
    "Software classified as " + category + " based on primary functionality."
  }

  /** The values on the last "Category:" and "Explanation:" lines, each line
      stripped first; "" for a tag no line carries. */
  function TaggedValues(lines: seq<string>): (string, string) {
    (LastTagValue(StrippedLines(lines), CategoryTag), LastTagValue(StrippedLines(lines), ExplanationTag))
  }

  /** What `_parse_response` returns: the category from the last
      "Category:" line, coerced, and the explanation from the last
      "Explanation:" line, or the default one for the final category. */
  function ParsedResponse(responseText: string): (r: (string, string))
    ensures r.0 in ValidCategories
    ensures r.1 != []
  {
    var tagged := TaggedValues(SplitOn(responseText, '\n'));
    var category := CoerceCategory(tagged.0, responseText);
    var explanation := tagged.1;
    (category, if explanation == "" then DefaultExplanation(category) else explanation)
  }

  /** The first loop of `_parse_response`: each line is stripped, and the
      last "Category:" and "Explanation:" lines give the two values. */
  method ReadTaggedLines(lines: seq<string>) returns (category: string, explanation: string)
    ensures (category, explanation) == TaggedValues(lines)
  {
    category := "";
    explanation := "";
    for i := 0 to |lines|
      invariant category == LastTagValue(StrippedLines(lines[..i]), CategoryTag)
      invariant explanation == LastTagValue(StrippedLines(lines[..i]), ExplanationTag)
    {
      var line := Strip(lines[i]);
      LastTagValueStep(lines, i, CategoryTag);
      LastTagValueStep(lines, i, ExplanationTag);
      TagsExclusive(line);
      if StartsWith(line, CategoryTag) {
        category := Strip(RemoveAll(line, CategoryTag));
      } else if StartsWith(line, ExplanationTag) {
        explanation := Strip(RemoveAll(line, ExplanationTag));
      }
    }
    assert lines[..|lines|] == lines;
  }

  /** The fallback loop of `_parse_response`: the categories are tried in
      list order against the lower-cased reply, and the first one found is
      taken. */
  method FindMentioned(categories: seq<string>, responseText: string) returns (r: Option<string>)
    ensures r == FirstMentioned(categories, responseText)
  {
    var lowered := Lower(responseText);
    for j := 0 to |categories|
      invariant FirstMentioned(categories[j..], responseText) == FirstMentioned(categories, responseText)
    {
      assert categories[j..][1..] == categories[j + 1..];
      if Contains(lowered, Lower(categories[j])) {
        return Some(categories[j]);
      }
    }
    return None;
  }

  /** `_parse_response` */
  method ParseResponse(responseText: string) returns (category: string, explanation: string)
    ensures (category, explanation) == ParsedResponse(responseText)
    ensures category in ValidCategories && explanation != []
  {
    var lines := SplitOn(responseText, '\n');
    category, explanation := ReadTaggedLines(lines);
    if category !in ValidCategories {
      var mentioned := FindMentioned(ValidCategories, responseText);
      category := if mentioned.Some? then mentioned.value else DefaultCategory;
    }
    if explanation == "" {
      explanation := DefaultExplanation(category);
    }
  }

  /** The six category labels are plain: no padding, colon or line break. */
  lemma CategoryShape(c: string)
    requires c in ValidCategories
    ensures PlainCategory(c)
  {
  }

  /** The two lines of a formatted reply, read as `_parse_response` reads them. */
  lemma FormattedLinesTagged(category: string, explanation: string)
    requires PlainCategory(category) && PlainExplanation(explanation)
    ensures TaggedValues([CategoryTag + " " + category, ExplanationTag + " " + explanation])
         == (category, explanation)
  {
    var l1 := CategoryTag + " " + category;
    var l2 := ExplanationTag + " " + explanation;
    FormattedLinesUnpadded(category, explanation);
    StrippedPair(l1, l2);
    FormattedReplyCategory(category, explanation);
    FormattedReplyExplanation(category, explanation);
  }

  /** A reply in the requested format, with one of the six categories and a
      plain explanation, is read back exactly: no coercion, no default. */
  lemma FormattedReplyReadBack(category: string, explanation: string)
    requires category in ValidCategories && PlainExplanation(explanation)
    ensures ParsedResponse(FormattedReply(category, explanation)) == (category, explanation)
  {
    CategoryShape(category);
    FormattedReplySplit(category, explanation);
    FormattedLinesTagged(category, explanation);
  }

  /** End to end: a formatted reply yields its own category and its
      explanation, truncated to the ceiling. */
  lemma FormattedReplyClassified(category: string, explanation: string)
    requires category in ValidCategories && PlainExplanation(explanation)
    ensures ClassificationOutcome(Completed(FormattedReply(category, explanation)))
         == Success((category, TruncateExplanation(explanation)))
  {
    CategoryShape(category);
    FormattedReplyUnpadded(category, explanation);
    FormattedReplyReadBack(category, explanation);
  }

  /** A formatted reply whose category line names a label outside the six,
      and that mentions none of the six anywhere, is coerced to
      "Development"; the model's own explanation is kept. */
  lemma OffListCategoryCoerced(category: string, explanation: string)
    requires PlainCategory(category) && category !in ValidCategories && PlainExplanation(explanation)
    requires forall k :: 0 <= k < |ValidCategories| ==>
      !Contains(Lower(FormattedReply(category, explanation)), Lower(ValidCategories[k]))
    ensures ParsedResponse(FormattedReply(category, explanation)) == (DefaultCategory, explanation)
  {
    FormattedReplySplit(category, explanation);
    FormattedLinesTagged(category, explanation);
    FirstMentionedNone(ValidCategories, FormattedReply(category, explanation));
  }

  /** No category is mentioned, under ASCII lower-casing, in a text without
      the letters d, u, f and k: each of the six lower-cased labels holds
      one of them. */
  lemma NoCategoryMentioned(text: string)
    requires forall ch :: ch in "dDuUfFkK" ==> ch !in text
    ensures forall k :: 0 <= k < |ValidCategories| ==> !Contains(Lower(text), Lower(ValidCategories[k]))
  {
    var lowered := Lower(text);
    LowerMissingChar(text, 'd');
    LowerMissingChar(text, 'u');
    LowerMissingChar(text, 'f');
    LowerMissingChar(text, 'k');
    forall k | 0 <= k < |ValidCategories|
      ensures !Contains(lowered, Lower(ValidCategories[k]))
    {
      var c := ValidCategories[k];
      var ch := if k == 2 then 'u' else if k == 4 then 'f' else if k == 5 then 'k' else 'd';
      var at := if k == 0 then 3 else if k == 2 then 4 else if k == 5 then 3 else 0;
      assert Lower(c)[at] == ch;
      MissingCharNotContained(lowered, Lower(c), ch);
    }
  }

  /** A formatted reply holds no letter its category and explanation lack,
      among those the tags lack too. */
  lemma FormattedReplyLacks(category: string, explanation: string, letters: string)
    requires forall ch :: ch in letters ==>
      ch !in category && ch !in explanation && ch !in CategoryTag && ch !in ExplanationTag
      && ch != ' ' && ch != '\n'
    ensures forall ch :: ch in letters ==> ch !in FormattedReply(category, explanation)
  {
  }

  /** "General tools" can stand on an explanation line. */
  lemma GeneralToolsIsPlain(explanation: string)
    requires explanation == "General tools"
    ensures PlainExplanation(explanation)
  {
    MissingCharNotContained(explanation, ExplanationTag, ':');
    StripUnpadded(explanation);
  }

  /** An off-list category and an explanation that both lack the letters d,
      u, f and k make a reply that mentions none of the six under ASCII
      lower-casing, so it is coerced to "Development". */
  lemma LetterlessReplyCoerced(category: string, explanation: string)
    requires PlainCategory(category) && category !in ValidCategories && PlainExplanation(explanation)
    requires forall ch :: ch in "dDuUfFkK" ==> ch !in category && ch !in explanation
    ensures ParsedResponse(FormattedReply(category, explanation)) == (DefaultCategory, explanation)
  {
    FormattedReplyLacks(category, explanation, "dDuUfFkK");
    NoCategoryMentioned(FormattedReply(category, explanation));
    OffListCategoryCoerced(category, explanation);
  }

  /** The off-list case happens: "Misc" with "General tools" reads as
      ("Development", "General tools"), not as a failure. */
  lemma MiscReadAsDevelopment(category: string, explanation: string)
    requires category == "Misc" && explanation == "General tools"
    ensures ParsedResponse(FormattedReply(category, explanation)) == (DefaultCategory, explanation)
  {
    GeneralToolsIsPlain(explanation);
    LetterlessReplyCoerced(category, explanation);
  }

  // ---------------------------------------------------------------------
  // Explanation enforcer

  /** `_truncate_explanation`: at most 150 characters; an explanation that
      fits comes back unchanged, a longer one keeps its first 147
      characters and ends with the ellipsis, 150 characters in all. */
  function TruncateExplanation(explanation: string): (r: string)
    ensures |r| <= MaxExplanationLength
    ensures |explanation| <= MaxExplanationLength ==> r == explanation
    ensures |explanation| > MaxExplanationLength ==>
      && |r| == MaxExplanationLength
      && r[..MaxExplanationLength - 3] == explanation[..MaxExplanationLength - 3]
      && EndsWith(r, Ellipsis)
  {
    var maxLen := MaxExplanationLength;
    if |explanation| <= maxLen then explanation
    else explanation[..maxLen - 3] + Ellipsis
  }

  /** Truncating twice is truncating once. */
  lemma TruncateIdempotent(explanation: string)
    ensures TruncateExplanation(TruncateExplanation(explanation)) == TruncateExplanation(explanation)
  {
  }

  /** The pydantic before-validator of app/models/types.py computes the same
      string as the service's own truncation. */
  lemma TruncationAgrees(s: string)
    ensures TruncateLogic(Str(s)) == Str(TruncateExplanation(s))
  {
  }

  // ---------------------------------------------------------------------
  // classify_license

  const ErrorPrefix: string := "Groq API error: "

  /** What `classify_license` promises its callers: either it raises, or it
      returns one of the six categories with a non-empty explanation of at
      most 150 characters. */
  predicate MeetsContract(r: Result<(string, string), string>) {
    r.Success? ==> r.value.0 in ValidCategories && 0 < |r.value.1| <= MaxExplanationLength
  }

  /** The result of `classify_license` once the model has answered: the
      stripped content is parsed and the explanation truncated; a failed
      call becomes one error, never a partial result. */
  function ClassificationOutcome(reply: ModelReply): (r: Result<(string, string), string>)
    ensures r.Success? <==> reply.Completed?
    ensures MeetsContract(r)
    ensures r.Failure? ==> r.error == ErrorPrefix + reply.reason
  {
    match reply
    case Failed(reason) => Failure(ErrorPrefix + reason)
    case Completed(content) =>
      var parsed := ParsedResponse(Strip(content));
      Success((parsed.0, TruncateExplanation(parsed.1)))
  }

  /** `classify_license`: the prompt for `licenseName` goes to the model
      (with the fixed system prompt) and `reply` is what the call produced. */
  method ClassifyLicense(licenseName: string, reply: ModelReply) returns (r: Result<(string, string), string>)
    ensures r == ClassificationOutcome(reply)
  {
    var prompt := BuildClassificationPrompt(licenseName);
    match reply
    case Failed(reason) =>
      r := Failure(ErrorPrefix + reason);
    case Completed(content) =>
      var responseText := Strip(content);
      var category, explanation := ParseResponse(responseText);
      explanation := TruncateExplanation(explanation);
      r := Success((category, explanation));
  }
}
