/** What a chat-completion call hands back, and the two-line reply format
    ("Category: ..." / "Explanation: ...") that both versions of the
    classifier read from it. */
module Reply {
  import opened Text

  /** The outcome of one chat-completion call: the message content, or the
      text of the exception the call raised (network, authentication, rate
      limit, or a reply without content). The call itself is not modelled. */
  datatype ModelReply = Completed(content: string) | Failed(reason: string)

  const CategoryTag: string := "Category:"
  const ExplanationTag: string := "Explanation:"

  /** `line.replace(tag, "").strip()` */
  function TagValue(line: string, tag: string): string
    requires tag != []
  {
    Strip(RemoveAll(line, tag))
  }

  /** The value taken from the last line that starts with `tag`, or "" when
      no line does: a later tagged line overrides an earlier one. */
  function LastTagValue(lines: seq<string>, tag: string): string
    requires tag != []
    decreases |lines|
  {
    if lines == [] then ""
    else if StartsWith(lines[|lines| - 1], tag) then TagValue(lines[|lines| - 1], tag)
    else LastTagValue(lines[..|lines| - 1], tag)
  }

  /** `[line.strip() for line in lines]` */
  function StrippedLines(lines: seq<string>): (r: seq<string>)
    ensures |r| == |lines|
  {
    seq(|lines|, i requires 0 <= i < |lines| => Strip(lines[i]))
  }

  /** Stripping one more line. */
  lemma StrippedLinesSnoc(lines: seq<string>, line: string)
    ensures StrippedLines(lines + [line]) == StrippedLines(lines) + [Strip(line)]
  {
  }

  /** Two lines are stripped one by one. */
  lemma StrippedPair(l1: string, l2: string)
    ensures StrippedLines([l1, l2]) == [Strip(l1), Strip(l2)]
  {
  }

  /** Reading one more line: a tagged line overrides what came before. */
  lemma LastTagValueSnoc(lines: seq<string>, line: string, tag: string)
    requires tag != []
    ensures LastTagValue(lines + [line], tag)
      == if StartsWith(line, tag) then TagValue(line, tag) else LastTagValue(lines, tag)
  {
    assert (lines + [line])[..|lines|] == lines;
  }

  /** Reading the stripped lines one at a time, as the parse loops do. */
  lemma LastTagValueStep(lines: seq<string>, i: int, tag: string)
    requires tag != [] && 0 <= i < |lines|
    ensures LastTagValue(StrippedLines(lines[..i + 1]), tag)
      == if StartsWith(Strip(lines[i]), tag) then TagValue(Strip(lines[i]), tag)
         else LastTagValue(StrippedLines(lines[..i]), tag)
  {
    assert lines[..i + 1] == lines[..i] + [lines[i]];
    StrippedLinesSnoc(lines[..i], lines[i]);
    LastTagValueSnoc(StrippedLines(lines[..i]), Strip(lines[i]), tag);
  }

  /** The value read is the one on the last tagged line. */
  lemma {:induction false} LastTagValueIsLastTagged(lines: seq<string>, tag: string, k: int)
    requires tag != [] && 0 <= k < |lines| && StartsWith(lines[k], tag)
    requires forall j :: k < j < |lines| ==> !StartsWith(lines[j], tag)
    ensures LastTagValue(lines, tag) == TagValue(lines[k], tag)
    decreases |lines|
  {
    if k < |lines| - 1 {
      var init := lines[..|lines| - 1];
      assert init[k] == lines[k];
      LastTagValueIsLastTagged(init, tag, k);
    }
  }

  /** With no tagged line the value is empty. */
  lemma {:induction false} LastTagValueUntagged(lines: seq<string>, tag: string)
    requires tag != []
    requires forall j :: 0 <= j < |lines| ==> !StartsWith(lines[j], tag)
    ensures LastTagValue(lines, tag) == ""
    decreases |lines|
  {
    if lines != [] {
      LastTagValueUntagged(lines[..|lines| - 1], tag);
    }
  }

  /** A line cannot start with both tags, so the `elif` in the parse loops
      never hides a line from the tag it carries. */
  lemma TagsExclusive(line: string)
    ensures !(StartsWith(line, CategoryTag) && StartsWith(line, ExplanationTag))
  {
    if StartsWith(line, CategoryTag) {
      assert line[0] == CategoryTag[0] == 'C';
      assert |line| < |ExplanationTag| || line[..|ExplanationTag|][0] != ExplanationTag[0];
    }
  }

  /** A string without one of the pattern's characters does not contain it. */
  lemma MissingCharNotContained(s: string, pat: string, c: char)
    requires c in pat && c !in s
    ensures !Contains(s, pat)
  {
  }

  /** On a line that starts with the tag and does not repeat it, the value
      is the rest of the line, stripped. */
  lemma TagValueOfPlainLine(line: string, tag: string)
    requires tag != [] && StartsWith(line, tag) && !Contains(line[|tag|..], tag)
    ensures TagValue(line, tag) == Strip(line[|tag|..])
  {
    RemoveAllAbsent(line[|tag|..], tag);
  }

  /** The reply the prompt asks for: a "Category:" line and an
      "Explanation:" line. */
  function FormattedReply(category: string, explanation: string): string {
    CategoryTag + " " + category + "\n" + ExplanationTag + " " + explanation
  }

  /** A category a model may put on its line: one line, not padded, no colon. */
  predicate PlainCategory(category: string) {
    && category != []
    && !IsSpace(category[0]) && !IsSpace(category[|category| - 1])
    && ':' !in category && '\n' !in category
  }

  /** An explanation a model may put on its line: one line, not padded, not
      repeating the tag. */
  predicate PlainExplanation(explanation: string) {
    && explanation != []
    && Strip(explanation) == explanation
    && '\n' !in explanation
    && !Contains(explanation, ExplanationTag)
  }

  /** `" " + s` holds a pattern that does not start with a space only if `s` does. */
  lemma NotContainedAfterSpace(s: string, pat: string)
    requires pat != [] && pat[0] != ' ' && !Contains(s, pat)
    ensures !Contains(" " + s, pat)
  {
    var t := " " + s;
    forall i | 0 <= i <= |t| - |pat| ensures !OccursAt(t, pat, i) {
      if i == 0 {
        assert t[i..i + |pat|][0] == ' ';
      } else {
        assert t[i..i + |pat|] == s[i - 1..i - 1 + |pat|];
        assert !OccursAt(s, pat, i - 1);
      }
    }
  }

  /** A formatted reply is not padded, so stripping the whole reply keeps it. */
  lemma FormattedReplyUnpadded(category: string, explanation: string)
    requires PlainExplanation(explanation)
    ensures Strip(FormattedReply(category, explanation)) == FormattedReply(category, explanation)
  {
    var text := FormattedReply(category, explanation);
    assert text[0] == 'C';
    assert text[|text| - 1] == explanation[|explanation| - 1];
    StripUnpadded(text);
  }

  /** A formatted reply splits into its two lines. */
  lemma FormattedReplySplit(category: string, explanation: string)
    requires PlainCategory(category) && PlainExplanation(explanation)
    ensures SplitOn(FormattedReply(category, explanation), '\n')
         == [CategoryTag + " " + category, ExplanationTag + " " + explanation]
  {
    var l1 := CategoryTag + " " + category;
    var l2 := ExplanationTag + " " + explanation;
    assert FormattedReply(category, explanation) == Join([l1, l2], "\n");
    assert '\n' !in l1;
    assert '\n' !in l2;
    SplitJoin([l1, l2], '\n');
  }

  /** Each line of a formatted reply is its own strip. */
  lemma FormattedLinesUnpadded(category: string, explanation: string)
    requires PlainCategory(category) && PlainExplanation(explanation)
    ensures Strip(CategoryTag + " " + category) == CategoryTag + " " + category
    ensures Strip(ExplanationTag + " " + explanation) == ExplanationTag + " " + explanation
  {
    var l1 := CategoryTag + " " + category;
    var l2 := ExplanationTag + " " + explanation;
    StripUnpadded(l1);
    assert l2[|l2| - 1] == explanation[|explanation| - 1];
    StripUnpadded(l2);
  }

  /** The category line of a formatted reply carries its category. */
  lemma CategoryLineRead(category: string)
    requires PlainCategory(category)
    ensures StartsWith(CategoryTag + " " + category, CategoryTag)
    ensures TagValue(CategoryTag + " " + category, CategoryTag) == category
  {
    var l1 := CategoryTag + " " + category;
    assert l1[..|CategoryTag|] == CategoryTag;
    assert l1[|CategoryTag|..] == " " + category;
    MissingCharNotContained(" " + category, CategoryTag, ':');
    TagValueOfPlainLine(l1, CategoryTag);
    StripLeadingSpace(" " + category);
    assert (" " + category)[1..] == category;
    StripUnpadded(category);
  }

  /** The explanation line of a formatted reply carries its explanation and
      is not a category line. */
  lemma ExplanationLineRead(explanation: string)
    requires PlainExplanation(explanation)
    ensures StartsWith(ExplanationTag + " " + explanation, ExplanationTag)
    ensures !StartsWith(ExplanationTag + " " + explanation, CategoryTag)
    ensures TagValue(ExplanationTag + " " + explanation, ExplanationTag) == explanation
  {
    var l2 := ExplanationTag + " " + explanation;
    assert l2[..|ExplanationTag|] == ExplanationTag;
    TagsExclusive(l2);
    assert l2[|ExplanationTag|..] == " " + explanation;
    NotContainedAfterSpace(explanation, ExplanationTag);
    TagValueOfPlainLine(l2, ExplanationTag);
    StripLeadingSpace(" " + explanation);
    assert (" " + explanation)[1..] == explanation;
  }

  /** Reading the two lines of a formatted reply gives back its category:
      the explanation line does not override the category line. */
  lemma FormattedReplyCategory(category: string, explanation: string)
    requires PlainCategory(category) && PlainExplanation(explanation)
    ensures LastTagValue([CategoryTag + " " + category, ExplanationTag + " " + explanation], CategoryTag)
         == category
  {
    var l1 := CategoryTag + " " + category;
    var l2 := ExplanationTag + " " + explanation;
    CategoryLineRead(category);
    ExplanationLineRead(explanation);
    LastTagValueOfPair(l1, l2, CategoryTag);
  }

  /** Of two lines, only the first tagged: its value is read. */
  lemma LastTagValueOfPair(l1: string, l2: string, tag: string)
    requires tag != [] && StartsWith(l1, tag) && !StartsWith(l2, tag)
    ensures LastTagValue([l1, l2], tag) == TagValue(l1, tag)
  {
    assert [l1, l2][..1] == [l1];
  }

  /** Reading the two lines of a formatted reply gives back its explanation. */
  lemma FormattedReplyExplanation(category: string, explanation: string)
    requires PlainExplanation(explanation)
    ensures LastTagValue([CategoryTag + " " + category, ExplanationTag + " " + explanation], ExplanationTag)
         == explanation
  {
    ExplanationLineRead(explanation);
  }
}
