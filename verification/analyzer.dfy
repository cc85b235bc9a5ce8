/** What `analyzeTextWithGemini` (app.py:39-63) makes of the generation
    call's outcome: a failed call becomes an error message with an empty
    translation; otherwise the response text (or a placeholder when there is
    none) is cleaned and split on the `|||` delimiter into an explanation and
    a translation, with a fixed notice as the translation when it cannot be
    split. */
module Analyzer {
  import opened Wrappers
  import opened Text
  import opened Cleaner

  /** How the generation call ended: an exception, whose localized message
      may be null, or a response, whose text may be null. */
  datatype Outcome = Failure(message: Option<string>) | Ok(text: Option<string>)

  /** The pair handed back to the caller. */
  datatype Analysis = Analysis(explanation: string, translation: string)

  /** The literal the prompt asks the model to put between the two sections. */
  const Delimiter: string := "|||"

  /** Used in place of a response that carries no text. */
  const NoAnswer: string := "回答が得られませんでした"

  /** The translation when the delimiter is missing. */
  const SplitFailed: string := "（翻訳データがうまく分割できませんでした）"

  /** Put in front of the exception message when the call fails. */
  const ErrorPrefix: string := "通信エラー: "

  /** A nullable string inside a Kotlin string template: null prints as "null". */
  function Interpolate(m: Option<string>): (r: string)
    ensures m.Some? ==> r == m.value
    ensures m.None? ==> r == "null"
  {
    m.GetOr("null")
  }

  /** Splitting the cleaned text: with the delimiter, the explanation is the
      trimmed text before its leftmost occurrence and the translation the
      trimmed text between that and the next occurrence (or the end), later
      segments being dropped; without it, the untrimmed text and the notice. */
  function Sections(clean: string): (a: Analysis)
    ensures !Occurs(clean, Delimiter) ==> a == Analysis(clean, SplitFailed)
    ensures forall i: nat :: IsFirst(clean, Delimiter, i) ==> a.explanation == Trim(clean[..i])
    ensures forall i: nat, j: nat :: IsFirst(clean, Delimiter, i) && NextAfter(clean, Delimiter, i, j) ==>
              a.translation == Trim(clean[i + |Delimiter|..j])
    ensures forall i: nat :: IsFirst(clean, Delimiter, i) && NoneAfter(clean, Delimiter, i) ==>
              a.translation == Trim(clean[i + |Delimiter|..])
  {
    var parts := Split(clean, Delimiter);
    SplitFirstTwo(clean, Delimiter);
    if |parts| >= 2 then Analysis(Trim(parts[0]), Trim(parts[1]))
    else Analysis(clean, SplitFailed)
  }

  /** Neither field of a split ever holds the delimiter, and a literal absent
      from the cleaned text (and from the notice) is absent from both fields. */
  lemma SectionsFree(clean: string, q: string)
    requires |q| > 0
    requires !Occurs(clean, q) && !Occurs(SplitFailed, q)
    ensures !Occurs(Sections(clean).explanation, q) && !Occurs(Sections(clean).translation, q)
  {
    var parts := Split(clean, Delimiter);
    if |parts| >= 2 {
      SplitKeepsFree(clean, Delimiter, q);
      TrimFree(parts[0], q);
      TrimFree(parts[1], q);
    }
  }

  /** The outcome of the generation call mapped to the pair the caller
      shows: a failure never reaches the cleaner, and a response without text
      is the placeholder with the notice. */
  function Analyze(outcome: Outcome): (a: Analysis)
    ensures outcome.Failure? ==> a == Analysis(ErrorPrefix + Interpolate(outcome.message), "")
    ensures outcome == Ok(None) ==> a == Analysis(NoAnswer, SplitFailed)
    ensures outcome.Ok? && outcome.text.Some? ==> a == Sections(Clean(outcome.text.value))
    ensures outcome.Ok? ==>
              && !Occurs(a.explanation, "**") && !Occurs(a.explanation, "* ") && !Occurs(a.explanation, "- ")
              && !Occurs(a.translation, "**") && !Occurs(a.translation, "* ") && !Occurs(a.translation, "- ")
              && !Occurs(a.explanation, Delimiter) && !Occurs(a.translation, Delimiter)
  {
    match outcome
    case Failure(m) => Analysis(ErrorPrefix + Interpolate(m), "")
    case Ok(text) =>
      var clean := Clean(text.GetOr(NoAnswer));
      NoAnswerIsPlain();
      NoticeIsPlain();
      SectionsFree(clean, "**");
      SectionsFree(clean, "* ");
      SectionsFree(clean, "- ");
      SectionsKeepNoDelimiter(clean);
      Sections(clean)
  }

  /** The placeholder has no marker, bullet or delimiter: cleaning keeps it
      and splitting fails on it. */
  lemma NoAnswerIsPlain()
    ensures Clean(NoAnswer) == NoAnswer
    ensures !Occurs(NoAnswer, Delimiter)
  {
    assert '*' !in NoAnswer && '-' !in NoAnswer && Bullet !in NoAnswer && '|' !in NoAnswer;
    CleanPlain(NoAnswer);
    AbsentHeadAbsent(NoAnswer, Delimiter);
  }

  /** The notice holds no marker and no delimiter. */
  lemma NoticeIsPlain()
    ensures !Occurs(SplitFailed, "**") && !Occurs(SplitFailed, "* ") && !Occurs(SplitFailed, "- ")
    ensures !Occurs(SplitFailed, Delimiter)
  {
    AbsentHeadAbsent(SplitFailed, "**");
    AbsentHeadAbsent(SplitFailed, "* ");
    AbsentHeadAbsent(SplitFailed, "- ");
    AbsentHeadAbsent(SplitFailed, Delimiter);
  }

  /** Neither field holds the delimiter. */
  lemma SectionsKeepNoDelimiter(clean: string)
    ensures !Occurs(Sections(clean).explanation, Delimiter) && !Occurs(Sections(clean).translation, Delimiter)
  {
    var parts := Split(clean, Delimiter);
    NoticeIsPlain();
    SplitPartsFree(clean, Delimiter);
    if |parts| >= 2 {
      TrimFree(parts[0], Delimiter);
      TrimFree(parts[1], Delimiter);
    }
  }

  /** With exactly one delimiter, the two sides trimmed are the result. */
  lemma SectionsOfDelimited(before: string, after: string)
    requires '|' !in before && '|' !in after
    ensures Sections(before + Delimiter + after) == Analysis(Trim(before), Trim(after))
  {
    var clean := before + Delimiter + after;
    var m := |before|;
    forall k: nat | k != m
      ensures !MatchesAt(clean, Delimiter, k)
    {
      if k + 3 <= |clean| {
        var w := clean[k..k + 3];
        if k < m {
          assert w[0] == before[k];
          assert before[k] in before;
        } else if m + 3 <= k {
          assert w[0] == after[k - m - 3];
          assert after[k - m - 3] in after;
        } else {
          assert w[m + 3 - k] == after[0];
          assert after[0] in after;
        }
      }
    }
    assert clean[m..m + 3] == Delimiter;
    assert IsFirst(clean, Delimiter, m);
    assert NoneAfter(clean, Delimiter, m);
    assert clean[..m] == before;
    assert clean[m + |Delimiter|..] == after;
  }
}
