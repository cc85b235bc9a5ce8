# Response clean-up and splitting of the Spanish-lesson assistant

The app asks a generative model to explain and translate a Spanish text.
It expects an answer of two sections, separated by the literal `|||`.
`analyzeTextWithGemini` (app.py:2-64) turns whatever comes back into a pair
(explanation, translation). This project models that mapping and proves
properties of it:

- A failed call becomes `("通信エラー: " + message, "")`. A null message
  prints as `null`.
- A response without text stands in as `回答が得られませんでした`.
- The text is cleaned in three steps:
  1. every `**` is deleted;
  2. `"* "`, then `"- "`, become the bullet `・`;
  3. the regular expression `([^\n])・` is rewritten to `$1\n・`.
- The cleaned text is split on `|||`. With at least two segments, the first
  two are trimmed and returned. Otherwise the untrimmed cleaned text is
  returned with the notice `（翻訳データがうまく分割できませんでした）`.

The Kotlin library operations are modelled on `string` (`seq<char>`):

- `indexOf`: `Text.Find`
- `replace(String, String)`: `Text.Replace`
- `split(String)`: `Text.Split`, with its inverse `Text.Join`
- `trim()`: `Text.Trim`, an instance of `Text.TrimBy`; Kotlin's `trim()` is
  `trim(Char::isWhitespace)`

Each is written as the left-to-right scan the library performs. Each is
tied to an independent description:

- `Find` returns the unique leftmost occurrence.
- `Replace` equals splitting and joining with the replacement.
- `Split` is undone by `Join`.
- The result of `TrimBy` is the only slice with nothing but dropped
  characters around it and kept characters at both ends.

The regular-expression step is modelled twice:

- as a direct scan on text, `Cleaner.BreakBeforeBullets`;
- as a trace of kept characters and inserted line breaks,
  `Cleaner.BreakTrace`.

`Cleaner.BreakIsTrace` proves the two agree. The trace gives back the input
when its inserted breaks are dropped, and it shows where breaks go.

Modules: `Wrappers` (Option), `Text` (the Kotlin string operations),
`Cleaner` (app.py:48-53), `Analyzer` (app.py:39-63).

The model follows the code as written. Three facts about it:

- A failed call's text starts with the Japanese prefix `通信エラー: `
  (app.py:62).
- Cleaning is not idempotent. `Cleaner.CleanNotIdempotent` shows `a・・`
  cleaning to `a\n・・`, and cleaning that again gives `a\n・\n・`.
- The comment at app.py:52 asks for a line break before every bullet that
  does not follow one. The rewrite at app.py:53 adds no line break before a
  bullet that follows a matched bullet. Regular-expression matches do not
  overlap, and the scan resumes after the matched bullet, so that bullet
  cannot be the first character of another match.
  `Cleaner.BreakAdjacentBullets` shows the case, and
  `Cleaner.TraceDetermined` proves that the placement properties of
  `Cleaner.BreakTracePlacement` allow no other result.

## Model

| member | source | states |
|---|---|---|
| `Text.Find` | app.py:55 | The index returned is the leftmost occurrence of the literal; none is returned exactly when the literal does not occur. |
| `Text.ReplaceAbsent` | app.py:49-51 | `replace` leaves a string without the literal unchanged. |
| `Text.ReplaceIsSplitJoin` | app.py:49-51 | The left-to-right, non-overlapping `replace` equals splitting on the literal and joining the segments with the replacement. |
| `Text.ReplaceAppend` | app.py:49-51 | Replacing a two-character literal distributes over concatenation when the first piece does not end with the literal's first character, so no occurrence straddles the seam. |
| `Text.ReplaceSkip` | app.py:49-51 | A prefix where no occurrence starts is copied unchanged. |
| `Text.Split` | app.py:55 | `split` always yields at least one segment. |
| `Text.SplitCount` | app.py:55-56 | There are two or more segments exactly when the delimiter occurs, which is the `parts.size >= 2` test. |
| `Text.SplitPartsFree` | app.py:55 | No segment contains the delimiter. |
| `Text.SplitFirstTwo` | app.py:55-57 | The first segment is the text before the leftmost delimiter. The second is the text from there to the next delimiter, or to the end when there is none. |
| `Text.SplitKeepsFree` | app.py:55 | Segments of a string free of some literal are free of it too. |
| `Text.JoinSplit` | app.py:55 | Splitting loses nothing: joining the segments with the delimiter restores the input. |
| `Text.StartFrom` | app.py:57 | The forward scan of `trim` stops at the first character that is not dropped, and everything it passed is dropped. |
| `Text.EndFrom` | app.py:57 | The backward scan of `trim` stops after the last character that is not dropped, without passing the forward scan, and everything it passed is dropped. |
| `Text.TrimBy` | app.py:57 | The trimmed text is a slice with only dropped characters on either side and kept characters at both ends. It is empty exactly when every character is dropped. |
| `Text.TrimByUnique` | app.py:57 | Any slice with that description is the trimmed text, so the contract fixes the result. |
| `Text.TrimFree` | app.py:57 | Trimming never creates an occurrence of a literal. |
| `Cleaner.StripBold` | app.py:49 | After deleting `**`, no `**` remains, even where deletion brings stars together. |
| `Cleaner.DoubledDeletionFree` | app.py:49 | Deleting every doubled character left to right leaves no doubled pair. |
| `Cleaner.StripBoldRun` | app.py:49 | A maximal run of k stars leaves k mod 2 stars. |
| `Cleaner.StripBoldOther` | app.py:49 | A character other than a star passes step 1 unchanged. With `StripBoldRun` this fixes the step on every input. |
| `Cleaner.UnifyBullets` | app.py:50-51 | Afterwards neither `"* "` nor `"- "` occurs, and no `**` is created. |
| `Cleaner.GlyphReplaceFree` | app.py:50-51 | Replacing a two-character literal with a character foreign to it leaves no occurrence behind. |
| `Cleaner.GlyphReplaceKeepsFree` | app.py:50-51 | Such a replacement creates no other two-character literal that avoids the character. |
| `Cleaner.BreakTrace` | app.py:53 | Dropping the inserted line breaks from the trace gives back the input, and the first character is kept first. |
| `Cleaner.BreakTracePlacement` | app.py:53 | Each inserted line break sits between a kept character that is not a line break and a bullet. Every later bullet follows a line break or a bullet. Two adjacent bullets occur only right after an inserted break. No bullet has an inserted break on both sides, because matches do not overlap. |
| `Cleaner.SeparatedOnce` | app.py:53 | A bullet that ended a match never gets a second inserted line break after it, because the next match cannot start at that bullet. |
| `Cleaner.TraceDetermined` | app.py:53 | The four placement properties fix the result: any trace of the input that has them is the scan's own trace. An overlapping rewrite such as `a\n・\n・` for `a・・` is ruled out. |
| `Cleaner.RewriteDetermined` | app.py:53 | On text: any trace of the input with the four placement properties renders to the rewrite's result. |
| `Cleaner.BreakBeforeBullets` | app.py:53 | The regex rewrite keeps the first character first, and every bullet after position 0 follows a line break or another bullet. |
| `Cleaner.BreakIsTrace` | app.py:53 | The text scan is the rendered trace. |
| `Cleaner.BreakKeepsFree` | app.py:53 | The rewrite creates no two-character literal that avoids the line break. |
| `Cleaner.BreakAppend` | app.py:53 | The rewrite distributes over concatenation when the second piece does not start with a bullet. |
| `Cleaner.BreakAbsent` | app.py:53 | Text without bullets is unchanged by the rewrite. |
| `Cleaner.BreakAdjacentBullets` | app.py:52-53 | `a・・` becomes `a\n・・`: the second bullet gets no line break. |
| `Cleaner.BreakAdjacentBulletsAgain` | app.py:52-53 | A second pass over `a\n・・` adds the missing line break, giving `a\n・\n・`. |
| `Cleaner.Clean` | app.py:48-53 | The cleaned text contains none of `**`, `"* "`, `"- "`, and every bullet after position 0 follows a line break or a bullet. |
| `Cleaner.CleanWithoutMarkers` | app.py:48-53 | On text without stars or hyphens, steps 1 and 2 do nothing. |
| `Cleaner.CleanPlain` | app.py:48-53 | Text without stars, hyphens or bullets is already clean. |
| `Cleaner.CleanNotIdempotent` | app.py:48-53 | Cleaning twice differs from cleaning once on `a・・`. |
| `Analyzer.Interpolate` | app.py:62 | A null message is rendered as `null`, any other as itself. |
| `Analyzer.Sections` | app.py:55-60 | Without the delimiter, the result is the cleaned text and the notice. Otherwise it is the trimmed text before the leftmost delimiter and the trimmed text from there to the next delimiter or the end. |
| `Analyzer.SectionsFree` | app.py:55-60 | A literal absent from the cleaned text and the notice is absent from both fields. |
| `Analyzer.SectionsKeepNoDelimiter` | app.py:55-60 | Neither field holds the delimiter. |
| `Analyzer.SectionsOfDelimited` | app.py:55-57 | For two sides without a vertical bar, joined by the delimiter, the result is the two sides trimmed. |
| `Analyzer.Analyze` | app.py:45-62 | A failure becomes the prefixed message and an empty translation. A missing text becomes the placeholder with the notice. Otherwise the result is the split of the cleaned text, and neither field holds a marker, an alternate bullet or the delimiter. |
| `Analyzer.NoAnswerIsPlain` | app.py:45 | The placeholder is unchanged by cleaning and holds no delimiter, so it always yields the notice. |
| `Analyzer.NoticeIsPlain` | app.py:59 | The notice holds no marker, no alternate bullet and no delimiter. |

## Left out

- The prompt (app.py:3-37) is a string template sent to the model. Only the
  delimiter it asks for matters here, and that is `Analyzer.Delimiter`.
- Building the model client and the network call (app.py:40-44) are left
  out. The call's outcome, an exception's message or a response's nullable
  text, is the parameter `Analyzer.Outcome`.
- Coroutines (`suspend`) and the kind of exception caught are left out: any
  failure of the call maps to the same pair.
- The general regular-expression engine is not modelled. Only the one
  pattern used is modelled, as the scan the engine performs for it.
- Strings are sequences of Unicode scalar values. Kotlin strings are UTF-16,
  so a lone surrogate cannot be represented. All literals and whitespace
  characters involved are in the Basic Multilingual Plane.
- Text.Trim: it has no contract of its own. It is `Text.TrimBy` with
  `Text.IsWhitespace`, and the contract of `Text.TrimBy` describes it.
- `Text.Replace` and `Text.Split` require a nonempty pattern. The code only
  uses nonempty literals, and Kotlin's empty-pattern behaviour is not
  modelled.
- Cleaner.UnifyBullets: its contract states what the result lacks, not the
  result itself. The result is two `Text.Replace` calls, characterised by
  `Text.ReplaceIsSplitJoin`.
- Cleaner.Clean: its contract states what the cleaned text lacks and where
  bullets sit. The step-by-step result is given by the members of its three
  steps.
