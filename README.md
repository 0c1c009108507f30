# Résumé keyword matcher

A Dafny model of the scoring logic of the résumé analyzer's upload page
(`app.py`). An uploaded résumé's text is extracted and lower-cased; every
keyword of a fixed ten-entry vocabulary that occurs in the text as a raw
substring is collected, in vocabulary order; the match percentage is the
matched share of the vocabulary; and the vocabulary keywords that did not
occur are returned as suggestions.

- `text.dfy` (module `Text`): the pieces of Python's `str` the matcher uses:
  substring membership `kw in text` (`Occurs`, proved equal to the ghost
  predicate `Contains`, "some offset holds `kw`"), ASCII `lower()` and
  `endswith`.
- `app.dfy` (module `App`): the vocabulary `JobKeywords`, the match list
  `Matched`, the percentage `Score`, the suggestion set `Suggestions`, the
  file-name dispatch of `extract_text` (`ExtractText`) and the page's
  analysis `Analyze` / `AnalyzeUpload`, with the lemmas about them.

Everything is pure. The model follows `app.py` as written. It has no
punctuation or digit normaliser, because `app.py` has none. An empty
vocabulary cannot occur: the vocabulary is a fixed list of ten keywords, and
with an empty list Python's division would raise rather than yield 0.
Matching is plain substring search, with no word boundaries. So `"api"` is
found inside `"rapid"`, and `"machine learning"` needs the exact single
space.

## Model

| member | source | states |
|---|---|---|
| `Text.Occurs` | app.py:28 | `kw in text` is true exactly when `kw` occurs as a contiguous run at some offset of `text`, with no word-boundary test |
| `Text.Lower` | app.py:20 | lower-casing keeps the length, turns each ASCII capital into its small letter and keeps every other character (its properties as a whole are in `Text.LowerSpec`) |
| `Text.EndsWith` | app.py:14 | a name ends with a suffix exactly when it is some prefix followed by that suffix |
| `Text.LowerSpec` | app.py:20 | the lower-cased text has no upper-case letter; lower-casing is idempotent and leaves already lower-case text unchanged |
| `Text.LoweredSearch` | app.py:20 | searching the lower-cased text finds a lower-case keyword exactly when the original text spells it in some capitalisation, and never finds a keyword containing an upper-case letter |
| `App.JobKeywordsWellFormed` | app.py:7-10 | the vocabulary has ten entries; none is repeated, none is empty, and all are lower-case |
| `App.Matched` | app.py:28 | a keyword is in the match list exactly when it is in the vocabulary and occurs in the text; the list is never longer than the vocabulary |
| `App.MatchedInOrder` | app.py:28 | the match list is the vocabulary read at strictly increasing positions, so the vocabulary's order is kept |
| `App.MatchedPositionsExact` | app.py:28 | a vocabulary position is read exactly when its keyword occurs in the text (soundness and completeness per entry) |
| `App.MatchedDistinct` | app.py:28 | a duplicate-free vocabulary gives a duplicate-free match list |
| `App.MatchedAll` | app.py:28 | every keyword matches exactly when every keyword occurs in the text |
| `App.MatchedNone` | app.py:28 | the match list is empty exactly when no keyword occurs in the text |
| `App.MatchedCountMonotone` | app.py:28 | if every keyword found in one text is found in another, the other matches at least as many keywords |
| `App.MatchedGrowsWithText` | app.py:28 | a text containing another text keeps all of its matches and matches at least as many keywords |
| `App.MatchedEmptyText` | app.py:28 | the empty text matches no non-empty keyword |
| `App.Score` | app.py:29 | for a positive total the percentage times the total is 100 times the number matched; it is at least 0; it is at most 100 exactly when matched does not exceed total; it is 100 exactly when all match and 0 exactly when none does |
| `App.Suggestions` | app.py:30 | the suggestions are vocabulary keywords, share none with the matches, and together with the matches cover the vocabulary |
| `App.SuggestionsPartition` | app.py:30 | suggestions and matches are disjoint and together make up the vocabulary; a keyword is suggested exactly when it does not occur in the text |
| `App.Analyze` | app.py:28-30 | the percentage lies in [0, 100] and is exactly 10 times the number matched; it is 100 exactly when all keywords occur and 0 exactly when none does; matches and suggestions are characterised by occurrence and partition the vocabulary; the match list has no duplicates |
| `App.ExtractText` | app.py:12-20 | the extracted text is lower-case; for a `.pdf` or `.docx` name it lower-cases to the same text as the reader's output, so it is that output lower-cased; it is empty for a file name that ends neither in `.pdf` nor in `.docx` |
| `App.AnalyzeUpload` | app.py:27-30 | extraction then analysis: the percentage lies in [0, 100] and a vocabulary keyword is suggested exactly when it is not matched (the unsupported-file and case cases are in `App.UnsupportedFileScoresZero` and `App.UploadIgnoresCase`) |
| `App.UnsupportedFileScoresZero` | app.py:13-20 | a file that is neither `.pdf` nor `.docx` gives no matches, percentage 0 and every keyword as a suggestion |
| `App.UploadIgnoresCase` | app.py:14-20 | for a PDF or DOCX file, a vocabulary keyword matches exactly when the extracted text spells it in any capitalisation |
| `App.AppendingKeepsMatches` | app.py:28-29 | appending text to a résumé never removes a match and never lowers the percentage |

## Left out

- Flask wiring is not modelled: the app object, the route decorator, the `POST` test, `request.files["resume"]`, the `if resume:` test, `render_template` and `app.run`. It is web plumbing with no logic to prove.
- PDF and DOCX reading is not modelled (`PyPDF2.PdfReader`, the per-page `extract_text()` concatenation, `docx2txt.process`). These are library calls; their output is the parameter `extracted` of `ExtractText`, an arbitrary string.
- A corrupt or unreadable PDF or DOCX file makes `PdfReader` or `docx2txt.process` raise, and the request then ends with no result. That error path is not modelled: `ExtractText` always returns a text.
- `Text.LowerSpec`: `str.lower()` is modelled for ASCII letters only. Full Unicode lower-casing maps other letters, and some of them to several characters; that is not captured.
- `App.Score`: the percentage is an exact real, and `round(..., 2)` and floating-point error are not modelled. For the ten-keyword vocabulary the exact value is a whole multiple of 10 (`App.Analyze`), which rounding to two decimals does not change.
- `App.Score`: the total must be positive. With an empty vocabulary Python raises `ZeroDivisionError`; the page only ever passes the ten-entry list.
- `App.Suggestions`: `list(set(...))` has no defined order, so suggestions are a set; their order is not modelled.
