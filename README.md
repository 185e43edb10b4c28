# Bilinguo glossary core

Bilinguo is a small web application that turns an uploaded two-column CSV
table into a bilingual glossary between two configured languages (language A
in the first column, language B in the second). This project models the
`Bilinguo` class of `bilinguo.py` in Dafny and proves properties of the model:

- choosing the language pair (`set_languages`), with its three refusals in
  their order;
- building the glossary from the rows of the table (`_load_csv`): the forward
  map from lower-cased, trimmed A terms to trimmed B terms, the backward map
  from trimmed B terms to trimmed A terms (the last row wins on a repeated key,
  as with `dict(zip(...))`), the list of display labels `a  ↔  b` and the
  status line with the number of forward keys;
- searching (`_search`): the forward map is tried first with the case ignored,
  then the backward map with the case kept; a hit is spoken in language B when
  the lower-cased query is a forward key and in language A otherwise;
- clicking a label of the term list (`_click_term`), filtering the term list
  (`_filter_list`) and placing a search result in the two result boxes (the
  inner `search_and_display` of `launch`).

The Python string operations the class relies on are modelled in module
`Strings`: `str.strip()` removes exactly the characters for which Python's
`str.isspace()` holds, `str.lower()`, `str.split(sep)` with its inverse
`sep.join`, the substring test `needle in hay` and `str(n)` for a count.
Module `Dict` models `dict(pairs)`. The class keeps its maps and its term
list as fields that its methods reassign; the parsed table they were built
from is the ghost field `rows`, standing for the DataFrame `df`.

Speech synthesis is not performed: where the source calls gTTS, the model
returns the request it would make (`Speak(text, lang)`).

## Model

| member | source | states |
|---|---|---|
| Glossary.LangError.Message | bilinguo.py:39-43 | The text of each refusal, as raised by `set_languages`; which refusal applies is stated by `CheckLanguages`. |
| Glossary.Bilinguo.constructor | bilinguo.py:19-29 | A fresh session is English to Traditional Chinese, titled "Bilinguo" by "Anonymous", with empty maps and an empty term list. |
| Glossary.CheckLanguages | bilinguo.py:37-43 | Equal codes are refused first, then an unsupported A code, then an unsupported B code; a pair passes exactly when the codes differ and both are supported. |
| Glossary.Bilinguo.SetLanguages | bilinguo.py:37-47 | A pair that passes is stored with the names of both languages; a refused pair reports the first failed check and leaves all four language fields as they were; the session stays valid. |
| Glossary.Bilinguo.LoadCsv | bilinguo.py:49-63 | Loading a table replaces both maps and the term list by those built from its rows, row by row, and reports the number of forward keys; the returned choices are the new term list. |
| Glossary.ForwardPair | bilinguo.py:51-55 | The forward entry of one row, `(lower(strip(a)), strip(b))`; its facts are proved in `IndexesStep`, `ForwardIndexFromRows` and `ForwardIndexLastRow`. |
| Glossary.BackwardPair | bilinguo.py:51-56 | The backward entry of one row, `(strip(b), strip(a))`; its facts are proved in `IndexesStep`, `BackwardIndexFromRows` and `BackwardIndexLastRow`. |
| Glossary.ForwardIndex | bilinguo.py:55 | `glossary_a` as built from the rows; its facts are proved in `ForwardIndexFromRows`, `ForwardIndexLastRow` and `ForwardIndexSize`. |
| Glossary.BackwardIndex | bilinguo.py:56 | `glossary_b` as built from the rows; its facts are proved in `BackwardIndexFromRows` and `BackwardIndexLastRow`. |
| Glossary.Label | bilinguo.py:59 | The label `a  ↔  b`; that it splits back is proved in `LabelSplits`. |
| Glossary.RowLabel | bilinguo.py:59 | The label of one row's trimmed terms; that clicking it gives them back is proved in `ClickLabelRoundTrip`. |
| Glossary.Labels | bilinguo.py:59 | `term_list`, one label per row in row order; its step is proved in `IndexesStep`. |
| Glossary.StatusMessage | bilinguo.py:61 | The status line; its facts are proved in `StatusCount` and `StatusMessageInjective`. |
| Glossary.IndexesStep | bilinguo.py:51-59 | One more row updates the forward map at its lower-cased trimmed A term, the backward map at its trimmed B term, and appends its label. |
| Glossary.ForwardIndexFromRows | bilinguo.py:51-55 | The forward keys are exactly the lower-cased trimmed A terms, and every forward entry comes from one row. |
| Glossary.BackwardIndexFromRows | bilinguo.py:51-56 | The backward keys are exactly the trimmed B terms, and every backward entry comes from one row. |
| Glossary.ForwardIndexLastRow | bilinguo.py:55 | The last row with a given lower-cased A term supplies its forward value. |
| Glossary.BackwardIndexLastRow | bilinguo.py:56 | The last row with a given B term supplies its backward value. |
| Glossary.ForwardIndexSize | bilinguo.py:55-61 | The reported count is at most the number of rows, and equal to it exactly when no two rows share a lower-cased A term. |
| Glossary.StatusCount | bilinguo.py:61 | Between the fixed prefix and suffix of the status line stand decimal digits, and they read back as the count reported. |
| Glossary.StatusMessageInjective | bilinguo.py:61 | Different counts give different status lines. |
| Glossary.Bilinguo.Search | bilinguo.py:65-79 | No query or the empty query is refused; otherwise the trimmed query is looked up forward lower-cased, then backward: a non-empty forward value is the answer, spoken in language B; otherwise a non-empty backward value is; the result is "Not found" exactly when neither map holds a non-empty value for the query; a hit is never empty and is spoken in a configured language. |
| Glossary.Lookup.Message | bilinguo.py:67-89 | The text `_search` returns for each outcome; stated per case in `Search` and `Place`. |
| Glossary.Lookup.Request | bilinguo.py:75-89 | The speech request of a hit, none otherwise; its language is stated in `Search` and `SpeechFollowsForwardKey`. |
| Glossary.SearchFindsForward | bilinguo.py:69-77 | For the last row with a given lower-cased trimmed A term, when its B term is not blank: a query in any casing of that A term, with any surrounding whitespace, finds the row's B term, spoken in language B. |
| Glossary.SearchFindsBackward | bilinguo.py:69-79 | For the last row with a given trimmed B term, when its A term is not blank and the lower-cased trimmed query is no row's lower-cased trimmed A term: the query finds the row's A term, spoken in language A. |
| Glossary.SearchForwardShadowsBackward | bilinguo.py:70 | The forward map answers first, even when the query is also a B term. |
| Glossary.SearchBlankQuery | bilinguo.py:66-73 | A query of whitespace only passes the emptiness test and is not found when no cell is blank. |
| Glossary.SpeechFollowsForwardKey | bilinguo.py:76-79 | The speech language is B exactly when the lower-cased trimmed query is a forward key. |
| Glossary.BlankForwardSpeaksBackwardInB | bilinguo.py:70-79 | A forward key with a blank value falls through to the backward map, and the A term found there is still spoken in language B. |
| Glossary.Bilinguo.ClickTerm | bilinguo.py:91-110 | No label, the empty label, or one that does not split into exactly two parts gives two empty terms and no speech; otherwise the B term is spoken in language B. |
| Glossary.SeparatorArrow | bilinguo.py:59 | The label separator has five characters with its arrow once, in the middle. |
| Glossary.LabelSplits | bilinguo.py:59-96 | A label of two terms without the arrow splits back into those two terms. |
| Glossary.ClickLabelRoundTrip | bilinguo.py:59-100 | Clicking the label of a loaded row gives back the row's trimmed terms and speaks its B term in language B. |
| Glossary.Bilinguo.FilterList | bilinguo.py:112-118 | The filtered list keeps term-list order; no query gives the whole list; each label is kept as often as it occurs when it contains the query with case ignored, and dropped otherwise. |
| Glossary.KeepMatching | bilinguo.py:117 | The list comprehension of `_filter_list`; its facts are proved in `KeepMatchingSpec` and `KeepMatchingIdempotent`. |
| Glossary.KeepMatchingSpec | bilinguo.py:116-117 | The list comprehension keeps order, and keeps a label with its multiplicity exactly when it contains the lowered query. |
| Glossary.KeepMatchingIdempotent | bilinguo.py:116-117 | Filtering the filtered list with the same query changes nothing. |
| Glossary.Bilinguo.PlaceAsWritten | bilinguo.py:194-202 | As written: the query and the search text fill the two boxes, one each; a miss puts the query in box A; on any other text the query goes in box A exactly when the untrimmed query, lower-cased, is a forward key. |
| Glossary.PlaceAsWrittenTrimmed | bilinguo.py:194-202 | On a query without surrounding whitespace the placement as written is the corrected one, so a translation lands in the box of the language it is spoken in. |
| Glossary.Bilinguo.Place | bilinguo.py:199 | The corrected placement, deciding on the trimmed query: the query and the search text fill the two boxes, one each; a miss puts the query in box A. |
| Glossary.PlaceFollowsSpeech | bilinguo.py:199 | With the corrected placement, a translation lands in the box of the language it is spoken in. |
| Glossary.PaddedQueryMisplaced | bilinguo.py:199 | As written, the query " Hello" against the A term "hello" is spoken in language B but its translation lands in box A. |
| Strings.TrimStart | bilinguo.py:51-52 | The leading half of `str.strip`; its facts are proved in `TrimStartSpec` and `TrimStartAt`. |
| Strings.TrimEnd | bilinguo.py:51-52 | The trailing half of `str.strip`; its facts are proved in `TrimEndSpec` and `TrimEndAt`. |
| Strings.Strip | bilinguo.py:51-52 | `str.strip`; its facts are proved in `StripEnds`, `StripSlice`, `StripUnique`, `StripIdempotent`, `StripEmpty` and `StripKeepsOut`. |
| Strings.TrimStartSpec | bilinguo.py:51-52 | Leading-whitespace removal keeps a suffix, cuts only whitespace and stops at a non-whitespace character. |
| Strings.TrimEndSpec | bilinguo.py:51-52 | Trailing-whitespace removal keeps a prefix, cuts only whitespace and stops at a non-whitespace character. |
| Strings.StripEnds | bilinguo.py:51-52 | A stripped string neither starts nor ends with whitespace. |
| Strings.StripSlice | bilinguo.py:51-52 | A stripped string is a slice of the original with only whitespace on either side. |
| Strings.StripUnique | bilinguo.py:51-52 | Any cut into whitespace, a core without whitespace at its ends, and whitespace strips to exactly that core. |
| Strings.StripIdempotent | bilinguo.py:100 | Stripping the already stripped terms of a label changes nothing. |
| Strings.StripEmpty | bilinguo.py:69-73 | A string strips to nothing exactly when it is all whitespace. |
| Strings.StripKeepsOut | bilinguo.py:51-52 | Stripping introduces no character. |
| Strings.Lower | bilinguo.py:55 | `str.lower` on ASCII letters, applied in lines 55, 70, 76 and 116-117; see "## Left out". |
| Strings.Split | bilinguo.py:96 | Splitting always yields at least one part. |
| Strings.SplitLeftmost | bilinguo.py:96 | Each cut is at the leftmost occurrence of the separator: none lies inside the first part, one follows it when there are more parts and the rest is the split of what follows; a single part means the separator does not occur. With `JoinSplit` this determines the split. |
| Strings.SplitPartsFree | bilinguo.py:96 | No part of a split contains the separator. |
| Strings.SplitFirstPrefix | bilinguo.py:96 | The first part of a split is a prefix of the string. |
| Strings.Join | bilinguo.py:96 | `sep.join`, the inverse of the split of line 96; proved in `JoinSplit`. |
| Strings.JoinSplit | bilinguo.py:96 | Joining the parts of a split with the separator gives back the string. |
| Strings.SplitAroundMarker | bilinguo.py:96-97 | Two strings joined by a separator whose marker character occurs in neither split into exactly those two strings. |
| Strings.Contains | bilinguo.py:117 | The test `query in t.lower()`; its meaning is proved in `ContainsAt`. |
| Strings.ContainsAt | bilinguo.py:117 | The substring test holds exactly when the needle occurs at some position of the string. |
| Strings.NatToString | bilinguo.py:61 | The decimal text of a count is non-empty, made of digits, and has no leading zero unless the count is zero. |
| Strings.NatToStringValue | bilinguo.py:61 | The decimal text of a count reads back as the count. |
| Dict.LastWins | bilinguo.py:55-56 | `dict(zip(...))`; its facts are proved in `LastWinsFromPairs`, `LastWinsLast` and `LastWinsSize`. |
| Dict.LastWinsFromPairs | bilinguo.py:55-56 | The keys of `dict(pairs)` are the keys of the pairs, and each entry is one of the pairs. |
| Dict.LastWinsLast | bilinguo.py:55-56 | The last pair with a given key supplies its value. |
| Dict.LastWinsSize | bilinguo.py:55-56 | `dict(pairs)` has at most one entry per pair, and exactly one per pair when the keys are distinct. |

## Left out

- The Gradio interface (`launch`: layout, event wiring, themes) is not modelled; only the placement decision of `search_and_display` is.
- `set_title` and `set_developer` are plain field assignments with nothing to prove; the fields exist and the constructor sets them.
- `setup.py` (packaging) is not part of this model.
- Reading the CSV file: `pd.read_csv` and `astype(str)` are outside the model; `LoadCsv` takes the already parsed rows of the first two columns as strings. A missing cell, which pandas turns into the text "nan", is not modelled; nor is a file with fewer than two columns, which raises in the source.
- The DataFrame `df` is the ghost field `rows`.
- Speech: gTTS and the file `audio.mp3` are external. The model returns the speech request (text and language) a hit or a click makes. A failure of synthesis, which the source turns into no audio, is not modelled.
- Strings.Lower: lower-cases the ASCII letters only; Python's `str.lower()` also lower-cases other scripts, and its full Unicode case mapping is not modelled.
- Glossary.Bilinguo.PlaceAsWritten: takes a string; the source would raise on the missing value `None`, which the search box does not send.
- Glossary.Bilinguo.Place: is the corrected placement for line 199 (see "## Findings"), not what the source does; `PlaceAsWritten` is the model of the source.

## Findings

| source | as written | input that shows it | evidently intended | confidence | as-written member | corrected member |
|---|---|---|---|---|---|---|
| bilinguo.py:199 | the box is chosen by `term.lower() in self.glossary_a` on the untrimmed query, while `_search` looked up the trimmed query | glossary with the A term "hello" translated as "嗨", query " Hello": the search finds "嗨" via the forward map and speaks it in language B, yet "嗨" is shown in the language-A box and " Hello" in the language-B box | decide on the trimmed query, as `_search` does, so that a translation lands in the box of the language it is spoken in | not executed | Glossary.Bilinguo.PlaceAsWritten | Glossary.Bilinguo.Place |
