# fastapi_retrieve — segmentation and result selection, in Dafny

The service answers a question about one structured PDF document by returning
the numbered section whose title is nearest to the question. This project
models the two parts of `backend/api.py` that have logic of their own:

- **Segmentation** (`segmentar_texto`, `format_section` and the list of titles
  handed to the embedding model). The extracted text has its newline runs
  collapsed and is split into lines. Each line is stripped. A line that
  starts with digits, a period and a whitespace character opens a new
  section. Every other non-empty line is appended, followed by one space, to
  the answer of the open section. Lines before the first title are dropped.
  `format_section` strips the answer into the stored `text`.
- **Result selection** in `ask_question`. It takes the row of distances and
  the row of labels returned by the index search. It answers "not found"
  when the first distance is not below infinity. Otherwise it returns the
  section labelled at the first position of the smallest distance
  (`np.argmin`).

Files:

- `wrappers.dfy`: `Option` and `Result`.
- `pytext.dfy` (module `PyText`): the Python string operations the
  segmenter calls. These are `str.isspace`, `str.strip()`,
  `str.split('\n')` and `re.sub(r'\n{2,}', '\n', ·)`.
- `segmenter.dfy` (module `Segmenter`): the segmentation loop as a method.
  It is proved against the specification function `Segments`. The
  declarative description `IsSegmentation` is proved equal to it.
- `retrieval.dfy` (module `Retrieval`): distances over an abstract strict
  total order with infinity on top, `argmin`, Python list indexing, and the
  selection step.

## Model

| member | source | states |
|---|---|---|
| `Segmenter.DocumentLines` | backend/api.py:75-85 | The lines the loop examines: the collapsed text split at newlines, each line stripped. Its properties are the contracts of `DocumentLinesAreClean` and `CollapseIsInvisible` |
| `Segmenter.IsTitle` | backend/api.py:78-86 | The title test on one stripped line. `TitleTestMatchesPattern` proves it equal to the regex reading in both directions |
| `Segmenter.Feed` | backend/api.py:86-92 | One turn of the loop. A title line opens a new section with an empty answer. A non-empty line after a title grows the open answer by the line and one space. Anything else changes nothing. `SegmentText` is proved to take these steps |
| `Segmenter.Answer` | backend/api.py:91-92 | The answer the loop accumulates from the lines under a title. `AnswerIsJoinedWords` states its value |
| `Segmenter.SegmentText` | backend/api.py:73-97 | The loop's result equals `Segments` of the document lines and satisfies `IsSegmentation`: one section per title line, in line order, each with its title line and the answer built from the lines up to the next title |
| `Segmenter.Segments` | backend/api.py:84-95 | The loop leaves exactly as many sections as there are title lines |
| `Segmenter.TitlePositions` | backend/api.py:84-86 | The positions where sections open are inside the text and strictly increasing |
| `Segmenter.TitlePositionsSound` | backend/api.py:86-89 | Every position where a section opens holds a line that passes the title test |
| `Segmenter.TitlePositionsComplete` | backend/api.py:86-89 | Every line that passes the title test opens a section |
| `Segmenter.SegmentsCharacterized` | backend/api.py:84-95 | Section k is QA(title line k, answer built from the lines between title line k and the next title line or the end of the text) |
| `Segmenter.TitleTestMatchesPattern` | backend/api.py:78 | The one-pass title test holds exactly when the line matches `\d+\.\s` at its start (both directions) |
| `Segmenter.SectionTitlesAreTitleLines` | backend/api.py:85-89 | Every section title is one of the document lines, matches the title pattern, has no whitespace at either end and contains no newline |
| `Segmenter.NoTitleNoSections` | backend/api.py:81-95 | There are no sections if and only if no line is a title line |
| `Segmenter.PreambleDropped` | backend/api.py:91 | Lines before the first title line do not change the result |
| `Segmenter.SegmentsIgnoreEmptyLines` | backend/api.py:91 | Removing empty lines does not change the sections |
| `Segmenter.CollapseIsInvisible` | backend/api.py:75 | Collapsing newline runs first gives the same sections as splitting the raw text |
| `Segmenter.AnswerIsJoinedWords` | backend/api.py:91-92 | An accumulated answer is the body's non-empty lines joined by single spaces, plus one trailing space (empty if there are none) |
| `Segmenter.StrippedAnswer` | backend/api.py:92-100 | Stripping an answer built from stripped lines leaves those lines joined by single spaces |
| `Segmenter.FormatSection` | backend/api.py:99-100 | The title is unchanged. The text has no whitespace at either end and uses only characters of the answer |
| `Segmenter.SectionTextIsJoinedBody` | backend/api.py:91-100 | The stored text of section k is the non-empty lines under its title joined by single spaces. It has no whitespace at either end and no newline |
| `Segmenter.Entries` | backend/api.py:56 | `format_section` applied to each section, in order. `EmbeddedTitlesAreTitleLines` and `SectionTextIsJoinedBody` state what the entries hold |
| `Segmenter.Titles` | backend/api.py:57 | The title of each entry, in order. `EmbeddedTitlesAreTitleLines` states that these are the document's title lines |
| `Segmenter.ResegmentingCanSplitSection` | backend/api.py:78-100 | Lines `1. A`, `12.`, `foo` give one section with stored text `12. foo`. Segmenting that title line followed by that text gives two sections |
| `Segmenter.EmbeddedTitlesAreTitleLines` | backend/api.py:56-57 | The title list runs parallel to the entries and equals the document's title lines in document order |
| `Segmenter.DocumentLinesAreClean` | backend/api.py:82-85 | Every examined line is stripped and free of newlines |
| `PyText.IsSpace` | backend/api.py:78-85 | The characters `str.isspace()` accepts, which are also what `\s` matches. `Strip` and `IsTitle` use it |
| `PyText.Strip` | backend/api.py:85 | The result has no whitespace at either end |
| `PyText.StripKeepsCharacters` | backend/api.py:85 | Every character of the result occurs in the input |
| `PyText.StripUnique` | backend/api.py:85 | Any stripped core wrapped in whitespace is exactly what `strip` returns |
| `PyText.StripIdempotent` | backend/api.py:85 | `strip` is idempotent and leaves stripped strings unchanged |
| `PyText.StripRemovesOnlyOuterSpace` | backend/api.py:85 | The input is the result with whitespace-only text before and after it |
| `PyText.SplitLines` | backend/api.py:82 | `split('\n')` yields at least one piece |
| `PyText.SplitLinesHaveNoNewline` | backend/api.py:82 | No piece of the split contains a newline |
| `PyText.JoinSplitLines` | backend/api.py:82 | Joining the pieces with newlines gives back the text |
| `PyText.SplitJoinLines` | backend/api.py:82 | Splitting newline-free pieces joined by newlines gives back the pieces |
| `PyText.CollapseNewlines` | backend/api.py:75 | `re.sub(r'\n{2,}', '\n', text)`: a newline directly after a newline is dropped. Its properties are the contracts of `CollapseNewlinesSound`, `CollapseFixedPoint` and `CollapseKeepsNonEmptyLines` |
| `PyText.CollapseNewlinesSound` | backend/api.py:75 | The result has no two adjacent newlines, ends in the input's last character, and keeps the count of every character other than the newline |
| `PyText.CollapseFixedPoint` | backend/api.py:75 | The substitution leaves a text unchanged exactly when it has no two adjacent newlines |
| `PyText.CollapseKeepsNonEmptyLines` | backend/api.py:75 | After collapsing, the split has the same non-empty lines in the same order |
| `Retrieval.ArgMin` | backend/api.py:140 | The position is in range. Its distance is at most every distance in the row and strictly below every distance at an earlier position |
| `Retrieval.ArgMinIsTheFirstMinimum` | backend/api.py:140 | A position is the first minimum if and only if it is the `argmin` |
| `Retrieval.SortedRowArgMinIsFirst` | backend/api.py:135-140 | Over a row sorted by non-decreasing distance, `argmin` is position 0 |
| `Retrieval.SelectedDistanceAtMostFirst` | backend/api.py:135-140 | When `D[0][0]` is finite, the selected distance is finite and at most `D[0][0]` |
| `Retrieval.BelowIsStrictTotalOrder` | backend/api.py:138 | Adding infinity above all finite distances keeps the order strict and total |
| `Retrieval.PyIndex` | backend/api.py:141 | Indexing succeeds if and only if the label is in `[-n, n)`, and the result is one of the sections |
| `Retrieval.PyIndexIsModular` | backend/api.py:141 | A valid label `i` selects the section at `i` modulo the number of sections. So `-1` is the last section |
| `Retrieval.FirstMinimumIsArgMin` | backend/api.py:140 | Every first minimum of the row is the position `argmin` returns |
| `Retrieval.AskQuestion` | backend/api.py:134-149 | The result is not-found if and only if the first distance is infinity. A success echoes the question and returns a stored section, the one labelled at the first minimum of the row. The call succeeds if and only if the row is non-empty, its first distance is finite, and the label at the first minimum indexes a stored section |
| `Retrieval.SortedRowAnswersFirstLabel` | backend/api.py:134-143 | Over a sorted row with a finite first distance, whose first label indexes a section, possibly counting from the end, the answer is that section. This is the section at position 0, which `best_distance = D[0][0]` reads |

## Left out

- PDF text extraction with `pdfplumber` (backend/api.py:45-50) is a foreign library doing I/O. The model starts from the extracted text.
- The sentence-embedding model (backend/api.py:32, 58, 130) is an opaque external model producing float vectors. Only the list of titles it receives is modelled.
- The faiss index is not modelled: construction, `add`, `search`, `write_index` and `read_index` (backend/api.py:61-64, 124, 134) are a foreign library over floating-point vectors. Its distance and label rows are inputs to `Retrieval.AskQuestion`.
- `np.save`/`np.load` and the `os.path.exists` checks on the three artifacts (backend/api.py:38, 65-66, 118-126) are filesystem I/O.
- FastAPI, pydantic, uvicorn, logging and the mapping of exceptions to HTTP statuses (backend/api.py:106-164) are web plumbing. `AskError` only distinguishes the 404 case from the `IndexError` cases that become 500.
- Module-level configuration and the build run at import time (backend/api.py:22-32, 103) are startup side effects.
- `frontend/app.py` is a chat UI and HTTP client with no domain logic. It is not part of this model.
- Segmenter.IsDigit: `\d` in a Python `str` pattern also matches non-ASCII decimal digits (Unicode category Nd). The model accepts ASCII `0`-`9` only.
- Retrieval.Distance: distances are an abstract totally ordered type with infinity on top. Floating-point NaN, which is unordered, is not modelled.

## Where the specification and the code differ

The model follows the code in each case below.

- Title lines: the specification asks for a single space after the period. The code's `\s` accepts any one whitespace character.
- Newline collapsing: the specification speaks of collapsing blank lines. The code collapses runs of newline characters only, so lines of spaces survive the substitution and are skipped later as empty after `strip`. `CollapseIsInvisible` shows the substitution never changes the result.
- Selection: the specification would take position 0 of the sorted search result. The code checks `D[0][0]` against infinity and then takes `argmin` of the whole row. `SortedRowAnswersFirstLabel` shows the two agree on sorted rows.
- The specification rejects an empty question before embedding. The code has no such check.
- Re-segmentation: the specification expects that segmenting a section's title line followed by its stored text gives that section back. The code does not guarantee this.
  - A body line such as `12.` is not a title, because no whitespace follows its period, so it joins the answer.
  - Stripping and joining can then produce stored text such as `12. foo`, which starts like a title.
  - `ResegmentingCanSplitSection` exhibits such a case: the section splits in two.
