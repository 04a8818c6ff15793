# ECEeasy course assistant: the matching and filtering core

ECEeasy answers students' questions about electronics courses. It loads a
catalog of course records, builds one document per course for a vector store,
and then runs a loop. Each line the user types is stripped. `exit` or `quit`
stops the loop and an empty line re-prompts. Any other line is a question. The
question goes to a course matcher, which picks at most one course: first by
catalog names in load order, then by a fixed keyword table in insertion order.
The chosen course becomes an equality filter on the `course_lower` metadata of
the retrieved chunks.

This project models that decision pipeline as pure Dafny functions and proves
what it promises. The proved facts are:

- the first-hit and priority rules of the matcher;
- when the matcher returns nothing;
- case-insensitivity;
- the shape of the search configuration;
- the review normaliser and the per-course metadata that serves as the
  retrieval join key;
- the classification of input lines.

Modules:

- `Wrappers`: `Option`.
- `Text`: the Python built-ins the core relies on, with their lemmas.
  - `Lower` is `str.lower` restricted to ASCII (app.py:39, 43, 229, 346).
  - `Strip` is `str.strip()` over the characters `str.isspace` accepts
    (app.py:344).
  - `Contains` is the substring test `needle in hay` (app.py:47, 69).
  - `Join` is `sep.join(xs)` (app.py:193).
- `Catalog`: course records.
- `Matcher`: `CourseMatcher` and `find_course`.
- `Retrieval`: the `search_kwargs` dict.
- `Documents`: `create_course_documents` and the review normaliser.
- `Repl`: classification of an input line.
- `QueryFacts`: helper lemmas about string literals. They record which table
  keywords occur in a few sample questions. The questions were chosen to
  exercise the entries at app.py:52, 55, 57 and 58, plus one question that no
  entry matches. The scenario lemmas of `Assistant` use them.
- `Assistant`: one turn of the loop, end to end, plus worked scenarios.

## Model

| member | source | states |
|---|---|---|
| Text.Lower | app.py:43 | Python's `str.lower` on ASCII: the result has the same length and no capitals. Each capital becomes its small letter and every other character is kept. |
| Text.Strip | app.py:344 | Python's `str.strip()`: the result is no longer than the input and neither starts nor ends with a character `str.isspace` accepts. |
| Text.StripBounds | app.py:344 | The stripped text is a slice of the line. Only whitespace is cut off on either side. |
| Text.StripPadding | app.py:344 | Stripping recovers a word from any whitespace padding around it. |
| Matcher.NewMatcher | app.py:37-39 | The matcher keeps the courses and holds exactly one name per course, in load order, each the course's name lower-cased. |
| Matcher.FirstContained | app.py:46-48 | The first-hit scan: a returned index is a needle that occurs in the text with no earlier needle occurring; no index is returned exactly when no needle occurs. |
| Matcher.FirstHitUnique | app.py:46-48 | At most one position can be the first hit, so "the first match" is well defined. |
| Matcher.FindCourse | app.py:41-72 | The result is absent exactly when neither a catalog name nor a table keyword occurs in the lower-cased query. When some catalog name occurs, the result is the earliest such name. When none occurs, the result is the lower-cased course of the earliest table keyword that occurs. |
| Matcher.KeywordPass | app.py:50-70 | With no catalog name in the query, the earliest keyword of the table (in insertion order) that occurs in the query decides the result, whatever later keywords also occur. |
| Matcher.FindCourseCaseInsensitive | app.py:43 | Matching ignores letter case: the result for a query equals the result for its lower-cased form. |
| Matcher.FindCourseResult | app.py:39-70 | Any result is one of the matcher's catalog names or the lower-cased course of some table entry. It is lower case whenever the catalog names are, which `NewMatcher` guarantees. |
| Matcher.DirectHitBeatsKeywords | app.py:45-48 | If any catalog name occurs in the query, the result is the first catalog name that occurs, which is no later than it in load order. The keyword table is never reached. |
| Matcher.EmptyNameMatchesEverything | app.py:46-48 | An empty catalog name occurs in every query, so every query is settled in the first pass by that name or an earlier one. |
| Retrieval.BuildFilter | app.py:295-298 | `k` is always `RETRIEVAL_K` (3). A course filter is set exactly when the matched course is present and non-empty (Python truthiness), and then it is that very string. |
| Retrieval.BuildFilterAdmits | app.py:295-298 | A built configuration admits a chunk exactly when no or an empty course was requested, or the chunk's `course_lower` equals the requested course. |
| Documents.FormatReviews | app.py:190-198 | An empty review list, and only that, is kept as the list itself. A string passes through unchanged. A missing key or a value of any other type becomes "No student reviews available". A non-empty list becomes text starting with a bullet. |
| Documents.BulletJoin | app.py:193-194 | `"- "` followed by the reviews joined with `"\n- "` is the same as putting each review on its own bulleted line. |
| Documents.ReviewListFormatting | app.py:191-194 | A non-empty review list is formatted as one bulleted line per review, and every review appears in the formatted text. |
| Documents.CreateCourseDocuments | app.py:179-235 | Empty input gives no documents. Otherwise there is exactly one document per course, in input order, carrying the course's name and instructor, its formatted reviews, and `course_lower` equal to the lower-cased name. |
| Repl.Classify | app.py:344-350 | After stripping, a line whose lower-cased form is `exit` or `quit` stops the loop. An empty stripped line re-prompts. Every other line is asked as its stripped form. |
| Repl.AskedQuestion | app.py:344-350 | A question passed on is non-empty, has no surrounding whitespace, and is not a stop word in any case. |
| Repl.ClassifyStripped | app.py:344 | Stripping the line beforehand changes no decision. |
| Repl.StopWordsAnyCase | app.py:344-348 | `exit` or `quit` in any letter case, padded with any whitespace, stops the loop. |
| Repl.BlankLineSkipped | app.py:344-350 | A line of whitespace only re-prompts. |
| Assistant.Step | app.py:344-358 | A stop word stops the loop and a blank line re-prompts. Any other line is searched as its stripped form with `k` = 3. A filter is set only when the matcher found a non-empty course, and it equals that course. No filter means the matcher found nothing or the empty string. |
| Assistant.DirectMatchHasDocument | app.py:224-232 | A course found by name is the `course_lower` key of some document built from the same catalog. When that name is non-empty, the filter built from it admits a document exactly when the document's `course_lower` equals it. |
| Assistant.EmptyFirstNameDisablesFilter | app.py:296 | If the first catalog name is empty, every question yields an unfiltered search, because the match `""` is falsy. |
| Assistant.VlsiScenario | app.py:55 | "who teaches vlsi design", in any case and padding and with no catalog name in it, is searched only within the `vlsi design` documents. |
| Assistant.NetworkScenario | app.py:58 | "tell me about network theory basics", in any case and with no catalog name in it, matches `network theory`. |
| Assistant.WirelessScenario | app.py:51-70 | "wireless communication" with no catalog name in it matches "fundamentals of communication system": `communication` precedes `wireless` in the table. |
| Assistant.UnfilteredScenario | app.py:51-72 | "what courses are hard", in any case and padding and with no catalog name in it, matches no keyword and is searched over the whole index. |
| Assistant.QuitScenario | app.py:346-348 | The line made of a tab, "QUIT" and a space stops the loop. |

## Left out

- Ollama embeddings and the language model, the Chroma vector store, and the
  langchain retrieval and document chains. These are foreign services. The
  model stops at the search configuration handed to the retriever, and
  `Retrieval.Admits` states the filter's meaning as equality on
  `course_lower`.
- The text splitter and its chunk parameters. This is library code.
- Loading JSON files from disk, creating the data directory, writing sample
  files and clearing the store directory. The catalog is a parameter.
- The document text template and the prompt template. These are fixed
  formatting. Of a document's text only the review part is modelled, and
  `Documents.Render` shows an empty list printed as `[]`. The defaults of
  the other optional fields (overview, difficulty and so on) are not
  modelled.
- Console output, `input()`, and the REPL's exception handling. `Repl` and
  `Assistant` model only the decision taken on a line that has been read.
- Text.Lower: lower-cases ASCII capitals only, not Python's full Unicode
  `str.lower`.
- Documents.FormatReviews: a review list with a non-string element (where
  Python's `join` raises `TypeError`) is not representable. JSON `null`, numbers,
  booleans and objects are all `OtherValue`.
- Catalog.CourseRecord: both `name` and `instructor` are typed as strings.
  A record missing either field, or with a name that is not a string, raises
  at app.py:39, 186-187 or 229 before the loop starts. Such records are not
  representable.
- `main`'s early returns when there are no courses or the vector store fails
  to set up. They depend on I/O and the store.
