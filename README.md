# uoc-to-json scraper core in Dafny

This project models the text-extraction core of `src/unit-scraper.ts`. That
code reads a training.gov.au "Unit of competency details" page and turns it
into a unit of competency: a code, a title, a release and a list of elements,
each with its performance criteria. The model proves what that code promises.

The core has two operations:

- `Scrape.CodeTitleAndRelease` reads the heading next to "Unit of competency
  details". It matches the pattern `(?<code>.*) - (?<title>.*) \(Release (?<release>.*)\)`
  against it. It throws "Failed to extract code, title, or release" when the
  pattern does not match or when one of the three groups is empty.
- `Scrape.Elements` walks the rows of the "Elements and Performance Criteria"
  table and skips the two header rows. In each data row it trims the text of
  every `td>p` paragraph. Paragraph 0 is matched against `(?<id>\d+).\s(?<title>.*)`
  and opens a new element. Every later paragraph is matched against
  `(?<id>\d+\.\d+)\s(?<criteria>.*)` and adds a criterion to the element just
  opened. A paragraph that does not match, or whose id or text group is empty,
  throws "Unable to parse data from the table." and the walk returns nothing.

The modules:

- `Types` holds the records of `src/types.d.ts`: `UnitOfCompetency`,
  `Element`, `PerformanceCriteria`. It also holds `Result`, which models a
  thrown error as `Err`.
- `JsRegex` covers the parts of ECMAScript the patterns rely on. It defines
  the classes `.`, `\d` and `\s` and `String.prototype.trim`. It also defines
  the two search orders of a backtracking matcher: `FirstStart` tries start
  positions left to right, and `GiveBack` is a greedy quantifier that gives
  characters back one at a time.
- `Patterns` writes each of the three patterns as a predicate on match spans,
  with the order in which the engine tries spans. For each pattern, an `Exec`
  function returns the first span, as `RegExp.prototype.exec` does.
- `Scrape` holds `CodeTitleAndRelease`, the two paragraph parsers, and the
  method `Elements`.
- `Table` holds the walk over the table for any way of reading the two kinds of
  paragraph. `PushCriterion`, `ReadRow` and `ReadTable` specify it as
  functions. `VisitParagraph`, `VisitRow` and `Walk` are the two nested
  `.each` loops as methods, each proved equal to its function.
- `HeadingProperties`, `TableProperties` and `ElementsProperties` hold the
  lemmas about these.

Three points about the code that a first reading of it may miss:

- A table with no data rows does not throw: `Elements` returns an empty
  list, as `Table.ReadTable` states.
- The `.` after the element id is unescaped, so any character other than a
  line terminator is accepted there, a digit included. `"12 abc"` gives
  element `"1"` titled `"abc"` (`ElementsProperties.UnescapedPeriod`).
- "Paragraph 0" is the first `td>p` paragraph of the row, whichever cell it
  is in: the index counts paragraphs across the whole row, not cells.

## Model

| member | source | states |
|---|---|---|
| Scrape.CodeTitleAndRelease | src/unit-scraper.ts:41-59 | on success the code, title and release are each non-empty and on one line; every failure is the heading error "Failed to extract code, title, or release" |
| Scrape.HeadingOf | src/unit-scraper.ts:52-58 | for one match: success exactly when all three groups are non-empty, and then the result is those groups; otherwise the heading error |
| Patterns.ExecHeading | src/unit-scraper.ts:51-52 | whatever exec returns is a match of the heading pattern: the code and title end at " - ", the release is preceded by " (Release " and followed by ")", and no group crosses a line terminator |
| Patterns.ExecHeadingFirst | src/unit-scraper.ts:51-52 | when the heading has any match, exec returns that match or one the engine tries earlier (leftmost start, then the longest code, title and release) |
| Patterns.ExecElement | src/unit-scraper.ts:89-91 | whatever exec returns is a match of the element pattern: a non-empty run of digits, any one non-line-terminator character, one `\s` character, then a single-line title |
| Patterns.ExecElementFirst | src/unit-scraper.ts:89-91 | when the paragraph has any element match, exec returns that match or one tried earlier (leftmost start, longest id, longest title) |
| Patterns.ExecCriteria | src/unit-scraper.ts:90-91 | whatever exec returns is a match of the criteria pattern: digits, a period, digits, one `\s` character, then single-line text |
| Patterns.ExecCriteriaFirst | src/unit-scraper.ts:90-91 | when the paragraph has any criteria match, exec returns that match or one tried earlier (leftmost start, longest major number, longest minor number, longest text) |
| JsRegex.Trim | src/unit-scraper.ts:86 | the trimmed text neither starts nor ends with a `\s` character |
| JsRegex.TrimExact | src/unit-scraper.ts:86 | trim removes exactly the leading and trailing `\s` characters around a text that neither starts nor ends with one |
| JsRegex.GiveBackReaches | src/unit-scraper.ts:51 | a greedy quantifier that gives characters back skips no end position at which the rest of the pattern matches, and keeps the longest such end |
| JsRegex.FirstStartReaches | src/unit-scraper.ts:52 | exec skips no start position at which the pattern matches, and keeps the leftmost one |
| HeadingProperties.FirstHeadingDecides | src/unit-scraper.ts:51-56 | the result is decided by the first match in the engine's order alone |
| HeadingProperties.CodeTitleAndReleaseOk | src/unit-scraper.ts:51-58 | success exactly when the heading has a first match whose three groups are all non-empty; the result is always what that first match gives |
| HeadingProperties.SpanIsHeadingLine | src/unit-scraper.ts:51 | the text a match spans is the code, " - ", the title, " (Release ", the release and ")" |
| HeadingProperties.SingleLineHeading | src/unit-scraper.ts:46-58 | on a one-line heading that succeeds, the heading starts with code + " - " + title + " (Release " + release + ")" |
| HeadingProperties.WrittenHeading | src/unit-scraper.ts:51-58 | a heading written by the template from a non-empty single-line code, title and release gives back exactly those three pieces whenever " " + title holds no " - " and " " + release holds no " (Release "; the code may contain " - " and the title may contain hyphens |
| HeadingProperties.WordHyphenNoSeparator | src/unit-scraper.ts:51 | a hyphen inside a word of the title is no separator: " " + a + "-" + b holds no " - " when `a` ends in a non-space and neither part has a hyphen |
| HeadingProperties.HyphenatedTitle | src/unit-scraper.ts:41-59 | "X1 - first-aid (Release 1)" gives code "X1", title "first-aid" and release "1" |
| HeadingProperties.GreedyCode | src/unit-scraper.ts:51 | "A - B - C (Release 1)" gives code "A - B", title "C", release "1" |
| HeadingProperties.UnitHeadingExample | src/unit-scraper.ts:41-59 | "UEERE0035 - Define and apply electrical safety requirements (Release 2)" gives code "UEERE0035", that title and release "2" |
| HeadingProperties.NoCloseFails | src/unit-scraper.ts:52-56 | a heading without ")", the empty heading among them, fails with the heading error |
| Scrape.ElementOf | src/unit-scraper.ts:93-107 | for one element match: nothing exactly when the id or the title group is empty; otherwise the element with those groups and no criteria |
| Scrape.ParseElement | src/unit-scraper.ts:86-107 | a paragraph 0 that parses gives an element with an id of digits, a non-empty single-line title and no criteria |
| Scrape.CriterionOf | src/unit-scraper.ts:93-99 | for one criteria match: nothing exactly when the text group is empty; otherwise the criterion with id "digits.digits" and that text |
| Scrape.ParseCriteria | src/unit-scraper.ts:86-99 | a later paragraph that parses gives a criterion with a dotted id of digits and a non-empty single-line text |
| Scrape.Elements | src/unit-scraper.ts:67-120 | the walk over the table returns exactly what `Table.ReadTable` gives for the scraper's two patterns |
| Table.PushCriterion | src/unit-scraper.ts:110-114 | pushing onto the last element adds the criterion at the end of its criteria; its id and title and every earlier element stay the same |
| Table.OpenElement | src/unit-scraper.ts:101-107 | paragraph 0 succeeds exactly when it reads to an element, and then appends that element and keeps the ones before |
| Table.AddCriterion | src/unit-scraper.ts:108-115 | a later paragraph never changes the number of elements, and succeeds only after the paragraphs before it succeeded |
| Table.ReadRow | src/unit-scraper.ts:83-116 | a row adds one element when it has paragraphs and none when it has none; every failure is the table error |
| Table.ReadTable | src/unit-scraper.ts:74-119 | a table of at most two rows gives the empty list, whatever those rows hold; every failure is the table error |
| Table.PushCriterionAfter | src/unit-scraper.ts:110-114 | pushing onto the last element of a list leaves every element before it alone |
| Table.ReadTableFailsOn | src/unit-scraper.ts:98 | once the first rows of the table fail, the whole table fails: a thrown error ends the walk |
| Table.ReadRowFailsOn | src/unit-scraper.ts:98 | once the first paragraphs of a row fail, the whole row fails |
| Table.VisitParagraph | src/unit-scraper.ts:85-115 | the inner callback opens an element or adds a criterion as `Table.OpenElement` and `Table.AddCriterion` say, and throws the table error when the paragraph does not read |
| Table.VisitRow | src/unit-scraper.ts:78-117 | the outer callback leaves the header rows alone and adds what `Table.ReadRow` says for a data row |
| Table.Walk | src/unit-scraper.ts:71-119 | the two nested loops return exactly `Table.ReadTable` of the whole table: all elements in document order, or the table error with no partial list |
| TableProperties.RowErrIff | src/unit-scraper.ts:85-116 | a row fails exactly when one of its paragraphs does not read |
| TableProperties.TableErrIff | src/unit-scraper.ts:74-119 | the table fails exactly when a paragraph of a data row does not read, and then with the table error |
| TableProperties.ReadRowOk | src/unit-scraper.ts:85-115 | a row with paragraphs that succeeds gives one element: that of paragraph 0, followed by the criteria of the later paragraphs in order |
| TableProperties.FreshRowReads | src/unit-scraper.ts:101-114 | when paragraph 0 reads to an element without criteria, the row's element has exactly one criterion per later paragraph, in order |
| TableProperties.FilledDataRows | src/unit-scraper.ts:78-84 | the data rows with paragraphs are no more than the rows, and none of them is empty |
| TableProperties.ReadTableOk | src/unit-scraper.ts:71-119 | a table that succeeds holds one element per data row with paragraphs, in table order, each the element its own row reads to |
| TableProperties.HeaderRowsIgnored | src/unit-scraper.ts:80 | tables that differ only in their first two rows give the same result |
| TableProperties.OneRowTable | src/unit-scraper.ts:78-117 | two header rows and one data row of an element and a criterion give that one element with that one criterion |
| ElementsProperties.FirstElementDecides | src/unit-scraper.ts:86-91 | paragraph 0 is decided by the first element match of its trimmed text |
| ElementsProperties.FirstCriteriaDecides | src/unit-scraper.ts:86-91 | a later paragraph is decided by the first criteria match of its trimmed text |
| ElementsProperties.WrittenElementParses | src/unit-scraper.ts:86-107 | "id. title", with an id of digits and a non-empty single-line title that does not end in `\s`, gives back exactly that id and title, with no criteria |
| ElementsProperties.WrittenCriterionParses | src/unit-scraper.ts:86-99 | "major.minor text", with two numbers and a non-empty single-line text that does not end in `\s`, gives back id "major.minor" and that text |
| ElementsProperties.ElementExample | src/unit-scraper.ts:89-107 | "1. Identify safety requirements" is element "1" titled "Identify safety requirements", with no criteria |
| ElementsProperties.CriterionExample | src/unit-scraper.ts:90-114 | "1.1 Locate and interpret safety documentation" is criterion "1.1" with that text |
| ElementsProperties.PeriodAfterId | src/unit-scraper.ts:89 | in "id x title", where x is any character but a line terminator (a digit included), the unescaped `.` takes x: the result is element id with that title |
| ElementsProperties.UnescapedPeriod | src/unit-scraper.ts:89 | "12 abc" is element "1" titled "abc" |
| ElementsProperties.PeriodTakesEmoji | src/unit-scraper.ts:89 | the model reads "1😀 2. abc" as element "1" titled "2. abc" (the source differs here: see "Left out") |
| ElementsProperties.RowReadsElement | src/unit-scraper.ts:85-115 | a data row's element is that of paragraph 0, with the criteria of paragraphs 1 and on, in order |
| ElementsProperties.ElementOfRowWellFormed | src/unit-scraper.ts:93-114 | a data row's element and each of its criteria are well formed |
| ElementsProperties.ElementsOk | src/unit-scraper.ts:67-120 | on success, one element per data row with paragraphs, in table order: the element of paragraph 0 of that row with the criteria of its later paragraphs; all of them well formed |
| ElementsProperties.ElementsErr | src/unit-scraper.ts:67-120 | Elements throws exactly when some paragraph of a data row does not parse, and then throws the table error |
| ElementsProperties.TableExample | src/unit-scraper.ts:67-120 | a table whose one data row holds element 1 and criterion 1.1 of UEERE0035 gives that element with that criterion, whatever the header rows hold |

## Left out

- The `scrape` wrapper (`src/unit-scraper.ts:15-31`) is left out: the HTTP request, loading the page, and joining the heading and the elements into a `UnitOfCompetency`. It is I/O and plain record assembly. `Types.UnitOfCompetency` is defined but never built.
- The page queries are left out. The `h1`/`h2` lookup, the `.next("table").find("tr")` lookup, `td>p` and `.text()` are queries on the DOM of the HTML parser. The model takes their results as values: the heading text, and the table as rows of paragraph texts in document order.
- `src/index.ts` is not part of this model.
- Strings are sequences of Unicode scalar values, not UTF-16 code units, and the patterns step over one scalar value at a time. This gives the same groups for the `.*` groups, the criteria pattern, the heading pattern and `trim`. It does not for the single unescaped `.` of the element pattern. In the source, that `.` takes one UTF-16 code unit, and only half of a character outside the Basic Multilingual Plane.
- Patterns.ExecElement: when the model's first element match puts a character outside the Basic Multilingual Plane in the unescaped `.`, the source rejects that match, because its `.` takes only the high surrogate and `\s` then fails on the low one. The source then either throws the table error (`"1😀 abc"`, which the model reads as element "1" titled "abc") or takes a later match (`"1😀 2. abc"` gives element "2" titled "abc" in the source; the model gives element "1" titled "2. abc", `ElementsProperties.PeriodTakesEmoji`).
- Scrape.ParseElement: inherits the difference of `Patterns.ExecElement` above for such paragraphs.
- The template-literal types `${number}` and `${number}.${number}` are compile-time annotations, not checks, so they have no counterpart. What the patterns guarantee about the ids is stated instead: digits, and digits-period-digits.
- Table.VisitParagraph: the source pushes onto the element object the list already holds. The model rebuilds the list with its last element replaced. No other reference to that element exists, so the two results are equal.
- Nothing is checked that the source does not check either: that element ids are numbered in order, that they are unique, that criteria ids start with their element's id, or what the header rows hold.
