# Health-records question router, modelled in Dafny

This project models the question-answering core of a small voice assistant for health data. A question typed or spoken by a user is routed to one of three kinds of answer:

- a canned answer;
- an answer from the PDF documents of a folder: a total price, an indicator-code definition, or passages retrieved by semantic search;
- an answer from the CSV tables of a folder: five question patterns and a broad keyword filter over patient rows.

The model keeps the decisions of the three core files:

- `custom_tasks.py` routes the question through stages;
- `csv_utils.py` is the rule-based table matcher;
- `pdf_utils.py` is the document matcher, without its text extraction and its vector store.

It proves what the answers are and in which order the rules apply.

Modules, one file each:

| file | module | models |
|---|---|---|
| `wrappers.dfy` | `Wrappers` | `Option`, and `Reply` (an answer or a raised exception) |
| `text.dfy` | `Text` | Python string operations on ASCII: `strip`, `lower`/`upper`, `in`, `replace`, `splitlines`, `re.split(r"\W+")`, `join` |
| `numerals.dfy` | `Numerals` | costs in whole cents: `:.2f` printing and the numeric parse of a cost cell, with a round trip |
| `captures.dfy` | `Captures` | the five `re.search` patterns of `query_csv`, each as an extraction function that finds the leftmost match |
| `table.dfy` | `Table` | the table, `_load_csv` normalisation, `_icontains`, `_clean_answer` |
| `csv_query.dfy` | `CsvQuery` | `query_csv`: patterns 1–5 in order, the broad fallback, load errors |
| `totals.dfy` | `Totals` | `find_total_price` and the whole-word total test of `query_pdf` |
| `pdf_query.dfy` | `PdfQuery` | `lookup_pdf_indicator`, snippet formatting, `query_pdf` dispatch |
| `router.dfy` | `Router` | `CSV_KEYWORDS`, `_looks_structured`, `_looks_like_indicator`, `handle_task` |

Where loops update state in the source, the model has a method with a loop, proved equal to a specification function:

- `_load_csv`'s column loop is `Table.Load`;
- the broad fallback's nested mask loops are `CsvQuery.TermMask` and `CsvQuery.CombinedMask`, which `CsvQuery.BroadFallback` calls;
- `find_total_price`'s pattern loop is `Totals.FindTotalPrice`;
- `query_pdf`'s answer list is `PdfQuery.FormatResults`;
- `handle_task`'s three loops are in `Router.Route` and `Router.RouteStages`.

`RouteStages` keeps the `csv_any_match` flag that the source writes and never reads.

The inputs the source gets from outside become parameters:

- The file lists `pdf_files` and `csv_files` become `seq<string>`.
- The folders become maps from file name to `Pdf` (its extracted text and its retriever) or `CsvFile` (a raw table or a read error).
- In the generic router each per-file matcher is a function returning `Reply`. `Router.HandleTask` instantiates it with the concrete matchers.

Four behaviours of the program that are easy to misread:

- A question takes the total branch only when a keyword occurs as a whole word (`\b`); a keyword inside a longer word does not count.
- The `$` before an amount is optional in the total patterns.
- The structured stage rejects a reply that contains "❌" anywhere in it.
- The region total reads "Total cost in X region: …".

## Model

| member | source | states |
|---|---|---|
| Router.AnyKeyword | custom_tasks.py:17-19 | true exactly when one of the keywords occurs in the lower-cased question |
| Router.TwoKeywordsRedundant | custom_tasks.py:11-14 | the structured test gives the same verdict without "patientid" and "what is the name of patient with", both of which contain "patient" |
| Router.IndicatorIsLongCode | custom_tasks.py:22-27 | a question looks like an indicator iff its stripped form is a `[A-Z0-9_]` code of length at least 4 |
| Router.IndicatorNeverCanned | custom_tasks.py:41-49 | no canned phrase occurs in an indicator-like question, since a code has no space |
| Router.CannedAnswersFirst | custom_tasks.py:41-49 | the three canned answers come first, in their order, whatever the files and matchers are |
| Router.FirstAccepted | custom_tasks.py:53-59 | what a stage returns is a reply its filter accepts |
| Router.FirstAcceptedIsFirst | custom_tasks.py:53-59 | a stage gives the first reply in list order that is an answer and passes the stage's filter; it gives none iff no reply passes |
| Router.FirstPassing | custom_tasks.py:53-57 | the reply a stage returns is the answer of some source in the list |
| Router.RaisedIsSkipped | custom_tasks.py:58-59 | a source that raises changes nothing: the stage's result is as if it were not in the list |
| Router.StructuredStageRejectsSentinel | custom_tasks.py:66-67 | "No matching data found in CSV." never passes the structured stage |
| Router.CsvLoadErrorRejected | custom_tasks.py:66-67 | a missing or unreadable table never answers in the structured stage |
| Router.NoSourcesFallback | custom_tasks.py:86 | with no documents and no tables, every question without a canned answer gets the fixed fallback |
| Router.StagedFromSources | custom_tasks.py:52-86 | after the canned answers, the stages give the fallback or a reply of some source that the stage it came from accepts |
| Router.RouteAnswersFromSources | custom_tasks.py:52-86 | the router returns the fallback, or a reply of some source that the stage it came from accepts, with the intent test of that stage true |
| Router.RouteStages | custom_tasks.py:52-86 | the three loops with early returns and swallowed exceptions return the indicator stage's pick, else the structured stage's, else the document stage's, else the fallback |
| Router.HandleTask | custom_tasks.py:31-86 | `handle_task` over the two folders: every reply is a canned answer, the fallback, or what some listed document or table answers to the stripped question |
| Router.Route | custom_tasks.py:31-86 | `handle_task` on the stripped question equals the function `Router.RouteSpec` |
| Router.NoDefinitionRejected | custom_tasks.py:56 | the lookup's "No definition for …" message never passes the indicator stage |
| Router.AbsentCodeSkipped | custom_tasks.py:53-57 | in the indicator stage, a document whose text lacks the code is passed over, because its answer says "No definition" |
| Router.MissingPdfSkipped | custom_tasks.py:56-57 | in the indicator stage, a missing document is passed over, because its answer says "not found" |
| Router.DocumentStageAcceptsNoTotal | custom_tasks.py:80 | the no-total message of the total branch passes the document stage |
| Router.DocumentStageAcceptsFileMissing | custom_tasks.py:80 | a missing document's not-found message passes the document stage iff the file name does not hold "I could not find" |
| Router.MissingFirstPdfAnswers | custom_tasks.py:77-81 | a question that reaches the document stage gets the first listed document's not-found message when that document is missing |
| Table.CostCentsReadsFormatted | csv_utils.py:24-25 | a cost cell holding an amount printed with two decimals reads back as that amount |
| Table.MissingCostIsZero | csv_utils.py:24-25 | a row with no cost cell (read as "nan") counts as 0 |
| Table.StripColumnStep | csv_utils.py:18-22 | trimming one more column of a partly trimmed table gives the table with that column also trimmed |
| Table.Loaded | csv_utils.py:18-25 | the loaded table has the same columns and rows; every present key column is trimmed; the cost is the parsed trimmed cell, 0 when it does not parse |
| Table.Load | csv_utils.py:18-25 | the in-place loop over the eight known columns gives the loaded table |
| Table.RowsContaining | csv_utils.py:29-31 | keeps exactly the rows whose cell contains the text, ignoring case |
| Table.RowsContainingAppend | csv_utils.py:29-31 | filtering two runs of rows one after the other gives the two filtered runs in the same order |
| Table.EmptyTextKeepsEveryRow | csv_utils.py:29-31 | every cell contains the empty text, so filtering by it keeps all rows |
| Table.UniqueMembers | csv_utils.py:36 | keeps exactly the non-blank values not yet seen |
| Table.UniqueHasNoDuplicates | csv_utils.py:36 | no value is kept twice |
| Table.UniqueKeepsFirstSeenOrder | csv_utils.py:36 | the kept values come in the order of their first occurrence |
| Table.CleanAnswer | csv_utils.py:34-37 | all values blank gives "No matching data found in CSV."; otherwise the distinct non-blank values joined by ", " |
| Captures.TreatmentPatient | csv_utils.py:61 | the id captured at the leftmost match position: non-empty, made of `[a-z0-9-]`, and taken from the question |
| Captures.FacilityEnd | csv_utils.py:71 | the lazy facility phrase ends at the first place after which the diagnosis part matches, and at no earlier one |
| Captures.FacilityStart | csv_utils.py:71 | the `\s+` after "at" gives back as little as it must: the facility starts at the last place inside that whitespace from which the rest matches |
| Captures.FacilityAndDiagnosis | csv_utils.py:71 | the facility and diagnosis captured at the leftmost match: both non-empty and without a newline |
| Captures.BlankFacilityCaptured | csv_utils.py:71 | on "who was treated at   for x" the facility captured is a single blank and the diagnosis "x" |
| Captures.CostRegion | csv_utils.py:82 | the region word captured at the leftmost match: non-empty letters |
| Captures.ListedDiagnosis | csv_utils.py:91 | the diagnosis phrase captured at the leftmost match: non-empty, without a newline |
| Captures.CostPatient | csv_utils.py:102 | the id captured at the leftmost match: non-empty, made of `[a-z0-9-]`, and taken from the question |
| CsvQuery.FindId | csv_utils.py:64-65 | the index of the first row whose upper-cased id equals the asked-for id; none iff no row has it |
| CsvQuery.TreatmentAnswer | csv_utils.py:61-62 | pattern 1 applies iff its regex matches and the PatientID and Treatment columns exist |
| CsvQuery.TreatmentOfFirstPatient | csv_utils.py:63-66 | when pattern 1 applies, the answer is the Treatment of the first row with the upper-cased id |
| CsvQuery.TreatmentOfMissingPatient | csv_utils.py:67 | when no row has the id, the answer is "No matching patient {PID} in CSV." |
| CsvQuery.TreatedAtRows | csv_utils.py:75 | keeps exactly the rows whose Facility contains the facility and whose Diagnosis contains the diagnosis, ignoring case |
| CsvQuery.TreatedAtRowsAppend | csv_utils.py:75 | the rows kept from two runs of rows are those kept from each, in the same order |
| CsvQuery.BlankFacilityFiltersOnDiagnosis | csv_utils.py:72-75 | a facility that strips to nothing keeps every facility, so only the diagnosis filters |
| CsvQuery.TreatedAtAnswer | csv_utils.py:71-78 | pattern 2 applies iff its regex matches and Facility, Diagnosis and Name exist; the answer is the de-duplicated names of the kept rows, or the no-patients message naming the stripped phrases |
| CsvQuery.RegionTotalAnswer | csv_utils.py:82-87 | pattern 3 applies iff its regex matches and Region and Cost exist; it always answers with the sum of cost over rows whose region contains the stripped region |
| CsvQuery.TotalOverNoRows | csv_utils.py:85-86 | the sum is 0 when no row matches |
| CsvQuery.RegionTotalWhenNoRow | csv_utils.py:85-87 | with no matching row the answer ends "region: 0.00" |
| CsvQuery.RegionTotalReadsBack | csv_utils.py:87 | the printed total parses back to the summed cents |
| CsvQuery.DiagnosedAnswer | csv_utils.py:91-99 | pattern 4 applies iff its regex matches and Diagnosis, PatientID and Name exist; the answer is the de-duplicated names of matching rows, or the no-patients-diagnosed message |
| CsvQuery.PatientCostAnswer | csv_utils.py:102-103 | pattern 5 applies iff its regex matches and PatientID and Cost exist |
| CsvQuery.CostOfFirstPatient | csv_utils.py:104-107 | the answer is the cost of the first row with the id, printed with two decimals |
| CsvQuery.CostOfMissingPatient | csv_utils.py:108 | when no row has the id, the answer is "No matching patient {PID} in CSV." |
| CsvQuery.PresentAmong | csv_utils.py:111 | the key columns kept are exactly those present in the table |
| CsvQuery.Tokens | csv_utils.py:115 | every token is a run of word characters longer than 3, taken from the question |
| Text.WordRunsExact | csv_utils.py:115 | `\w+` finds exactly the maximal runs of word characters in the question |
| CsvQuery.TokensAreLongRuns | csv_utils.py:115 | a string is a token iff it is a maximal word run longer than 3; there is no token iff every maximal run has at most 3 characters |
| CsvQuery.Qualifying | csv_utils.py:113-122 | keeps exactly the rows in which every token occurs in at least one present key column |
| CsvQuery.QualifyingAppend | csv_utils.py:120-122 | the qualifying rows of two runs of rows are those of each, in the same order |
| CsvQuery.TokenHitsStep | csv_utils.py:118-119 | or-ing in one more column extends the term mask by that column |
| CsvQuery.QualifiesStep | csv_utils.py:120 | and-ing in one more term mask extends the row mask by that token |
| CsvQuery.SelectQualifying | csv_utils.py:120-122 | selecting rows by the final mask gives the qualifying rows |
| CsvQuery.TermMask | csv_utils.py:117-119 | the inner loop's mask is true for a row iff the token occurs in one of the columns |
| CsvQuery.FirstTokenMask | csv_utils.py:120 | the first token's mask flags the rows that qualify for that token alone |
| CsvQuery.NextTokenMask | csv_utils.py:120 | and-ing the next token's mask into the running mask flags the rows that qualify for all tokens so far |
| CsvQuery.CombinedMask | csv_utils.py:112-120 | the token loop leaves the mask unset iff there is no token, and otherwise flags exactly the qualifying rows |
| CsvQuery.MaskedBroadMatch | csv_utils.py:122-127 | selecting by a mask that flags the qualifying rows gives the broad match's answer |
| CsvQuery.BroadFallback | csv_utils.py:111-130 | the nested loops give the broad match: names of qualifying rows, else their ids, else the sentinel (also with no key column or no token) |
| CsvQuery.FirstApplies | csv_utils.py:59-108 | the answer of the first pattern that applies, in order; the broad fallback only when none applies |
| CsvQuery.FirstOrBroad | csv_utils.py:59-130 | trying the pattern answers in a loop gives the first that applies, else the broad fallback |
| CsvQuery.AnswerFromTable | csv_utils.py:56-130 | the matcher on the stripped, lower-cased question equals the table specification |
| CsvQuery.LoadFailureReported | csv_utils.py:51-54 | a missing or unreadable file gives an answer starting "❌ Error loading CSV: " |
| CsvQuery.QueryCsv | csv_utils.py:41-130 | `query_csv` equals its specification on every file name and question |
| Numerals.FormatParseRoundTrip | csv_utils.py:107 | printing cents with two decimals and parsing the text back gives the same amount |
| Totals.AmountShape | pdf_utils.py:40-43 | the amount group captures digits and commas, a point and two digits, taken from the text |
| Totals.SearchNoneIffNoMatch | pdf_utils.py:46 | one pattern's search finds nothing iff the pattern matches at no position |
| Totals.SearchFindsFirstMatch | pdf_utils.py:46 | a pattern's search reports the capture at the leftmost position where it matches |
| Totals.SearchFindsAmount | pdf_utils.py:46-48 | what a pattern's search reports is an amount that occurs in the text |
| Totals.FirstSome | pdf_utils.py:45-49 | the first present result in list order; none iff every result is absent |
| Totals.FirstTotalIsFirstMatch | pdf_utils.py:37-49 | the capture of the first pattern in list order that matches, an amount from the text; none iff no pattern matches |
| Totals.FindTotalPrice | pdf_utils.py:37-49 | the loop with early return gives the first pattern's capture |
| Totals.GrandTotalHasTotal | pdf_utils.py:39-40 | wherever the "Grand Total" pattern matches, the "Total" pattern matches further on with the same capture |
| Totals.GrandTotalImpliesTotal | pdf_utils.py:39-40 | if "Grand Total" finds an amount, "Total" finds one too |
| Totals.GrandTotalNeverDecides | pdf_utils.py:38-49 | dropping the "Grand Total" pattern from the list never changes the result |
| Totals.TotalKeywordReduces | pdf_utils.py:112 | the whole-word test holds iff "total" or "amount due" occurs as a whole word |
| Totals.CodeNamesTotalOnlyIfTOTAL | pdf_utils.py:112-121 | among indicator codes, only "TOTAL" passes the whole-word total test |
| PdfQuery.MatchingLines | pdf_utils.py:66 | keeps exactly the stripped lines that contain the code; empty iff no line contains it |
| PdfQuery.MatchingLinesKeepOrder | pdf_utils.py:65-66 | scanning two runs of lines gives their kept lines one after the other, in document order |
| PdfQuery.Shown | pdf_utils.py:68-70 | the first min(3, n) kept lines are shown, in order, each highlighted |
| PdfQuery.ShownIgnoresLaterLines | pdf_utils.py:70 | kept lines after the third never change what is shown |
| PdfQuery.LookupIndicator | pdf_utils.py:53-73 | `lookup_pdf_indicator`: when the document's text holds the code, the answer shows it in bold |
| PdfQuery.FoundCodeShownBold | pdf_utils.py:65-71 | a code in the text lies on some kept line, and the joined shown lines hold `**code**` |
| PdfQuery.LookupReportsMissingOrEmpty | pdf_utils.py:58-63 | a missing document gives "❌ PDF not found: health_pdfs/…"; an empty text gives "❌ Could not extract text from PDF." |
| PdfQuery.LookupFindsCodeIffPresent | pdf_utils.py:65-73 | for an indicator code, the lookup shows highlighted lines when the code occurs in the text, and gives the no-definition message when it does not |
| PdfQuery.ShownLineMarksCode | pdf_utils.py:70 | every shown line contains `**code**` |
| PdfQuery.ShownLineOnlyAddsMarkers | pdf_utils.py:70 | with every `*` erased, a shown line equals the kept line: highlighting only adds markers |
| PdfQuery.SnippetShape | pdf_utils.py:132-133 | a snippet is the stripped passage with newlines made spaces, cut to 300 characters plus "..." exactly when longer; it has no newline |
| PdfQuery.ResultLineNumbered | pdf_utils.py:131-134 | result k is labelled "📄 Result k+1: ", the number reads back from the label, and the result is one line |
| PdfQuery.FormatResults | pdf_utils.py:129-135 | the loop that builds the answers gives the numbered snippets joined by blank lines |
| PdfQuery.SearchOutcomes | pdf_utils.py:124-140 | retrieved passages give the numbered snippets; none gives "🤔 I could not find anything relevant…"; a raised error gives "❌ Error during semantic search: …" |
| PdfQuery.TotalAnswerQuotesDocument | pdf_utils.py:113-117 | the total branch quotes an amount that occurs in the text when a pattern matches; it gives "⚠️ No total price…" iff none does |
| PdfQuery.TotalFoundIsNotNoTotal | pdf_utils.py:114-117 | a found amount never gives the no-total message |
| PdfQuery.TotalQuestionAnswersTotal | pdf_utils.py:112-117 | a question with a total keyword as a whole word always takes the total branch |
| PdfQuery.CodeQuestionLooksUp | pdf_utils.py:112-121 | an indicator-code question takes the lookup, except "TOTAL", which takes the total branch |
| PdfQuery.QueryPdf | pdf_utils.py:97-140 | `query_pdf` equals its specification: missing file, total branch, code lookup, semantic search, in that order |

## Left out

- The Streamlit interface (`streamlit_app.py`) and the voice input and output (`voice_utils.py`): presentation and audio I/O around `handle_task`.
- PDF text extraction (`extract_pdf_text`, pdf_utils.py:17-26) is not modelled. Each document's text is an input, and a read error appears as the text the extractor returns for it.
- The vector store (`build_or_load_vectorstore`, `semantic_pdf_search`, pdf_utils.py:29-33 and 77-93) is not modelled. The retrieval for a question is an input, either passages or an error, and the `k=3` limit is not enforced on it.
- Directory discovery (custom_tasks.py:7-8) and the `.pdf`/`.csv` suffix filter are not modelled. The file lists are parameters; a file's existence is membership in the folder map.
- pandas is not modelled:
  - Reading a CSV gives a table of text cells, and a missing cell reads "nan".
  - Every key column is treated as a text column. A column pandas would type as numeric is not stripped in the source, and its `.str` calls would fail there.
- `pd.to_numeric` is modelled only for an optional sign, at least one digit, and an optional point followed by at most two digits (so "12." reads as 12.00). Some spellings that pandas reads as numbers become 0 in the model, such as no digit before the point (".5"), an exponent ("1e3"), three or more decimals ("1.234") or "inf". Text that pandas cannot read either, such as "1,000", becomes 0 in both.
- Floating point is not modelled. Costs are exact cents, so sums have no rounding error and `:.2f` never rounds.
- Case mapping, whitespace, `\w` and `\b` are modelled on ASCII only, not on the full Unicode tables.
- A `None` question (`user_input or ""`, `query or ""`) is not modelled: questions are strings.
- The regex engine is not modelled. Each pattern is an extraction function written for that pattern. These functions make the engine's choices: the leftmost start, lazy groups ending as early as possible, the `.*` of pattern 5 ending as late as possible, and the optional "the " of pattern 3 tried before it is left out. The `\s+` before pattern 2's facility gives characters back, one at a time, until the rest matches. So a facility can be a single blank (`Captures.BlankFacilityCaptured`). Every other `\s+` is followed by a literal, by a character class without blanks, or by a lazy group that runs to the end of the question. The question is stripped, so it ends in a non-blank, and giving characters back there cannot change a capture. That argument is not itself proved.
- The concrete matchers never raise. Exceptions are modelled only in the generic router, where a matcher may return `Raised`.
