/**
 * The document matcher of pdf_utils.py without its foreign parts: `query_pdf`
 * decides between the total-price patterns, the indicator lookup and the
 * semantic search, and formats what the last one retrieves. The text a PDF
 * yields and the passages its vector store retrieves are inputs.
 */
module PdfQuery {
  import opened Wrappers
  import opened Text
  import opened Numerals
  import opened Totals

  /** What the vector store of one document gives back for a question, or the error it raised. */
  datatype Retrieval = Passages(docs: seq<string>) | SearchFailed(detail: string)

  /**
   * A document of the PDF folder: the text the extractor yields for it (the
   * extractor's own error message, when reading fails), and its vector store
   * as a function of the question.
   */
  datatype Pdf = Pdf(text: string, search: string -> Retrieval)

  const PdfFolder := "health_pdfs/"

  // ---------------------------------------------------------------- indicator lookup

  /** `[line.strip() for line in lines if code in line]`. */
  function MatchingLines(lines: seq<string>, code: string): (ms: seq<string>)
    ensures |ms| <= |lines|
    ensures forall m :: m in ms <==> exists l :: l in lines && Contains(l, code) && m == Strip(l)
    ensures ms == [] <==> forall j :: 0 <= j < |lines| ==> !Contains(lines[j], code)
  {
    if lines == [] then []
    else
      var rest := MatchingLines(lines[1..], code);
      assert forall j :: 1 <= j < |lines| ==> lines[j] == lines[1..][j - 1];
      if Contains(lines[0], code) then [Strip(lines[0])] + rest else rest
  }

  /** The kept lines keep document order: scanning two pieces of text one after the other gives the two results one after the other. */
  lemma {:induction false} MatchingLinesKeepOrder(a: seq<string>, b: seq<string>, code: string)
    ensures MatchingLines(a + b, code) == MatchingLines(a, code) + MatchingLines(b, code)
  {
    if a == [] {
      assert a + b == b;
    } else {
      assert (a + b)[0] == a[0];
      assert (a + b)[1..] == a[1..] + b;
      MatchingLinesKeepOrder(a[1..], b, code);
    }
  }

  /** The code wrapped in bold markers. */
  function Marked(code: string): string {
    "**" + code + "**"
  }

  /** `m.replace(code, f"**{code}**")`. */
  function Highlight(m: string, code: string): string {
    Replace(m, code, Marked(code))
  }

  /** The first three kept lines (fewer when there are fewer), each highlighted. */
  function Shown(ms: seq<string>, code: string): (r: seq<string>)
    ensures |r| <= 3 && |r| <= |ms|
    ensures |ms| > 0 ==> |r| > 0
    ensures |r| == if |ms| < 3 then |ms| else 3
    ensures forall i :: 0 <= i < |r| ==> r[i] == Highlight(ms[i], code)
  {
    var n := if |ms| < 3 then |ms| else 3;
    seq(n, i requires 0 <= i < n => Highlight(ms[i], code))
  }

  /** Lines kept after the third never show: only the slice `matches[:3]` is looked at. */
  lemma ShownIgnoresLaterLines(ms: seq<string>, later: seq<string>, code: string)
    requires |ms| >= 3
    ensures Shown(ms + later, code) == Shown(ms, code)
  {
    var r := Shown(ms + later, code);
    forall i | 0 <= i < |r| ensures r[i] == Shown(ms, code)[i] {
      assert (ms + later)[i] == ms[i];
    }
  }

  function PdfMissing(name: string): string {
    "❌ PDF not found: " + PdfFolder + name
  }

  const NoText := "❌ Could not extract text from PDF."

  function NoDefinition(code: string, name: string): string {
    "No definition for '" + code + "' found in " + name + "."
  }

  /**
   * `lookup_pdf_indicator`. When the document's text holds the code, the answer
   * shows the code in bold.
   */
  function LookupIndicator(pdfs: map<string, Pdf>, name: string, code: string): (r: string)
    ensures IsCode(code) && name in pdfs && Contains(pdfs[name].text, code) ==> Contains(r, Marked(code))
  {
    if name !in pdfs then PdfMissing(name)
    else
      var text := pdfs[name].text;
      if text == [] then NoText
      else
        var ms := MatchingLines(SplitLines(text), code);
        FoundCodeShownBold(text, code);
        if ms != [] then Join("\n", Shown(ms, code)) else NoDefinition(code, name)
  }

  /** A code that occurs in the text is on some kept line, and the joined shown lines hold it in bold. */
  lemma FoundCodeShownBold(text: string, code: string)
    ensures var ms := MatchingLines(SplitLines(text), code);
      IsCode(code) && Contains(text, code) ==> ms != [] && Contains(Join("\n", Shown(ms, code)), Marked(code))
  {
    if IsCode(code) && Contains(text, code) {
      var ms := MatchingLines(SplitLines(text), code);
      CodeHasNoLineBreak(code);
      ContainsInSomeLine(text, code);
      ShownLineMarksCode(SplitLines(text), code, 0);
      JoinHoldsFirst("\n", Shown(ms, code), Marked(code));
    }
  }

  /** An indicator code has no line break in it. */
  lemma CodeHasNoLineBreak(code: string)
    requires IsCode(code)
    ensures forall k :: 0 <= k < |code| ==> !IsLineBreak(code[k])
  {
    forall k | 0 <= k < |code| ensures !IsLineBreak(code[k]) {
      assert IsCodeChar(code[k]);
    }
  }

  /**
   * For an indicator code and a document with text, the lookup answers with the
   * highlighted lines exactly when the code occurs in the text, and with the
   * no-definition message exactly when it does not.
   */
  lemma LookupFindsCodeIffPresent(pdfs: map<string, Pdf>, name: string, code: string)
    requires IsCode(code) && name in pdfs && pdfs[name].text != []
    ensures var text := pdfs[name].text;
      var ms := MatchingLines(SplitLines(text), code);
      Contains(text, code) ==> ms != [] && LookupIndicator(pdfs, name, code) == Join("\n", Shown(ms, code))
    ensures !Contains(pdfs[name].text, code) ==> LookupIndicator(pdfs, name, code) == NoDefinition(code, name)
  {
    var text := pdfs[name].text;
    var lines := SplitLines(text);
    CodeHasNoLineBreak(code);
    if Contains(text, code) {
      ContainsInSomeLine(text, code);
    } else if SomeLineContains(lines, code) {
      SomeLineInContains(text, code);
    }
  }

  /** A document that yields no text, or is missing, is reported as such, whatever the code. */
  lemma LookupReportsMissingOrEmpty(pdfs: map<string, Pdf>, name: string, code: string)
    ensures name !in pdfs ==> LookupIndicator(pdfs, name, code) == PdfMissing(name)
    ensures name in pdfs && pdfs[name].text == [] ==> LookupIndicator(pdfs, name, code) == NoText
  {
  }

  /** Every line the lookup shows holds the code in bold: stripping a line never cuts into the code. */
  lemma ShownLineMarksCode(lines: seq<string>, code: string, i: nat)
    requires IsCode(code)
    requires i < |Shown(MatchingLines(lines, code), code)|
    ensures Contains(Shown(MatchingLines(lines, code), code)[i], Marked(code))
  {
    var ms := MatchingLines(lines, code);
    assert ms[i] in ms;
    var l :| l in lines && Contains(l, code) && ms[i] == Strip(l);
    assert IsCodeChar(code[0]) && IsCodeChar(code[|code| - 1]);
    StripKeepsOccurrence(l, code);
    ReplaceShowsReplacement(ms[i], code, Marked(code));
  }

  /** Highlighting adds bold markers and nothing else: with every '*' erased, a shown line is the kept line. */
  lemma ShownLineOnlyAddsMarkers(ms: seq<string>, code: string, i: nat)
    requires '*' !in code
    requires i < |Shown(ms, code)|
    ensures Erase('*', Shown(ms, code)[i]) == Erase('*', ms[i])
  {
    assert Erase('*', "**") == [];
    EraseAppend('*', "**" + code, "**");
    EraseAppend('*', "**", code);
    ReplaceOnlyAddsMarkers('*', ms[i], code, Marked(code));
  }

  // ---------------------------------------------------------------- retrieved snippets

  const SnippetLimit := 300

  /** A retrieved passage stripped, with its newlines turned into spaces. */
  function Flattened(doc: string): string {
    Replace(Strip(doc), "\n", " ")
  }

  /** The passage as shown: flattened, cut at the limit, "..." added when it was cut. */
  function Snippet(doc: string): string {
    var s := Flattened(doc);
    if |s| > SnippetLimit then s[..SnippetLimit] + "..." else s
  }

  /**
   * A snippet is the stripped passage with newlines as spaces, character by
   * character; it is cut at 300 characters and ends in "..." exactly when the
   * stripped passage is longer; it has no newline.
   */
  lemma SnippetShape(doc: string)
    ensures var s := Strip(doc); var r := Snippet(doc);
      (|s| > SnippetLimit ==> |r| == SnippetLimit + 3 && r[SnippetLimit..] == "...")
      && (|s| <= SnippetLimit ==> |r| == |s|)
      && (forall k :: 0 <= k < |r| && k < SnippetLimit ==> r[k] == if s[k] == '\n' then ' ' else s[k])
    ensures '\n' !in Snippet(doc)
  {
    var f := Flattened(doc);
    FlattenedShape(doc);
    if |f| > SnippetLimit {
      var r := f[..SnippetLimit] + "...";
      assert Snippet(doc) == r;
      assert forall k :: 0 <= k < |r| ==> r[k] == if k < SnippetLimit then f[k] else '.';
    } else {
      assert Snippet(doc) == f;
    }
  }

  /** Flattening keeps the length and turns exactly the newlines into spaces. */
  lemma FlattenedShape(doc: string)
    ensures |Flattened(doc)| == |Strip(doc)|
    ensures forall k :: 0 <= k < |Strip(doc)| ==> Flattened(doc)[k] == if Strip(doc)[k] == '\n' then ' ' else Strip(doc)[k]
    ensures '\n' !in Flattened(doc)
  {
    ReplaceOneChar(Strip(doc), '\n', ' ');
  }

  /** `f"📄 Result {i}: {snippet}"`. */
  function ResultLine(i: nat, doc: string): string {
    "📄 Result " + NatToString(i) + ": " + Snippet(doc)
  }

  /** The labelled snippets, numbered from 1. */
  function ResultLines(docs: seq<string>): (lines: seq<string>)
    ensures |lines| == |docs|
  {
    seq(|docs|, k requires 0 <= k < |docs| => ResultLine(k + 1, docs[k]))
  }

  /**
   * The k-th result (from 0) carries the number k + 1, which reads back from its
   * label, and the snippet of the k-th passage; it takes one line, so the blank
   * lines of the join separate the results.
   */
  lemma ResultLineNumbered(docs: seq<string>, k: nat)
    requires k < |docs|
    ensures var line := ResultLines(docs)[k]; var digits := NatToString(k + 1);
      line == "📄 Result " + digits + ": " + Snippet(docs[k])
      && DigitsValue(digits) == k + 1
      && '\n' !in line
  {
    var digits := NatToString(k + 1);
    DigitsRoundTrip(k + 1);
    SnippetShape(docs[k]);
    assert forall j :: 0 <= j < |digits| ==> IsDigit(digits[j]);
  }

  /** `"\n\n".join(answers)` after the loop that builds the answers. */
  method FormatResults(docs: seq<string>) returns (r: string)
    ensures r == Join("\n\n", ResultLines(docs))
  {
    var answers: seq<string> := [];
    for i := 0 to |docs|
      invariant answers == ResultLines(docs)[..i]
    {
      answers := answers + [ResultLine(i + 1, docs[i])];
    }
    assert answers == ResultLines(docs);
    r := Join("\n\n", answers);
  }

  // ---------------------------------------------------------------- query_pdf

  function FileMissing(name: string): string {
    "❌ PDF file " + name + " not found."
  }

  function TotalFound(name: string, total: string): string {
    "💰 The total price in **" + name + "** is **$" + total + "**."
  }

  const NoTotal := "⚠️" + " No total" + " price was" + " detected" + " in the" + " document."

  /** The answer of the total branch, on what `find_total_price` found. */
  function TotalAnswer(name: string, total: Option<string>): string {
    match total
    case Some(amount) => TotalFound(name, amount)
    case None => NoTotal
  }

  const SearchErrorPrefix := "❌ Error during semantic search: "

  function NothingRelevant(query: string, name: string): string {
    "🤔 I could not find anything relevant to '" + query + "' in " + name + "."
  }

  /** The semantic-search fallback, on what the vector store gave back. */
  function SearchAnswer(name: string, query: string, found: Retrieval): string {
    match found
    case SearchFailed(detail) => SearchErrorPrefix + detail
    case Passages(docs) => if docs != [] then Join("\n\n", ResultLines(docs)) else NothingRelevant(query, name)
  }

  /**
   * The search answers with the numbered snippets when it retrieves passages, with
   * the nothing-relevant message when it retrieves none, and with its error when
   * it raises. Each ensures pins down one branch of the source's reply and
   * follows from the definition alone, so the body is empty.
   */
  lemma SearchOutcomes(name: string, query: string, found: Retrieval)
    ensures found.SearchFailed? ==> SearchAnswer(name, query, found) == SearchErrorPrefix + found.detail
    ensures found == Passages([]) ==> SearchAnswer(name, query, found) == NothingRelevant(query, name)
    ensures found.Passages? && found.docs != [] ==>
      SearchAnswer(name, query, found) == Join("\n\n", ResultLines(found.docs))
  {
  }

  /** `query_pdf`: a missing file; a question about a total; an indicator code; otherwise the semantic search. */
  function PdfAnswer(pdfs: map<string, Pdf>, name: string, query: string): string {
    if name !in pdfs then FileMissing(name)
    else if HasTotalKeyword(query) then TotalAnswer(name, FirstTotal(pdfs[name].text))
    else if IsCode(Strip(query)) then LookupIndicator(pdfs, name, Strip(query))
    else SearchAnswer(name, query, pdfs[name].search(query))
  }

  /**
   * The total branch reports an amount that the document holds when one of the
   * patterns matches, and the no-total message exactly when none does.
   */
  lemma TotalAnswerQuotesDocument(name: string, text: string)
    ensures FirstTotal(text).None? <==> TotalAnswer(name, FirstTotal(text)) == NoTotal
    ensures FirstTotal(text).Some? ==>
      (exists total :: IsAmountText(total) && Contains(text, total) && TotalAnswer(name, FirstTotal(text)) == TotalFound(name, total))
  {
    var found := FirstTotal(text);
    TotalFoundIsNotNoTotal(name, found);
    if found.Some? {
      FirstTotalIsFirstMatch(text);
    }
  }

  /** Only a missing amount gives the no-total message. */
  lemma TotalFoundIsNotNoTotal(name: string, found: Option<string>)
    ensures found.None? <==> TotalAnswer(name, found) == NoTotal
  {
    if found.Some? {
      var head := "💰 The total price in **";
      assert TotalFound(name, found.value) == head + (name + "** is **$" + found.value + "**.");
      assert TotalFound(name, found.value)[0] == head[0];
      assert NoTotal[0] == '⚠';
    }
  }

  /** A question that names a total as a whole word is answered from the total patterns and from nothing else. */
  lemma TotalQuestionAnswersTotal(pdfs: map<string, Pdf>, name: string, query: string)
    requires name in pdfs && HasTotalKeyword(query)
    ensures PdfAnswer(pdfs, name, query) == TotalAnswer(name, FirstTotal(pdfs[name].text))
  {
  }

  /**
   * A question that is an indicator code goes to the indicator lookup, with one
   * exception: the code TOTAL, which is the total keyword itself.
   */
  lemma CodeQuestionLooksUp(pdfs: map<string, Pdf>, name: string, query: string)
    requires name in pdfs && IsCode(query)
    ensures query != "TOTAL" ==> PdfAnswer(pdfs, name, query) == LookupIndicator(pdfs, name, query)
    ensures query == "TOTAL" ==> PdfAnswer(pdfs, name, query) == TotalAnswer(name, FirstTotal(pdfs[name].text))
  {
    CodeNamesTotalOnlyIfTOTAL(query);
    assert IsCodeChar(query[0]) && IsCodeChar(query[|query| - 1]);
    StripTrimmed(query);
  }

  /** `query_pdf` as the source runs it, calling the loops of `find_total_price` and of the snippet formatting. */
  method QueryPdf(pdfs: map<string, Pdf>, name: string, query: string) returns (r: string)
    ensures r == PdfAnswer(pdfs, name, query)
  {
    if name !in pdfs {
      return FileMissing(name);
    }
    var text := pdfs[name].text;
    if HasTotalKeyword(query) {
      var total := FindTotalPrice(text);
      if total.Some? {
        return TotalFound(name, total.value);
      }
      return NoTotal;
    }
    var code := Strip(query);
    if IsCode(code) {
      return LookupIndicator(pdfs, name, code);
    }
    var found := pdfs[name].search(query);
    match found
    case SearchFailed(detail) =>
      r := SearchErrorPrefix + detail;
    case Passages(docs) =>
      if docs != [] {
        r := FormatResults(docs);
      } else {
        r := NothingRelevant(query, name);
      }
  }
}
