/**
 * The question router of custom_tasks.py: canned answers first, then the
 * documents for an indicator code, then the tables for a question about
 * patients, then the documents again, then a fixed fallback. Each stage keeps
 * the first reply, in the order of the file list, that passes its filter; a
 * source that raises is passed over.
 */
module Router {
  import opened Wrappers
  import opened Text
  import opened Table
  import opened Totals
  import opened CsvQuery
  import opened PdfQuery

  // ---------------------------------------------------------------- intent predicates

  /** `CSV_KEYWORDS`. */
  const CsvKeywords: seq<string> := [
    "patient", "patientid", "diagnosed", "diagnosis", "treatment", "facility", "clinic",
    "region", "cost", "price", "amount", "bill", "visit", "who was treated", "what is the name of patient with"
  ]

  /** `any(k in ql for k in ks)`. */
  function AnyKeyword(ql: string, ks: seq<string>): (r: bool)
    ensures r <==> exists k :: 0 <= k < |ks| && Contains(ql, ks[k])
  {
    if ks == [] then false
    else
      assert forall k :: 1 <= k < |ks| ==> ks[k] == ks[1..][k - 1];
      Contains(ql, ks[0]) || AnyKeyword(ql, ks[1..])
  }

  /** `_looks_structured`: the lower-cased question contains one of the keywords. */
  predicate LooksStructured(q: string) {
    AnyKeyword(Lower(q), CsvKeywords)
  }

  /** The keywords without the two that contain "patient". */
  const DistinctKeywords: seq<string> := [
    "patient", "diagnosed", "diagnosis", "treatment", "facility", "clinic",
    "region", "cost", "price", "amount", "bill", "visit", "who was treated"
  ]

  /** "patientid" and "what is the name of patient with" add nothing: each contains "patient". */
  lemma TwoKeywordsRedundant(q: string)
    ensures LooksStructured(q) <==> AnyKeyword(Lower(q), DistinctKeywords)
  {
    var ql := Lower(q);
    if LooksStructured(q) {
      var k :| 0 <= k < |CsvKeywords| && Contains(ql, CsvKeywords[k]);
      KeywordHasDistinct(ql, k);
    }
    if AnyKeyword(ql, DistinctKeywords) {
      var d :| 0 <= d < |DistinctKeywords| && Contains(ql, DistinctKeywords[d]);
      DistinctIsKeyword(ql, d);
    }
  }

  /** Each distinct keyword is one of the keywords. */
  lemma DistinctIsKeyword(ql: string, d: nat)
    requires d < |DistinctKeywords| && Contains(ql, DistinctKeywords[d])
    ensures exists k :: 0 <= k < |CsvKeywords| && Contains(ql, CsvKeywords[k])
  {
    var k := if d == 0 then 0 else d + 1;
    assert CsvKeywords[k] == DistinctKeywords[d];
  }

  /** Whatever keyword a lower-cased question contains, it contains one of the distinct keywords. */
  lemma KeywordHasDistinct(ql: string, k: nat)
    requires k < |CsvKeywords| && Contains(ql, CsvKeywords[k])
    ensures exists d :: 0 <= d < |DistinctKeywords| && Contains(ql, DistinctKeywords[d])
  {
    if k == 1 || k == 14 {
      PatientKeywordsHoldPatient(ql, k);
      assert DistinctKeywords[0] == "patient";
    } else {
      var d := if k == 0 then 0 else k - 1;
      assert DistinctKeywords[d] == CsvKeywords[k];
    }
  }

  /** A question that contains "patientid" or "what is the name of patient with" contains "patient". */
  lemma PatientKeywordsHoldPatient(ql: string, k: nat)
    requires (k == 1 || k == 14) && Contains(ql, CsvKeywords[k])
    ensures Contains(ql, "patient")
  {
    assert OccursAt(CsvKeywords[1], "patient", 0);
    assert OccursAt(CsvKeywords[14], "patient", 20);
    ContainsTransitive(ql, CsvKeywords[k], "patient");
  }

  /** `_looks_like_indicator`: the stripped question matches `^[A-Z0-9_]{4,}$`. */
  predicate LooksLikeIndicator(q: string) {
    var s := Strip(q);
    |s| >= 4 && Span(s, 0, IsCodeChar) == |s|
  }

  /** An indicator-like question is an indicator code of at least four characters. */
  lemma IndicatorIsLongCode(q: string)
    ensures LooksLikeIndicator(q) <==> IsCode(Strip(q)) && |Strip(q)| >= 4
  {
    var s := Strip(q);
    SpanStops(s, 0, IsCodeChar);
  }

  // ---------------------------------------------------------------- canned answers

  const BloodPressureAnswer := "Normal blood pressure is around 120 over 80."
  const ViralLoadAnswer := "Viral load monitoring helps track HIV treatment success."
  const DataReportAnswer := "Fetching your facility's data report..."

  /** The built-in answers, tried in this order on the lower-cased question. */
  function Canned(ql: string): Option<string> {
    if Contains(ql, "blood pressure") then Some(BloodPressureAnswer)
    else if Contains(ql, "viral load") then Some(ViralLoadAnswer)
    else if Contains(ql, "data report") then Some(DataReportAnswer)
    else None
  }

  /** A lower-cased indicator code has no space, so no canned phrase occurs in it. */
  lemma IndicatorNeverCanned(q: string)
    requires LooksLikeIndicator(q)
    ensures Canned(Lower(Strip(q))) == None
  {
    var s := Strip(q);
    IndicatorIsLongCode(q);
    forall phrase: string, k: nat | k < |phrase| && phrase[k] == ' '
      ensures !Contains(Lower(s), phrase)
    {
      if Contains(Lower(s), phrase) {
        var i :| 0 <= i <= |s| - |phrase| && OccursAt(Lower(s), phrase, i);
        OccurrenceChar(Lower(s), phrase, i, i + k);
        assert false;
      }
    }
    assert "blood pressure"[5] == ' ' && "viral load"[5] == ' ' && "data report"[4] == ' ';
  }

  const Fallback := "🤔 I'm not sure how to help with that. Try asking about a patient, a diagnosis, a facility, a region, or an indicator like ANC1_HTS."

  // ---------------------------------------------------------------- stages

  /** The three passes over the sources, each with its own filter on replies. */
  datatype Stage = IndicatorStage | StructuredStage | DocumentStage

  /** The filter a stage applies to a reply before returning it. */
  predicate Accepts(stage: Stage, resp: string) {
    match stage
    case IndicatorStage => resp != [] && !Contains(resp, "No definition") && !Contains(resp, "not found")
    case StructuredStage => !Blank(resp) && !Contains(resp, "No matching data") && !Contains(resp, "❌")
    case DocumentStage => !Blank(resp) && !Contains(resp, "I could not find")
  }

  /** The reply is an answer, not an exception, and the stage accepts it. */
  predicate Passes(stage: Stage, reply: Reply) {
    reply.Answer? && Accepts(stage, reply.text)
  }

  /** What each source of the list replies to the question, in list order. */
  function Replies(names: seq<string>, matcher: (string, string) -> Reply, q: string): (rs: seq<Reply>)
    ensures |rs| == |names|
  {
    seq(|names|, i requires 0 <= i < |names| => matcher(names[i], q))
  }

  /** The first reply that passes the stage, if any. */
  function FirstAccepted(stage: Stage, replies: seq<Reply>): (r: Option<string>)
    ensures r.Some? ==> Accepts(stage, r.value)
  {
    if replies == [] then None
    else if Passes(stage, replies[0]) then Some(replies[0].text)
    else FirstAccepted(stage, replies[1..])
  }

  /** The stage gives nothing iff no reply passes, and otherwise the first reply that passes. */
  lemma {:induction false} FirstAcceptedIsFirst(stage: Stage, replies: seq<Reply>)
    ensures FirstAccepted(stage, replies).None? <==> forall i :: 0 <= i < |replies| ==> !Passes(stage, replies[i])
    ensures forall i :: 0 <= i < |replies| && Passes(stage, replies[i]) && (forall j :: 0 <= j < i ==> !Passes(stage, replies[j])) ==>
      FirstAccepted(stage, replies) == Some(replies[i].text)
  {
    if replies != [] && !Passes(stage, replies[0]) {
      FirstAcceptedIsFirst(stage, replies[1..]);
      assert forall i :: 1 <= i < |replies| ==> replies[i] == replies[1..][i - 1];
    }
  }

  /** A source that raises is passed over as if it were not in the list. */
  lemma {:induction false} RaisedIsSkipped(stage: Stage, before: seq<Reply>, after: seq<Reply>)
    ensures FirstAccepted(stage, before + [Raised] + after) == FirstAccepted(stage, before + after)
  {
    if before == [] {
      assert before + [Raised] + after == [Raised] + after;
      assert ([Raised] + after)[1..] == after;
      assert before + after == after;
    } else {
      assert (before + [Raised] + after)[0] == before[0] && (before + after)[0] == before[0];
      assert (before + [Raised] + after)[1..] == before[1..] + [Raised] + after;
      assert (before + after)[1..] == before[1..] + after;
      RaisedIsSkipped(stage, before[1..], after);
    }
  }

  /** The no-total message of the total branch passes the document stage. */
  lemma DocumentStageAcceptsNoTotal()
    ensures Accepts(DocumentStage, NoTotal)
  {
    assert !IsSpace(NoTotal[0]);
    if Contains(NoTotal, "I could not find") {
      var i :| 0 <= i <= |NoTotal| - 16 && OccursAt(NoTotal, "I could not find", i);
      OccurrenceChar(NoTotal, "I could not find", i, i);
      assert false;
    }
  }

  /**
   * A missing document's message passes the document stage exactly when the
   * file name itself does not hold the phrase that stage rejects.
   */
  lemma DocumentStageAcceptsFileMissing(name: string)
    ensures Accepts(DocumentStage, FileMissing(name)) <==> !Contains(name, "I could not find")
  {
    var r := FileMissing(name);
    var phrase := "I could not find";
    assert r == "❌ PDF file " + name + " not found.";
    assert !IsSpace(r[0]);
    if Contains(name, phrase) {
      var i :| 0 <= i <= |name| - |phrase| && OccursAt(name, phrase, i);
      assert r[11..11 + |name|] == name;
      OccursInSlice(r, 11, 11 + |name|, phrase, i);
    } else {
      FileMissingLacksPhrase(name);
    }
  }

  /** Where the phrase could start in a missing document's message: only inside the name. */
  lemma FileMissingLacksPhrase(name: string)
    requires !Contains(name, "I could not find")
    ensures !Contains(FileMissing(name), "I could not find")
  {
    var r := FileMissing(name);
    var phrase := "I could not find";
    var m := 11 + |name|;
    var tail := " not found.";
    assert r == "❌ PDF file " + name + tail;
    if Contains(r, phrase) {
      var i :| 0 <= i <= |r| - |phrase| && OccursAt(r, phrase, i);
      OccurrenceChar(r, phrase, i, i);
      if i < 11 {
        assert false;
      } else if i + |phrase| <= m {
        forall k | 0 <= k < |phrase| ensures name[i - 11 + k] == phrase[k] {
          OccurrenceChar(r, phrase, i, i + k);
        }
        assert name[i - 11..i - 11 + |phrase|] == phrase;
        assert OccursAt(name, phrase, i - 11);
        assert false;
      } else if i < m {
        OccurrenceChar(r, phrase, i, m);
        OccurrenceChar(r, phrase, i, m + 1);
        OccurrenceChar(r, phrase, i, m + 6);
        assert false;
      } else {
        assert false;
      }
    }
  }

  /**
   * A question that is neither an indicator code nor structured, and has no
   * canned answer, reaches the document stage; when the first listed
   * document is missing, its not-found message is the answer.
   */
  lemma MissingFirstPdfAnswers(pdfs: map<string, Pdf>, pdfNames: seq<string>, csvs: map<string, CsvFile>,
                               csvNames: seq<string>, input: string)
    requires var q := Strip(input); Canned(Lower(q)) == None && !LooksLikeIndicator(q) && !LooksStructured(q)
    requires pdfNames != [] && pdfNames[0] !in pdfs && !Contains(pdfNames[0], "I could not find")
    ensures HandleTask(pdfs, pdfNames, csvs, csvNames, input) == FileMissing(pdfNames[0])
  {
    var q := Strip(input);
    var pdfMatcher := (n, q) => Answer(PdfAnswer(pdfs, n, q));
    var replies := Replies(pdfNames, pdfMatcher, q);
    assert replies[0] == Answer(FileMissing(pdfNames[0]));
    DocumentStageAcceptsFileMissing(pdfNames[0]);
    assert FirstAccepted(DocumentStage, replies) == Some(FileMissing(pdfNames[0]));
  }

  /** The table matcher's "nothing found" sentinel never passes the structured stage. */
  lemma StructuredStageRejectsSentinel()
    ensures !Accepts(StructuredStage, NoMatchingData)
  {
    assert OccursAt(NoMatchingData, "No matching data", 0);
  }

  /** A table file that is missing or unreadable never answers in the structured stage. */
  lemma CsvLoadErrorRejected(files: map<string, CsvFile>, name: string, q: string)
    requires name !in files || files[name].Unreadable?
    ensures !Accepts(StructuredStage, CsvAnswer(files, name, q))
  {
    LoadFailureReported(files, name, q);
    var r := CsvAnswer(files, name, q);
    assert r[..1] == LoadErrorPrefix[..1];
    assert OccursAt(r, "❌", 0);
  }

  // ---------------------------------------------------------------- routing

  /** `handle_task` with the file lists and the per-file matchers as parameters. */
  function RouteSpec(pdfNames: seq<string>, csvNames: seq<string>,
                     pdfMatcher: (string, string) -> Reply, csvMatcher: (string, string) -> Reply,
                     input: string): string
  {
    var q := Strip(input);
    match Canned(Lower(q))
    case Some(answer) => answer
    case None => Staged(pdfNames, csvNames, pdfMatcher, csvMatcher, q)
  }

  /** The three stages and the fallback, for a question with no canned answer. */
  function Staged(pdfNames: seq<string>, csvNames: seq<string>,
                  pdfMatcher: (string, string) -> Reply, csvMatcher: (string, string) -> Reply,
                  q: string): string
  {
    var indicator := if LooksLikeIndicator(q) then FirstAccepted(IndicatorStage, Replies(pdfNames, pdfMatcher, q)) else None;
    var structured := if LooksStructured(q) then FirstAccepted(StructuredStage, Replies(csvNames, csvMatcher, q)) else None;
    var document := FirstAccepted(DocumentStage, Replies(pdfNames, pdfMatcher, q));
    if indicator.Some? then indicator.value
    else if structured.Some? then structured.value
    else if document.Some? then document.value
    else Fallback
  }

  /**
   * The canned answers come first, in their order, whatever the sources are.
   * This pins down the three `if … in ql: return` checks before any stage and
   * follows from the definition alone.
   */
  lemma CannedAnswersFirst(pdfNames: seq<string>, csvNames: seq<string>,
                           pdfMatcher: (string, string) -> Reply, csvMatcher: (string, string) -> Reply,
                           input: string)
    ensures var ql := Lower(Strip(input)); var r := RouteSpec(pdfNames, csvNames, pdfMatcher, csvMatcher, input);
      (Contains(ql, "blood pressure") ==> r == BloodPressureAnswer)
      && (!Contains(ql, "blood pressure") && Contains(ql, "viral load") ==> r == ViralLoadAnswer)
      && (!Contains(ql, "blood pressure") && !Contains(ql, "viral load") && Contains(ql, "data report") ==> r == DataReportAnswer)
  {
  }

  /**
   * Without any file, every question that is not canned gets the fallback: the
   * three loops are empty and only the final return is left. This follows from
   * the definition alone.
   */
  lemma NoSourcesFallback(pdfMatcher: (string, string) -> Reply, csvMatcher: (string, string) -> Reply, input: string)
    requires Canned(Lower(Strip(input))) == None
    ensures RouteSpec([], [], pdfMatcher, csvMatcher, input) == Fallback
  {
  }

  /**
   * What the router returns is a canned answer, the fallback, or a reply of
   * some source that the stage it came from accepts.
   */
  lemma RouteAnswersFromSources(pdfNames: seq<string>, csvNames: seq<string>,
                                pdfMatcher: (string, string) -> Reply, csvMatcher: (string, string) -> Reply,
                                input: string)
    requires Canned(Lower(Strip(input))) == None
    ensures var q := Strip(input); var r := RouteSpec(pdfNames, csvNames, pdfMatcher, csvMatcher, input);
      r == Fallback
      || (LooksLikeIndicator(q) && exists i :: 0 <= i < |pdfNames| && pdfMatcher(pdfNames[i], q) == Answer(r) && Accepts(IndicatorStage, r))
      || (LooksStructured(q) && exists i :: 0 <= i < |csvNames| && csvMatcher(csvNames[i], q) == Answer(r) && Accepts(StructuredStage, r))
      || (exists i :: 0 <= i < |pdfNames| && pdfMatcher(pdfNames[i], q) == Answer(r) && Accepts(DocumentStage, r))
  {
    StagedFromSources(pdfNames, csvNames, pdfMatcher, csvMatcher, Strip(input));
  }

  /** The stages give the fallback or a reply of some source that the stage accepts. */
  lemma StagedFromSources(pdfNames: seq<string>, csvNames: seq<string>,
                          pdfMatcher: (string, string) -> Reply, csvMatcher: (string, string) -> Reply,
                          q: string)
    ensures var r := Staged(pdfNames, csvNames, pdfMatcher, csvMatcher, q);
      r == Fallback
      || (LooksLikeIndicator(q) && exists i :: 0 <= i < |pdfNames| && pdfMatcher(pdfNames[i], q) == Answer(r) && Accepts(IndicatorStage, r))
      || (LooksStructured(q) && exists i :: 0 <= i < |csvNames| && csvMatcher(csvNames[i], q) == Answer(r) && Accepts(StructuredStage, r))
      || (exists i :: 0 <= i < |pdfNames| && pdfMatcher(pdfNames[i], q) == Answer(r) && Accepts(DocumentStage, r))
  {
    var pdfReplies := Replies(pdfNames, pdfMatcher, q);
    var csvReplies := Replies(csvNames, csvMatcher, q);
    if LooksLikeIndicator(q) && FirstAccepted(IndicatorStage, pdfReplies).Some? {
      var i := FirstPassing(IndicatorStage, pdfReplies);
      assert pdfReplies[i] == pdfMatcher(pdfNames[i], q);
    } else if LooksStructured(q) && FirstAccepted(StructuredStage, csvReplies).Some? {
      var i := FirstPassing(StructuredStage, csvReplies);
      assert csvReplies[i] == csvMatcher(csvNames[i], q);
    } else if FirstAccepted(DocumentStage, pdfReplies).Some? {
      var i := FirstPassing(DocumentStage, pdfReplies);
      assert pdfReplies[i] == pdfMatcher(pdfNames[i], q);
    }
  }

  /** Where the accepted reply comes from. */
  lemma {:induction false} FirstPassing(stage: Stage, replies: seq<Reply>) returns (i: nat)
    requires FirstAccepted(stage, replies).Some?
    ensures i < |replies| && replies[i] == Answer(FirstAccepted(stage, replies).value)
  {
    if Passes(stage, replies[0]) {
      i := 0;
    } else {
      assert FirstAccepted(stage, replies) == FirstAccepted(stage, replies[1..]);
      var j := FirstPassing(stage, replies[1..]);
      assert replies[1..][j] == replies[j + 1];
      i := j + 1;
    }
  }

  /** `handle_task` as the source runs it: three loops with early returns, exceptions passed over. */
  method Route(pdfNames: seq<string>, csvNames: seq<string>,
               pdfMatcher: (string, string) -> Reply, csvMatcher: (string, string) -> Reply,
               input: string) returns (r: string)
    ensures r == RouteSpec(pdfNames, csvNames, pdfMatcher, csvMatcher, input)
  {
    var q := Strip(input);
    var ql := Lower(q);
    if Contains(ql, "blood pressure") {
      return BloodPressureAnswer;
    }
    if Contains(ql, "viral load") {
      return ViralLoadAnswer;
    }
    if Contains(ql, "data report") {
      return DataReportAnswer;
    }
    r := RouteStages(pdfNames, csvNames, pdfMatcher, csvMatcher, q);
  }

  /** The three loops of `handle_task` after the canned answers. */
  method RouteStages(pdfNames: seq<string>, csvNames: seq<string>,
                     pdfMatcher: (string, string) -> Reply, csvMatcher: (string, string) -> Reply,
                     q: string) returns (r: string)
    ensures r == Staged(pdfNames, csvNames, pdfMatcher, csvMatcher, q)
  {
    ghost var pdfReplies := Replies(pdfNames, pdfMatcher, q);
    ghost var csvReplies := Replies(csvNames, csvMatcher, q);

    if LooksLikeIndicator(q) {
      for i := 0 to |pdfNames|
        invariant forall j :: 0 <= j < i ==> !Passes(IndicatorStage, pdfReplies[j])
      {
        var resp := pdfMatcher(pdfNames[i], q);
        if resp.Answer? && Accepts(IndicatorStage, resp.text) {
          assert Passes(IndicatorStage, pdfReplies[i]);
          FirstAcceptedIsFirst(IndicatorStage, pdfReplies);
          return resp.text;
        }
      }
      FirstAcceptedIsFirst(IndicatorStage, pdfReplies);
    }

    if LooksStructured(q) {
      var csvAnyMatch := false;
      for i := 0 to |csvNames|
        invariant forall j :: 0 <= j < i ==> !Passes(StructuredStage, csvReplies[j])
      {
        var resp := csvMatcher(csvNames[i], q);
        match resp
        case Raised =>
          csvAnyMatch := csvAnyMatch || false;
        case Answer(text) =>
          if Accepts(StructuredStage, text) {
            assert Passes(StructuredStage, csvReplies[i]);
            FirstAcceptedIsFirst(StructuredStage, csvReplies);
            return text;
          }
          if !Contains(text, "No matching data") {
            csvAnyMatch := true;
          }
      }
      FirstAcceptedIsFirst(StructuredStage, csvReplies);
    }

    for i := 0 to |pdfNames|
      invariant forall j :: 0 <= j < i ==> !Passes(DocumentStage, pdfReplies[j])
    {
      var resp := pdfMatcher(pdfNames[i], q);
      if resp.Answer? && Accepts(DocumentStage, resp.text) {
        assert Passes(DocumentStage, pdfReplies[i]);
        FirstAcceptedIsFirst(DocumentStage, pdfReplies);
        return resp.text;
      }
    }
    FirstAcceptedIsFirst(DocumentStage, pdfReplies);
    return Fallback;
  }

  // ---------------------------------------------------------------- the router over the concrete matchers

  /**
   * `handle_task` over the documents and tables of the two folders, listed in the given order.
   * Every reply is a canned answer, the fallback, or what some listed file answers to the
   * stripped question.
   */
  function HandleTask(pdfs: map<string, Pdf>, pdfNames: seq<string>, csvs: map<string, CsvFile>, csvNames: seq<string>,
                      input: string): (r: string)
    ensures r == BloodPressureAnswer || r == ViralLoadAnswer || r == DataReportAnswer || r == Fallback
      || (exists i :: 0 <= i < |pdfNames| && r == PdfAnswer(pdfs, pdfNames[i], Strip(input)))
      || (exists i :: 0 <= i < |csvNames| && r == CsvAnswer(csvs, csvNames[i], Strip(input)))
  {
    var pdfMatcher := (n, q) => Answer(PdfAnswer(pdfs, n, q));
    var csvMatcher := (n, q) => Answer(CsvAnswer(csvs, n, q));
    if Canned(Lower(Strip(input))).None? then
      RouteAnswersFromSources(pdfNames, csvNames, pdfMatcher, csvMatcher, input);
      RouteSpec(pdfNames, csvNames, pdfMatcher, csvMatcher, input)
    else RouteSpec(pdfNames, csvNames, pdfMatcher, csvMatcher, input)
  }

  /**
   * In the indicator stage a document whose text lacks the code is passed over:
   * the lookup's answer says "No definition".
   */
  lemma AbsentCodeSkipped(pdfs: map<string, Pdf>, name: string, q: string)
    requires LooksLikeIndicator(q) && Strip(q) != "TOTAL"
    requires name in pdfs && pdfs[name].text != [] && !Contains(pdfs[name].text, Strip(q))
    ensures !Accepts(IndicatorStage, PdfAnswer(pdfs, name, Strip(q)))
  {
    var code := Strip(q);
    IndicatorIsLongCode(q);
    CodeQuestionLooksUp(pdfs, name, code);
    LookupFindsCodeIffPresent(pdfs, name, code);
    NoDefinitionRejected(code, name);
  }

  /** The lookup's no-definition message never passes the indicator stage. */
  lemma NoDefinitionRejected(code: string, name: string)
    ensures !Accepts(IndicatorStage, NoDefinition(code, name))
  {
    assert OccursAt(NoDefinition(code, name), "No definition", 0);
  }

  /** In the indicator stage a missing document is passed over: the lookup says "not found". */
  lemma MissingPdfSkipped(pdfs: map<string, Pdf>, name: string, q: string)
    requires name !in pdfs
    ensures !Accepts(IndicatorStage, PdfAnswer(pdfs, name, q))
  {
    var r := FileMissing(name);
    var tail := " not found.";
    assert r == "❌ PDF file " + name + tail;
    assert r[|r| - |tail|..] == tail;
    assert OccursAt(r, "not found", |r| - |tail| + 1);
  }
}
