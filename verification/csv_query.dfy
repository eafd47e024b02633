/**
 * `query_csv` (csv_utils.py): five question shapes tried in a fixed order on
 * the trimmed, lower-cased query, then a broad keyword filter over the key
 * columns, answered from the loaded table.
 */
module CsvQuery {
  import opened Wrappers
  import opened Text
  import opened Numerals
  import opened Table
  import opened Captures

  // ---------------------------------------------------------------- looking a patient up

  /** The row's patient id, upper-cased, is pid. */
  predicate HasId(row: Row, pid: string) {
    Upper(Cell(row, PatientID)) == pid
  }

  /** Row i is the first row with patient id pid. */
  predicate FirstWithId(rows: seq<Row>, pid: string, i: nat) {
    i < |rows| && HasId(rows[i], pid) && forall j :: 0 <= j < i ==> !HasId(rows[j], pid)
  }

  /** The index of the first row from lo on with patient id pid. */
  function FindId(rows: seq<Row>, pid: string, lo: nat): (r: Option<nat>)
    requires lo <= |rows|
    ensures r.Some? ==> lo <= r.value < |rows| && HasId(rows[r.value], pid)
    ensures r.Some? ==> forall j :: lo <= j < r.value ==> !HasId(rows[j], pid)
    ensures r.None? <==> forall j :: lo <= j < |rows| ==> !HasId(rows[j], pid)
    decreases |rows| - lo
  {
    if lo == |rows| then None
    else if HasId(rows[lo], pid) then Some(lo)
    else FindId(rows, pid, lo + 1)
  }

  /** The search finds exactly the first row with the id. */
  lemma FindIdFindsFirst(rows: seq<Row>, pid: string, i: nat)
    requires FirstWithId(rows, pid, i)
    ensures FindId(rows, pid, 0) == Some(i)
  {
  }

  function NoMatchingPatient(pid: string): string {
    "No matching patient " + pid + " in CSV."
  }

  // ---------------------------------------------------------------- the five patterns

  /**
   * Pattern 1: the treatment of the first row with the asked-for patient id, or
   * the no-matching-patient message. None when the question has another shape
   * or a column it needs is missing.
   */
  function TreatmentAnswer(t: Table, ql: string): (r: Option<string>)
    ensures r.Some? <==> TreatmentPatient(ql).Some? && PatientID in t.columns && Treatment in t.columns
  {
    var id :- TreatmentPatient(ql);
    if PatientID in t.columns && Treatment in t.columns then
      var pid := Upper(id);
      match FindId(t.rows, pid, 0)
      case Some(i) => Some(Cell(t.rows[i], Treatment))
      case None => Some(NoMatchingPatient(pid))
    else None
  }

  /** Pattern 1 answers with the treatment of the first row that has the asked-for id. */
  lemma TreatmentOfFirstPatient(t: Table, ql: string, i: nat)
    requires TreatmentAnswer(t, ql).Some?
    requires FirstWithId(t.rows, Upper(TreatmentPatient(ql).value), i)
    ensures TreatmentAnswer(t, ql).value == Cell(t.rows[i], Treatment)
  {
    FindIdFindsFirst(t.rows, Upper(TreatmentPatient(ql).value), i);
  }

  /** Pattern 1 still answers when no row has the id: with the no-matching-patient message. */
  lemma TreatmentOfMissingPatient(t: Table, ql: string)
    requires TreatmentAnswer(t, ql).Some?
    requires forall row :: row in t.rows ==> !HasId(row, Upper(TreatmentPatient(ql).value))
    ensures TreatmentAnswer(t, ql).value == NoMatchingPatient(Upper(TreatmentPatient(ql).value))
  {
    var pid := Upper(TreatmentPatient(ql).value);
    assert forall j :: 0 <= j < |t.rows| ==> !HasId(t.rows[j], pid) by {
      forall j | 0 <= j < |t.rows| ensures !HasId(t.rows[j], pid) {
        assert t.rows[j] in t.rows;
      }
    }
  }

  /** The rows whose facility contains f and whose diagnosis contains d, ignoring case. */
  function TreatedAtRows(rows: seq<Row>, f: string, d: string): (res: seq<Row>)
    ensures forall r :: r in res <==> r in rows && CellContains(r, Facility, f) && CellContains(r, Diagnosis, d)
  {
    RowsContaining(RowsContaining(rows, Facility, f), Diagnosis, d)
  }

  /** The pattern-2 filter keeps table order. */
  lemma TreatedAtRowsAppend(a: seq<Row>, b: seq<Row>, f: string, d: string)
    ensures TreatedAtRows(a + b, f, d) == TreatedAtRows(a, f, d) + TreatedAtRows(b, f, d)
  {
    RowsContainingAppend(a, b, Facility, f);
    RowsContainingAppend(RowsContaining(a, Facility, f), RowsContaining(b, Facility, f), Diagnosis, d);
  }

  /** A blank facility phrase, which strips to "", filters on the diagnosis alone. */
  lemma BlankFacilityFiltersOnDiagnosis(rows: seq<Row>, d: string)
    ensures TreatedAtRows(rows, "", d) == RowsContaining(rows, Diagnosis, d)
  {
    EmptyTextKeepsEveryRow(rows, Facility);
  }

  /**
   * Pattern 2: the names of the patients treated at the facility for the
   * diagnosis, or a message naming both when there is none.
   */
  function TreatedAtAnswer(t: Table, ql: string): (r: Option<string>)
    ensures r.Some? <==> FacilityAndDiagnosis(ql).Some? && Facility in t.columns && Diagnosis in t.columns && Name in t.columns
    ensures r.Some? ==>
      var f := Strip(FacilityAndDiagnosis(ql).value.0);
      var d := Strip(FacilityAndDiagnosis(ql).value.1);
      var kept := TreatedAtRows(t.rows, f, d);
      ((forall row :: row in t.rows ==> !(CellContains(row, Facility, f) && CellContains(row, Diagnosis, d))) ==>
        r.value == "No patients treated at '" + f + "' for '" + d + "'.") &&
      ((exists row :: row in t.rows && CellContains(row, Facility, f) && CellContains(row, Diagnosis, d)) ==>
        r.value == CleanAnswer(Values(kept, Name)))
  {
    var fd :- FacilityAndDiagnosis(ql);
    if Facility in t.columns && Diagnosis in t.columns && Name in t.columns then
      var f := Strip(fd.0);
      var d := Strip(fd.1);
      var kept := TreatedAtRows(t.rows, f, d);
      if kept == [] then Some("No patients treated at '" + f + "' for '" + d + "'.")
      else
        assert kept[0] in kept;
        Some(CleanAnswer(Values(kept, Name)))
    else None
  }

  function RegionTotalMessage(region: string, total: int): string {
    "Total cost in " + Capitalize(region) + " region: " + FormatCents(total)
  }

  /**
   * Pattern 3: always answers, with the summed cost of the rows whose region
   * contains the asked-for region, ignoring case.
   */
  function RegionTotalAnswer(t: Table, ql: string): (r: Option<string>)
    ensures r.Some? <==> CostRegion(ql).Some? && Region in t.columns && Cost in t.columns
    ensures r.Some? ==>
      var region := Strip(CostRegion(ql).value);
      r.value == RegionTotalMessage(region, TotalCost(RowsContaining(t.rows, Region, region)))
  {
    var name :- CostRegion(ql);
    if Region in t.columns && Cost in t.columns then
      var region := Strip(name);
      Some(RegionTotalMessage(region, TotalCost(RowsContaining(t.rows, Region, region))))
    else None
  }

  /** The rows no row of which matches contribute nothing: the total over none is 0. */
  lemma {:induction false} TotalOverNoRows(rows: seq<Row>, region: string)
    requires forall row :: row in rows ==> !CellContains(row, Region, region)
    ensures TotalCost(RowsContaining(rows, Region, region)) == 0
  {
    if rows != [] {
      assert rows[0] in rows;
      assert RowsContaining(rows, Region, region) == RowsContaining(rows[1..], Region, region);
      TotalOverNoRows(rows[1..], region);
    }
  }

  /** When no row is in the region the answer still comes, with the amount 0.00. */
  lemma RegionTotalWhenNoRow(rows: seq<Row>, region: string)
    requires forall row :: row in rows ==> !CellContains(row, Region, region)
    ensures RegionTotalMessage(region, TotalCost(RowsContaining(rows, Region, region)))
      == "Total cost in " + Capitalize(region) + " region: 0.00"
  {
    TotalOverNoRows(rows, region);
    assert FormatCents(0) == "0.00";
  }

  /** The amount printed in the region answer reads back as the exact total. */
  lemma RegionTotalReadsBack(region: string, total: int)
    ensures var m := RegionTotalMessage(region, total);
      var prefix := "Total cost in " + Capitalize(region) + " region: ";
      m[..|prefix|] == prefix && ParseCents(m[|prefix|..]) == Some(total)
  {
    var prefix := "Total cost in " + Capitalize(region) + " region: ";
    assert RegionTotalMessage(region, total) == prefix + FormatCents(total);
    assert (prefix + FormatCents(total))[|prefix|..] == FormatCents(total);
    FormatParseRoundTrip(total);
  }

  /** Pattern 4: the names of the patients whose diagnosis contains the phrase, or a message naming it. */
  function DiagnosedAnswer(t: Table, ql: string): (r: Option<string>)
    ensures r.Some? <==> ListedDiagnosis(ql).Some? && Diagnosis in t.columns && PatientID in t.columns && Name in t.columns
    ensures r.Some? ==>
      var dx := Strip(ListedDiagnosis(ql).value);
      ((forall row :: row in t.rows ==> !CellContains(row, Diagnosis, dx)) ==>
        r.value == "No patients diagnosed with '" + dx + "'.") &&
      ((exists row :: row in t.rows && CellContains(row, Diagnosis, dx)) ==>
        r.value == CleanAnswer(Values(RowsContaining(t.rows, Diagnosis, dx), Name)))
  {
    var phrase :- ListedDiagnosis(ql);
    if Diagnosis in t.columns && PatientID in t.columns && Name in t.columns then
      var dx := Strip(phrase);
      var kept := RowsContaining(t.rows, Diagnosis, dx);
      if kept == [] then Some("No patients diagnosed with '" + dx + "'.")
      else
        assert kept[0] in kept;
        Some(CleanAnswer(Values(kept, Name)))
    else None
  }

  /** Pattern 5: the cost of the first row with the asked-for patient id, or the no-matching-patient message. */
  function PatientCostAnswer(t: Table, ql: string): (r: Option<string>)
    ensures r.Some? <==> CostPatient(ql).Some? && PatientID in t.columns && Cost in t.columns
  {
    var id :- CostPatient(ql);
    if PatientID in t.columns && Cost in t.columns then
      var pid := Upper(id);
      match FindId(t.rows, pid, 0)
      case Some(i) => Some(FormatCents(t.rows[i].cost))
      case None => Some(NoMatchingPatient(pid))
    else None
  }

  /** Pattern 5 answers with the cost, to the cent, of the first row that has the asked-for id. */
  lemma CostOfFirstPatient(t: Table, ql: string, i: nat)
    requires PatientCostAnswer(t, ql).Some?
    requires FirstWithId(t.rows, Upper(CostPatient(ql).value), i)
    ensures PatientCostAnswer(t, ql).value == FormatCents(t.rows[i].cost)
  {
    FindIdFindsFirst(t.rows, Upper(CostPatient(ql).value), i);
  }

  /** Pattern 5 still answers when no row has the id: with the no-matching-patient message. */
  lemma CostOfMissingPatient(t: Table, ql: string)
    requires PatientCostAnswer(t, ql).Some?
    requires forall row :: row in t.rows ==> !HasId(row, Upper(CostPatient(ql).value))
    ensures PatientCostAnswer(t, ql).value == NoMatchingPatient(Upper(CostPatient(ql).value))
  {
    var pid := Upper(CostPatient(ql).value);
    assert forall j :: 0 <= j < |t.rows| ==> !HasId(t.rows[j], pid) by {
      forall j | 0 <= j < |t.rows| ensures !HasId(t.rows[j], pid) {
        assert t.rows[j] in t.rows;
      }
    }
  }

  // ---------------------------------------------------------------- the broad fallback

  /** The key columns the broad filter searches, in the order it searches them. */
  const KeyColumns: seq<Column> := [PatientID, Name, Diagnosis, Treatment, Facility, Region]

  /** The columns of cs the table has, in the order of cs. */
  function PresentAmong(cs: seq<Column>, columns: set<Column>): (r: seq<Column>)
    ensures forall c :: c in r <==> c in cs && c in columns
  {
    if cs == [] then [] else (if cs[0] in columns then [cs[0]] else []) + PresentAmong(cs[1..], columns)
  }

  /** The words of the query longer than three characters, splitting at non-word characters. */
  function Tokens(ql: string): (ts: seq<string>)
    ensures forall w :: w in ts ==> |w| > 3 && All(w, IsWordChar) && Contains(ql, w)
  {
    LongWords(WordRuns(ql))
  }

  /**
   * The tokens are exactly the maximal runs of word characters of the query
   * longer than three characters; there are none iff every such run is short.
   */
  lemma TokensAreLongRuns(ql: string)
    ensures forall w :: w in Tokens(ql) <==> |w| > 3 && exists i: nat, j: nat :: MaximalWordRun(ql, i, j) && w == ql[i..j]
    ensures Tokens(ql) == [] <==> forall i: nat, j: nat :: MaximalWordRun(ql, i, j) ==> j - i <= 3
  {
    WordRunsExact(ql);
    if Tokens(ql) != [] {
      var w := Tokens(ql)[0];
      assert w in Tokens(ql);
    }
    forall i: nat, j: nat | MaximalWordRun(ql, i, j) && j - i > 3 ensures ql[i..j] in Tokens(ql) {
    }
  }

  /** Some column among cols of the row contains the token, ignoring case. */
  predicate TokenHits(row: Row, cols: seq<Column>, token: string) {
    exists c :: c in cols && CellContains(row, c, token)
  }

  /** Every token hits some column of the row. */
  predicate Qualifies(row: Row, cols: seq<Column>, tokens: seq<string>) {
    forall t :: t in tokens ==> TokenHits(row, cols, t)
  }

  /** The qualifying rows, in order. */
  function Qualifying(rows: seq<Row>, cols: seq<Column>, tokens: seq<string>): (res: seq<Row>)
    ensures forall r :: r in res <==> r in rows && Qualifies(r, cols, tokens)
  {
    if rows == [] then []
    else if Qualifies(rows[0], cols, tokens) then [rows[0]] + Qualifying(rows[1..], cols, tokens)
    else Qualifying(rows[1..], cols, tokens)
  }

  /** The broad filter keeps table order. */
  lemma {:induction false} QualifyingAppend(a: seq<Row>, b: seq<Row>, cols: seq<Column>, tokens: seq<string>)
    ensures Qualifying(a + b, cols, tokens) == Qualifying(a, cols, tokens) + Qualifying(b, cols, tokens)
  {
    if a == [] {
      assert a + b == b;
    } else {
      assert (a + b)[0] == a[0];
      assert (a + b)[1..] == a[1..] + b;
      QualifyingAppend(a[1..], b, cols, tokens);
    }
  }

  /** The answer for the qualifying rows: their names, else their patient ids, else the sentinel. */
  function Preferred(t: Table, sub: seq<Row>): string {
    if sub == [] then NoMatchingData
    else if Name in t.columns then CleanAnswer(Values(sub, Name))
    else if PatientID in t.columns then CleanAnswer(Values(sub, PatientID))
    else NoMatchingData
  }

  /**
   * What the broad filter answers: the names, else the patient ids, of the rows
   * every long word of the query hits; the sentinel when there is no key
   * column, no long word or no such row.
   */
  function BroadMatch(t: Table, ql: string): string {
    var cols := PresentAmong(KeyColumns, t.columns);
    var tokens := Tokens(ql);
    if cols == [] || tokens == [] then NoMatchingData
    else Preferred(t, Qualifying(t.rows, cols, tokens))
  }

  /** Searching one more column for a token. */
  lemma TokenHitsStep(row: Row, cols: seq<Column>, j: nat, token: string)
    requires j < |cols|
    ensures TokenHits(row, cols[..j + 1], token) <==> TokenHits(row, cols[..j], token) || CellContains(row, cols[j], token)
  {
    assert cols[..j + 1] == cols[..j] + [cols[j]];
  }

  /** Requiring one more token. */
  lemma QualifiesStep(row: Row, cols: seq<Column>, tokens: seq<string>, k: nat)
    requires k < |tokens|
    ensures Qualifies(row, cols, tokens[..k + 1]) <==> Qualifies(row, cols, tokens[..k]) && TokenHits(row, cols, tokens[k])
  {
    assert tokens[..k + 1] == tokens[..k] + [tokens[k]];
  }

  /** The mask of the first token flags the rows that the first token hits. */
  lemma FirstTokenMask(rows: seq<Row>, cols: seq<Column>, tokens: seq<string>, termMask: seq<bool>)
    requires 0 < |tokens| && |termMask| == |rows|
    requires forall i :: 0 <= i < |rows| ==> termMask[i] == TokenHits(rows[i], cols, tokens[0])
    ensures forall i :: 0 <= i < |rows| ==> termMask[i] == Qualifies(rows[i], cols, tokens[..1])
  {
    forall i | 0 <= i < |rows| ensures termMask[i] == Qualifies(rows[i], cols, tokens[..1]) {
      QualifiesStep(rows[i], cols, tokens, 0);
    }
  }

  /** And-ing the mask of the next token into the running mask flags the rows all tokens so far hit. */
  lemma NextTokenMask(rows: seq<Row>, cols: seq<Column>, tokens: seq<string>, k: nat,
                      prev: seq<bool>, termMask: seq<bool>, next: seq<bool>)
    requires k < |tokens| && |prev| == |rows| && |termMask| == |rows| && |next| == |rows|
    requires forall i :: 0 <= i < |rows| ==> prev[i] == Qualifies(rows[i], cols, tokens[..k])
    requires forall i :: 0 <= i < |rows| ==> termMask[i] == TokenHits(rows[i], cols, tokens[k])
    requires forall i :: 0 <= i < |rows| ==> next[i] == (prev[i] && termMask[i])
    ensures forall i :: 0 <= i < |rows| ==> next[i] == Qualifies(rows[i], cols, tokens[..k + 1])
  {
    forall i | 0 <= i < |rows| ensures next[i] == Qualifies(rows[i], cols, tokens[..k + 1]) {
      QualifiesStep(rows[i], cols, tokens, k);
    }
  }

  /** The rows whose flag is set, in order. */
  function Select(rows: seq<Row>, mask: seq<bool>): seq<Row>
    requires |mask| == |rows|
  {
    if rows == [] then [] else (if mask[0] then [rows[0]] else []) + Select(rows[1..], mask[1..])
  }

  /** Selecting by a mask that flags exactly the qualifying rows gives the qualifying rows. */
  lemma {:induction false} SelectQualifying(rows: seq<Row>, mask: seq<bool>, cols: seq<Column>, tokens: seq<string>)
    requires |mask| == |rows|
    requires forall i :: 0 <= i < |rows| ==> mask[i] == Qualifies(rows[i], cols, tokens)
    ensures Select(rows, mask) == Qualifying(rows, cols, tokens)
  {
    if rows != [] {
      SelectQualifying(rows[1..], mask[1..], cols, tokens);
    }
  }

  /** The inner loop of the broad filter: which rows have a key column containing the token. */
  method TermMask(rows: seq<Row>, cols: seq<Column>, token: string) returns (termMask: seq<bool>)
    ensures |termMask| == |rows|
    ensures forall i :: 0 <= i < |rows| ==> termMask[i] == TokenHits(rows[i], cols, token)
  {
    termMask := seq(|rows|, i => false);
    for j := 0 to |cols|
      invariant |termMask| == |rows|
      invariant forall i :: 0 <= i < |rows| ==> termMask[i] == TokenHits(rows[i], cols[..j], token)
    {
      termMask := seq(|rows|, i requires 0 <= i < |rows| => termMask[i] || CellContains(rows[i], cols[j], token));
      forall i | 0 <= i < |rows| ensures termMask[i] == TokenHits(rows[i], cols[..j + 1], token) {
        TokenHitsStep(rows[i], cols, j, token);
      }
    }
    assert cols[..|cols|] == cols;
  }

  /**
   * The broad keyword filter as the source runs it: the rows every long word
   * hits, the answer from them, the sentinel when there is no key column or no
   * long word.
   */
  method BroadFallback(t: Table, ql: string) returns (r: string)
    ensures r == BroadMatch(t, ql)
  {
    var cols := PresentAmong(KeyColumns, t.columns);
    if cols == [] {
      return NoMatchingData;
    }
    var mask := CombinedMask(t.rows, cols, Tokens(ql));
    if mask.None? {
      return NoMatchingData;
    }
    r := Preferred(t, Select(t.rows, mask.value));
    MaskedBroadMatch(t, ql, mask.value);
  }

  /**
   * The loop of the broad filter: for each token, the mask of the rows one of
   * whose columns contains it, and-ed into the running mask, which stays unset
   * while there is no token.
   */
  method CombinedMask(rows: seq<Row>, cols: seq<Column>, tokens: seq<string>) returns (mask: Option<seq<bool>>)
    ensures mask.None? <==> tokens == []
    ensures mask.Some? ==> |mask.value| == |rows|
    ensures mask.Some? ==> forall i :: 0 <= i < |rows| ==> mask.value[i] == Qualifies(rows[i], cols, tokens)
  {
    mask := None;
    for k := 0 to |tokens|
      invariant k == 0 <==> mask.None?
      invariant mask.Some? ==> |mask.value| == |rows|
      invariant mask.Some? ==> forall i :: 0 <= i < |rows| ==> mask.value[i] == Qualifies(rows[i], cols, tokens[..k])
    {
      var termMask := TermMask(rows, cols, tokens[k]);
      if mask.None? {
        FirstTokenMask(rows, cols, tokens, termMask);
        mask := Some(termMask);
      } else {
        var m := mask.value;
        var next := seq(|rows|, i requires 0 <= i < |rows| => m[i] && termMask[i]);
        NextTokenMask(rows, cols, tokens, k, m, termMask, next);
        mask := Some(next);
      }
    }
    assert tokens[..|tokens|] == tokens;
  }

  /** Once the mask flags the rows every token hits, the rows it selects give the broad filter's answer. */
  lemma MaskedBroadMatch(t: Table, ql: string, mask: seq<bool>)
    requires PresentAmong(KeyColumns, t.columns) != [] && Tokens(ql) != [] && |mask| == |t.rows|
    requires forall i :: 0 <= i < |t.rows| ==> mask[i] == Qualifies(t.rows[i], PresentAmong(KeyColumns, t.columns), Tokens(ql))
    ensures Preferred(t, Select(t.rows, mask)) == BroadMatch(t, ql)
  {
    SelectQualifying(t.rows, mask, PresentAmong(KeyColumns, t.columns), Tokens(ql));
  }

  // ---------------------------------------------------------------- query_csv

  /** What the five patterns give on the lower-cased query, in the order they are tried. */
  function PatternAnswers(t: Table, ql: string): seq<Option<string>> {
    [TreatmentAnswer(t, ql), TreatedAtAnswer(t, ql), RegionTotalAnswer(t, ql), DiagnosedAnswer(t, ql), PatientCostAnswer(t, ql)]
  }

  /** The answer of the first pattern that applies; the fallback when none does. */
  function FirstApplies(answers: seq<Option<string>>, fallback: string): (r: string)
    ensures forall k :: 0 <= k < |answers| && answers[k].Some? && (forall j :: 0 <= j < k ==> answers[j].None?) ==>
      r == answers[k].value
    ensures (forall k :: 0 <= k < |answers| ==> answers[k].None?) ==> r == fallback
  {
    if answers == [] then fallback
    else if answers[0].Some? then answers[0].value
    else
      var r := FirstApplies(answers[1..], fallback);
      assert forall k :: 1 <= k < |answers| ==> answers[1..][k - 1] == answers[k];
      r
  }

  /** The answer from a loaded table: the first pattern that applies, else the broad filter. */
  function TableAnswer(t: Table, query: string): string {
    var ql := Lower(Strip(query));
    FirstApplies(PatternAnswers(t, ql), BroadMatch(t, ql))
  }

  /** A CSV file as the loader finds it: one it cannot read (with the reader's complaint), or a table. */
  datatype CsvFile = Unreadable(reason: string) | Readable(raw: RawTable)

  const LoadErrorPrefix := "❌ Error loading CSV: "

  /** `query_csv` on the files of the CSV folder, by name. */
  function CsvAnswer(files: map<string, CsvFile>, name: string, query: string): string {
    if name !in files then LoadErrorPrefix + "CSV not found: health_csvs/" + name
    else match files[name]
      case Unreadable(reason) => LoadErrorPrefix + reason
      case Readable(raw) => TableAnswer(Loaded(raw), query)
  }

  /** A file that is missing or cannot be read gives an answer that starts with the load-error prefix. */
  lemma LoadFailureReported(files: map<string, CsvFile>, name: string, query: string)
    requires name !in files || files[name].Unreadable?
    ensures StartsWith(CsvAnswer(files, name, query), LoadErrorPrefix)
  {
    var r := CsvAnswer(files, name, query);
    assert r[..|LoadErrorPrefix|] == LoadErrorPrefix;
  }

  /**
   * The answer of the first pattern that applies, in order; else the broad filter run on the table.
   * The source writes this as five `if m …: return` blocks one after another; the loop over the
   * five pattern answers renders that chain.
   */
  method FirstOrBroad(t: Table, ql: string, answers: seq<Option<string>>) returns (r: string)
    ensures r == FirstApplies(answers, BroadMatch(t, ql))
  {
    for k := 0 to |answers|
      invariant forall j :: 0 <= j < k ==> answers[j].None?
    {
      if answers[k].Some? {
        return answers[k].value;
      }
    }
    r := BroadFallback(t, ql);
  }

  /** The body of `query_csv` after loading: the patterns one after another, then the broad filter. */
  method AnswerFromTable(t: Table, query: string) returns (r: string)
    ensures r == TableAnswer(t, query)
  {
    var ql := Lower(Strip(query));
    r := FirstOrBroad(t, ql, PatternAnswers(t, ql));
  }

  /** `query_csv`: load the named file, then answer from its table. */
  method QueryCsv(files: map<string, CsvFile>, name: string, query: string) returns (r: string)
    ensures r == CsvAnswer(files, name, query)
  {
    if name !in files {
      return LoadErrorPrefix + "CSV not found: health_csvs/" + name;
    }
    match files[name]
    case Unreadable(reason) =>
      return LoadErrorPrefix + reason;
    case Readable(raw) =>
      var t := Load(raw);
      r := AnswerFromTable(t, query);
  }
}
