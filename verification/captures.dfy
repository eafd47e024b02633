/**
 * The five question shapes the tabular matcher recognises, each written as the
 * function that yields what `re.search` captures for that shape in the
 * lower-cased query (csv_utils.py, patterns 1 to 5).
 *
 * The regular-expression engine is not modelled. Every shape is written out by
 * hand: a search for the leftmost start position, and at that position the
 * choices the engine settles on. A greedy `\s+` runs to the end of the
 * whitespace wherever what follows it cannot start with whitespace; before the
 * facility phrase of pattern 2, which can, it gives back one character at a
 * time until the rest matches. A lazy `(.+?)` takes the first end from which
 * the rest of the pattern matches. A greedy `.*` takes the last such position
 * on the line. `.` never crosses a newline.
 */
module Captures {
  import opened Wrappers
  import opened Text

  // ---------------------------------------------------------------- building blocks

  /** The literal lit at position i; yields the position after it. */
  function Lit(s: string, i: nat, lit: string): (r: Option<nat>)
    ensures r.Some? <==> OccursAt(s, lit, i)
    ensures r.Some? ==> r.value == i + |lit|
  {
    if i + |lit| <= |s| && s[i..i + |lit|] == lit then Some(i + |lit|) else None
  }

  /** `\s+`: at least one whitespace character, and then every one that follows. */
  function Spaces1(s: string, i: nat): (r: Option<nat>)
    ensures r.Some? <==> i < |s| && IsSpace(s[i])
    ensures r.Some? ==> i < r.value <= |s| && (r.value == |s| || !IsSpace(s[r.value]))
  {
    if i < |s| && IsSpace(s[i]) then
      SpanStops(s, i, IsSpace);
      Some(Span(s, i, IsSpace))
    else None
  }

  /** No newline among s[i..j]: what `.` may run over. */
  predicate NoNewline(s: string, i: nat, j: nat) {
    forall k :: i <= k < j && k < |s| ==> s[k] != '\n'
  }

  lemma NoNewlineSlice(s: string, i: nat, j: nat)
    requires i <= j <= |s| && NoNewline(s, i, j)
    ensures '\n' !in s[i..j]
  {
    assert forall k :: 0 <= k < j - i ==> s[i..j][k] == s[i + k];
  }

  /** The first position in lo..hi where ok holds: the start `re.search` settles on, or the end a lazy group takes. */
  function Leftmost(ok: nat -> bool, lo: nat, hi: nat): (r: Option<nat>)
    ensures r.Some? ==> lo <= r.value <= hi && ok(r.value)
    ensures r.Some? ==> forall j :: lo <= j < r.value ==> !ok(j)
    ensures r.None? ==> forall j :: lo <= j <= hi ==> !ok(j)
    decreases hi + 1 - lo
  {
    if lo > hi then None else if ok(lo) then Some(lo) else Leftmost(ok, lo + 1, hi)
  }

  /** The last position in lo..hi where ok holds: where a greedy `.*` hands over. */
  function Rightmost(ok: nat -> bool, lo: nat, hi: nat): (r: Option<nat>)
    ensures r.Some? ==> lo <= r.value <= hi && ok(r.value)
    ensures r.Some? ==> forall j :: r.value < j <= hi ==> !ok(j)
    ensures r.None? ==> forall j :: lo <= j <= hi ==> !ok(j)
    decreases hi
  {
    if lo > hi then None
    else if ok(hi) then Some(hi)
    else if hi == 0 then None
    else Rightmost(ok, lo, hi - 1)
  }

  /** `[a-z0-9\-]` under IGNORECASE. */
  predicate IsIdChar(c: char) {
    IsLetter(c) || IsDigit(c) || c == '-'
  }

  /** `([a-z0-9\-]+)` at i, greedy: the longest non-empty run of id characters. */
  function IdRun(s: string, i: nat): (r: Option<string>)
    ensures r.Some? ==> r.value != [] && All(r.value, IsIdChar) && OccursAt(s, r.value, i)
    ensures r.Some? ==> i + |r.value| == |s| || !IsIdChar(s[i + |r.value|])
  {
    if i < |s| && IsIdChar(s[i]) then
      SpanStops(s, i, IsIdChar);
      Some(s[i..Span(s, i, IsIdChar)])
    else None
  }

  /** `\??$` at k: the rest of the query is empty or "?", possibly before one final newline. */
  predicate AtQueryEnd(s: string, k: nat) {
    k <= |s| && (s[k..] == "" || s[k..] == "?" || s[k..] == "\n" || s[k..] == "?\n")
  }

  /** `(.+?)\??$` from h: the shortest non-empty capture, without newline, after which the query ends. */
  function LazyToEnd(s: string, h: nat): (r: Option<string>)
    ensures r.Some? ==> r.value != [] && OccursAt(s, r.value, h) && AtQueryEnd(s, h + |r.value|)
    ensures r.Some? ==> '\n' !in r.value
  {
    match Leftmost((k: nat) => h < k <= |s| && NoNewline(s, h, k) && AtQueryEnd(s, k), h + 1, |s|)
    case None => None
    case Some(k) =>
      assert forall j :: 0 <= j < k - h ==> s[h..k][j] == s[h + j];
      Some(s[h..k])
  }

  // ---------------------------------------------------------------- pattern 1

  /** `treatment\s+(?:for|of)\s+patient\s+([a-z0-9\-]+)` tried at i. */
  function TreatmentAt(s: string, i: nat): (r: Option<string>)
    ensures r.Some? ==> r.value != [] && All(r.value, IsIdChar) && Contains(s, r.value)
  {
    var a :- Lit(s, i, "treatment");
    var b :- Spaces1(s, a);
    var c :- Lit(s, b, "for").OrElse(Lit(s, b, "of"));
    var d :- Spaces1(s, c);
    var e :- Lit(s, d, "patient");
    var f :- Spaces1(s, e);
    IdRun(s, f)
  }

  /** The first start from i on where pattern 1 matches, and what it captures there. */
  function TreatmentFrom(s: string, i: nat): (r: Option<string>)
    ensures r.Some? ==> r.value != [] && All(r.value, IsIdChar) && Contains(s, r.value)
    ensures r.Some? <==> exists j :: i <= j <= |s| && TreatmentAt(s, j).Some?
    ensures r.Some? ==> exists j :: i <= j <= |s| && TreatmentAt(s, j) == r && forall k :: i <= k < j ==> TreatmentAt(s, k).None?
    decreases |s| + 1 - i
  {
    if i > |s| then None
    else if TreatmentAt(s, i).Some? then TreatmentAt(s, i)
    else TreatmentFrom(s, i + 1)
  }

  /** Pattern 1: the patient id asked about in "what is the treatment for patient p003". */
  function TreatmentPatient(s: string): (r: Option<string>)
    ensures r.Some? ==> r.value != [] && All(r.value, IsIdChar) && Contains(s, r.value)
    ensures r.Some? <==> exists i :: 0 <= i <= |s| && TreatmentAt(s, i).Some?
    ensures r.Some? ==> exists i :: 0 <= i <= |s| && TreatmentAt(s, i) == r && forall k :: 0 <= k < i ==> TreatmentAt(s, k).None?
  {
    TreatmentFrom(s, 0)
  }

  // ---------------------------------------------------------------- pattern 2

  /** `\s+for\s+(.+?)\??$` tried at e: the diagnosis phrase. */
  function ForToEnd(s: string, e: nat): (r: Option<string>)
    ensures r.Some? ==> r.value != [] && '\n' !in r.value
  {
    var f :- Spaces1(s, e);
    var g :- Lit(s, f, "for");
    var h :- Spaces1(s, g);
    LazyToEnd(s, h)
  }

  /** `who\s+was\s+treated\s+at` tried at i: where the whitespace before the facility phrase starts. */
  function WhoTreatedHead(s: string, i: nat): (r: Option<nat>)
    ensures r.Some? ==> r.value <= |s|
  {
    var a :- Lit(s, i, "who");
    var b :- Spaces1(s, a);
    var c :- Lit(s, b, "was");
    var d :- Spaces1(s, c);
    var e :- Lit(s, d, "treated");
    var f :- Spaces1(s, e);
    Lit(s, f, "at")
  }

  /** The facility phrase may end at q: it has no newline and the diagnosis part matches from q. */
  predicate FacilityEndsAt(s: string, p: nat, q: nat) {
    p < q <= |s| && NoNewline(s, p, q) && ForToEnd(s, q).Some?
  }

  /** The lazy facility phrase from p: it ends at the first place where the rest matches. */
  function FacilityEnd(s: string, p: nat): (r: Option<nat>)
    ensures r.Some? ==> FacilityEndsAt(s, p, r.value)
    ensures r.Some? ==> forall q: nat :: p < q < r.value ==> !FacilityEndsAt(s, p, q)
    ensures r.None? ==> forall q: nat :: p < q <= |s| ==> !FacilityEndsAt(s, p, q)
  {
    var ends := (q: nat) => FacilityEndsAt(s, p, q);
    var found := Leftmost(ends, p + 1, |s|);
    assert found.None? ==> forall q: nat :: p < q <= |s| ==> !FacilityEndsAt(s, p, q) by {
      if found.None? {
        forall q: nat | p < q <= |s| ensures !FacilityEndsAt(s, p, q) {
          assert !ends(q);
        }
      }
    }
    assert found.Some? ==> forall q: nat :: p < q < found.value ==> !FacilityEndsAt(s, p, q) by {
      if found.Some? {
        forall q: nat | p < q < found.value ensures !FacilityEndsAt(s, p, q) {
          assert !ends(q);
        }
      }
    }
    found
  }

  /**
   * Where the facility phrase starts when the whitespace after "at" runs over
   * g..e: the greedy `\s+` gives back one character at a time, so the latest
   * start from which the facility can end.
   */
  function FacilityStart(s: string, g: nat, e: nat): (r: Option<nat>)
    ensures r.Some? ==> g < r.value <= e && FacilityEnd(s, r.value).Some?
    ensures r.Some? ==> forall p: nat :: r.value < p <= e ==> FacilityEnd(s, p).None?
    ensures r.None? ==> forall p: nat :: g < p <= e ==> FacilityEnd(s, p).None?
  {
    var starts := (p: nat) => g < p <= e && FacilityEnd(s, p).Some?;
    var found := Rightmost(starts, g + 1, e);
    assert found.None? ==> forall p: nat :: g < p <= e ==> FacilityEnd(s, p).None? by {
      if found.None? {
        forall p: nat | g < p <= e ensures FacilityEnd(s, p).None? {
          assert !starts(p);
        }
      }
    }
    assert found.Some? ==> forall p: nat :: found.value < p <= e ==> FacilityEnd(s, p).None? by {
      if found.Some? {
        forall p: nat | found.value < p <= e ensures FacilityEnd(s, p).None? {
          assert !starts(p);
        }
      }
    }
    found
  }

  /**
   * `who\s+was\s+treated\s+at\s+(.+?)\s+for\s+(.+?)\??$` tried at i. The `\s+`
   * after "at" is greedy and the facility may start with whitespace: the
   * facility starts at the latest place in the whitespace run from which it
   * can end.
   */
  function WhoTreatedAt(s: string, i: nat): (r: Option<(string, string)>)
    ensures r.Some? ==> r.value.0 != [] && r.value.1 != [] && '\n' !in r.value.0 && '\n' !in r.value.1
  {
    var g :- WhoTreatedHead(s, i);
    var e :- Spaces1(s, g);
    var p :- FacilityStart(s, g, e);
    var q := FacilityEnd(s, p).value;
    var dx := ForToEnd(s, q).value;
    NoNewlineSlice(s, p, q);
    Some((s[p..q], dx))
  }

  /** The pattern's match at i put together from the positions its parts settle on. */
  lemma WhoTreatedAtParts(s: string, i: nat, g: nat, e: nat, p: nat, q: nat, dx: string)
    requires WhoTreatedHead(s, i) == Some(g) && Spaces1(s, g) == Some(e) && FacilityStart(s, g, e) == Some(p)
    requires FacilityEnd(s, p) == Some(q) && ForToEnd(s, q) == Some(dx)
    ensures p < q <= |s| && WhoTreatedAt(s, i) == Some((s[p..q], dx))
  {
  }

  /** The first start from i on where the pattern matches, and what it captures there. */
  function FacilityAndDiagnosisFrom(s: string, i: nat): (r: Option<(string, string)>)
    ensures r.Some? ==> r.value.0 != [] && r.value.1 != [] && '\n' !in r.value.0 && '\n' !in r.value.1
    ensures r.Some? <==> exists j :: i <= j <= |s| && WhoTreatedAt(s, j).Some?
    ensures r.Some? ==> exists j :: i <= j <= |s| && WhoTreatedAt(s, j) == r && forall k :: i <= k < j ==> WhoTreatedAt(s, k).None?
    decreases |s| + 1 - i
  {
    if i > |s| then None
    else if WhoTreatedAt(s, i).Some? then WhoTreatedAt(s, i)
    else FacilityAndDiagnosisFrom(s, i + 1)
  }

  /** Pattern 2: the facility and the diagnosis in "who was treated at clinic d for anemia". */
  function FacilityAndDiagnosis(s: string): (r: Option<(string, string)>)
    ensures r.Some? ==> r.value.0 != [] && r.value.1 != [] && '\n' !in r.value.0 && '\n' !in r.value.1
    ensures r.Some? <==> exists i :: 0 <= i <= |s| && WhoTreatedAt(s, i).Some?
    ensures r.Some? ==> exists i :: 0 <= i <= |s| && WhoTreatedAt(s, i) == r && forall k :: 0 <= k < i ==> WhoTreatedAt(s, k).None?
  {
    FacilityAndDiagnosisFrom(s, 0)
  }

  /** "who was treated at   for x": three spaces between "at" and "for". */
  function BlankFacilityQuestion(): (s: string)
    ensures |s| == 26
  {
    "who was " + "treated " + "at   for x"
  }

  /** In that question the facility runs over 19..20, the middle space. */
  lemma BlankFacilitySlice()
    ensures BlankFacilityQuestion()[19..20] == " "
  {
  }

  /** In that question the pattern's head ends after "at", at 18, and the spaces run to 21. */
  lemma BlankFacilityHead()
    ensures WhoTreatedHead(BlankFacilityQuestion(), 0) == Some(18)
    ensures Spaces1(BlankFacilityQuestion(), 18) == Some(21)
  {
    var s := BlankFacilityQuestion();
    assert s[0..3] == "who" && s[4..7] == "was" && s[8..15] == "treated" && s[16..18] == "at";
    assert IsSpace(s[3]) && !IsSpace(s[4]) && IsSpace(s[7]) && !IsSpace(s[8]) && IsSpace(s[15]) && !IsSpace(s[16]);
    assert Spaces1(s, 3) == Some(4) && Spaces1(s, 7) == Some(8) && Spaces1(s, 15) == Some(16);
    assert IsSpace(s[18]) && IsSpace(s[19]) && IsSpace(s[20]) && !IsSpace(s[21]);
  }

  /** From 20 the diagnosis part matches and captures "x". */
  lemma BlankFacilityDiagnosis()
    ensures ForToEnd(BlankFacilityQuestion(), 20) == Some("x")
  {
    var s := BlankFacilityQuestion();
    assert IsSpace(s[20]) && !IsSpace(s[21]) && s[21..24] == "for" && IsSpace(s[24]) && !IsSpace(s[25]);
    assert Spaces1(s, 24) == Some(25);
    assert LazyToEnd(s, 25) == Some("x") by {
      var ok := (k: nat) => 25 < k <= |s| && NoNewline(s, 25, k) && AtQueryEnd(s, k);
      assert ok(26);
      assert s[25..26] == "x";
    }
  }

  /** From 21 on the diagnosis part matches nowhere. */
  lemma BlankFacilityNoLaterEnd()
    ensures forall q: nat :: 20 < q <= 26 ==> ForToEnd(BlankFacilityQuestion(), q).None?
  {
    var s := BlankFacilityQuestion();
    assert !IsSpace(s[21]) && s[21..24] == "for" && IsSpace(s[24]) && !IsSpace(s[25]);
    assert Spaces1(s, 24) == Some(25);
    forall q: nat | 20 < q <= 26 ensures ForToEnd(s, q).None? {
      if q == 24 {
        assert Lit(s, 25, "for").None?;
      } else {
        assert Spaces1(s, q).None?;
      }
    }
  }

  /** The facility can start at 19 and end at 20, and cannot start at 20 or 21. */
  lemma BlankFacilityEnds()
    ensures FacilityEnd(BlankFacilityQuestion(), 19) == Some(20)
    ensures FacilityEnd(BlankFacilityQuestion(), 20).None? && FacilityEnd(BlankFacilityQuestion(), 21).None?
  {
    var s := BlankFacilityQuestion();
    BlankFacilityDiagnosis();
    BlankFacilityNoLaterEnd();
    assert FacilityEndsAt(s, 19, 20);
  }

  /** The whitespace after "at" gives back two characters: the facility starts at 19. */
  lemma BlankFacilityStart()
    ensures FacilityStart(BlankFacilityQuestion(), 18, 21) == Some(19)
  {
    var s := BlankFacilityQuestion();
    BlankFacilityEnds();
    var found := FacilityStart(s, 18, 21);
    if found.Some? {
      assert found.value != 20 && found.value != 21;
    }
  }

  /** At the start of the question the pattern captures the middle space and "x". */
  lemma BlankFacilityMatch()
    ensures WhoTreatedAt(BlankFacilityQuestion(), 0) == Some((" ", "x"))
  {
    var s := BlankFacilityQuestion();
    BlankFacilityHead();
    BlankFacilityStart();
    BlankFacilityEnds();
    BlankFacilityDiagnosis();
    WhoTreatedAtParts(s, 0, 18, 21, 19, 20, "x");
    BlankFacilitySlice();
  }

  /**
   * With three spaces between "at" and "for", the `\s+` after "at" gives back
   * two of them: the facility is the middle space and the diagnosis follows.
   */
  lemma BlankFacilityCaptured()
    ensures FacilityAndDiagnosis(BlankFacilityQuestion()) == Some((" ", "x"))
  {
    BlankFacilityMatch();
  }

  // ---------------------------------------------------------------- pattern 3

  /** `(?:total\s+cost|sum\s+of\s+costs?)` tried at i. */
  function CostTotalHead(s: string, i: nat): (r: Option<nat>)
    ensures r.Some? ==> r.value <= |s|
  {
    var total := (
      var a :- Lit(s, i, "total");
      var b :- Spaces1(s, a);
      Lit(s, b, "cost"));
    var sum := (
      var a :- Lit(s, i, "sum");
      var b :- Spaces1(s, a);
      var c :- Lit(s, b, "of");
      var d :- Spaces1(s, c);
      var e :- Lit(s, d, "cost");
      if e < |s| && s[e] == 's' then Some(e + 1) else Some(e));
    total.OrElse(sum)
  }

  /** `([a-z]+)\s+region` at w: the region name. */
  function RegionName(s: string, w: nat): (r: Option<string>)
    ensures r.Some? ==> r.value != [] && All(r.value, IsLetter)
  {
    if w < |s| && IsLetter(s[w]) then
      var n := Span(s, w, IsLetter);
      SpanStops(s, w, IsLetter);
      var v :- Spaces1(s, n);
      var end :- Lit(s, v, "region");
      Some(s[w..n])
    else None
  }

  /** `(?:in|for)\s+(?:the\s+)?([a-z]+)\s+region` tried at x; "the" is tried first, then left out. */
  function RegionAfter(s: string, x: nat): (r: Option<string>)
    ensures r.Some? ==> r.value != [] && All(r.value, IsLetter)
  {
    var y :- Lit(s, x, "in").OrElse(Lit(s, x, "for"));
    var z :- Spaces1(s, y);
    var withThe := (
      var t :- Lit(s, z, "the");
      var w :- Spaces1(s, t);
      RegionName(s, w));
    withThe.OrElse(RegionName(s, z))
  }

  /** The whole of pattern 3 tried at i; the `.*?` between the head and "in"/"for" is lazy. */
  function RegionTotalAt(s: string, i: nat): (r: Option<string>)
    ensures r.Some? ==> r.value != [] && All(r.value, IsLetter)
  {
    var j :- CostTotalHead(s, i);
    var x :- Leftmost((x: nat) => j <= x <= |s| && NoNewline(s, j, x) && RegionAfter(s, x).Some?, j, |s|);
    RegionAfter(s, x)
  }

  /** The first start from i on where the pattern matches, and what it captures there. */
  function CostRegionFrom(s: string, i: nat): (r: Option<string>)
    ensures r.Some? ==> r.value != [] && All(r.value, IsLetter)
    ensures r.Some? <==> exists j :: i <= j <= |s| && RegionTotalAt(s, j).Some?
    ensures r.Some? ==> exists j :: i <= j <= |s| && RegionTotalAt(s, j) == r && forall k :: i <= k < j ==> RegionTotalAt(s, k).None?
    decreases |s| + 1 - i
  {
    if i > |s| then None
    else if RegionTotalAt(s, i).Some? then RegionTotalAt(s, i)
    else CostRegionFrom(s, i + 1)
  }

  /** Pattern 3: the region in "what is the total cost of treatments in the north region". */
  function CostRegion(s: string): (r: Option<string>)
    ensures r.Some? ==> r.value != [] && All(r.value, IsLetter)
    ensures r.Some? <==> exists i :: 0 <= i <= |s| && RegionTotalAt(s, i).Some?
    ensures r.Some? ==> exists i :: 0 <= i <= |s| && RegionTotalAt(s, i) == r && forall k :: 0 <= k < i ==> RegionTotalAt(s, k).None?
  {
    CostRegionFrom(s, 0)
  }

  // ---------------------------------------------------------------- pattern 4

  /** `patients\s+(?:diagnosed\s+with|with)\s+(.+?)\??$` tried at k. */
  function PatientsWithAt(s: string, k: nat): (r: Option<string>)
    ensures r.Some? ==> r.value != [] && '\n' !in r.value
  {
    var a :- Lit(s, k, "patients");
    var b :- Spaces1(s, a);
    var diagnosedWith := (
      var c :- Lit(s, b, "diagnosed");
      var d :- Spaces1(s, c);
      Lit(s, d, "with"));
    var c :- diagnosedWith.OrElse(Lit(s, b, "with"));
    var h :- Spaces1(s, c);
    LazyToEnd(s, h)
  }

  /** `(?:list\s+all\s+)?` followed by the rest of pattern 4, tried at i; the optional part is tried first. */
  function DiagnosisListAt(s: string, i: nat): (r: Option<string>)
    ensures r.Some? ==> r.value != [] && '\n' !in r.value
  {
    var listed := (
      var a :- Lit(s, i, "list");
      var b :- Spaces1(s, a);
      var c :- Lit(s, b, "all");
      var d :- Spaces1(s, c);
      PatientsWithAt(s, d));
    listed.OrElse(PatientsWithAt(s, i))
  }

  /** The first start from i on where the pattern matches, and what it captures there. */
  function ListedDiagnosisFrom(s: string, i: nat): (r: Option<string>)
    ensures r.Some? ==> r.value != [] && '\n' !in r.value
    ensures r.Some? <==> exists j :: i <= j <= |s| && DiagnosisListAt(s, j).Some?
    ensures r.Some? ==> exists j :: i <= j <= |s| && DiagnosisListAt(s, j) == r && forall k :: i <= k < j ==> DiagnosisListAt(s, k).None?
    decreases |s| + 1 - i
  {
    if i > |s| then None
    else if DiagnosisListAt(s, i).Some? then DiagnosisListAt(s, i)
    else ListedDiagnosisFrom(s, i + 1)
  }

  /** Pattern 4: the diagnosis in "list all patients diagnosed with diabetes". */
  function ListedDiagnosis(s: string): (r: Option<string>)
    ensures r.Some? ==> r.value != [] && '\n' !in r.value
    ensures r.Some? <==> exists i :: 0 <= i <= |s| && DiagnosisListAt(s, i).Some?
    ensures r.Some? ==> exists i :: 0 <= i <= |s| && DiagnosisListAt(s, i) == r && forall k :: 0 <= k < i ==> DiagnosisListAt(s, k).None?
  {
    ListedDiagnosisFrom(s, 0)
  }

  // ---------------------------------------------------------------- pattern 5

  /** `(?:cost|bill|amount\s+due)` tried at i. */
  function CostWordHead(s: string, i: nat): (r: Option<nat>)
    ensures r.Some? ==> r.value <= |s|
  {
    var amountDue := (
      var a :- Lit(s, i, "amount");
      var b :- Spaces1(s, a);
      Lit(s, b, "due"));
    Lit(s, i, "cost").OrElse(Lit(s, i, "bill")).OrElse(amountDue)
  }

  /** `for\s+patient\s+([a-z0-9\-]+)` tried at x. */
  function PatientRefAt(s: string, x: nat): (r: Option<string>)
    ensures r.Some? ==> r.value != [] && All(r.value, IsIdChar) && Contains(s, r.value)
  {
    var a :- Lit(s, x, "for");
    var b :- Spaces1(s, a);
    var c :- Lit(s, b, "patient");
    var d :- Spaces1(s, c);
    IdRun(s, d)
  }

  /** The whole of pattern 5 tried at i; the `.*` is greedy, so the last "for patient" on the line wins. */
  function PatientCostAt(s: string, i: nat): (r: Option<string>)
    ensures r.Some? ==> r.value != [] && All(r.value, IsIdChar) && Contains(s, r.value)
  {
    var j :- CostWordHead(s, i);
    var x :- Rightmost((x: nat) => j <= x <= |s| && NoNewline(s, j, x) && PatientRefAt(s, x).Some?, j, |s|);
    PatientRefAt(s, x)
  }

  /** The first start from i on where the pattern matches, and what it captures there. */
  function CostPatientFrom(s: string, i: nat): (r: Option<string>)
    ensures r.Some? ==> r.value != [] && All(r.value, IsIdChar) && Contains(s, r.value)
    ensures r.Some? <==> exists j :: i <= j <= |s| && PatientCostAt(s, j).Some?
    ensures r.Some? ==> exists j :: i <= j <= |s| && PatientCostAt(s, j) == r && forall k :: i <= k < j ==> PatientCostAt(s, k).None?
    decreases |s| + 1 - i
  {
    if i > |s| then None
    else if PatientCostAt(s, i).Some? then PatientCostAt(s, i)
    else CostPatientFrom(s, i + 1)
  }

  /** Pattern 5: the patient id in "what is the bill for patient p003". */
  function CostPatient(s: string): (r: Option<string>)
    ensures r.Some? ==> r.value != [] && All(r.value, IsIdChar) && Contains(s, r.value)
    ensures r.Some? <==> exists i :: 0 <= i <= |s| && PatientCostAt(s, i).Some?
    ensures r.Some? ==> exists i :: 0 <= i <= |s| && PatientCostAt(s, i) == r && forall k :: 0 <= k < i ==> PatientCostAt(s, k).None?
  {
    CostPatientFrom(s, 0)
  }
}
