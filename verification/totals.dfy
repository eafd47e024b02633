/**
 * The two regular-expression tests of the document matcher that concern money
 * (pdf_utils.py): the four total-price patterns tried in order on the document
 * text, and the whole-word test on the question that selects them.
 */
module Totals {
  import opened Wrappers
  import opened Text

  // ---------------------------------------------------------------- case-insensitive pieces

  /** The lower-case literal lit occurs at i, ignoring case. */
  predicate IOccursAt(s: string, lit: string, i: nat) {
    i + |lit| <= |s| && Lower(s[i..i + |lit|]) == lit
  }

  /** The lower-case literal lit at position i, ignoring case; yields the position after it. */
  function ILit(s: string, i: nat, lit: string): (r: Option<nat>)
    ensures r.Some? <==> IOccursAt(s, lit, i)
    ensures r.Some? ==> r.value == i + |lit|
  {
    if IOccursAt(s, lit, i) then Some(i + |lit|) else None
  }

  /** `\s*` from i: the end of the whitespace there, possibly i itself. */
  function Spaces0(s: string, i: nat): (j: nat)
    requires i <= |s|
    ensures i <= j <= |s|
  {
    Span(s, i, IsSpace)
  }

  // ---------------------------------------------------------------- the total-price patterns

  /** The four patterns of `find_total_price`, by the label each starts with. */
  datatype Label = Total | GrandTotal | AmountDue | TotalPrice

  /** The order in which the patterns are tried. */
  const Labels: seq<Label> := [Total, GrandTotal, AmountDue, TotalPrice]

  /** The label of the pattern at i, ignoring case; yields where the label ends. */
  function LabelEnd(kind: Label, s: string, i: nat): (r: Option<nat>)
    ensures r.Some? ==> i < r.value <= |s|
  {
    match kind
    case Total => ILit(s, i, "total")
    case GrandTotal =>
      var a :- ILit(s, i, "grand");
      ILit(s, Spaces0(s, a), "total")
    case AmountDue =>
      var a :- ILit(s, i, "amount");
      ILit(s, Spaces0(s, a), "due")
    case TotalPrice => ILit(s, i, "total price")
  }

  /** `[\d,]`. */
  predicate IsAmountChar(c: char) {
    IsDigit(c) || c == ','
  }

  /** What the amount group can capture: digits and commas, a point, two digits. */
  predicate IsAmountText(v: string) {
    |v| >= 4 && All(v[..|v| - 3], IsAmountChar) && v[|v| - 3] == '.' && IsDigit(v[|v| - 2]) && IsDigit(v[|v| - 1])
  }

  /** The optional character x at i. */
  function Optional(s: string, i: nat, x: char): (j: nat)
    requires i <= |s|
    ensures j == if i < |s| && s[i] == x then i + 1 else i
  {
    if i < |s| && s[i] == x then i + 1 else i
  }

  /** `\s*[:\-]?\s*\$?\s*` from i: where the amount starts. Each optional piece is taken when present. */
  function AmountStart(s: string, i: nat): (d: nat)
    requires i <= |s|
    ensures i <= d <= |s|
  {
    var a := Spaces0(s, i);
    var b := if a < |s| && (s[a] == ':' || s[a] == '-') then a + 1 else a;
    Spaces0(s, Optional(s, Spaces0(s, b), '$'))
  }

  /** `([\d,]+\.\d{2})` at d: the longest run of digits and commas, a point, two digits. */
  function AmountAt(s: string, d: nat): Option<string>
    requires d <= |s|
  {
    var e := Span(s, d, IsAmountChar);
    if d < e && e + 3 <= |s| && s[e] == '.' && IsDigit(s[e + 1]) && IsDigit(s[e + 2]) then Some(s[d..e + 3])
    else None
  }

  /**
   * `\s*[:\-]?\s*\$?\s*([\d,]+\.\d{2})` from i: the captured amount. Taking each
   * optional piece when present is the only choice that lets the rest match.
   */
  function AmountAfter(s: string, i: nat): Option<string>
    requires i <= |s|
  {
    AmountAt(s, AmountStart(s, i))
  }

  /** What the amount group captures is an amount, taken from the text. */
  lemma AmountShape(s: string, d: nat)
    requires d <= |s| && AmountAt(s, d).Some?
    ensures IsAmountText(AmountAt(s, d).value) && Contains(s, AmountAt(s, d).value)
  {
    var e := Span(s, d, IsAmountChar);
    SpanStops(s, d, IsAmountChar);
    var v := s[d..e + 3];
    assert v[..|v| - 3] == s[d..e];
    assert v[|v| - 3] == s[e] && v[|v| - 2] == s[e + 1] && v[|v| - 1] == s[e + 2];
    assert OccursAt(s, v, d);
  }

  /** The whole pattern of the label, tried at i. */
  function TotalAt(kind: Label, s: string, i: nat): Option<string> {
    var e :- LabelEnd(kind, s, i);
    AmountAfter(s, e)
  }

  /** What the whole pattern captures is an amount, taken from the text. */
  lemma TotalIsAmount(kind: Label, s: string, i: nat)
    requires TotalAt(kind, s, i).Some?
    ensures IsAmountText(TotalAt(kind, s, i).value) && Contains(s, TotalAt(kind, s, i).value)
  {
    AmountShape(s, AmountStart(s, LabelEnd(kind, s, i).value));
  }

  /** The pattern of the label matches at i. */
  predicate MatchesAt(kind: Label, s: string, i: nat) {
    TotalAt(kind, s, i).Some?
  }

  /** The first present value among m(i), m(i + 1), …, m(n - 1). */
  function FirstFrom(m: nat -> Option<string>, i: nat, n: nat): Option<string>
    requires i <= n
    decreases n - i
  {
    if i == n then None
    else if m(i).Some? then m(i)
    else FirstFrom(m, i + 1, n)
  }

  /**
   * FirstFrom finds nothing exactly when every value in the range is absent;
   * otherwise it finds the value at the first position where one is present.
   */
  lemma {:induction false} FirstFromIsFirst(m: nat -> Option<string>, i: nat, n: nat)
    requires i <= n
    ensures FirstFrom(m, i, n).None? <==> forall k :: i <= k < n ==> m(k).None?
    ensures FirstFrom(m, i, n).Some? ==> exists j :: i <= j < n && m(j).Some? && FirstFrom(m, i, n) == m(j)
                                             && (forall k :: i <= k < j ==> m(k).None?)
    decreases n - i
  {
    if i < n && m(i).None? {
      FirstFromIsFirst(m, i + 1, n);
    }
  }

  /** The position of what FirstFrom finds. */
  lemma FirstFromAt(m: nat -> Option<string>, i: nat, n: nat) returns (j: nat)
    requires i <= n && FirstFrom(m, i, n).Some?
    ensures i <= j < n && FirstFrom(m, i, n) == m(j) && forall k :: i <= k < j ==> m(k).None?
  {
    FirstFromIsFirst(m, i, n);
    j :| i <= j < n && m(j).Some? && FirstFrom(m, i, n) == m(j) && forall k :: i <= k < j ==> m(k).None?;
  }

  /** The label's pattern tried at each start position. */
  function Attempts(kind: Label, s: string): nat -> Option<string> {
    (k: nat) => TotalAt(kind, s, k)
  }

  lemma AttemptsAreTotals(kind: Label, s: string)
    ensures forall k: nat :: Attempts(kind, s)(k) == TotalAt(kind, s, k)
  {
  }

  /**
   * `re.search` of the label's pattern: the amount captured at the first start
   * position, from 0 to the end of the text, where the pattern matches.
   */
  function Search(kind: Label, s: string): Option<string> {
    FirstFrom(Attempts(kind, s), 0, |s| + 1)
  }

  /** One pattern's search finds nothing exactly when the pattern matches at no position. */
  lemma SearchNoneIffNoMatch(kind: Label, s: string)
    ensures Search(kind, s).None? <==> forall k :: 0 <= k <= |s| ==> !MatchesAt(kind, s, k)
  {
    if Search(kind, s).None? {
      var m := Attempts(kind, s);
      FirstFromIsFirst(m, 0, |s| + 1);
      AttemptsAreTotals(kind, s);
      forall k | 0 <= k <= |s| ensures !MatchesAt(kind, s, k) {
        assert m(k).None?;
      }
    } else {
      var j := SearchFindsFirstMatch(kind, s);
    }
  }

  /** When one pattern's search finds something, it is the capture at the first position where the pattern matches. */
  lemma SearchFindsFirstMatch(kind: Label, s: string) returns (j: nat)
    requires Search(kind, s).Some?
    ensures j <= |s| && MatchesAt(kind, s, j) && Search(kind, s) == TotalAt(kind, s, j)
    ensures forall k :: 0 <= k < j ==> !MatchesAt(kind, s, k)
  {
    j := FirstFromAt(Attempts(kind, s), 0, |s| + 1);
    AttemptsAreTotals(kind, s);
  }

  /** What one pattern's search finds is an amount, taken from the text. */
  lemma SearchFindsAmount(kind: Label, s: string)
    requires Search(kind, s).Some?
    ensures IsAmountText(Search(kind, s).value) && Contains(s, Search(kind, s).value)
  {
    var j := SearchFindsFirstMatch(kind, s);
    TotalIsAmount(kind, s, j);
  }

  /** The first present result, in order. */
  function FirstSome(rs: seq<Option<string>>): (r: Option<string>)
    ensures r.None? <==> forall k :: 0 <= k < |rs| ==> rs[k].None?
    ensures r.Some? ==> exists k :: 0 <= k < |rs| && rs[k] == r
    ensures forall k :: 0 <= k < |rs| && rs[k].Some? && (forall j :: 0 <= j < k ==> rs[j].None?) ==> r == rs[k]
  {
    if rs == [] then None
    else if rs[0].Some? then rs[0]
    else
      var r := FirstSome(rs[1..]);
      assert forall k :: 1 <= k < |rs| ==> rs[k] == rs[1..][k - 1];
      r
  }

  /** What each pattern of the list finds, in list order. */
  function Searches(kinds: seq<Label>, s: string): (rs: seq<Option<string>>)
    ensures |rs| == |kinds|
  {
    seq(|kinds|, k requires 0 <= k < |kinds| => Search(kinds[k], s))
  }

  /** The capture of the first pattern among kinds that matches anywhere in the text. */
  function FirstTotalAmong(kinds: seq<Label>, s: string): Option<string> {
    FirstSome(Searches(kinds, s))
  }

  /** `find_total_price`: the first of the four patterns, in their order, that matches. */
  function FirstTotal(s: string): Option<string> {
    FirstTotalAmong(Labels, s)
  }

  /**
   * `find_total_price` finds the capture of the first pattern in list order that
   * matches anywhere, and finds nothing exactly when no pattern matches; what it
   * finds is an amount taken from the text.
   */
  lemma FirstTotalIsFirstMatch(s: string)
    ensures FirstTotal(s).None? <==> forall k :: 0 <= k < |Labels| ==> Search(Labels[k], s).None?
    ensures forall k :: 0 <= k < |Labels| && Search(Labels[k], s).Some? && (forall j :: 0 <= j < k ==> Search(Labels[j], s).None?) ==>
      FirstTotal(s) == Search(Labels[k], s)
    ensures FirstTotal(s).Some? ==> IsAmountText(FirstTotal(s).value) && Contains(s, FirstTotal(s).value)
  {
    var rs := Searches(Labels, s);
    assert forall k :: 0 <= k < |Labels| ==> rs[k] == Search(Labels[k], s);
    if FirstTotal(s).Some? {
      var k :| 0 <= k < |rs| && rs[k] == FirstTotal(s);
      SearchFindsAmount(Labels[k], s);
    }
  }

  /** `find_total_price` as the source runs it: a loop over the patterns with an early return. */
  method FindTotalPrice(text: string) returns (r: Option<string>)
    ensures r == FirstTotal(text)
  {
    ghost var rs := Searches(Labels, text);
    for k := 0 to |Labels|
      invariant forall j :: 0 <= j < k ==> rs[j].None?
    {
      var m := Search(Labels[k], text);
      assert rs[k] == m;
      if m.Some? {
        return m;
      }
    }
    r := None;
  }

  /** Wherever "grand total" and an amount match, "total" and the same amount match a little further on. */
  lemma GrandTotalHasTotal(s: string, i: nat) returns (j: nat)
    requires MatchesAt(GrandTotal, s, i)
    ensures i < j <= |s| && MatchesAt(Total, s, j) && TotalAt(Total, s, j) == TotalAt(GrandTotal, s, i)
  {
    var a := ILit(s, i, "grand").value;
    j := Spaces0(s, a);
    assert LabelEnd(Total, s, j) == LabelEnd(GrandTotal, s, i);
  }

  /** Whenever the "Grand Total" pattern finds an amount, the "Total" pattern finds one too. */
  lemma GrandTotalImpliesTotal(s: string)
    requires Search(GrandTotal, s).Some?
    ensures Search(Total, s).Some?
  {
    var i := SearchFindsFirstMatch(GrandTotal, s);
    SearchNoneIffNoMatch(Total, s);
    var j := GrandTotalHasTotal(s, i);
  }

  /**
   * The "Grand Total" pattern never decides the result: dropping it from the list
   * changes nothing, because the plain "Total" pattern, tried before it, matches
   * wherever it does.
   */
  lemma GrandTotalNeverDecides(s: string)
    ensures FirstTotal(s) == FirstTotalAmong([Total, AmountDue, TotalPrice], s)
  {
    var a, b, c, d := Search(Total, s), Search(GrandTotal, s), Search(AmountDue, s), Search(TotalPrice, s);
    SearchesListed(s);
    if b.Some? {
      GrandTotalImpliesTotal(s);
    }
    FirstSomeSkipsCovered(a, b, c, d);
  }

  /** The searches of the full list and of the list without "Grand Total", element by element. */
  lemma SearchesListed(s: string)
    ensures Searches(Labels, s) == [Search(Total, s), Search(GrandTotal, s), Search(AmountDue, s), Search(TotalPrice, s)]
    ensures Searches([Total, AmountDue, TotalPrice], s) == [Search(Total, s), Search(AmountDue, s), Search(TotalPrice, s)]
  {
    var all := Searches(Labels, s);
    assert all[0] == Search(Total, s) && all[1] == Search(GrandTotal, s);
    assert all[2] == Search(AmountDue, s) && all[3] == Search(TotalPrice, s);
    var kept := Searches([Total, AmountDue, TotalPrice], s);
    assert kept[0] == Search(Total, s) && kept[1] == Search(AmountDue, s) && kept[2] == Search(TotalPrice, s);
  }

  /** A result that is present only when the one before it is never decides the first present one. */
  lemma FirstSomeSkipsCovered(a: Option<string>, b: Option<string>, c: Option<string>, d: Option<string>)
    requires b.Some? ==> a.Some?
    ensures FirstSome([a, b, c, d]) == FirstSome([a, c, d])
  {
    if a.None? {
      assert [a, b, c, d][1..] == [b, c, d];
      assert [b, c, d][1..] == [c, d];
      assert [a, c, d][1..] == [c, d];
    }
  }

  // ---------------------------------------------------------------- the total keyword in a question

  /** The alternatives of `\b(total|grand total|amount due|total price)\b`. */
  const TotalKeywords: seq<string> := ["total", "grand total", "amount due", "total price"]

  /** kw, in lower case, occurs at i ignoring case, as a whole word. */
  predicate WordAt(q: string, i: nat, kw: string) {
    i + |kw| <= |q| && Lower(q[i..i + |kw|]) == kw
    && (i == 0 || !IsWordChar(q[i - 1]))
    && (i + |kw| == |q| || !IsWordChar(q[i + |kw|]))
  }

  /** The question names a total: one of the keywords occurs in it as a whole word. */
  predicate HasTotalKeyword(q: string) {
    exists i: nat, kw | i <= |q| && kw in TotalKeywords :: WordAt(q, i, kw)
  }

  /** The longer alternatives are redundant: each whole-word match of them holds a whole-word "total" or "amount due". */
  lemma TotalKeywordReduces(q: string)
    ensures HasTotalKeyword(q) <==> (exists i: nat :: WordAt(q, i, "total")) || (exists i: nat :: WordAt(q, i, "amount due"))
  {
    if HasTotalKeyword(q) {
      var i: nat, kw :| i <= |q| && kw in TotalKeywords && WordAt(q, i, kw);
      if kw == "grand total" {
        GrandTotalWordHoldsTotal(q, i);
      } else if kw == "total price" {
        TotalPriceWordHoldsTotal(q, i);
      }
    }
    if exists i: nat :: WordAt(q, i, "total") {
      var i: nat :| WordAt(q, i, "total");
      assert "total" in TotalKeywords;
    }
    if exists i: nat :: WordAt(q, i, "amount due") {
      var i: nat :| WordAt(q, i, "amount due");
      assert "amount due" in TotalKeywords;
    }
  }

  /** A whole-word "grand total" ends in a whole-word "total". */
  lemma GrandTotalWordHoldsTotal(q: string, i: nat)
    requires WordAt(q, i, "grand total")
    ensures WordAt(q, i + 6, "total")
  {
    assert Lower(q[i + 6..i + 11]) == Lower(q[i..i + 11])[6..];
    assert q[i + 5] == ' ' by {
      assert Lower(q[i..i + 11])[5] == ' ';
    }
  }

  /** A whole-word "total price" starts with a whole-word "total". */
  lemma TotalPriceWordHoldsTotal(q: string, i: nat)
    requires WordAt(q, i, "total price")
    ensures WordAt(q, i, "total")
  {
    assert Lower(q[i..i + 5]) == Lower(q[i..i + 11])[..5];
    assert q[i + 5] == ' ' by {
      assert Lower(q[i..i + 11])[5] == ' ';
    }
  }

  /** Every total keyword except "total" has a space at k. */
  lemma LongerKeywordsHaveSpace(kw: string) returns (k: nat)
    requires kw in TotalKeywords && kw != "total"
    ensures k < |kw| && kw[k] == ' '
  {
    if kw == "grand total" {
      k := 5;
    } else if kw == "amount due" {
      k := 6;
    } else {
      assert kw == "total price";
      k := 5;
    }
  }

  /** An indicator code: a non-empty string over `[A-Z0-9_]`. */
  predicate IsCode(s: string) {
    s != [] && All(s, IsCodeChar)
  }

  /**
   * Of all indicator codes, only "TOTAL" names a total: a code has no space, so the
   * keyword must be "total", and a code is one word, so it must be all of it.
   */
  lemma CodeNamesTotalOnlyIfTOTAL(s: string)
    requires IsCode(s)
    ensures HasTotalKeyword(s) <==> s == "TOTAL"
  {
    if HasTotalKeyword(s) {
      var i: nat, kw :| i <= |s| && kw in TotalKeywords && WordAt(s, i, kw);
      if kw != "total" {
        var k := LongerKeywordsHaveSpace(kw);
        assert false;
      }
      if i > 0 {
        assert false;
      }
      if |s| > 5 {
        assert false;
      }
      forall k | 0 <= k < 5 ensures s[k] == "TOTAL"[k] {
        assert LowerChar(s[k]) == Lower(s[0..5])[k];
      }
    }
    if s == "TOTAL" {
      forall k | 0 <= k < 5 ensures Lower(s[0..5])[k] == "total"[k] {
      }
      assert Lower(s[0..5]) == "total";
      assert "total" in TotalKeywords && WordAt(s, 0, "total");
    }
  }
}
