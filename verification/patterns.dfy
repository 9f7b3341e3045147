/** Query templates of hooks/use-eth-search.js (`getAllValidPatterns`) and
    the filling of their wildcards (`generateRandomETH`). A template is a
    42-character string: the literal "0x", the sanitised query at one
    placement, and the wildcard `X` everywhere else. */
module Patterns {
  import opened Wrappers
  import opened Text
  import opened EthTools

  /** The wildcard marker: only the upper-case letter is ever replaced. */
  const WILDCARD: char := 'X'

  /** One placement of the query: a template and the position at which the
      query starts in it. */
  datatype Pattern = Pattern(template: string, leftPadding: nat)

  /** `"X".repeat(n)` with a negative `n` throws a RangeError. */
  datatype PatternError = NegativeRepeatCount

  /** A character the sanitiser keeps: `[0-9a-fx]`. */
  predicate IsQueryChar(c: char) {
    IsLowerHex(c) || c == 'x'
  }

  /** `search.toLowerCase().replace(/[^0-9a-fx]/g, "")`. */
  function Sanitize(search: string): (q: string)
    ensures |q| <= |search|
    ensures forall i | 0 <= i < |q| :: IsQueryChar(q[i])
    ensures q == LowerStr(search) <==> forall i | 0 <= i < |search| :: IsQueryChar(Lower(search[i]))
    ensures |search| == 1 ==> q == Kept(search[0])
  {
    if search == [] then []
    else
      var c := Lower(search[0]);
      var rest := Sanitize(search[1..]);
      assert LowerStr(search) == [c] + LowerStr(search[1..]);
      assert forall i | 0 <= i < |search[1..]| :: search[1..][i] == search[i + 1];
      (if IsQueryChar(c) then [c] else []) + rest
  }

  /** What sanitising keeps of one character: its lower-case form, if that
      is a query character. */
  function Kept(c: char): string {
    if IsQueryChar(Lower(c)) then [Lower(c)] else []
  }

  lemma SanitizeCons(s: string)
    requires s != []
    ensures Sanitize(s) == Kept(s[0]) + Sanitize(s[1..])
  {
  }

  /** Sanitising works character by character and keeps the survivors in
      order: it distributes over concatenation. */
  lemma {:induction false} SanitizeAppend(a: string, b: string)
    ensures Sanitize(a + b) == Sanitize(a) + Sanitize(b)
    decreases |a|
  {
    if a == [] {
      assert a + b == b;
    } else {
      var ab := a + b;
      assert ab[1..] == a[1..] + b;
      SanitizeCons(ab);
      SanitizeCons(a);
      SanitizeAppend(a[1..], b);
      ConcatAssoc(Kept(a[0]), Sanitize(a[1..]), Sanitize(b));
    }
  }

  /** Associativity of concatenation, kept apart from `SanitizeAppend` so
      that the step is proved without `Sanitize`'s contract in scope. */
  lemma ConcatAssoc(x: string, y: string, z: string)
    ensures x + (y + z) == (x + y) + z
  {
  }

  /** A query the search box accepts: lower-casing leaves only `[0-9a-fx]`. */
  predicate IsValidQuery(input: string) {
    Sanitize(input) == LowerStr(input)
  }

  /** `P` is `q` placed at `P.leftPadding` in a 42-character template that
      starts with "0x" and holds wildcards everywhere else. */
  predicate WellPlaced(P: Pattern, q: string) {
    && |P.template| == 42
    && P.template[..2] == "0x"
    && OccursAt(P.template, q, P.leftPadding)
    && forall i | 2 <= i < 42 && !(P.leftPadding <= i < P.leftPadding + |q|) :: P.template[i] == WILDCARD
  }

  /** The unprefixed placement at body offset `p`. */
  function Placement(q: string, p: nat): Pattern
    requires p + |q| <= ADDRESS_DIGITS
  {
    Pattern("0x" + Repeat(WILDCARD, p) + q + Repeat(WILDCARD, ADDRESS_DIGITS - p - |q|), p + 2)
  }

  lemma PlacementWellPlaced(q: string, p: nat)
    requires p + |q| <= ADDRESS_DIGITS
    ensures WellPlaced(Placement(q, p), q)
  {
    var t := Placement(q, p).template;
    assert t[p + 2..p + 2 + |q|] == q;
    assert t[..2] == "0x";
  }

  lemma PrefixedWellPlaced(q: string)
    requires StartsWith(q, "0x") && |q| <= 42
    ensures WellPlaced(Pattern(q + Repeat(WILDCARD, 42 - |q|), 0), q)
  {
    var t := q + Repeat(WILDCARD, 42 - |q|);
    assert t[..|q|] == q;
    assert t[..2] == q[..2];
  }

  /** `getAllValidPatterns(search)`: every placement of the sanitised query
      among the 40 body digits, or the single anchored placement of a query
      that starts with "0x". */
  function GetAllValidPatterns(search: string): (r: Result<seq<Pattern>, PatternError>)
    ensures Sanitize(search) == [] ==> r == Success([])
    ensures r.Failure? <==> StartsWith(Sanitize(search), "0x") && |Sanitize(search)| > 42
    ensures r.Success? ==> forall k | 0 <= k < |r.value| :: WellPlaced(r.value[k], Sanitize(search))
    ensures r.Success? ==> forall k | 0 <= k < |r.value| :: CountX(r.value[k].template) <= ADDRESS_DIGITS
    ensures StartsWith(Sanitize(search), "0x") && |Sanitize(search)| <= 42 ==>
      r.Success? && |r.value| == 1 && r.value[0].leftPadding == 0
    ensures Sanitize(search) != [] && !StartsWith(Sanitize(search), "0x") ==>
      && r.Success?
      && |r.value| == (if |Sanitize(search)| <= ADDRESS_DIGITS then 41 - |Sanitize(search)| else 0)
      && forall p | 0 <= p < |r.value| :: r.value[p].leftPadding == p + 2
  {
    var q := Sanitize(search);
    if q == [] then Success([])
    else if q == "0x" then
      assert [Pattern("0x" + Repeat(WILDCARD, 40), 0)] == Anchored(q);
      Success([Pattern("0x" + Repeat(WILDCARD, 40), 0)])
    else if StartsWith(q, "0x") then
      if |q| > 42 then Failure(NegativeRepeatCount)
      else Success(Anchored(q))
    else Success(Placements(q))
  }

  /** The single placement of a query that starts with "0x": at the start,
      padded with wildcards to 42 characters. */
  function Anchored(q: string): (ps: seq<Pattern>)
    requires StartsWith(q, "0x") && |q| <= 42
    ensures |ps| == 1 && ps[0].leftPadding == 0
    ensures WellPlaced(ps[0], q) && CountX(ps[0].template) <= ADDRESS_DIGITS
  {
    var P := Pattern(q + Repeat(WILDCARD, 42 - |q|), 0);
    PrefixedWellPlaced(q);
    WellPlacedWildcards(P, q);
    [P]
  }

  /** Every placement of an unprefixed query, by increasing offset. */
  function Placements(q: string): (ps: seq<Pattern>)
    ensures |ps| == if |q| <= ADDRESS_DIGITS then 41 - |q| else 0
    ensures forall p | 0 <= p < |ps| :: WellPlaced(ps[p], q) && ps[p].leftPadding == p + 2
    ensures forall p | 0 <= p < |ps| :: CountX(ps[p].template) <= ADDRESS_DIGITS
  {
    var count := if |q| <= ADDRESS_DIGITS then 41 - |q| else 0;
    var ps := seq(count, p requires 0 <= p < count => Placement(q, p));
    assert forall p | 0 <= p < count :: WellPlaced(ps[p], q) && CountX(ps[p].template) <= ADDRESS_DIGITS by {
      forall p | 0 <= p < count
        ensures WellPlaced(ps[p], q) && CountX(ps[p].template) <= ADDRESS_DIGITS
      {
        PlacementWellPlaced(q, p);
        WellPlacedWildcards(ps[p], q);
      }
    }
    ps
  }

  /** The query "0x" alone gives the single all-wildcard template. */
  lemma BarePrefixPattern(search: string)
    requires Sanitize(search) == "0x"
    ensures GetAllValidPatterns(search) == Success([Pattern("0x" + Repeat(WILDCARD, 40), 0)])
  {
    var P := GetAllValidPatterns(search).value[0];
    assert P.template == "0x" + Repeat(WILDCARD, 40);
  }

  /** Unprefixed placements are pairwise distinct: no placement is listed twice. */
  lemma PlacementsDistinct(search: string, j: nat, k: nat)
    requires Sanitize(search) != [] && !StartsWith(Sanitize(search), "0x")
    requires j < k < |GetAllValidPatterns(search).value|
    ensures GetAllValidPatterns(search).value[j] != GetAllValidPatterns(search).value[k]
  {
  }

  // ---------------------------------------------------------------------------
  // Filling wildcards

  /** Number of wildcard slots in a template. */
  function CountX(t: string): (n: nat)
    ensures n <= |t|
  {
    if t == [] then 0 else (if t[0] == WILDCARD then 1 else 0) + CountX(t[1..])
  }

  lemma WellPlacedWildcards(P: Pattern, q: string)
    requires WellPlaced(P, q)
    ensures CountX(P.template) <= ADDRESS_DIGITS
  {
    var t := P.template;
    assert t[0] == t[..2][0] && t[1] == t[..2][1];
    assert t[1..][1..] == t[2..];
  }

  /** `generateRandomETH(pattern)`: every wildcard, left to right, takes the
      next supplied digit; every other character is kept. The digits stand
      for the successive `Math.random()` draws. */
  function Fill(template: string, digits: seq<Nibble>): (r: string)
    requires CountX(template) <= |digits|
    ensures |r| == |template|
    ensures forall i | 0 <= i < |template| :: template[i] == WILDCARD ==> IsLowerHex(r[i])
    ensures forall i | 0 <= i < |template| :: template[i] != WILDCARD ==> r[i] == template[i]
  {
    if template == [] then []
    else if template[0] == WILDCARD then
      HexCharIsLowerHex(digits[0]);
      [HexChar(digits[0])] + Fill(template[1..], digits[1..])
    else [template[0]] + Fill(template[1..], digits)
  }

  /** The digits of `address` at the wildcard slots of `template`. */
  function Wildcards(template: string, address: string): (ds: seq<Nibble>)
    requires |address| == |template|
    requires forall i | 0 <= i < |template| :: template[i] == WILDCARD ==> IsLowerHex(address[i])
    ensures |ds| == CountX(template)
  {
    if template == [] then []
    else if template[0] == WILDCARD then
      assert IsLowerHex(address[0]);
      [HexValue(address[0])] + Wildcards(template[1..], address[1..])
    else Wildcards(template[1..], address[1..])
  }

  /** Every string that agrees with a template outside its wildcards, and has
      lower-case hex digits at them, is one of its fillings. */
  lemma {:induction false} FillComplete(template: string, address: string)
    requires |address| == |template|
    requires forall i | 0 <= i < |template| ::
      if template[i] == WILDCARD then IsLowerHex(address[i]) else address[i] == template[i]
    ensures Fill(template, Wildcards(template, address)) == address
  {
    if template != [] {
      assert forall i | 0 <= i < |template[1..]| :: template[1..][i] == template[i + 1] && address[1..][i] == address[i + 1];
      FillComplete(template[1..], address[1..]);
    }
  }

  /** Filling keeps the query where the template placed it. */
  lemma FillKeepsQuery(P: Pattern, q: string, digits: seq<Nibble>)
    requires WellPlaced(P, q)
    requires forall i | 0 <= i < |q| :: IsQueryChar(q[i])
    requires CountX(P.template) <= |digits|
    ensures OccursAt(Fill(P.template, digits), q, P.leftPadding)
  {
    QueryHasNoWildcard(q);
    FillKeepsLiteral(P.template, digits, q, P.leftPadding);
  }

  /** The upper-case wildcard is never a query character. */
  lemma QueryHasNoWildcard(q: string)
    requires forall i | 0 <= i < |q| :: IsQueryChar(q[i])
    ensures forall i | 0 <= i < |q| :: q[i] != WILDCARD
  {
  }

  /** A run of non-wildcard characters survives filling. */
  lemma FillKeepsLiteral(t: string, digits: seq<Nibble>, q: string, k: nat)
    requires CountX(t) <= |digits|
    requires OccursAt(t, q, k)
    requires forall i | 0 <= i < |q| :: q[i] != WILDCARD
    ensures OccursAt(Fill(t, digits), q, k)
  {
    var a := Fill(t, digits);
    forall i | 0 <= i < |q|
      ensures a[k + i] == q[i]
    {
      assert t[k + i] == t[k..k + |q|][i];
    }
    assert a[k..k + |q|] == q;
  }

  /** A filled template is "0x", then 40 characters of `[0-9a-fx]`, with the
      query where the template placed it. */
  lemma FilledShape(P: Pattern, q: string, digits: seq<Nibble>)
    requires WellPlaced(P, q)
    requires forall i | 0 <= i < |q| :: IsQueryChar(q[i])
    requires CountX(P.template) <= |digits|
    ensures var a := Fill(P.template, digits);
      && |a| == 42
      && a[..2] == "0x"
      && OccursAt(a, q, P.leftPadding)
      && forall i | 2 <= i < 42 :: IsQueryChar(a[i])
  {
    var t := P.template;
    var a := Fill(t, digits);
    FillKeepsQuery(P, q, digits);
    assert t[0] == t[..2][0] && t[1] == t[..2][1];
    assert a[..2] == t[..2];
    forall i | 2 <= i < 42
      ensures IsQueryChar(a[i])
    {
      if t[i] != WILDCARD {
        assert t[i] == t[P.leftPadding..P.leftPadding + |q|][i - P.leftPadding];
      }
    }
  }

  /** Completeness of the unprefixed placements: every canonical address
      holding the query at body offset `p` is a filling of pattern `p`. */
  lemma PatternsComplete(search: string, address: string, p: nat)
    requires Sanitize(search) != [] && !StartsWith(Sanitize(search), "0x")
    requires IsCanonical(address)
    requires OccursAt(address, Sanitize(search), p + 2) && p + |Sanitize(search)| <= ADDRESS_DIGITS
    ensures p < |GetAllValidPatterns(search).value|
    ensures exists ds: seq<Nibble> | CountX(GetAllValidPatterns(search).value[p].template) <= |ds| ::
      Fill(GetAllValidPatterns(search).value[p].template, ds) == address
  {
    var P := GetAllValidPatterns(search).value[p];
    AgreesWithTemplate(P, Sanitize(search), address);
    FillComplete(P.template, address);
  }

  /** A canonical address holding the query where a pattern places it agrees
      with the pattern outside its wildcards and has hex digits at them. */
  lemma AgreesWithTemplate(P: Pattern, q: string, address: string)
    requires WellPlaced(P, q) && IsCanonical(address)
    requires forall i | 0 <= i < |q| :: IsQueryChar(q[i])
    requires OccursAt(address, q, P.leftPadding)
    ensures |address| == |P.template|
    ensures forall i | 0 <= i < |P.template| ::
      if P.template[i] == WILDCARD then IsLowerHex(address[i]) else address[i] == P.template[i]
  {
    var t := P.template;
    var lp := P.leftPadding;
    QueryHasNoWildcard(q);
    forall i | 0 <= i < |t|
      ensures if t[i] == WILDCARD then IsLowerHex(address[i]) else address[i] == t[i]
    {
      if i < 2 {
        assert address[i] == address[..2][i] && t[i] == t[..2][i];
      } else if lp <= i < lp + |q| {
        assert address[i] == address[lp..lp + |q|][i - lp];
        assert t[i] == t[lp..lp + |q|][i - lp];
      } else {
        assert address[i] == address[2..][i - 2];
      }
    }
  }
}
