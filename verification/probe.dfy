/** The randomised part of the search in hooks/use-eth-search.js
    (`searchRandomly`): 500 draws, each a pattern and its wildcard digits,
    keep the accepted candidate closest to the current position in the
    requested direction; when none is accepted, one more draw is returned
    unconstrained. The `Math.random()` values are supplied as `Draw`s. */
module Probe {
  import opened Wrappers
  import opened Text
  import opened EthTools
  import opened Patterns

  const RANDOM_SEARCH_ITERATIONS: nat := 500

  /** Forty wildcard digits: at least as many as any template has slots. */
  type Digits = ds: seq<Nibble> | |ds| == ADDRESS_DIGITS witness seq(40, _ => 0)

  /** One draw: the pattern choice (`Math.floor(Math.random() * patterns.length)`,
      taken modulo the number of patterns) and the digits for its wildcards. */
  datatype Draw = Draw(choice: nat, digits: Digits)

  /** A decoded candidate: `{ address, pattern, leftPadding, index }`. */
  datatype Hit = Hit(address: string, pattern: Pattern, index: nat)

  /** The outcome, tagged by which phase produced it. */
  datatype ProbeResult = Constrained(hit: Hit) | Fallback(hit: Hit) | NotFound

  predicate FitsDigits(patterns: seq<Pattern>) {
    forall k | 0 <= k < |patterns| :: CountX(patterns[k].template) <= ADDRESS_DIGITS
  }

  function Chosen(patterns: seq<Pattern>, d: Draw): Pattern
    requires |patterns| > 0
  {
    patterns[d.choice % |patterns|]
  }

  /** One iteration: fill the chosen pattern and decode it; `None` when
      `ethToIndex` throws and the iteration is skipped. */
  function Candidate(patterns: seq<Pattern>, d: Draw): (c: Option<Hit>)
    requires |patterns| > 0 && FitsDigits(patterns)
    ensures c.Some? ==> c.value.pattern == Chosen(patterns, d)
    ensures c.Some? ==> EthToIndex(c.value.address) == Success(c.value.index)
    ensures c.Some? <==> EthToIndex(Fill(Chosen(patterns, d).template, d.digits)).Success?
    ensures c.Some? ==> c.value.address == Fill(Chosen(patterns, d).template, d.digits)
  {
    var P := Chosen(patterns, d);
    var address := Fill(P.template, d.digits);
    match EthToIndex(address)
    case Failure(_) => None
    case Success(index) => Some(Hit(address, P, index))
  }

  /** `nextStates.some(({ address }) => address === candidate)`. */
  predicate InHistory(address: string, history: seq<Entry>) {
    exists k | 0 <= k < |history| :: history[k].address == address
  }

  /** The two filters of a candidate: the direction relative to the
      position, and not already in the history. */
  predicate Acceptable(h: Hit, position: int, wantHigher: bool, history: seq<Entry>) {
    && (if wantHigher then h.index > position else h.index < position)
    && !InHistory(h.address, history)
  }

  /** `h` is strictly closer than `best` in the search direction. */
  predicate Closer(h: Hit, best: Hit, wantHigher: bool) {
    if wantHigher then h.index < best.index else h.index > best.index
  }

  /** A decoded candidate that passes both filters. */
  predicate Accepted(c: Option<Hit>, position: int, wantHigher: bool, history: seq<Entry>) {
    c.Some? && Acceptable(c.value, position, wantHigher, history)
  }

  /** The loop of `searchRandomly` over the decoded candidates of its draws
      (`None` for a skipped iteration): the running best after all of them. */
  function BestOf(position: int, wantHigher: bool, history: seq<Entry>,
                  candidates: seq<Option<Hit>>): (best: Option<Hit>)
    ensures best.None? <==> forall k | 0 <= k < |candidates| :: !Accepted(candidates[k], position, wantHigher, history)
    ensures best.Some? ==> Acceptable(best.value, position, wantHigher, history)
    ensures best.Some? ==> exists k | 0 <= k < |candidates| :: candidates[k] == best
    ensures best.Some? ==> forall k | 0 <= k < |candidates| ::
      Accepted(candidates[k], position, wantHigher, history) ==>
        !Closer(candidates[k].value, best.value, wantHigher)
    decreases |candidates|
  {
    if candidates == [] then None
    else
      var init := candidates[..|candidates| - 1];
      var prev := BestOf(position, wantHigher, history, init);
      var c := candidates[|candidates| - 1];
      assert forall k | 0 <= k < |init| :: init[k] == candidates[k];
      if Accepted(c, position, wantHigher, history) && (prev.None? || Closer(c.value, prev.value, wantHigher))
      then c
      else prev
  }

  /** The decoded candidate of every draw, in order. */
  function Candidates(patterns: seq<Pattern>, draws: seq<Draw>): (cs: seq<Option<Hit>>)
    requires |patterns| > 0 && FitsDigits(patterns)
    ensures |cs| == |draws|
    ensures forall k | 0 <= k < |draws| :: cs[k] == Candidate(patterns, draws[k])
  {
    seq(|draws|, k requires 0 <= k < |draws| => Candidate(patterns, draws[k]))
  }

  /** What a returned hit always satisfies: it decodes to its index, it is a
      canonical address, and it holds the sanitised query where its pattern
      placed it. */
  predicate ValidHit(h: Hit, input: string) {
    && EthToIndex(h.address) == Success(h.index)
    && IsCanonical(h.address)
    && WellPlaced(h.pattern, Sanitize(input))
    && OccursAt(h.address, Sanitize(input), h.pattern.leftPadding)
  }

  /** The two phases of `searchRandomly` over a non-empty pattern set: the
      best accepted candidate of the draws, or else the fallback draw with
      no filter, or `null` when that one does not decode. */
  function ProbePatterns(patterns: seq<Pattern>, position: int, wantHigher: bool, history: seq<Entry>,
                         draws: seq<Draw>, fallback: Draw): (r: ProbeResult)
    requires |patterns| > 0 && FitsDigits(patterns)
    ensures r.Constrained? ==>
      && Acceptable(r.hit, position, wantHigher, history)
      && (exists k | 0 <= k < |draws| :: Candidate(patterns, draws[k]) == Some(r.hit))
      && forall k | 0 <= k < |draws| ::
        Accepted(Candidate(patterns, draws[k]), position, wantHigher, history) ==>
          !Closer(Candidate(patterns, draws[k]).value, r.hit, wantHigher)
    ensures !r.Constrained? <==>
      forall k | 0 <= k < |draws| :: !Accepted(Candidate(patterns, draws[k]), position, wantHigher, history)
    ensures r.Fallback? ==> Candidate(patterns, fallback) == Some(r.hit)
    ensures r.NotFound? ==> Candidate(patterns, fallback).None?
  {
    var cs := Candidates(patterns, draws);
    var best := BestOf(position, wantHigher, history, cs);
    if best.Some? then Constrained(best.value)
    else
      match Candidate(patterns, fallback)
      case None => NotFound
      case Some(h) => Fallback(h)
  }

  /** `searchRandomly`: `null` for an empty pattern set, a throw when the
      pattern set cannot be built, and otherwise the two phases above. */
  function SearchRandomly(input: string, wantHigher: bool, position: int, history: seq<Entry>,
                          draws: seq<Draw>, fallback: Draw): (r: Result<ProbeResult, PatternError>)
    ensures r.Failure? <==> GetAllValidPatterns(input).Failure?
    ensures GetAllValidPatterns(input) == Success([]) ==> r == Success(NotFound)
    ensures GetAllValidPatterns(input).Success? && GetAllValidPatterns(input).value != [] ==>
      r == Success(ProbePatterns(GetAllValidPatterns(input).value, position, wantHigher, history, draws, fallback))
    ensures r.Success? && !r.value.NotFound? ==> ValidHit(r.value.hit, input)
  {
    match GetAllValidPatterns(input)
    case Failure(e) => Failure(e)
    case Success(patterns) =>
      if patterns == [] then Success(NotFound)
      else
        var result := ProbePatterns(patterns, position, wantHigher, history, draws, fallback);
        assert !result.NotFound? ==> ValidHit(result.hit, input) by {
          if result.Constrained? {
            var k :| 0 <= k < |draws| && Candidate(patterns, draws[k]) == Some(result.hit);
            CandidateIsValid(input, patterns, draws[k]);
          } else if result.Fallback? {
            CandidateIsValid(input, patterns, fallback);
          }
        }
        Success(result)
  }

  /** Every decoded candidate of a pattern of `input` is a `ValidHit`. */
  lemma CandidateIsValid(input: string, patterns: seq<Pattern>, d: Draw)
    requires GetAllValidPatterns(input) == Success(patterns) && |patterns| > 0
    requires Candidate(patterns, d).Some?
    ensures ValidHit(Candidate(patterns, d).value, input)
  {
    var h := Candidate(patterns, d).value;
    var q := Sanitize(input);
    var P := Chosen(patterns, d);
    FilledShape(P, q, d.digits);
    var a := h.address;
    assert a == Fill(P.template, d.digits);
    assert AllHex(a[2..]);
    forall i | 0 <= i < 40
      ensures IsLowerHex(a[2..][i])
    {
      assert a[2..][i] == a[i + 2];
    }
  }

  /** The query holds a literal `x` that lands in the 40-digit body: past the
      "0x" of a prefixed query, or anywhere in an unprefixed one. */
  predicate HasBodyX(q: string) {
    exists i | 0 <= i < |q| :: q[i] == 'x' && (2 <= i || !StartsWith(q, "0x"))
  }

  /** Only the upper-case `X` is filled, so a body `x` survives into every
      candidate and `ethToIndex` rejects it: no draw ever decodes. */
  lemma CandidateWithBodyX(input: string, patterns: seq<Pattern>, d: Draw)
    requires GetAllValidPatterns(input) == Success(patterns) && |patterns| > 0
    requires HasBodyX(Sanitize(input))
    ensures Candidate(patterns, d).None?
  {
    if Candidate(patterns, d).Some? {
      BodyXNotCanonical(input, patterns, d);
      CandidateIsValid(input, patterns, d);
    }
  }

  /** Filling any pattern of a query with a body `x` keeps that `x` in the
      body, so the filled string is not a canonical address. */
  lemma BodyXNotCanonical(input: string, patterns: seq<Pattern>, d: Draw)
    requires GetAllValidPatterns(input) == Success(patterns) && |patterns| > 0
    requires HasBodyX(Sanitize(input))
    ensures !IsCanonical(Fill(Chosen(patterns, d).template, d.digits))
  {
    var q := Sanitize(input);
    var P := Chosen(patterns, d);
    FillKeepsQuery(P, q, d.digits);
    var a := Fill(P.template, d.digits);
    var lp := P.leftPadding;
    assert OccursAt(a, q, lp);
    var i :| 0 <= i < |q| && q[i] == 'x' && (2 <= i || !StartsWith(q, "0x"));
    assert 2 <= lp + i by {
      if !StartsWith(q, "0x") {
        assert P == patterns[d.choice % |patterns|];
      }
    }
    XInBodyNotCanonical(a, q, lp, i);
  }

  /** An address holding an `x` past its first two characters is not canonical. */
  lemma XInBodyNotCanonical(a: string, q: string, k: nat, i: nat)
    requires OccursAt(a, q, k) && i < |q| && q[i] == 'x' && 2 <= k + i
    ensures !IsCanonical(a)
  {
    assert a[k + i] == a[k..k + |q|][i];
    if |a| == 42 && a[..2] == "0x" {
      assert !IsLowerHex(a[2..][k + i - 2]);
    }
  }

  /** With a body `x` in the query the probe never finds anything: neither a
      best-of candidate nor the fallback decodes. */
  lemma BodyXNeverFound(input: string, wantHigher: bool, position: int, history: seq<Entry>,
                        draws: seq<Draw>, fallback: Draw)
    requires HasBodyX(Sanitize(input))
    ensures SearchRandomly(input, wantHigher, position, history, draws, fallback).Success? ==>
      SearchRandomly(input, wantHigher, position, history, draws, fallback).value == NotFound
  {
    if GetAllValidPatterns(input).Success? && GetAllValidPatterns(input).value != [] {
      var patterns := GetAllValidPatterns(input).value;
      forall k | 0 <= k < |draws|
        ensures Candidate(patterns, draws[k]).None?
      {
        CandidateWithBodyX(input, patterns, draws[k]);
      }
      CandidateWithBodyX(input, patterns, fallback);
    }
  }

  /** A hit holds the query itself, ignoring case, when the query is valid. */
  lemma ValidHitMatches(h: Hit, input: string)
    requires ValidHit(h, input) && IsValidQuery(input)
    ensures Contains(LowerStr(h.address), LowerStr(input))
  {
    var q := Sanitize(input);
    var lp := h.pattern.leftPadding;
    assert IsLowerCase(h.address) by {
      forall i | 0 <= i < |h.address|
        ensures !('A' <= h.address[i] <= 'Z')
      {
        if i < 2 {
          assert h.address[i] == h.address[..2][i];
        } else {
          assert h.address[i] == h.address[2..][i - 2];
        }
      }
    }
    LowerStrOfLowerCase(h.address);
    ContainsAt(LowerStr(h.address), LowerStr(input), lp);
  }
}
