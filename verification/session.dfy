/** The session of hooks/use-eth-search.js: the state `(search, address,
    nextStates)` and the three entry points `searchETH`, `nextETH` and
    `previousETH`. Each call is a function from the state, and from what it
    reads outside the hook (the position, the displayed window and the
    random draws), to the new state and the value it returns. */
module Session {
  import opened Wrappers
  import opened Text
  import opened EthTools
  import opened Patterns
  import opened Scanner
  import opened Probe

  /** Exactly the 500 draws of the best-of phase. */
  type Draws = ds: seq<Draw> | |ds| == RANDOM_SEARCH_ITERATIONS witness seq(500, _ => Draw(0, seq(40, _ => 0)))

  /** What one call reads besides the session state: `virtualPosition`,
      `displayedAddresses`, and its `Math.random()` values. */
  datatype Env = Env(position: int, window: seq<Entry>, draws: Draws, fallback: Draw)

  /** `search`, `address` and the history stack `nextStates`. */
  datatype State = State(search: Option<string>, address: Option<string>, history: seq<Entry>)

  const Initial: State := State(None, None, [])

  /** The value a call returns: an address, `null`, or an exception that
      escapes the call. */
  datatype Reply = Found(address: string) | NoResult | Threw

  datatype Step = Step(state: State, reply: Reply)

  /** The `inner()` of each entry point: the window scan, then the probe. */
  datatype Lookup = Located(entry: Entry) | Unlocated | Crashed

  /** `!address || !search` is false: a non-empty search and address. */
  predicate Active(st: State) {
    st.search.Some? && st.search.value != [] && st.address.Some? && st.address.value != []
  }

  function Locate(input: string, wantHigher: bool, canUseCurrentIndex: bool,
                  history: seq<Entry>, env: Env): (r: Lookup)
    ensures SearchAround(input, wantHigher, canUseCurrentIndex, env.window, env.position).Failure? ==> r == Crashed
    ensures SearchAround(input, wantHigher, canUseCurrentIndex, env.window, env.position) == Success(None) ==>
      match SearchRandomly(input, wantHigher, env.position, history, env.draws, env.fallback)
      case Failure(_) => r == Crashed
      case Success(NotFound) => r == Unlocated
      case Success(p) => r == Located(Entry(p.hit.index, p.hit.address))
    ensures SearchAround(input, wantHigher, canUseCurrentIndex, env.window, env.position).Success? &&
            SearchAround(input, wantHigher, canUseCurrentIndex, env.window, env.position).value.Some? ==>
      r == Located(SearchAround(input, wantHigher, canUseCurrentIndex, env.window, env.position).value.value)
    ensures r.Located? && IsValidQuery(input) ==> Matches(r.entry, input)
    ensures r.Located? && input != [] ==> r.entry.address != []
  {
    match SearchAround(input, wantHigher, canUseCurrentIndex, env.window, env.position)
    case Failure(_) => Crashed
    case Success(Some(e)) =>
      SearchAroundMatches(input, wantHigher, canUseCurrentIndex, env.window, env.position);
      Located(e)
    case Success(None) =>
      match SearchRandomly(input, wantHigher, env.position, history, env.draws, env.fallback)
      case Failure(_) => Crashed
      case Success(NotFound) => Unlocated
      case Success(p) =>
        assert IsValidQuery(input) ==> Matches(Entry(p.hit.index, p.hit.address), input) by {
          if IsValidQuery(input) {
            ValidHitMatches(p.hit, input);
          }
        }
        Located(Entry(p.hit.index, p.hit.address))
  }

  /** `searchETH(input)`: a query with a character outside `[0-9a-fx]` after
      lower-casing, or an empty one, changes nothing. Otherwise the history
      is cleared first, so it stays empty when nothing is found; a found row
      becomes the address and the only history entry. The probe filters
      against the history as it was before the clear. */
  function SearchEth(st: State, input: string, env: Env): (s: Step)
    ensures !IsValidQuery(input) || input == [] ==> s == Step(st, NoResult)
    ensures IsValidQuery(input) && input != [] && !s.reply.Found? ==>
      s.state == st.(history := [])
    ensures s.reply.Found? ==>
      && IsValidQuery(input) && input != []
      && s.state.search == Some(LowerStr(input))
      && s.state.address == Some(s.reply.address)
      && |s.state.history| == 1
      && s.state.history[0].address == s.reply.address
      && s.reply.address != []
      && Contains(LowerStr(s.reply.address), LowerStr(input))
    ensures IsValidQuery(input) && input != [] ==>
      && (s.reply.Found? <==> Locate(input, true, true, st.history, env).Located?)
      && (s.reply == Threw <==> Locate(input, true, true, st.history, env).Crashed?)
      && (s.reply.Found? ==> s.state.history == [Locate(input, true, true, st.history, env).entry])
  {
    var lowered := LowerStr(input);
    if Sanitize(input) != lowered then Step(st, NoResult)
    else if lowered == [] then Step(st, NoResult)
    else
      var cleared := st.(history := []);
      match Locate(input, true, true, st.history, env)
      case Crashed => Step(cleared, Threw)
      case Unlocated => Step(cleared, NoResult)
      case Located(e) => Step(State(Some(lowered), Some(e.address), [e]), Found(e.address))
  }

  /** `nextETH()`: with an active search, scan forward past the current row,
      then probe upward; a found row becomes the address and is pushed. */
  function NextEth(st: State, env: Env): (s: Step)
    ensures !Active(st) ==> s == Step(st, NoResult)
    ensures !s.reply.Found? ==> s.state == st
    ensures s.reply.Found? ==>
      && Active(st)
      && s.state.search == st.search
      && s.state.address == Some(s.reply.address)
      && |s.state.history| == |st.history| + 1
      && s.state.history[..|st.history|] == st.history
      && s.state.history[|st.history|].address == s.reply.address
      && s.reply.address != []
    ensures s.reply.Found? && IsValidQuery(st.search.value) ==>
      Contains(LowerStr(s.reply.address), LowerStr(st.search.value))
    ensures Active(st) ==>
      && (s.reply.Found? <==> Locate(st.search.value, true, false, st.history, env).Located?)
      && (s.reply == Threw <==> Locate(st.search.value, true, false, st.history, env).Crashed?)
      && (s.reply.Found? ==> s.state.history[|st.history|] == Locate(st.search.value, true, false, st.history, env).entry)
  {
    if !Active(st) then Step(st, NoResult)
    else
      match Locate(st.search.value, true, false, st.history, env)
      case Crashed => Step(st, Threw)
      case Unlocated => Step(st, NoResult)
      case Located(e) =>
        var h := st.history + [e];
        assert h[..|st.history|] == st.history;
        Step(st.(address := Some(e.address), history := h), Found(e.address))
  }

  /** `previousETH()`: with more than one history entry, drop the last one
      and return to the one before it without searching; otherwise scan
      backward, then probe downward, and move the address to a found row
      without pushing it. */
  function PreviousEth(st: State, env: Env): (s: Step)
    ensures !Active(st) ==> s == Step(st, NoResult)
    ensures Active(st) && |st.history| > 1 ==>
      && s.reply == Found(st.history[|st.history| - 2].address)
      && s.state == st.(address := Some(st.history[|st.history| - 2].address),
                        history := st.history[..|st.history| - 1])
    ensures |st.history| <= 1 ==> s.state.history == st.history && s.state.search == st.search
    ensures |st.history| <= 1 && s.reply.Found? ==>
      s.state.address == Some(s.reply.address) && s.reply.address != []
    ensures !s.reply.Found? ==> s.state == st
    ensures s.reply.Found? && |st.history| <= 1 && IsValidQuery(st.search.value) ==>
      Contains(LowerStr(s.reply.address), LowerStr(st.search.value))
    ensures Active(st) && |st.history| <= 1 ==>
      && (s.reply.Found? <==> Locate(st.search.value, false, false, st.history, env).Located?)
      && (s.reply == Threw <==> Locate(st.search.value, false, false, st.history, env).Crashed?)
      && (s.reply.Found? ==> s.reply.address == Locate(st.search.value, false, false, st.history, env).entry.address)
  {
    if !Active(st) then Step(st, NoResult)
    else if |st.history| > 1 then
      var kept := st.history[..|st.history| - 1];
      var back := kept[|kept| - 1];
      Step(st.(address := Some(back.address), history := kept), Found(back.address))
    else
      match Locate(st.search.value, false, false, st.history, env)
      case Crashed => Step(st, Threw)
      case Unlocated => Step(st, NoResult)
      case Located(e) => Step(st.(address := Some(e.address)), Found(e.address))
  }

  // ---------------------------------------------------------------------------
  // Properties of the session

  /** What every reachable state satisfies: a non-empty history only with an
      active search; the stored search is a valid, non-empty, lower-case
      query; and every history row holds it. */
  predicate Invariant(st: State) {
    && (st.history != [] ==> Active(st))
    && (st.search.Some? ==>
         && IsValidQuery(st.search.value)
         && st.search.value != []
         && LowerStr(st.search.value) == st.search.value
         && forall k | 0 <= k < |st.history| :: Contains(LowerStr(st.history[k].address), st.search.value))
  }

  /** Lower-casing a valid query keeps it valid, non-empty and fixed. */
  lemma LoweredQueryValid(input: string)
    requires IsValidQuery(input) && input != []
    ensures IsValidQuery(LowerStr(input)) && LowerStr(input) != []
    ensures LowerStr(LowerStr(input)) == LowerStr(input)
  {
    var low := LowerStr(input);
    assert forall i | 0 <= i < |input| :: IsQueryChar(Lower(input[i]));
    forall i | 0 <= i < |low|
      ensures IsQueryChar(Lower(low[i]))
    {
      assert Lower(low[i]) == Lower(input[i]);
    }
  }

  lemma InitialInvariant()
    ensures Invariant(Initial)
  {
  }

  /** `searchETH` preserves the invariant. */
  lemma SearchKeepsInvariant(st: State, input: string, env: Env)
    requires Invariant(st)
    ensures Invariant(SearchEth(st, input, env).state)
  {
    var s := SearchEth(st, input, env);
    if s.reply.Found? {
      LoweredQueryValid(input);
      assert s.state.history[0].address == s.reply.address;
    }
  }

  /** `nextETH` preserves the invariant. */
  lemma NextKeepsInvariant(st: State, env: Env)
    requires Invariant(st)
    ensures Invariant(NextEth(st, env).state)
  {
    var s := NextEth(st, env);
    if s.reply.Found? {
      var h := s.state.history;
      var q := st.search.value;
      forall k | 0 <= k < |h|
        ensures Contains(LowerStr(h[k].address), q)
      {
        if k < |st.history| {
          assert h[k] == h[..|st.history|][k];
        }
      }
    }
  }

  /** `previousETH` preserves the invariant. */
  lemma PreviousKeepsInvariant(st: State, env: Env)
    requires Invariant(st)
    ensures Invariant(PreviousEth(st, env).state)
  {
    var s := PreviousEth(st, env);
    if Active(st) && |st.history| > 1 {
      var q := st.search.value;
      var back := st.history[|st.history| - 2];
      assert Contains(LowerStr(back.address), q);
      assert back.address != [];
      var h := s.state.history;
      forall k | 0 <= k < |h|
        ensures Contains(LowerStr(h[k].address), q)
      {
        assert h[k] == st.history[k];
      }
    }
  }

  /** In a reachable state every address a call returns holds the query. */
  lemma RepliesHoldQuery(st: State, input: string, env: Env)
    requires Invariant(st)
    ensures SearchEth(st, input, env).reply.Found? ==>
      Contains(LowerStr(SearchEth(st, input, env).reply.address), LowerStr(input))
    ensures NextEth(st, env).reply.Found? ==>
      Contains(LowerStr(NextEth(st, env).reply.address), st.search.value)
    ensures PreviousEth(st, env).reply.Found? ==>
      Contains(LowerStr(PreviousEth(st, env).reply.address), st.search.value)
  {
  }

  /** `previousETH` on a state that has one more history row than `st`, and
      otherwise the same search, goes back to `st`'s last row. */
  lemma PreviousOfPushed(t: State, st: State, env: Env)
    requires |st.history| >= 1 && |t.history| == |st.history| + 1
    requires t.history[..|st.history|] == st.history
    requires t.search == st.search && Active(t)
    ensures PreviousEth(t, env) ==
      Step(st.(address := Some(st.history[|st.history| - 1].address)),
           Found(st.history[|st.history| - 1].address))
  {
    assert t.history[|t.history| - 2] == st.history[|st.history| - 1];
  }

  /** `nextETH` followed by `previousETH` returns to the row before the
      `next`, from the history alone, whatever the second call would have
      drawn. */
  lemma NextThenPrevious(st: State, env1: Env, env2: Env)
    requires |st.history| >= 1
    requires NextEth(st, env1).reply.Found?
    ensures PreviousEth(NextEth(st, env1).state, env2) ==
      Step(st.(address := Some(st.history[|st.history| - 1].address)),
           Found(st.history[|st.history| - 1].address))
  {
    PreviousOfPushed(NextEth(st, env1).state, st, env2);
  }

  /** search, next, next, previous: the last call returns the first `next`'s
      row, and the session is back in the state the first `next` left. */
  lemma {:induction false} HistoryReplay(st: State, input: string, e1: Env, e2: Env, e3: Env, e4: Env)
    requires SearchEth(st, input, e1).reply.Found?
    requires NextEth(SearchEth(st, input, e1).state, e2).reply.Found?
    requires NextEth(NextEth(SearchEth(st, input, e1).state, e2).state, e3).reply.Found?
    ensures var s1 := SearchEth(st, input, e1).state;
      var s2 := NextEth(s1, e2);
      var s4 := PreviousEth(NextEth(s2.state, e3).state, e4);
      s4.reply == s2.reply && s4.state == s2.state
  {
    var s1 := SearchEth(st, input, e1).state;
    var s2 := NextEth(s1, e2);
    assert |s2.state.history| == 2;
    NextThenPrevious(s2.state, e3, e4);
    assert s2.state.address == Some(s2.state.history[1].address);
  }

  /** When the displayed window already holds a match, `searchETH` is
      deterministic: from any state and with any draws it lands on the same
      row, with a one-entry history. */
  lemma SearchWindowHitDeterministic(st1: State, st2: State, input: string, env1: Env, env2: Env)
    requires IsValidQuery(input) && input != []
    requires env1.window == env2.window && env1.position == env2.position
    requires FirstMatch(env1.window, input).Some?
    ensures SearchEth(st1, input, env1) == SearchEth(st2, input, env2)
    ensures SearchEth(st1, input, env1).state.history == [FirstMatch(env1.window, input).value]
  {
    assert WindowFrom(env1.window, true) == env1.window;
  }

  /** The probe inside `searchETH` filters against the history from before the
      clear: an accepted best-of hit is never a row of the old history. */
  lemma SearchProbeUsesOldHistory(st: State, input: string, env: Env)
    requires IsValidQuery(input) && input != []
    requires SearchAround(input, true, true, env.window, env.position) == Success(None)
    requires SearchRandomly(input, true, env.position, st.history, env.draws, env.fallback).Success?
    requires SearchRandomly(input, true, env.position, st.history, env.draws, env.fallback).value.Constrained?
    ensures SearchEth(st, input, env).reply.Found?
    ensures !InHistory(SearchEth(st, input, env).reply.address, st.history)
  {
    var p := SearchRandomly(input, true, env.position, st.history, env.draws, env.fallback).value;
    var patterns := GetAllValidPatterns(input).value;
    assert p == ProbePatterns(patterns, env.position, true, st.history, env.draws, env.fallback);
  }
}
