/** The deterministic part of the search in hooks/use-eth-search.js: the
    lookback and lookahead buffers around the current position and
    `searchAround`, which returns the first row, in scan order, whose
    address contains the query. The memoised buffers are pure functions of
    the position here. */
module Scanner {
  import opened Wrappers
  import opened Text
  import opened EthTools

  const SEARCH_LOOKBACK: nat := 5000
  const SEARCH_LOOKAHEAD: nat := 2500

  /** `address.toLowerCase().includes(input.toLowerCase())`. */
  predicate Matches(e: Entry, input: string) {
    Contains(LowerStr(e.address), LowerStr(input))
  }

  /** Index of lookback entry `i` (1-based): wraps to the top when negative. */
  function LookbackIndex(position: int, i: nat): int {
    var index := position - i;
    if index < 0 then MAX_ETH_ADDRESS + index else index
  }

  /** Index of lookahead entry `i` (1-based): wraps only when strictly above
      2^160, so 2^160 itself is kept (and then fails to encode). */
  function LookaheadIndex(position: int, i: nat): int {
    var index := position + i;
    if index > MAX_ETH_ADDRESS then index - MAX_ETH_ADDRESS else index
  }

  predicate InRange(index: int) {
    0 <= index < MAX_ETH_ADDRESS
  }

  /** Pair each index with `indexToETH(index)`, in order; the first index
      that cannot be encoded throws, as in the buffer-building loops. */
  function Encode(indices: seq<int>): (r: Result<seq<Entry>, CodecError>)
    ensures r.Success? <==> forall k | 0 <= k < |indices| :: InRange(indices[k])
    ensures r.Success? ==> |r.value| == |indices|
    ensures r.Success? ==> forall k | 0 <= k < |indices| ::
      r.value[k].index == indices[k] && Success(r.value[k].address) == IndexToEth(indices[k])
    ensures r.Failure? ==> exists k | 0 <= k < |indices| ::
      && !InRange(indices[k])
      && (forall j | 0 <= j < k :: InRange(indices[j]))
      && r.error == IndexToEth(indices[k]).error
  {
    if indices == [] then Success([])
    else
      match IndexToEth(indices[0])
      case Failure(e) =>
        assert !InRange(indices[0]);
        Failure(e)
      case Success(a) =>
        var tail := indices[1..];
        assert forall k | 0 <= k < |tail| :: tail[k] == indices[k + 1];
        match Encode(tail)
        case Failure(e) =>
          ghost var k :| 0 <= k < |tail| && !InRange(tail[k]) && (forall j | 0 <= j < k :: InRange(tail[j]))
            && e == IndexToEth(tail[k]).error;
          assert forall j | 0 <= j < k + 1 :: InRange(indices[j]) by {
            forall j | 1 <= j < k + 1
              ensures InRange(indices[j])
            {
              assert indices[j] == tail[j - 1];
            }
          }
          assert indices[k + 1] == tail[k];
          Failure(e)
        case Success(rest) =>
          var r := [Entry(indices[0], a)] + rest;
          assert forall k | 1 <= k < |indices| :: r[k] == rest[k - 1];
          Success(r)
  }

  function LookbackIndices(position: int): seq<int> {
    seq(SEARCH_LOOKBACK, k requires 0 <= k < SEARCH_LOOKBACK => LookbackIndex(position, k + 1))
  }

  function LookaheadIndices(position: int): seq<int> {
    seq(SEARCH_LOOKAHEAD, k requires 0 <= k < SEARCH_LOOKAHEAD => LookaheadIndex(position, k + 1))
  }

  /** `previousAddresses()`: the 5000 rows before `position`, nearest first. */
  function Lookback(position: int): Result<seq<Entry>, CodecError> {
    Encode(LookbackIndices(position))
  }

  /** `nextAddresses()`: the 2500 rows after `position`, nearest first. */
  function Lookahead(position: int): Result<seq<Entry>, CodecError> {
    Encode(LookaheadIndices(position))
  }

  /** From any position in [0, 2^160] the lookback is built, entry `k` is
      `k + 1` rows back modulo 2^160, and every index is a valid row. */
  lemma LookbackWraps(position: int)
    requires 0 <= position <= MAX_ETH_ADDRESS
    ensures Lookback(position).Success?
    ensures |Lookback(position).value| == SEARCH_LOOKBACK
    ensures forall k | 0 <= k < SEARCH_LOOKBACK ::
      && InRange(Lookback(position).value[k].index)
      && (Lookback(position).value[k].index == position - (k + 1)
          || Lookback(position).value[k].index == position - (k + 1) + MAX_ETH_ADDRESS)
  {
    var idx := LookbackIndices(position);
    assert forall k | 0 <= k < SEARCH_LOOKBACK ::
      idx[k] == position - (k + 1) || idx[k] == position - (k + 1) + MAX_ETH_ADDRESS;
    assert forall k | 0 <= k < |idx| :: InRange(idx[k]);
    var entries := Lookback(position).value;
    assert forall k | 0 <= k < SEARCH_LOOKBACK :: entries[k].index == idx[k];
  }

  /** Far enough below the top, the lookahead holds the next 2500 rows. */
  lemma LookaheadBelowTop(position: int)
    requires 0 <= position && position + SEARCH_LOOKAHEAD < MAX_ETH_ADDRESS
    ensures Lookahead(position).Success?
    ensures |Lookahead(position).value| == SEARCH_LOOKAHEAD
    ensures forall k | 0 <= k < SEARCH_LOOKAHEAD :: Lookahead(position).value[k].index == position + k + 1
  {
    var idx := LookaheadIndices(position);
    assert forall k | 0 <= k < SEARCH_LOOKAHEAD :: idx[k] == position + k + 1;
    assert forall k | 0 <= k < |idx| :: InRange(idx[k]);
  }

  /** Within 2500 rows of the top the lookahead reaches index 2^160 before it
      can wrap, and `indexToETH` throws there: the wrap never happens from a
      valid position. */
  lemma LookaheadThrowsNearTop(position: int)
    requires MAX_ETH_ADDRESS - SEARCH_LOOKAHEAD <= position < MAX_ETH_ADDRESS
    ensures Lookahead(position) == Failure(IndexOutOfRange)
  {
    var idx := LookaheadIndices(position);
    var top := MAX_ETH_ADDRESS - position - 1;
    assert idx[top] == MAX_ETH_ADDRESS;
    assert forall j | 0 <= j < top :: InRange(idx[j]);
    var r := Encode(idx);
    assert r.Failure?;
    var k :| 0 <= k < |idx| && !InRange(idx[k]) && (forall j | 0 <= j < k :: InRange(idx[j]))
      && r.error == IndexToEth(idx[k]).error;
    assert k == top;
  }

  /** For a valid position the lookahead succeeds exactly when it does not
      reach the top, and then no entry has wrapped. */
  lemma LookaheadNeverWraps(position: int)
    requires InRange(position)
    ensures Lookahead(position).Success? <==> position + SEARCH_LOOKAHEAD < MAX_ETH_ADDRESS
    ensures Lookahead(position).Success? ==>
      forall k | 0 <= k < SEARCH_LOOKAHEAD :: Lookahead(position).value[k].index == position + k + 1
  {
    if position + SEARCH_LOOKAHEAD < MAX_ETH_ADDRESS {
      LookaheadBelowTop(position);
    } else {
      LookaheadThrowsNearTop(position);
    }
  }

  /** The first entry of `s`, in order, that matches `input`. */
  function FirstMatch(s: seq<Entry>, input: string): (r: Option<Entry>)
    ensures r.None? <==> forall k | 0 <= k < |s| :: !Matches(s[k], input)
    ensures r.Some? ==> exists k | 0 <= k < |s| ::
      s[k] == r.value && Matches(s[k], input) && forall j | 0 <= j < k :: !Matches(s[j], input)
  {
    if s == [] then None
    else if Matches(s[0], input) then Some(s[0])
    else
      var r := FirstMatch(s[1..], input);
      assert forall k | 0 <= k < |s[1..]| :: s[1..][k] == s[k + 1];
      r
  }

  lemma {:induction false} FirstMatchAppend(a: seq<Entry>, b: seq<Entry>, input: string)
    ensures FirstMatch(a + b, input) == if FirstMatch(a, input).Some? then FirstMatch(a, input) else FirstMatch(b, input)
  {
    if a != [] {
      assert (a + b)[0] == a[0];
      assert (a + b)[1..] == a[1..] + b;
      FirstMatchAppend(a[1..], b, input);
    } else {
      assert a + b == b;
    }
  }

  /** The displayed window as the forward scan sees it: from row 0, or from
      row 1 when the current row may not be reused. */
  function WindowFrom(window: seq<Entry>, canUseCurrentIndex: bool): seq<Entry> {
    var start := if canUseCurrentIndex then 0 else 1;
    if start <= |window| then window[start..] else []
  }

  /** `searchAround`: forward, the displayed window then the lookahead (built
      only when the window has no match); backward, the lookback alone. A
      buffer that cannot be built throws. */
  function SearchAround(input: string, wantHigher: bool, canUseCurrentIndex: bool,
                        window: seq<Entry>, position: int): (r: Result<Option<Entry>, CodecError>)
    ensures wantHigher && FirstMatch(WindowFrom(window, canUseCurrentIndex), input).Some? ==>
      r == Success(FirstMatch(WindowFrom(window, canUseCurrentIndex), input))
    ensures wantHigher && Lookahead(position).Success? ==>
      r == Success(FirstMatch(WindowFrom(window, canUseCurrentIndex) + Lookahead(position).value, input))
    ensures wantHigher && r.Failure? ==>
      FirstMatch(WindowFrom(window, canUseCurrentIndex), input).None? && Lookahead(position).Failure?
    ensures wantHigher && FirstMatch(WindowFrom(window, canUseCurrentIndex), input).None? && Lookahead(position).Failure? ==>
      r == Failure(Lookahead(position).error)
    ensures !wantHigher ==> (r.Failure? <==> Lookback(position).Failure?)
    ensures !wantHigher && Lookback(position).Success? ==> r == Success(FirstMatch(Lookback(position).value, input))
  {
    if wantHigher then
      var shown := WindowFrom(window, canUseCurrentIndex);
      match FirstMatch(shown, input)
      case Some(e) =>
        assert Lookahead(position).Success? ==>
          FirstMatch(shown + Lookahead(position).value, input) == Some(e) by {
          if Lookahead(position).Success? {
            FirstMatchAppend(shown, Lookahead(position).value, input);
          }
        }
        Success(Some(e))
      case None =>
        match Lookahead(position)
        case Failure(err) => Failure(err)
        case Success(next) =>
          FirstMatchAppend(shown, next, input);
          Success(FirstMatch(next, input))
    else
      match Lookback(position)
      case Failure(err) => Failure(err)
      case Success(prev) => Success(FirstMatch(prev, input))
  }

  /** Whatever `searchAround` returns contains the query, ignoring case. */
  lemma SearchAroundMatches(input: string, wantHigher: bool, canUseCurrentIndex: bool,
                            window: seq<Entry>, position: int)
    requires SearchAround(input, wantHigher, canUseCurrentIndex, window, position).Success?
    requires SearchAround(input, wantHigher, canUseCurrentIndex, window, position).value.Some?
    ensures Matches(SearchAround(input, wantHigher, canUseCurrentIndex, window, position).value.value, input)
  {
    var shown := WindowFrom(window, canUseCurrentIndex);
    if wantHigher && FirstMatch(shown, input).None? {
      FirstMatchAppend(shown, Lookahead(position).value, input);
    }
  }

  /** Backward scans ignore `canUseCurrentIndex`. */
  lemma BackwardIgnoresCurrentIndex(input: string, window: seq<Entry>, position: int)
    ensures SearchAround(input, false, true, window, position) == SearchAround(input, false, false, window, position)
  {
  }
}
