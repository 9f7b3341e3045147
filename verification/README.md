# ETH address browser: a Dafny model of the search core

The browser lists every one of the 2^160 Ethereum addresses in index order.
Row `i` shows the address `"0x"` followed by `i` written as 40 lower-case,
zero-padded hex digits. You can scroll, jump by keyboard, keep favourites,
and search for a hex fragment. This project models that core as pure Dafny
functions, and proves what the code promises about it:

- `wrappers.dfy`: `Option` and `Result`. A `Failure` stands for every JavaScript
  exception of the core.
- `text.dfy`: the JavaScript string operations the core uses (`toLowerCase`,
  `includes`, `indexOf`, `repeat`, `padStart`, `slice`), on `seq<char>`.
- `eth_tools.dfy`: the codec of `lib/ethTools.js` (`intToETH`, `indexToETH`,
  `ethToIndex`) and `MAX_ETH_ADDRESS` of `lib/constants.js`, with both
  round trips.
- `patterns.dfy`: `getAllValidPatterns` (the query templates) and
  `generateRandomETH` (filling the `X` wildcards).
- `scanner.dfy`: the 5000-row lookback and 2500-row lookahead buffers and
  `searchAround`, the scan for the first row that contains the query.
- `probe.dfy`: `searchRandomly`, which takes the closest of 500 random
  fillings accepted in the search direction, with one extra draw as the
  fallback.
- `session.dfy`: the hook state `(search, address, nextStates)` and
  `searchETH`, `nextETH` and `previousETH`, with the invariant every
  reachable state keeps and the history (back-stack) laws.
- `viewport.dfy`: `App.js`: `MAX_POSITION`, the rows shown (numbered rows or
  sorted favourites), the favourites toggle, and the reset when the view
  switches.
- `display.dfy`: `ETHDisplay.js`: clamped moves, the keyboard dispatch, and
  the wide-screen row (index padding to 49 characters and the highlighted
  match).

`Math.random()` is an input. A session call takes an `Env` holding the scroll
position, the displayed rows, exactly 500 draws and one fallback draw. A draw
is a pattern choice (taken modulo the number of patterns) and 40 hex digits.

The model follows the code as written; in particular:

- The lookahead keeps index 2^160 instead of wrapping it (it wraps only
  strictly above 2^160). `indexToETH` then throws, so from any position
  within 2500 rows of the top a forward search whose displayed window (from
  row 0 for `searchETH`, row 1 for `nextETH`) holds no match throws rather
  than wrapping. `Scanner.LookaheadThrowsNearTop` and `Scanner.SearchAround`
  state this.
- `searchETH` clears the history before it searches. A search that finds
  nothing or throws therefore leaves the history empty, while `search` and
  `address` keep their old values. The random probe inside that call still
  filters against the history from before the clear.
- The favourites view checks `index === null`, but that branch can never run:
  `ethToIndex` throws on a malformed key instead of returning `null`. A
  malformed key therefore makes the whole favourites list fail.
- Home and Cmd+PageUp call `animateWithDelta(0n)`. That is a move by zero, so
  the target is the current position, not the top.
- A query that starts with `"0x"` and is longer than 42 characters makes
  `"X".repeat` throw. This is `Patterns.GetAllValidPatterns`'s `Failure`.
- Only the upper-case `X` of a template is replaced. A lower-case `x` of the
  query that lands in the 40-digit body stays in every candidate, so
  `ethToIndex` rejects them all and the random search never finds such a
  query. `Probe.BodyXNeverFound` states this.

## Model

| member | source | states |
|---|---|---|
| `EthTools.Pow16Forty` | lib/constants.js:1 | `MAX_ETH_ADDRESS` is 16^40: exactly the values of 40 hex digits |
| `EthTools.ToHexString` | lib/ethTools.js:10 | `n.toString(16)` is a non-empty numeral of lower-case hex digits |
| `EthTools.PaddedIsFixed` | lib/ethTools.js:10 | zero-padding the shortest numeral of `n < 16^k` to `k` digits gives the last `k` base-16 digits of `n` |
| `EthTools.FromFixedHex` | lib/ethTools.js:40 | reading the fixed-width numeral of `n < 16^k` in base 16 gives `n` back |
| `EthTools.FixedOfFromHex` | lib/ethTools.js:40 | writing the value of a hex string back at its width gives the string lower-cased |
| `EthTools.IntToEth` | lib/ethTools.js:2-14 | throws "non-negative" below 0 and "too large" from 2^160; otherwise returns "0x" plus the 40 lower-case digits of `n` |
| `EthTools.IndexToEth` | lib/ethTools.js:18-27 | the upper bound is checked before the sign; succeeds exactly on [0, 2^160) and then agrees with `intToETH` |
| `EthTools.EthToIndex` | lib/ethTools.js:30-41 | succeeds exactly on "0x" plus 40 hex digits of either case, or 40 bare hex digits; any other input throws "Invalid ETH address format"; the value is below 2^160 |
| `EthTools.EncodeDecode` | lib/ethTools.js:2-41 | every index in range encodes to a canonical address that decodes back to the index |
| `EthTools.DecodeEncode` | lib/ethTools.js:30-41 | a "0x" address with 40 hex digits of any case decodes, and re-encodes to its lower-cased form |
| `EthTools.DecodeEncodeBare` | lib/ethTools.js:30-41 | 40 bare hex digits decode, and re-encode to "0x" plus those digits lower-cased |
| `EthTools.EncodeInjective` | lib/ethTools.js:18-27 | distinct indices give distinct addresses |
| `EthTools.UpperPrefixRejected` | lib/ethTools.js:32-37 | an "0X" prefix is not stripped, so a 42-character "0X…" address throws |
| `EthTools.EncodeZero` | lib/ethTools.js:10-13 | index 0 is "0x" and forty zeros |
| `EthTools.DecodeAllUpperF` | lib/ethTools.js:35-40 | "0x" plus forty upper-case F decodes to 2^160 - 1, the last row |
| `Text.PadStart` | lib/ethTools.js:10 | `padStart` left-fills with the pad character up to the width and never truncates |
| `Text.IndexOf` | src/components/ETHDisplay/ETHDisplay.js:220 | returns -1 exactly when there is no occurrence; otherwise the first occurrence |
| `Text.JsSlice` | src/components/App/App.js:163 | `slice` with out-of-range and reversed bounds: a contiguous piece of the input, empty for a reversed range |
| `Patterns.Sanitize` | hooks/use-eth-search.js:10 | keeps only `[0-9a-fx]` after lower-casing; equals the lower-cased input exactly when every character survives; a single character is kept, lower-cased, exactly when it is a query character |
| `Patterns.SanitizeAppend` | hooks/use-eth-search.js:10 | the global replace works character by character: sanitising a concatenation concatenates the sanitised parts |
| `Patterns.GetAllValidPatterns` | hooks/use-eth-search.js:8-47 | no pattern for an empty query; one anchored pattern for a "0x" query of up to 42 characters; a throw for a longer one; otherwise one pattern per offset `p` (41 - length of them, `leftPadding` p + 2); each is "0x", the query at its place and `X` elsewhere |
| `Patterns.Anchored` | hooks/use-eth-search.js:29-36 | the single pattern of a "0x" query: the query at position 0, padded with wildcards to 42 characters |
| `Patterns.Placements` | hooks/use-eth-search.js:39-44 | one pattern per offset, in increasing order, each with the query at offset + 2 |
| `Patterns.PlacementWellPlaced` | hooks/use-eth-search.js:41-42 | the template built for offset `p` holds the query at `p + 2` and wildcards in every other body position |
| `Patterns.PrefixedWellPlaced` | hooks/use-eth-search.js:31-34 | the template of a "0x" query holds the query at the start and wildcards after it |
| `Patterns.BarePrefixPattern` | hooks/use-eth-search.js:23-26 | the query "0x" alone gives the single all-wildcard template |
| `Patterns.PlacementsDistinct` | hooks/use-eth-search.js:39-44 | no unprefixed pattern is listed twice |
| `Patterns.Fill` | hooks/use-eth-search.js:49-56 | same length as the template; every `X` becomes a lower-case hex digit and every other character is kept |
| `Patterns.FillKeepsQuery` | hooks/use-eth-search.js:52-55 | filling keeps the query where the template placed it |
| `Patterns.FilledShape` | hooks/use-eth-search.js:49-56 | a filled template is "0x" plus 40 characters of `[0-9a-fx]`, with the query at its place |
| `Patterns.FillComplete` | hooks/use-eth-search.js:52-55 | every string that agrees with a template off its wildcards and has hex digits on them is a filling of it |
| `Patterns.PatternsComplete` | hooks/use-eth-search.js:39-55 | every canonical address holding an unprefixed query at body offset `p` is a filling of pattern `p`: the random search can reach every match |
| `Scanner.Encode` | hooks/use-eth-search.js:73-82 | pairs every index with its address in order; throws exactly when some index is out of range, with the error of the first such index |
| `Scanner.LookbackWraps` | hooks/use-eth-search.js:74-79 | from any position in [0, 2^160], entry `k` of the lookback is `k + 1` rows back, wrapped modulo 2^160, and every entry is a valid row |
| `Scanner.LookaheadBelowTop` | hooks/use-eth-search.js:100-107 | more than 2500 rows below the top, the lookahead is the next 2500 rows |
| `Scanner.LookaheadThrowsNearTop` | hooks/use-eth-search.js:100-106 | within 2500 rows of the top, the lookahead reaches 2^160 unwrapped and throws "Index out of range" |
| `Scanner.LookaheadNeverWraps` | hooks/use-eth-search.js:100-109 | from a valid position the lookahead succeeds exactly when it does not reach the top, and then no entry has wrapped |
| `Scanner.FirstMatch` | hooks/use-eth-search.js:131-136 | nothing exactly when no row contains the query ignoring case; otherwise the first row that does |
| `Scanner.FirstMatchAppend` | hooks/use-eth-search.js:122-136 | scanning two buffers in turn is scanning their concatenation |
| `Scanner.SearchAround` | hooks/use-eth-search.js:120-149 | forward: the first match in the window (from row 1 when the current row is excluded) followed by the lookahead, and the lookahead is built only when the window has none; a forward search that misses in the window and whose lookahead throws throws itself; backward: the first match in the lookback; a buffer that throws makes the call throw |
| `Scanner.SearchAroundMatches` | hooks/use-eth-search.js:126-141 | every row `searchAround` returns contains the query ignoring case |
| `Scanner.BackwardIgnoresCurrentIndex` | hooks/use-eth-search.js:137-144 | a backward scan does not depend on `canUseCurrentIndex` |
| `Probe.Candidate` | hooks/use-eth-search.js:160-187 | a candidate exists exactly when the filling of the chosen pattern decodes; its address is that filling, it uses the chosen pattern and carries the decoded index |
| `Probe.BestOf` | hooks/use-eth-search.js:156-183 | the running best is absent exactly when no candidate passes both filters; otherwise it is one of the candidates, passes the direction and not-in-history filters, and no accepted candidate is strictly closer |
| `Probe.Candidates` | hooks/use-eth-search.js:159-188 | one candidate per draw, in draw order |
| `Probe.ProbePatterns` | hooks/use-eth-search.js:156-208 | the closest accepted candidate of the 500 draws when there is one; otherwise the fallback draw with no filter, or `null` when it does not decode |
| `Probe.SearchRandomly` | hooks/use-eth-search.js:151-211 | throws exactly when the patterns cannot be built; `null` for no patterns; every returned hit decodes to its index, is canonical and holds the sanitised query where its pattern placed it |
| `Probe.CandidateIsValid` | hooks/use-eth-search.js:160-165 | every decoded candidate is canonical and holds the sanitised query at its pattern's place |
| `Probe.ValidHitMatches` | hooks/use-eth-search.js:153-162 | for a valid query, every hit contains the query ignoring case |
| `Probe.BodyXNotCanonical` | hooks/use-eth-search.js:52-54 | only the upper-case `X` is replaced, so when the query has a lower-case `x` past its own `0x` prefix, filling any chosen pattern with any digits yields a string that is not a canonical address |
| `Probe.CandidateWithBodyX` | hooks/use-eth-search.js:160-187 | for such a query no draw decodes: `ethToIndex` throws on every candidate |
| `Probe.BodyXNeverFound` | hooks/use-eth-search.js:151-211 | for such a query `searchRandomly` finds nothing, neither a best-of candidate nor the fallback |
| `Session.Locate` | hooks/use-eth-search.js:227-235 | the scan result when it finds a row; otherwise the random probe; a throw in either escapes; a located row contains a valid query |
| `Session.SearchEth` | hooks/use-eth-search.js:213-246 | an invalid or empty query changes nothing and returns `null`; otherwise the history is cleared; the reply is found exactly when the forward scan (current row included) then the random probe locates a row, and throws exactly when that scan throws; a found row is the located one, becomes the lower-cased search, the address and the only history entry, and contains the query |
| `Session.NextEth` | hooks/use-eth-search.js:248-266 | without an active search nothing changes; otherwise the reply is found exactly when the forward scan past the current row then the random probe locates a row, and throws exactly when that scan throws; the located row becomes the address and is pushed on the history, with the search kept; otherwise nothing changes |
| `Session.PreviousEth` | hooks/use-eth-search.js:268-293 | with more than one history entry, pops the last and returns the one before it without searching; otherwise searches backward (found exactly when the backward scan then the random probe locates a row, whose address it returns; throws exactly when that scan throws) and moves the address without pushing |
| `Session.LoweredQueryValid` | hooks/use-eth-search.js:216-221 | the lower-cased form of an accepted query is itself accepted, non-empty and fixed by lower-casing |
| `Session.InitialInvariant` | hooks/use-eth-search.js:63-66 | the initial state (`null`, `null`, `[]`) satisfies the invariant |
| `Session.SearchKeepsInvariant` | hooks/use-eth-search.js:213-246 | `searchETH` keeps the invariant: history only with an active search; the search is valid, non-empty and lower-case; every history row contains it |
| `Session.NextKeepsInvariant` | hooks/use-eth-search.js:248-266 | `nextETH` keeps the invariant |
| `Session.PreviousKeepsInvariant` | hooks/use-eth-search.js:268-293 | `previousETH` keeps the invariant |
| `Session.RepliesHoldQuery` | hooks/use-eth-search.js:213-293 | in a reachable state every address any of the three calls returns contains the search ignoring case, whatever the history length |
| `Session.PreviousOfPushed` | hooks/use-eth-search.js:271-276 | on a history one row longer than `st`'s, `previousETH` returns `st`'s last row |
| `Session.NextThenPrevious` | hooks/use-eth-search.js:248-276 | a successful `nextETH` followed by `previousETH` returns to the row before it, whatever the second call would draw |
| `Session.HistoryReplay` | hooks/use-eth-search.js:213-276 | search, next, next, previous ends in exactly the state and reply of the first next |
| `Session.SearchWindowHitDeterministic` | hooks/use-eth-search.js:227-241 | when the displayed window holds a match, `searchETH` lands on its first match from any state and with any draws |
| `Session.SearchProbeUsesOldHistory` | hooks/use-eth-search.js:224-241 | a row the probe accepts inside `searchETH` is not in the history from before the clear |
| `Viewport.MaxPosition` | src/components/App/App.js:60-69 | favourites: non-negative, and the last screen ends at the last favourite (0 when all fit); numbered: the last start whose rows stay below 2^160 |
| `Viewport.Slot` | src/components/App/App.js:165-179 | `null` below 0 and above 2^160; a throw at exactly 2^160; otherwise the row with its address |
| `Viewport.NumberedWindow` | src/components/App/App.js:165-179 | `itemsToShow` consecutive slots from the position; throws exactly when 2^160 falls among them |
| `Viewport.NumberedWindowInRange` | src/components/App/App.js:165-179 | from any position within `MAX_POSITION`, every shown row exists and the indices are consecutive and below 2^160 |
| `Viewport.Insert` | src/components/App/App.js:152-157 | insertion keeps the rows sorted by index and adds exactly one row |
| `Viewport.SortByIndex` | src/components/App/App.js:152-157 | sorted by ascending index and a permutation of the input |
| `Viewport.DecodeAll` | src/components/App/App.js:139-151 | every favourite key with its index, in key order; fails with "Invalid ETH address format" exactly when some key is malformed |
| `Viewport.FavouritesWindow` | src/components/App/App.js:137-163 | fails exactly when some key is malformed; otherwise sorted by index, and every shown row is a favourite with its own index |
| `Viewport.FavouritesWindowInRange` | src/components/App/App.js:158-163 | from a position within `MAX_POSITION` the window is the next `itemsToShow` favourites in index order, or all that remain |
| `Viewport.FavouritesWindowClamped` | src/components/App/App.js:158-163 | from a position past the bound the window starts at the bound (`slice(MAX_POSITION, position + itemsToShow)`) and shows the last `itemsToShow` favourites in index order, or all of them |
| `Viewport.Toggle` | src/components/App/App.js:71-85 | flips the membership of the toggled key, leaves every other key alone and keeps keys distinct |
| `Viewport.Remove` | src/components/App/App.js:79 | the key is gone, the others are kept, and one entry fewer when it was present |
| `Viewport.ToggleTwice` | src/components/App/App.js:71-85 | toggling twice restores membership; for an absent key it restores the list exactly |
| `Viewport.SetShowFavorites` | src/components/App/App.js:52-58 | switches the view and scrolls to the top, position 0, which is valid for every screen size and favourite count |
| `Display.Clamp` | src/components/ETHDisplay/ETHDisplay.js:275-277 | the result is in [0, MAX_POSITION], keeps in-range targets, and is the in-range position nearest to the target |
| `Display.MovePosition` | src/components/ETHDisplay/ETHDisplay.js:271-282 | ignored while animating; otherwise exactly the step clamped into `[0, maxPosition]`, so exact when it stays in range |
| `Display.MoveStaysInRange` | src/components/ETHDisplay/ETHDisplay.js:271-282 | from a valid position a move stays valid and goes in the direction of its step |
| `Display.HandleKeyDown` | src/components/ETHDisplay/ETHDisplay.js:386-470 | nothing while animating; otherwise the first case in source order agrees with an order-free key table (jumps animate to a clamped target, arrows and j/k move by one) |
| `Display.JumpTargets` | src/components/ETHDisplay/ETHDisplay.js:421-458 | from a valid position, Cmd+ArrowDown and End animate to the last position and Cmd+ArrowUp to 0; Home and Cmd+PageUp animate to the current position |
| `Display.DecimalString` | src/components/ETHDisplay/ETHDisplay.js:198 | `index.toString()` is a non-empty decimal numeral with no leading zero |
| `Display.DecimalLength` | src/components/ETHDisplay/ETHDisplay.js:198-199 | a number in [10^(k-1), 10^k) has exactly `k` decimal digits |
| `Display.AddressBoundsInDecimal` | src/components/ETHDisplay/ETHDisplay.js:200 | 10^48 <= 2^160 - 1 < 10^49: the largest index has 49 digits |
| `Display.IndexPadding` | src/components/ETHDisplay/ETHDisplay.js:197-210 | only zeros; on a wide screen padding and index fill 49 characters; nothing on a narrow screen or when the index is too long |
| `Display.PaddingNeverNegative` | src/components/ETHDisplay/ETHDisplay.js:203-209 | for every row index the padding length is never negative, so the error branch is unreachable |
| `Display.LargestIndexUnpadded` | src/components/ETHDisplay/ETHDisplay.js:200-209 | the last row, 2^160 - 1, has 49 digits and no padding |
| `Display.RenderAddress` | src/components/ETHDisplay/ETHDisplay.js:212-231 | highlighted exactly when the search is shown, non-empty and found ignoring case; the three pieces rejoin to the address, the middle equals the search ignoring case, and no earlier match exists |
| `Display.SplitAtMatch` | src/components/ETHDisplay/ETHDisplay.js:218-227 | cutting at a match found in the lower-cased strings gives pieces of the original that rejoin to it |

## Left out

- Empty slots in the displayed rows: `Env.window` holds rows only.
  The screen can hold a `null` slot, and reading its address throws a
  `TypeError`. That case is not modelled. `Viewport.NumberedWindowInRange`
  shows that no such slot appears from any position within `MAX_POSITION`.
- React state, memoisation and effects. Each hook call is a function from
  the state and an `Env` to a new state and a reply. The memoised buffers
  are pure functions of the position.
- `Math.random()`: replaced by the supplied draws. The model does not state
  the probability of any outcome.
- `generateRandomETH(null)` returning `null`: it is never called with a
  missing pattern.
- The `pattern` and `leftPadding` fields of history entries are dropped,
  because nothing reads them.
- The scroll animation (easing, `requestAnimationFrame`, `performance.now`),
  wheel and touch handlers, resizing and `computeItemsToShow`: these are DOM
  and timing. The moves they trigger are `Display.MovePosition`.
- The narrow-screen `truncate` and `formatIndex` helpers, styling, icons,
  `Header`, `Scrollbar` and `SearchWidget`: presentation only.
- `localStorage` persistence of the favourites. The store is the ordered
  list of its keys, because every stored value is `true`.
- Platform detection for the command key: `Key.cmd` is the already-resolved
  modifier.
- Text.Lower: lower-cases ASCII only. A query with any other letter is
  rejected by the `[0-9a-fx]` check either way.
- Viewport.SortByIndex: does not state that the sort is stable. Distinct
  keys share an index when they spell one address differently ("0xAB…",
  "0xab…", or the bare "ab…"). The component that passes addresses to the
  toggle is not part of this model, so the order among such keys is left
  open.
- Display.Clamp: states nothing for a negative `MAX_POSITION` (more rows
  than 2^160, or a negative favourites bound). The function still computes
  the source's value there.
- Scanner.SearchAround: the memoised lookahead is built at most once per
  position. Building it again here changes nothing, because it is a pure
  function.
