/** The position and row logic of src/components/ETHDisplay/ETHDisplay.js:
    clamping a scroll or jump into `[0, MAX_POSITION]`, the keyboard
    dispatch, and the wide-screen rendering of one row (index padding and
    the highlighted match). */
module Display {
  import opened Wrappers
  import opened Text
  import opened EthTools

  /** The distance between two positions. */
  function Dist(a: int, b: int): nat {
    if a < b then b - a else a - b
  }

  /** `newPos < 0n ? 0n : newPos > MAX_POSITION ? MAX_POSITION : newPos`, the
      clamp shared by `movePosition` and `animateWithDelta`: the in-range
      position nearest to the requested one. */
  function Clamp(target: int, maxPosition: int): (r: int)
    ensures maxPosition >= 0 ==> 0 <= r <= maxPosition
    ensures 0 <= target <= maxPosition ==> r == target
    ensures maxPosition >= 0 ==> forall y | 0 <= y <= maxPosition :: Dist(r, target) <= Dist(y, target)
  {
    if target < 0 then 0
    else if target > maxPosition then maxPosition
    else target
  }

  /** `movePosition(delta)`: ignored while an animation runs, otherwise the
      clamped step. */
  function MovePosition(isAnimating: bool, position: int, delta: int, maxPosition: int): (r: int)
    ensures isAnimating ==> r == position
    ensures !isAnimating && maxPosition >= 0 ==> 0 <= r <= maxPosition
    ensures !isAnimating && 0 <= position + delta <= maxPosition ==> r == position + delta
    ensures !isAnimating ==> r == Clamp(position + delta, maxPosition)
  {
    if isAnimating then position else Clamp(position + delta, maxPosition)
  }

  /** A clamped move never leaves the range, so repeating it from a valid
      position keeps the position valid and stops at the bounds. */
  lemma MoveStaysInRange(position: int, delta: int, maxPosition: int)
    requires 0 <= position <= maxPosition
    ensures 0 <= MovePosition(false, position, delta, maxPosition) <= maxPosition
    ensures delta > 0 ==> MovePosition(false, position, delta, maxPosition) >= position
    ensures delta < 0 ==> MovePosition(false, position, delta, maxPosition) <= position
  {
  }

  // ---------------------------------------------------------------------------
  // Keyboard

  /** A key press: `e.key`, the platform's command modifier (meta on a Mac,
      control elsewhere), and shift. */
  datatype Key = Key(name: string, cmd: bool, shift: bool)

  /** What a key press does: nothing, start an animation to a target, or
      set the position directly. */
  datatype KeyAction = Ignore | AnimateTo(target: int) | MoveTo(position: int)

  /** The effect of a key before clamping. */
  datatype Effect = Animate(delta: int) | Move(step: int)

  /** The key bindings as a table: each row's keys are disjoint from every
      other row's, so the order of the rows does not matter. */
  function Binding(k: Key, maxPosition: int, pageSize: int): Option<Effect> {
    if (k.name == "ArrowDown" && k.cmd) || (k.name == "PageDown" && k.cmd) || k.name == "End" then
      Some(Animate(maxPosition))
    else if k.name == "ArrowUp" && k.cmd then Some(Animate(-maxPosition))
    else if (k.name == " " && k.shift) || (k.name == "PageUp" && !k.cmd) then Some(Animate(-pageSize))
    else if (k.name == " " && !k.shift) || (k.name == "PageDown" && !k.cmd) then Some(Animate(pageSize))
    else if k.name == "Home" || (k.name == "PageUp" && k.cmd) then Some(Animate(0))
    else if (k.name == "ArrowDown" && !k.cmd) || k.name == "j" then Some(Move(1))
    else if (k.name == "ArrowUp" && !k.cmd) || k.name == "k" then Some(Move(-1))
    else None
  }

  /** `handleKeyDown`: nothing while animating; otherwise the first matching
      case in source order, with `PAGE_SIZE = itemsToShow`. */
  function HandleKeyDown(isAnimating: bool, k: Key, position: int, maxPosition: int, itemsToShow: nat)
    : (a: KeyAction)
    ensures isAnimating ==> a == Ignore
    ensures !isAnimating ==> a == match Binding(k, maxPosition, itemsToShow)
      case None => Ignore
      case Some(Animate(d)) => AnimateTo(Clamp(position + d, maxPosition))
      case Some(Move(d)) => MoveTo(MovePosition(false, position, d, maxPosition))
  {
    var page := itemsToShow;
    if isAnimating then Ignore
    else if k.name == "ArrowDown" && k.cmd then AnimateTo(Clamp(position + maxPosition, maxPosition))
    else if k.name == "ArrowUp" && k.cmd then AnimateTo(Clamp(position - maxPosition, maxPosition))
    else if k.name == " " && k.shift then AnimateTo(Clamp(position - page, maxPosition))
    else if k.name == " " then AnimateTo(Clamp(position + page, maxPosition))
    else if k.name == "PageDown" && k.cmd then AnimateTo(Clamp(position + maxPosition, maxPosition))
    else if k.name == "PageUp" && k.cmd then AnimateTo(Clamp(position + 0, maxPosition))
    else if k.name == "PageDown" then AnimateTo(Clamp(position + page, maxPosition))
    else if k.name == "PageUp" then AnimateTo(Clamp(position - page, maxPosition))
    else if k.name == "Home" then AnimateTo(Clamp(position + 0, maxPosition))
    else if k.name == "End" then AnimateTo(Clamp(position + maxPosition, maxPosition))
    else if k.name == "ArrowDown" then MoveTo(MovePosition(false, position, 1, maxPosition))
    else if k.name == "ArrowUp" then MoveTo(MovePosition(false, position, -1, maxPosition))
    else if k.name == "j" then MoveTo(MovePosition(false, position, 1, maxPosition))
    else if k.name == "k" then MoveTo(MovePosition(false, position, -1, maxPosition))
    else Ignore
  }

  /** From a valid position, Cmd+ArrowDown and End go to the last position
      and Cmd+ArrowUp to the first; Home and Cmd+PageUp, whose delta is 0,
      stay where they are. */
  lemma JumpTargets(position: int, maxPosition: int, itemsToShow: nat, cmd: bool, shift: bool)
    requires 0 <= position <= maxPosition
    ensures HandleKeyDown(false, Key("ArrowDown", true, shift), position, maxPosition, itemsToShow) == AnimateTo(maxPosition)
    ensures HandleKeyDown(false, Key("End", cmd, shift), position, maxPosition, itemsToShow) == AnimateTo(maxPosition)
    ensures HandleKeyDown(false, Key("ArrowUp", true, shift), position, maxPosition, itemsToShow) == AnimateTo(0)
    ensures HandleKeyDown(false, Key("Home", cmd, shift), position, maxPosition, itemsToShow) == AnimateTo(position)
    ensures HandleKeyDown(false, Key("PageUp", true, shift), position, maxPosition, itemsToShow) == AnimateTo(position)
  {
  }

  // ---------------------------------------------------------------------------
  // Row rendering (wide screens)

  function DigitChar(d: nat): (c: char)
    requires d < 10
    ensures '0' <= c <= '9'
  {
    "0123456789"[d]
  }

  /** `index.toString()`: the decimal numeral, without leading zeros. */
  function DecimalString(n: nat): (s: string)
    ensures 1 <= |s|
    ensures forall i | 0 <= i < |s| :: '0' <= s[i] <= '9'
    ensures |s| > 1 ==> s[0] != '0'
    decreases n
  {
    if n < 10 then [DigitChar(n)] else DecimalString(n / 10) + [DigitChar(n % 10)]
  }

  function Pow10(k: nat): (p: nat)
    ensures p >= 1
  {
    if k == 0 then 1 else 10 * Pow10(k - 1)
  }

  lemma {:induction false} Pow10Add(a: nat, b: nat)
    ensures Pow10(a + b) == Pow10(a) * Pow10(b)
  {
    if a > 0 {
      Pow10Add(a - 1, b);
    }
  }

  /** A number has `k` decimal digits exactly when it lies in
      `[10^(k-1), 10^k)`. */
  lemma {:induction false} DecimalLength(n: nat, k: nat)
    requires 1 <= k
    requires (k == 1 || Pow10(k - 1) <= n) && n < Pow10(k)
    ensures |DecimalString(n)| == k
    decreases k
  {
    if k > 1 {
      DecimalLength(n / 10, k - 1);
    }
  }

  /** 10^48 <= 2^160 - 1 < 10^49. */
  lemma AddressBoundsInDecimal()
    ensures Pow10(48) <= MAX_ETH_ADDRESS - 1 < Pow10(49)
  {
    assert Pow10(3) == 1000;
    Pow10Add(3, 3);
    assert Pow10(6) == 1_000_000;
    Pow10Add(6, 6);
    assert Pow10(12) == 1_000_000_000_000;
    Pow10Add(12, 12);
    assert Pow10(24) == 1_000_000_000_000_000_000_000_000;
    Pow10Add(24, 24);
    assert Pow10(48) == 1_000_000_000_000_000_000_000_000_000_000_000_000_000_000_000_000;
    Pow10Add(48, 1);
  }

  /** The width the index is padded to on a wide screen. */
  const PAD_LENGTH: nat := 49

  /** The zeros before the index on a wide screen: `49 - length` of them, or
      none when that is negative; none on a narrow screen. */
  function IndexPadding(index: nat, wide: bool): (p: string)
    ensures forall i | 0 <= i < |p| :: p[i] == '0'
    ensures wide && |DecimalString(index)| <= PAD_LENGTH ==> |p| + |DecimalString(index)| == PAD_LENGTH
    ensures !wide || |DecimalString(index)| > PAD_LENGTH ==> p == []
  {
    if !wide then []
    else
      var paddingLength := PAD_LENGTH - |DecimalString(index)|;
      if paddingLength < 0 then [] else Repeat('0', paddingLength)
  }

  /** Every row has an index below 2^160, so its decimal numeral has at most
      49 digits and, on a wide screen, padding and index together are
      always exactly 49 characters. */
  lemma PaddingNeverNegative(index: nat)
    requires index < MAX_ETH_ADDRESS
    ensures |DecimalString(index)| <= PAD_LENGTH
    ensures |IndexPadding(index, true)| + |DecimalString(index)| == PAD_LENGTH
  {
    AddressBoundsInDecimal();
    var k := DigitsBracket(index, 0, 49);
    DecimalLength(index, k + 1);
    assert |DecimalString(index)| <= PAD_LENGTH;
  }

  /** The largest row index, 2^160 - 1, has exactly 49 digits and so gets no
      padding. */
  lemma LargestIndexUnpadded(index: nat)
    requires index == MAX_ETH_ADDRESS - 1
    ensures |DecimalString(index)| == PAD_LENGTH
    ensures IndexPadding(index, true) == []
  {
    AddressBoundsInDecimal();
    DecimalLength(index, 49);
  }

  /** The number of digits of `n` less one, when `n` lies below `10^hi`
      and at least `10^lo`. */
  lemma {:induction false} DigitsBracket(n: nat, lo: nat, hi: nat) returns (k: nat)
    requires lo < hi && (lo == 0 || Pow10(lo) <= n) && n < Pow10(hi)
    ensures lo <= k < hi && (k == 0 || Pow10(k) <= n) && n < Pow10(k + 1)
    decreases hi - lo
  {
    if n >= Pow10(lo + 1) {
      k := DigitsBracket(n, lo + 1, hi);
    } else {
      k := lo;
    }
  }

  /** What the address cell shows on a wide screen. */
  datatype Rendered = Plain(text: string) | Highlighted(before: string, marked: string, after: string)

  /** The highlight in `Row`: when the search is shown, non-empty and found
      ignoring case, the address split around its first match. */
  function RenderAddress(address: string, search: string, searchDisplayed: bool): (r: Rendered)
    ensures r.Highlighted? <==> searchDisplayed && search != [] && Contains(LowerStr(address), LowerStr(search))
    ensures r.Plain? ==> r.text == address
    ensures r.Highlighted? ==>
      && r.before + r.marked + r.after == address
      && LowerStr(r.marked) == LowerStr(search)
      && OccursAt(LowerStr(address), LowerStr(search), |r.before|)
      && forall k | 0 <= k < |r.before| :: !OccursAt(LowerStr(address), LowerStr(search), k)
  {
    if searchDisplayed && search != [] && Contains(LowerStr(address), LowerStr(search)) then
      var start := IndexOf(LowerStr(address), LowerStr(search));
      var end := start + |search|;
      SplitAtMatch(address, search, start);
      Highlighted(JsSlice(address, 0, start), JsSlice(address, start, end), JsSlice(address, end, |address|))
    else Plain(address)
  }

  /** Cutting the address around an occurrence of the search, found in the
      lower-cased strings, gives pieces that rejoin to the address and whose
      middle is the search ignoring case. */
  lemma SplitAtMatch(address: string, search: string, start: int)
    requires OccursAt(LowerStr(address), LowerStr(search), start)
    ensures var end := start + |search|;
      && JsSlice(address, 0, start) == address[..start]
      && JsSlice(address, start, end) == address[start..end]
      && JsSlice(address, end, |address|) == address[end..]
      && address[..start] + address[start..end] + address[end..] == address
      && LowerStr(address[start..end]) == LowerStr(search)
  {
    LowerStrSlice(address, start, start + |search|);
    assert address[..start] + address[start..start + |search|] + address[start + |search|..] == address;
  }
}
