/** The 160-bit address codec of lib/ethTools.js: an index in [0, 2^160)
    is written as "0x" followed by 40 lower-case, zero-padded hex digits,
    and a 40-digit hex string (with or without a lower-case "0x") is read
    back as its index. */
module EthTools {
  import opened Wrappers
  import opened Text

  /** `MAX_ETH_ADDRESS` of lib/constants.js: 2^160, one past the largest
      index (it is a count, not an address). */
  const MAX_ETH_ADDRESS: nat := 0x1_0000_0000_0000_0000_0000_0000_0000_0000_0000_0000

  /** Number of hex digits in the body of an address. */
  const ADDRESS_DIGITS: nat := 40

  /** The exceptions the codec throws, one per distinct message. */
  datatype CodecError =
    | NegativeNumber      // intToETH: "Number must be non-negative"
    | NumberTooLarge      // intToETH: "Number too large (max 160 bits)"
    | IndexOutOfRange     // indexToETH: "Index out of range - must be less than 2^160"
    | IndexNegative       // indexToETH: "Index cannot be negative"
    | InvalidFormat       // ethToIndex: "Invalid ETH address format"

  /** A row of the browser: an index together with its address. */
  datatype Entry = Entry(index: int, address: string)

  // ---------------------------------------------------------------------------
  // Hex digits

  type Nibble = d: nat | d < 16

  const HEX_DIGITS: string := "0123456789abcdef"

  function HexChar(d: Nibble): char {
    HEX_DIGITS[d]
  }

  predicate IsLowerHex(c: char) {
    '0' <= c <= '9' || 'a' <= c <= 'f'
  }

  /** The character class `[0-9a-f]` under the regular expression's `i` flag. */
  predicate IsHexDigit(c: char) {
    '0' <= c <= '9' || 'a' <= c <= 'f' || 'A' <= c <= 'F'
  }

  predicate AllHex(s: string) {
    forall i | 0 <= i < |s| :: IsHexDigit(s[i])
  }

  predicate AllLowerHex(s: string) {
    forall i | 0 <= i < |s| :: IsLowerHex(s[i])
  }

  function HexValue(c: char): (v: Nibble)
    requires IsHexDigit(c)
    ensures HexChar(v) == Lower(c)
  {
    if '0' <= c <= '9' then c as int - '0' as int
    else if 'a' <= c <= 'f' then c as int - 'a' as int + 10
    else c as int - 'A' as int + 10
  }

  lemma HexCharIsLowerHex(d: Nibble)
    ensures IsLowerHex(HexChar(d)) && IsHexDigit(HexChar(d))
    ensures HexValue(HexChar(d)) == d
  {
  }

  function Pow16(k: nat): (p: nat)
    ensures p >= 1
  {
    if k == 0 then 1 else 16 * Pow16(k - 1)
  }

  lemma {:induction false} Pow16Add(a: nat, b: nat)
    ensures Pow16(a + b) == Pow16(a) * Pow16(b)
  {
    if a > 0 {
      Pow16Add(a - 1, b);
    }
  }

  lemma Pow16Forty()
    ensures Pow16(ADDRESS_DIGITS) == MAX_ETH_ADDRESS
  {
    assert Pow16(5) == 0x10_0000;
    Pow16Add(5, 5);
    Pow16Add(10, 10);
    Pow16Add(20, 20);
  }

  /** A string starting with "0x" is not all hex digits, since 'x' is not one. */
  lemma PrefixedNotAllHex(s: string)
    ensures StartsWith(s, "0x") ==> !AllHex(s)
  {
    if StartsWith(s, "0x") {
      assert s[1] == s[..2][1];
    }
  }

  // ---------------------------------------------------------------------------
  // Number to text

  /** `n.toString(16)` of a BigInt: the shortest lower-case hex numeral. */
  function ToHexString(n: nat): (s: string)
    ensures 1 <= |s|
    ensures AllLowerHex(s)
    decreases n
  {
    if n < 16 then [HexChar(n)] else ToHexString(n / 16) + [HexChar(n % 16)]
  }

  /** Reference definition: the last `k` hex digits of `n`, most significant first. */
  function FixedHex(n: nat, k: nat): (s: string)
    ensures |s| == k
    ensures AllLowerHex(s)
  {
    if k == 0 then [] else FixedHex(n / 16, k - 1) + [HexChar(n % 16)]
  }

  /** The numeral `s` (all hex digits, any case) read in base 16. */
  function FromHex(s: string): (n: nat)
    requires AllHex(s)
    ensures n < Pow16(|s|)
  {
    if s == [] then 0 else FromHex(s[..|s| - 1]) * 16 + HexValue(s[|s| - 1])
  }

  lemma {:induction false} FixedHexOfZero(k: nat)
    ensures FixedHex(0, k) == Repeat('0', k)
  {
    if k > 0 {
      FixedHexOfZero(k - 1);
    }
  }

  lemma {:induction false} ToHexStringLength(n: nat, k: nat)
    requires n < Pow16(k)
    ensures |ToHexString(n)| <= k || (k == 0 && |ToHexString(n)| == 1)
  {
    if n >= 16 {
      assert k >= 2;
      ToHexStringLength(n / 16, k - 1);
    }
  }

  /** Zero-padding the shortest numeral to `k` digits gives the fixed-width numeral. */
  lemma {:induction false} PaddedIsFixed(n: nat, k: nat)
    requires 1 <= k && n < Pow16(k)
    ensures PadStart(ToHexString(n), k, '0') == FixedHex(n, k)
  {
    if n < 16 {
      PaddedDigit(n, k);
    } else {
      PaddedIsFixed(n / 16, k - 1);
      ToHexStringLength(n / 16, k - 1);
      PaddedStep(n, k);
    }
  }

  lemma PaddedDigit(n: nat, k: nat)
    requires 1 <= k && n < 16
    ensures PadStart(ToHexString(n), k, '0') == FixedHex(n, k)
  {
    var last := HexChar(n % 16);
    assert n / 16 == 0 && n % 16 == n;
    assert FixedHex(n, k) == FixedHex(0, k - 1) + [last];
    assert ToHexString(n) == [] + [last];
    FixedHexOfZero(k - 1);
    PadStartAppend([], k, '0', last);
  }

  lemma PaddedStep(n: nat, k: nat)
    requires 2 <= k && 16 <= n
    requires |ToHexString(n / 16)| <= k - 1
    requires PadStart(ToHexString(n / 16), k - 1, '0') == FixedHex(n / 16, k - 1)
    ensures PadStart(ToHexString(n), k, '0') == FixedHex(n, k)
  {
    var last := HexChar(n % 16);
    var t := ToHexString(n / 16);
    assert FixedHex(n, k) == FixedHex(n / 16, k - 1) + [last];
    assert ToHexString(n) == t + [last];
    PadStartAppend(t, k, '0', last);
  }

  lemma {:induction false} FromFixedHex(n: nat, k: nat)
    requires n < Pow16(k)
    ensures FromHex(FixedHex(n, k)) == n
  {
    if k > 0 {
      var s := FixedHex(n, k);
      HexCharIsLowerHex(n % 16);
      FromFixedHex(n / 16, k - 1);
      assert s[..|s| - 1] == FixedHex(n / 16, k - 1);
    }
  }

  lemma {:induction false} FixedOfFromHex(s: string)
    requires AllHex(s)
    ensures FixedHex(FromHex(s), |s|) == LowerStr(s)
  {
    if s != [] {
      var init := s[..|s| - 1];
      var n := FromHex(s);
      assert n / 16 == FromHex(init) && n % 16 == HexValue(s[|s| - 1]);
      FixedOfFromHex(init);
      assert LowerStr(s) == LowerStr(init) + [Lower(s[|s| - 1])];
    }
  }

  // ---------------------------------------------------------------------------
  // The three exported functions of lib/ethTools.js

  /** `intToETH`: range-check, then "0x" and the 40-digit zero-padded numeral. */
  function IntToEth(n: int): (r: Result<string, CodecError>)
    ensures n < 0 ==> r == Failure(NegativeNumber)
    ensures n >= MAX_ETH_ADDRESS ==> r == Failure(NumberTooLarge)
    ensures 0 <= n < MAX_ETH_ADDRESS ==>
      && r.Success?
      && |r.value| == 42
      && r.value[..2] == "0x"
      && AllLowerHex(r.value[2..])
      && r.value[2..] == FixedHex(n, ADDRESS_DIGITS)
  {
    if n < 0 then Failure(NegativeNumber)
    else if n >= MAX_ETH_ADDRESS then Failure(NumberTooLarge)
    else
      Pow16Forty();
      PaddedIsFixed(n, ADDRESS_DIGITS);
      var hex := PadStart(ToHexString(n), ADDRESS_DIGITS, '0');
      assert ("0x" + hex)[2..] == hex;
      Success("0x" + hex)
  }

  /** `indexToETH`: the upper bound is checked before the sign, then `intToETH`. */
  function IndexToEth(index: int): (r: Result<string, CodecError>)
    ensures index >= MAX_ETH_ADDRESS ==> r == Failure(IndexOutOfRange)
    ensures index < 0 ==> r == Failure(IndexNegative)
    ensures 0 <= index < MAX_ETH_ADDRESS ==> r == IntToEth(index) && r.Success?
    ensures r.Success? <==> 0 <= index < MAX_ETH_ADDRESS
  {
    if index >= MAX_ETH_ADDRESS then Failure(IndexOutOfRange)
    else if index < 0 then Failure(IndexNegative)
    else IntToEth(index)
  }

  /** The 40-digit body `ethToIndex` validates: a lower-case "0x" is stripped. */
  function HexBody(address: string): string {
    if StartsWith(address, "0x") then address[2..] else address
  }

  /** `ethToIndex`: strip a lower-case "0x", demand exactly 40 hex digits of
      either case, read them in base 16. */
  function EthToIndex(address: string): (r: Result<nat, CodecError>)
    ensures r.Success? <==>
      || (|address| == 42 && address[..2] == "0x" && AllHex(address[2..]))
      || (|address| == 40 && AllHex(address))
    ensures r.Failure? ==> r.error == InvalidFormat
    ensures r.Success? ==> r.value < MAX_ETH_ADDRESS
  {
    var hex := HexBody(address);
    if |hex| == ADDRESS_DIGITS && AllHex(hex) then
      Pow16Forty();
      Success(FromHex(hex))
    else
      PrefixedNotAllHex(address);
      Failure(InvalidFormat)
  }

  /** A canonical address: "0x" and 40 lower-case hex digits. */
  predicate IsCanonical(address: string) {
    |address| == 42 && address[..2] == "0x" && AllLowerHex(address[2..])
  }

  // ---------------------------------------------------------------------------
  // Round trips and examples

  /** Decoding an encoded index gives the index back. */
  lemma EncodeDecode(n: int)
    requires 0 <= n < MAX_ETH_ADDRESS
    ensures IndexToEth(n).Success?
    ensures IsCanonical(IndexToEth(n).value)
    ensures EthToIndex(IndexToEth(n).value) == Success(n)
  {
    var a := IndexToEth(n).value;
    Pow16Forty();
    FromFixedHex(n, ADDRESS_DIGITS);
    assert HexBody(a) == a[2..];
  }

  /** Encoding a decoded address gives its lower-cased form: "0x" plus 40 hex
      digits of any case, or the same 40 digits bare. */
  lemma DecodeEncode(address: string)
    requires |address| == 42 && address[..2] == "0x" && AllHex(address[2..])
    ensures EthToIndex(address).Success?
    ensures IndexToEth(EthToIndex(address).value) == Success(LowerStr(address))
  {
    var body := address[2..];
    var n := DecodedBody(address);
    EncodeBody(body);
    LowerPrefixed(address);
  }

  /** A prefixed address decodes to the value of its body. */
  lemma DecodedBody(address: string) returns (n: nat)
    requires |address| == 42 && address[..2] == "0x" && AllHex(address[2..])
    ensures EthToIndex(address) == Success(n) && n == FromHex(address[2..])
  {
    assert HexBody(address) == address[2..];
    n := FromHex(address[2..]);
  }

  /** The value of 40 hex digits encodes back to those digits, lower-cased. */
  lemma EncodeBody(body: string)
    requires |body| == ADDRESS_DIGITS && AllHex(body)
    ensures IndexToEth(FromHex(body)) == Success("0x" + LowerStr(body))
  {
    var n := FromHex(body);
    Pow16Forty();
    FixedOfFromHex(body);
    var a := IndexToEth(n).value;
    assert a[2..] == LowerStr(body);
    assert a[..2] == ("0x" + LowerStr(body))[..2];
    SameHalves(a, "0x" + LowerStr(body), 2);
  }

  /** Lower-casing keeps a lower-case "0x" prefix. */
  lemma LowerPrefixed(address: string)
    requires |address| >= 2 && address[..2] == "0x"
    ensures LowerStr(address) == "0x" + LowerStr(address[2..])
  {
    var low := LowerStr(address);
    LowerStrSlice(address, 2, |address|);
    assert address[2..|address|] == address[2..];
    assert address[0] == address[..2][0] && address[1] == address[..2][1];
    assert low[..2] == [Lower(address[0]), Lower(address[1])];
    SameHalves(low, "0x" + LowerStr(address[2..]), 2);
  }

  /** Two strings of the same length agreeing before and after `k` are equal. */
  lemma SameHalves(a: string, b: string, k: nat)
    requires k <= |a| == |b|
    requires a[..k] == b[..k] && a[k..] == b[k..]
    ensures a == b
  {
    assert a == a[..k] + a[k..] && b == b[..k] + b[k..];
  }

  lemma DecodeEncodeBare(hex: string)
    requires |hex| == 40 && AllHex(hex)
    ensures EthToIndex(hex).Success?
    ensures IndexToEth(EthToIndex(hex).value) == Success("0x" + LowerStr(hex))
  {
    PrefixedNotAllHex(hex);
    assert HexBody(hex) == hex;
    EncodeBody(hex);
  }

  /** Encoding is injective on the valid range: distinct indices are distinct rows. */
  lemma EncodeInjective(m: int, n: int)
    requires 0 <= m < MAX_ETH_ADDRESS && 0 <= n < MAX_ETH_ADDRESS
    requires IndexToEth(m) == IndexToEth(n)
    ensures m == n
  {
    EncodeDecode(m);
    EncodeDecode(n);
  }

  /** A "0X" prefix is not stripped, so a 42-character "0X" address is rejected. */
  lemma UpperPrefixRejected(address: string)
    requires |address| == 42 && address[..2] == "0X"
    ensures EthToIndex(address) == Failure(InvalidFormat)
  {
    assert address[..2][1] == 'X';
  }

  lemma EncodeZero()
    ensures IndexToEth(0) == Success("0x" + Repeat('0', 40))
  {
    FixedHexOfZero(ADDRESS_DIGITS);
    var a := IndexToEth(0).value;
    assert a == a[..2] + a[2..];
  }

  lemma DecodeAllUpperF()
    ensures EthToIndex("0x" + Repeat('F', 40)) == Success(MAX_ETH_ADDRESS - 1)
  {
    var a := "0x" + Repeat('F', 40);
    assert a[2..] == Repeat('F', 40);
    assert HexBody(a) == Repeat('F', 40);
    AllFsIsMax(40);
    Pow16Forty();
  }

  lemma {:induction false} AllFsIsMax(k: nat)
    ensures AllHex(Repeat('F', k))
    ensures FromHex(Repeat('F', k)) == Pow16(k) - 1
  {
    if k > 0 {
      AllFsIsMax(k - 1);
      assert Repeat('F', k)[..k - 1] == Repeat('F', k - 1);
    }
  }
}
