/** The viewport arithmetic of src/components/App/App.js: the largest
    scroll position, the rows shown at a position (numbered rows, or the
    sorted favourites), the favourites toggle, and the reset when the view
    changes. */
module Viewport {
  import opened Wrappers
  import opened Text
  import opened EthTools

  /** The favourites: the keys of `favedAddresses` in insertion order. The
      stored value of a key is always `true` (a cleared key is deleted), so
      the keys are the whole store. */
  type Favourites = seq<string>

  predicate Distinct(keys: Favourites) {
    forall i, j | 0 <= i < j < |keys| :: keys[i] != keys[j]
  }

  /** `MAX_POSITION`: in the favourites view, how far the first shown row can
      go while still filling the screen (0 when everything fits); otherwise
      the last start that keeps every row below 2^160. */
  function MaxPosition(showFavorites: bool, itemsToShow: nat, favouriteCount: nat): (m: int)
    ensures showFavorites ==> m >= 0 && m + itemsToShow >= favouriteCount
    ensures showFavorites && m > 0 ==> m + itemsToShow == favouriteCount
    ensures !showFavorites ==> m + itemsToShow == MAX_ETH_ADDRESS
  {
    if showFavorites then
      if favouriteCount > itemsToShow then favouriteCount - itemsToShow else 0
    else MAX_ETH_ADDRESS - itemsToShow
  }

  // ---------------------------------------------------------------------------
  // Numbered rows

  /** Row `index` of the numbered view: `null` outside `[0, 2^160]`, and
      otherwise the encoded row, which throws at exactly 2^160. */
  function Slot(index: int): (r: Result<Option<Entry>, CodecError>)
    ensures r.Failure? <==> index == MAX_ETH_ADDRESS
    ensures r.Success? ==> (r.value.None? <==> index < 0 || index > MAX_ETH_ADDRESS)
    ensures r.Success? && r.value.Some? ==>
      r.value.value.index == index && IndexToEth(index) == Success(r.value.value.address)
  {
    if index < 0 then Success(None)
    else if index > MAX_ETH_ADDRESS then Success(None)
    else
      match IndexToEth(index)
      case Failure(e) => Failure(e)
      case Success(a) => Success(Some(Entry(index, a)))
  }

  /** The numbered `displayedAddresses`: `itemsToShow` rows from `position`. */
  function NumberedWindow(position: int, itemsToShow: nat): (r: Result<seq<Option<Entry>>, CodecError>)
    ensures r.Failure? <==> position <= MAX_ETH_ADDRESS < position + itemsToShow
    ensures r.Success? ==> |r.value| == itemsToShow
    ensures r.Success? ==> forall i | 0 <= i < itemsToShow :: Slot(position + i) == Success(r.value[i])
    decreases itemsToShow
  {
    if itemsToShow == 0 then Success([])
    else
      match Slot(position)
      case Failure(e) => Failure(e)
      case Success(first) =>
        match NumberedWindow(position + 1, itemsToShow - 1)
        case Failure(e) => Failure(e)
        case Success(rest) =>
          var w := [first] + rest;
          assert forall i | 1 <= i < itemsToShow :: w[i] == rest[i - 1];
          Success(w)
  }

  /** From any position the scroll bounds allow, every shown row exists, the
      indices are consecutive, and all are valid rows. */
  lemma NumberedWindowInRange(position: int, itemsToShow: nat)
    requires 0 <= position <= MaxPosition(false, itemsToShow, 0)
    ensures NumberedWindow(position, itemsToShow).Success?
    ensures forall i | 0 <= i < itemsToShow ::
      && NumberedWindow(position, itemsToShow).value[i].Some?
      && NumberedWindow(position, itemsToShow).value[i].value.index == position + i
      && NumberedWindow(position, itemsToShow).value[i].value.index < MAX_ETH_ADDRESS
  {
    var w := NumberedWindow(position, itemsToShow).value;
    forall i | 0 <= i < itemsToShow
      ensures w[i].Some? && w[i].value.index == position + i
    {
      assert Slot(position + i) == Success(w[i]);
    }
  }

  // ---------------------------------------------------------------------------
  // Favourites rows

  predicate SortedByIndex(s: seq<Entry>) {
    forall i, j | 0 <= i < j < |s| :: s[i].index <= s[j].index
  }

  /** Insert `e` after every row whose index is not larger. */
  function Insert(sorted: seq<Entry>, e: Entry): (r: seq<Entry>)
    requires SortedByIndex(sorted)
    ensures SortedByIndex(r)
    ensures multiset(r) == multiset(sorted) + multiset{e}
    ensures |r| == |sorted| + 1
    decreases |sorted|
  {
    if sorted == [] then [e]
    else
      var last := sorted[|sorted| - 1];
      var init := sorted[..|sorted| - 1];
      assert sorted == init + [last];
      if last.index <= e.index then sorted + [e]
      else
        var front := Insert(init, e);
        assert forall k | 0 <= k < |init| :: init[k].index <= last.index by {
          assert forall k | 0 <= k < |init| :: init[k] == sorted[k];
        }
        BoundedByMultiset(front, init, e, last.index);
        front + [last]
  }

  /** A bound on every row of `s` and on `e` bounds every row of a
      permutation of `s` plus `e`. */
  lemma BoundedByMultiset(r: seq<Entry>, s: seq<Entry>, e: Entry, bound: int)
    requires multiset(r) == multiset(s) + multiset{e}
    requires forall k | 0 <= k < |s| :: s[k].index <= bound
    requires e.index <= bound
    ensures forall i | 0 <= i < |r| :: r[i].index <= bound
  {
    forall i | 0 <= i < |r|
      ensures r[i].index <= bound
    {
      assert r[i] in multiset(r);
      if r[i] != e {
        assert r[i] in multiset(s);
        var k :| 0 <= k < |s| && s[k] == r[i];
      }
    }
  }

  /** The `.sort` by index: ascending, and a permutation of its input. */
  function SortByIndex(s: seq<Entry>): (r: seq<Entry>)
    ensures SortedByIndex(r)
    ensures multiset(r) == multiset(s)
    ensures |r| == |s|
    decreases |s|
  {
    if s == [] then []
    else
      assert s == s[..|s| - 1] + [s[|s| - 1]];
      Insert(SortByIndex(s[..|s| - 1]), s[|s| - 1])
  }

  /** Every key decoded to its row; `ethToIndex` throws on the first key that
      is not an address, so the whole list fails. */
  function DecodeAll(keys: Favourites): (r: Result<seq<Entry>, CodecError>)
    ensures r.Success? <==> forall k | 0 <= k < |keys| :: EthToIndex(keys[k]).Success?
    ensures r.Failure? ==> r.error == InvalidFormat
    ensures r.Success? ==> |r.value| == |keys|
    ensures r.Success? ==> forall k | 0 <= k < |keys| ::
      r.value[k] == Entry(EthToIndex(keys[k]).value, keys[k])
  {
    if keys == [] then Success([])
    else
      match EthToIndex(keys[0])
      case Failure(e) => Failure(e)
      case Success(index) =>
        assert forall k | 0 <= k < |keys[1..]| :: keys[1..][k] == keys[k + 1];
        match DecodeAll(keys[1..])
        case Failure(e) => Failure(e)
        case Success(rest) => Success([Entry(index, keys[0])] + rest)
  }

  /** The favourites `displayedAddresses`: decode, sort by index, and slice
      from `min(position, maxPosition)` to the unclamped
      `position + itemsToShow`. */
  function FavouritesWindow(keys: Favourites, position: int, itemsToShow: nat, maxPosition: int)
    : (r: Result<seq<Entry>, CodecError>)
    ensures r.Success? <==> forall k | 0 <= k < |keys| :: EthToIndex(keys[k]).Success?
    ensures r.Success? ==> SortedByIndex(r.value)
    ensures r.Success? ==> forall i | 0 <= i < |r.value| ::
      r.value[i].address in keys && EthToIndex(r.value[i].address) == Success(r.value[i].index)
  {
    match DecodeAll(keys)
    case Failure(e) => Failure(e)
    case Success(all) =>
      var sorted := SortByIndex(all);
      var start := if position > maxPosition then maxPosition else position;
      var shown := JsSlice(sorted, start, position + itemsToShow);
      SortedRowsAreFavourites(keys, sorted);
      RunOfFavourites(keys, sorted, shown);
      Success(shown)
  }

  /** A contiguous run of sorted favourites is sorted favourites. */
  lemma RunOfFavourites(keys: Favourites, sorted: seq<Entry>, run: seq<Entry>)
    requires SortedByIndex(sorted)
    requires forall i | 0 <= i < |sorted| ::
      sorted[i].address in keys && EthToIndex(sorted[i].address) == Success(sorted[i].index)
    requires exists a, b | 0 <= a <= b <= |sorted| :: run == sorted[a..b]
    ensures SortedByIndex(run)
    ensures forall i | 0 <= i < |run| ::
      run[i].address in keys && EthToIndex(run[i].address) == Success(run[i].index)
  {
    var a, b :| 0 <= a <= b <= |sorted| && run == sorted[a..b];
    assert forall i | 0 <= i < |run| :: run[i] == sorted[a + i];
  }

  /** A permutation of the decoded favourites holds only favourites, each with
      its own index. */
  lemma SortedRowsAreFavourites(keys: Favourites, sorted: seq<Entry>)
    requires DecodeAll(keys).Success?
    requires multiset(sorted) == multiset(DecodeAll(keys).value)
    ensures forall i | 0 <= i < |sorted| ::
      sorted[i].address in keys && EthToIndex(sorted[i].address) == Success(sorted[i].index)
  {
    var all := DecodeAll(keys).value;
    forall i | 0 <= i < |sorted|
      ensures sorted[i].address in keys && EthToIndex(sorted[i].address) == Success(sorted[i].index)
    {
      assert sorted[i] in multiset(sorted);
      assert sorted[i] in multiset(all);
      var k :| 0 <= k < |all| && all[k] == sorted[i];
    }
  }

  /** From a position within the favourites bounds the window is the next
      `itemsToShow` favourites in index order, or all that remain. */
  lemma FavouritesWindowInRange(keys: Favourites, position: int, itemsToShow: nat)
    requires forall k | 0 <= k < |keys| :: EthToIndex(keys[k]).Success?
    requires 0 <= position <= MaxPosition(true, itemsToShow, |keys|)
    ensures var r := FavouritesWindow(keys, position, itemsToShow, MaxPosition(true, itemsToShow, |keys|));
      && r.Success?
      && r.value == SortByIndex(DecodeAll(keys).value)[position..Min(position + itemsToShow, |keys|)]
      && |r.value| == Min(itemsToShow, |keys|)
  {
    var m := MaxPosition(true, itemsToShow, |keys|);
    var sorted := SortByIndex(DecodeAll(keys).value);
    assert position <= |keys|;
    var end := Min(position + itemsToShow, |keys|);
    assert JsSlice(sorted, position, position + itemsToShow) == sorted[position..end];
  }

  /** Scrolled past the favourites bound (a favourite was removed while the
      view sat at the bottom), the start is clamped back to `MAX_POSITION`
      while the end is not: the window is the last screen of favourites. */
  lemma FavouritesWindowClamped(keys: Favourites, position: int, itemsToShow: nat)
    requires forall k | 0 <= k < |keys| :: EthToIndex(keys[k]).Success?
    requires position > MaxPosition(true, itemsToShow, |keys|)
    ensures var m := MaxPosition(true, itemsToShow, |keys|);
      var r := FavouritesWindow(keys, position, itemsToShow, m);
      && r.Success?
      && r.value == SortByIndex(DecodeAll(keys).value)[m..Min(position + itemsToShow, |keys|)]
      && |r.value| == Min(itemsToShow, |keys|)
  {
    var m := MaxPosition(true, itemsToShow, |keys|);
    var sorted := SortByIndex(DecodeAll(keys).value);
    assert |sorted| == |keys|;
    assert Min(position + itemsToShow, |keys|) == |keys|;
    assert JsSlice(sorted, m, position + itemsToShow) == sorted[m..|keys|];
  }

  function Min(a: int, b: int): int {
    if a <= b then a else b
  }

  // ---------------------------------------------------------------------------
  // Favourites toggle and view switch

  /** `toggleFavedAddress`: a stored key is deleted, any other is added
      last. */
  function Toggle(keys: Favourites, address: string): (r: Favourites)
    ensures address in r <==> address !in keys
    ensures forall other | other != address :: other in r <==> other in keys
    ensures Distinct(keys) ==> Distinct(r)
  {
    if address in keys then Remove(keys, address) else keys + [address]
  }

  function Remove(keys: Favourites, address: string): (r: Favourites)
    ensures address !in r
    ensures forall other | other != address :: other in r <==> other in keys
    ensures Distinct(keys) ==> Distinct(r)
    ensures Distinct(keys) && address !in keys ==> r == keys
    ensures Distinct(keys) && address in keys ==> |r| == |keys| - 1
    decreases |keys|
  {
    if keys == [] then []
    else
      var rest := Remove(keys[1..], address);
      assert Distinct(keys) ==> keys[0] !in keys[1..] && Distinct(keys[1..]);
      if keys[0] == address then rest
      else [keys[0]] + rest
  }

  /** Toggling a key twice restores its membership and leaves every other
      key alone; an absent key is restored exactly, order included. */
  lemma {:induction false} ToggleTwice(keys: Favourites, address: string)
    requires Distinct(keys)
    ensures forall other :: other in Toggle(Toggle(keys, address), address) <==> other in keys
    ensures address !in keys ==> Toggle(Toggle(keys, address), address) == keys
  {
    if address !in keys {
      RemoveLast(keys, address);
    }
  }

  lemma {:induction false} RemoveLast(keys: Favourites, address: string)
    requires address !in keys
    ensures Remove(keys + [address], address) == keys
    decreases |keys|
  {
    if keys != [] {
      assert (keys + [address])[1..] == keys[1..] + [address];
      RemoveLast(keys[1..], address);
    } else {
      assert Remove([address], address) == [];
    }
  }

  /** The scroll state the view reads. */
  datatype View = View(position: int, showFavorites: bool)

  /** `setShowFavorites`: switch the view and scroll back to the top. */
  function SetShowFavorites(v: View, value: bool): (r: View)
    ensures r.showFavorites == value
    ensures r.position == 0
    ensures forall itemsToShow: nat, count: nat | itemsToShow <= MAX_ETH_ADDRESS ::
      0 <= r.position <= MaxPosition(r.showFavorites, itemsToShow, count)
  {
    View(0, value)
  }
}
