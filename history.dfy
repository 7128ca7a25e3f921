/**
 * The visit history: a list of "alias|url" items, most recent first, the codec of one
 * item, and the order-losing save and reload through a string set.
 */
module History {
  import opened Wrappers
  import opened Text

  /** The alias given to an item that holds no '|'. */
  const UnnamedAlias: string := "未命名"

  const Separator: char := '|'

  datatype Entry = Entry(alias: string, url: string)

  /** `"$alias|$url"`. */
  function EncodeEntry(alias: string, url: string): string {
    alias + [Separator] + url
  }

  /**
   * Opening an item: with a '|' the alias and url are the first two pieces of
   * `split("|")`; without one the alias is "未命名" and the url is the whole item.
   */
  function DecodeEntry(item: string): (e: Entry)
    ensures Separator !in item ==> e == Entry(UnnamedAlias, item)
    ensures Separator in item ==> Separator !in e.alias && Separator !in e.url
    ensures Separator in item ==> |e.alias| < |item| && e.alias == item[..|e.alias|] && item[|e.alias|] == Separator
    ensures Separator in item ==>
              var k := |e.alias| + 1;
              k + |e.url| <= |item| && e.url == item[k..k + |e.url|]
              && (k + |e.url| == |item| || item[k + |e.url|] == Separator)
  {
    if Separator in item then
      var parts := Split(item, Separator);
      SplitLayout(item);
      Entry(parts[0], parts[1])
    else Entry(UnnamedAlias, item)
  }

  /** Where the first two pieces of `split("|")` sit in an item that holds a '|'. */
  lemma SplitLayout(item: string)
    requires Separator in item
    ensures var parts := Split(item, Separator);
            |parts| >= 2 && JoinedLayout(item, parts[0], parts[1])
  {
    var parts := Split(item, Separator);
    JoinSplit(item, Separator);
    JoinLayout(parts);
  }

  /**
   * `item` starts with `alias`, a '|', and `url`, which is followed by a '|' or by the
   * end of the item.
   */
  predicate JoinedLayout(item: string, alias: string, url: string) {
    |alias| < |item| && alias == item[..|alias|] && item[|alias|] == Separator
    && var k := |alias| + 1;
       k + |url| <= |item| && url == item[k..k + |url|]
       && (k + |url| == |item| || item[k + |url|] == Separator)
  }

  /** The join of two or more pieces with '|' starts with the first two, as laid out above. */
  lemma JoinLayout(parts: seq<string>)
    requires |parts| >= 2
    ensures JoinedLayout(Join(parts, Separator), parts[0], parts[1])
  {
    var tail := Join(parts[1..], Separator);
    assert Join(parts, Separator) == parts[0] + [Separator] + tail;
    JoinHead(parts[1..], Separator);
    EntryTail(parts[0], tail, parts[1]);
  }

  /** An alias, a '|', then a text that starts with the url and a '|' or the end. */
  lemma EntryTail(alias: string, tail: string, url: string)
    requires |url| <= |tail| && tail[..|url|] == url
    requires |url| == |tail| || tail[|url|] == Separator
    ensures JoinedLayout(alias + [Separator] + tail, alias, url)
  {
    var item := alias + [Separator] + tail;
    var k := |alias| + 1;
    assert item[..|alias|] == alias && item[|alias|] == Separator;
    assert item[k..] == tail;
    assert item[k..k + |url|] == tail[..|url|];
    if k + |url| < |item| {
      assert item[k + |url|] == tail[|url|];
    }
  }

  /** Encoding then decoding gives back (alias, url) exactly when neither holds a '|'. */
  lemma EntryRoundTrip(alias: string, url: string)
    ensures DecodeEntry(EncodeEntry(alias, url)) == Entry(alias, url) <==> Separator !in alias && Separator !in url
  {
    var item := EncodeEntry(alias, url);
    SplitAround(alias, url, Separator);
    if Separator !in alias && Separator !in url {
      SplitNoDelimiter(alias, Separator);
      SplitNoDelimiter(url, Separator);
    } else if Separator !in alias {
      SplitNoDelimiter(alias, Separator);
      assert Split(item, Separator)[1] == Split(url, Separator)[0];
      JoinSplit(url, Separator);
      var up := Split(url, Separator);
      assert url == up[0] + [Separator] + Join(up[1..], Separator);
      assert DecodeEntry(item).url != url;
    } else {
      assert Separator !in DecodeEntry(item).alias;
    }
  }

  // ---------------------------------------------------------------------------
  // The list operations
  // ---------------------------------------------------------------------------

  predicate Distinct(xs: seq<string>) {
    forall i, j :: 0 <= i < j < |xs| ==> xs[i] != xs[j]
  }

  /** The index of the first occurrence of `x`. */
  function IndexOf(xs: seq<string>, x: string): (i: nat)
    requires x in xs
    ensures i < |xs| && xs[i] == x
    ensures forall j :: 0 <= j < i ==> xs[j] != x
  {
    if xs[0] == x then 0 else 1 + IndexOf(xs[1..], x)
  }

  /**
   * `ArrayList.remove(item)`: removes the first occurrence, if any, keeping the other
   * items in their order.
   */
  function RemoveFirst(xs: seq<string>, x: string): (r: seq<string>)
    ensures x !in xs ==> r == xs
    ensures x in xs ==> |r| == |xs| - 1
    ensures multiset(r) == multiset(xs) - multiset{x}
  {
    if x in xs then
      var i := IndexOf(xs, x);
      assert xs == xs[..i] + [x] + xs[i + 1..];
      xs[..i] + xs[i + 1..]
    else xs
  }

  /** `addToHistory`: drop the item where it was and put it at index 0. */
  function MoveToFront(xs: seq<string>, x: string): seq<string> {
    [x] + RemoveFirst(xs, x)
  }

  lemma {:induction false} DistinctMultiplicity(xs: seq<string>)
    requires Distinct(xs)
    ensures forall y :: multiset(xs)[y] == if y in xs then 1 else 0
    decreases |xs|
  {
    if xs != [] {
      DistinctMultiplicity(xs[1..]);
      assert xs == [xs[0]] + xs[1..];
      assert xs[0] !in xs[1..];
    }
  }

  lemma {:induction false} RepeatedItem(xs: seq<string>, i: nat, j: nat)
    requires i < j < |xs| && xs[i] == xs[j]
    ensures multiset(xs)[xs[i]] >= 2
  {
    assert xs == xs[..i] + [xs[i]] + xs[i + 1..j] + [xs[j]] + xs[j + 1..];
  }

  lemma MultiplicityDistinct(xs: seq<string>)
    requires forall y :: multiset(xs)[y] <= 1
    ensures Distinct(xs)
  {
    forall i, j | 0 <= i < j < |xs| ensures xs[i] != xs[j] {
      if xs[i] == xs[j] {
        RepeatedItem(xs, i, j);
      }
    }
  }

  /**
   * After `addToHistory` the item is at index 0 and the other items follow in their
   * old relative order.
   */
  lemma MoveToFrontOrder(xs: seq<string>, x: string)
    ensures MoveToFront(xs, x)[0] == x
    ensures x in xs ==> MoveToFront(xs, x)[1..] == xs[..IndexOf(xs, x)] + xs[IndexOf(xs, x) + 1..]
    ensures x !in xs ==> MoveToFront(xs, x)[1..] == xs
  {
    assert MoveToFront(xs, x)[1..] == RemoveFirst(xs, x);
  }

  /** `addToHistory` adds the item if it was missing and otherwise keeps the same items. */
  lemma MoveToFrontContents(xs: seq<string>, x: string)
    ensures multiset(MoveToFront(xs, x)) == if x in xs then multiset(xs) else multiset(xs) + multiset{x}
  {
    assert multiset(MoveToFront(xs, x)) == multiset{x} + multiset(RemoveFirst(xs, x));
  }

  /** A duplicate-free history stays duplicate-free, with the added item present exactly once. */
  lemma MoveToFrontKeepsDistinct(xs: seq<string>, x: string)
    requires Distinct(xs)
    ensures Distinct(MoveToFront(xs, x)) && multiset(MoveToFront(xs, x))[x] == 1
  {
    var r := MoveToFront(xs, x);
    MoveToFrontContents(xs, x);
    DistinctMultiplicity(xs);
    assert forall y :: multiset(r)[y] <= 1;
    MultiplicityDistinct(r);
  }

  /** The item is first in the list `addToHistory` returns. */
  lemma FrontIndex(r: seq<string>, x: string)
    requires |r| > 0 && r[0] == x
    ensures RemoveFirst(r, x) == r[1..]
  {
    assert IndexOf(r, x) == 0;
  }

  /** Adding the same item twice in a row is adding it once. */
  lemma MoveToFrontIdempotent(xs: seq<string>, x: string)
    ensures MoveToFront(MoveToFront(xs, x), x) == MoveToFront(xs, x)
  {
    var r := MoveToFront(xs, x);
    FrontIndex(r, x);
    assert r[1..] == RemoveFirst(xs, x);
  }

  /** Two duplicate-free lists with the same items are permutations of each other. */
  lemma SameItemsArePermutations(a: seq<string>, b: seq<string>)
    requires Distinct(a) && Distinct(b)
    requires forall y :: y in a <==> y in b
    ensures multiset(a) == multiset(b)
  {
    DistinctMultiplicity(a);
    DistinctMultiplicity(b);
  }

  /** `historyList` with the list view's add, remove and reload. */
  class HistoryList {
    var items: seq<string>

    constructor ()
      ensures items == []
    {
      items := [];
    }

    /** `addToHistory(item)`. */
    method Add(item: string)
      modifies this
      ensures items == MoveToFront(old(items), item)
    {
      if item in items {
        items := RemoveFirst(items, item);
      }
      items := [item] + items;
    }

    /** The long-click handler: `historyList.removeAt(position)`. */
    method RemoveAt(position: nat)
      requires position < |items|
      modifies this
      ensures items == old(items)[..position] + old(items)[position + 1..]
    {
      items := items[..position] + items[position + 1..];
    }

    /** `saveHistory`: what is stored is `HashSet(historyList)`. */
    function Saved(): (s: set<string>)
      reads this
      ensures forall y :: y in s <==> y in items
    {
      set y | y in items
    }

    /**
     * `loadHistory`: clear, then add the stored set's items in the set's iteration
     * order, which the model leaves open.
     */
    method Reload(stored: Option<set<string>>)
      modifies this
      ensures Distinct(items)
      ensures forall y :: y in items <==> stored.Some? && y in stored.value
    {
      items := [];
      if stored.Some? {
        var rest := stored.value;
        while rest != {}
          invariant rest <= stored.value
          invariant Distinct(items)
          invariant forall y :: y in items <==> y in stored.value && y !in rest
          decreases |rest|
        {
          var y :| y in rest;
          items := items + [y];
          rest := rest - {y};
        }
      }
    }
  }

  /**
   * Saving and reloading a duplicate-free history gives back the same items, though
   * perhaps in another order.
   */
  lemma ReloadIsPermutation(before: seq<string>, saved: set<string>, after: seq<string>)
    requires Distinct(before) && Distinct(after)
    requires forall y :: y in saved <==> y in before
    requires forall y :: y in after <==> y in saved
    ensures multiset(after) == multiset(before)
  {
    SameItemsArePermutations(before, after);
  }
}
