/** The per-item filter of scrape_sold_items: which listings of a results page become records. */
module Scrape {
  import opened Text
  import opened Patterns
  import opened Price
  import opened Attributes

  /** The title of eBay's first, dummy result, in lower case. */
  const Placeholder: string := "shop on ebay"

  /** One result of the page: the text of its title element and of its price element,
      `None` where the element is missing. */
  datatype RawItem = RawItem(title: Option<string>, price: Option<string>)

  /** A record of the result table: name, price and the attributes read from the name. */
  datatype Listing = Listing(name: string, price: Decimal, attributes: Attributes)

  /** What the loop does with one item: skips it, keeps a record, or meets the exception
      that `float()` raises. */
  datatype Step = Skip | Keep(listing: Listing) | Raise

  /** The body of the loop for one item. */
  function Classify(item: RawItem): Step {
    if item.title.None? || item.price.None? then Skip
    else
      var title := Strip(item.title.value);
      if Lower(title) == Placeholder then Skip
      else
        match ExtractPrice(Some(Strip(item.price.value)))
        case ConversionError => Raise
        case NoPrice => Skip
        case Amount(price) =>
          if title != "" && price.units > 0 then Keep(Listing(title, price, AttributesOf(title)))
          else Skip
  }

  /** The step for each item, in page order. */
  function Steps(items: seq<RawItem>): (steps: seq<Step>)
    ensures |steps| == |items|
    ensures forall k :: 0 <= k < |items| ==> steps[k] == Classify(items[k])
  {
    Map(Classify, items)
  }

  /** `f` applied to each element. Kept generic so that proofs about the order of the steps
      never look inside `Classify`. */
  function Map<A, B>(f: A -> B, xs: seq<A>): (ys: seq<B>)
    ensures |ys| == |xs|
    ensures forall k :: 0 <= k < |xs| ==> ys[k] == f(xs[k])
  {
    seq(|xs|, k requires 0 <= k < |xs| => f(xs[k]))
  }

  lemma MapSnoc<A, B>(f: A -> B, xs: seq<A>, i: nat)
    requires i < |xs|
    ensures Map(f, xs[..i + 1]) == Map(f, xs[..i]) + [f(xs[i])]
  {
    assert xs[..i + 1][..i] == xs[..i];
  }

  /** The loop over the steps: the records kept, or `None` once a step raises. */
  function Process(steps: seq<Step>): Option<seq<Listing>>
    decreases |steps|
  {
    if steps == [] then Some([])
    else
      match Process(steps[..|steps| - 1])
      case None => None
      case Some(records) =>
        match steps[|steps| - 1]
        case Raise => None
        case Skip => Some(records)
        case Keep(listing) => Some(records + [listing])
  }

  /** The records of `items`, the empty table when the exception handler took over. */
  function Scraped(items: seq<RawItem>): seq<Listing> {
    match Process(Steps(items))
    case None => []
    case Some(records) => records
  }

  /** scrape_sold_items from the parsed items on: skip, stop or append, item by item. */
  method ScrapeSoldItems(items: seq<RawItem>) returns (records: seq<Listing>)
    ensures records == Scraped(items)
  {
    var results: seq<Listing> := [];
    for i := 0 to |items|
      invariant Process(Steps(items[..i])) == Some(results)
    {
      var item := items[i];
      if item.title.None? || item.price.None? {
        MissingSkipped(item);
        NextStep(items, i, results, Skip);
        continue;
      }
      var title := Strip(item.title.value);
      if Lower(title) == Placeholder {
        PlaceholderSkipped(item.title.value, item.price);
        NextStep(items, i, results, Skip);
        continue;
      }
      var price := ExtractPrice(Some(Strip(item.price.value)));
      if price.ConversionError? {
        ClassifiedRaise(item);
        NextStep(items, i, results, Raise);
        PrefixSteps(items, i + 1);
        FailureIsFinal(Steps(items), i + 1);
        return [];
      }
      if title != "" && price.Amount? && price.amount.units > 0 {
        var attributes := ExtractAttributes(title);
        var listing := Listing(title, price.amount, attributes);
        KeepExactly(item, listing);
        NextStep(items, i, results, Keep(listing));
        results := results + [listing];
      } else {
        ClassifiedSkip(item);
        NextStep(items, i, results, Skip);
      }
    }
    assert items[..|items|] == items;
    records := results;
  }

  /** The loop invariant carried over one item whose step is known. */
  lemma NextStep(items: seq<RawItem>, i: nat, results: seq<Listing>, step: Step)
    requires i < |items| && Process(Steps(items[..i])) == Some(results) && Classify(items[i]) == step
    ensures Process(Steps(items[..i + 1])) ==
      match step
      case Raise => None
      case Skip => Some(results)
      case Keep(listing) => Some(results + [listing])
  {
    StepsSnoc(items, i);
    ProcessSnoc(Steps(items[..i]), step);
  }

  lemma ClassifiedRaise(item: RawItem)
    requires item.title.Some? && item.price.Some? && Lower(Strip(item.title.value)) != Placeholder
    requires ExtractPrice(Some(Strip(item.price.value))).ConversionError?
    ensures Classify(item) == Raise
  {
  }

  lemma ClassifiedSkip(item: RawItem)
    requires item.title.Some? && item.price.Some? && Lower(Strip(item.title.value)) != Placeholder
    requires var price := ExtractPrice(Some(Strip(item.price.value)));
      && !price.ConversionError?
      && !(Strip(item.title.value) != "" && price.Amount? && price.amount.units > 0)
    ensures Classify(item) == Skip
  {
  }

  lemma PrefixSteps(items: seq<RawItem>, n: nat)
    requires n <= |items|
    ensures Steps(items)[..n] == Steps(items[..n])
  {
  }

  lemma StepsSnoc(items: seq<RawItem>, i: nat)
    requires i < |items|
    ensures Steps(items[..i + 1]) == Steps(items[..i]) + [Classify(items[i])]
  {
    MapSnoc(Classify, items, i);
  }

  /** Once an item raises, the whole loop fails, whatever follows. */
  lemma {:induction false} FailureIsFinal(steps: seq<Step>, n: nat)
    requires n <= |steps| && Process(steps[..n]).None?
    ensures Process(steps).None?
    decreases |steps| - n
  {
    if n < |steps| {
      assert steps[..n + 1][..n] == steps[..n];
      FailureIsFinal(steps, n + 1);
    } else {
      assert steps[..n] == steps;
    }
  }

  /** The records the loop keeps when nothing raises: the listings of the kept
      steps, in order. */
  function Kept(steps: seq<Step>): seq<Listing>
    decreases |steps|
  {
    if steps == [] then []
    else
      Kept(steps[..|steps| - 1])
      + match steps[|steps| - 1] case Keep(listing) => [listing] case _ => []
  }

  /** The loop fails exactly when some step raises; otherwise it yields the kept records. */
  lemma {:induction false} ProcessExactly(steps: seq<Step>)
    ensures Process(steps).None? <==> exists k :: 0 <= k < |steps| && steps[k].Raise?
    ensures Process(steps).Some? ==> Process(steps).value == Kept(steps)
    decreases |steps|
  {
    if steps != [] {
      var init := steps[..|steps| - 1];
      ProcessExactly(init);
      if exists k :: 0 <= k < |init| && init[k].Raise? {
        var k :| 0 <= k < |init| && init[k].Raise?;
        assert steps[k] == init[k];
      }
      if exists k :: 0 <= k < |steps| && steps[k].Raise? {
        var k :| 0 <= k < |steps| && steps[k].Raise?;
        if k < |init| {
          assert init[k] == steps[k];
        }
      }
    }
  }

  /** Records keep the order of the page: the records of two runs of steps are the
      records of the first followed by those of the second. */
  lemma {:induction false} KeptAppend(a: seq<Step>, b: seq<Step>)
    ensures Kept(a + b) == Kept(a) + Kept(b)
    decreases |b|
  {
    if b == [] {
      assert a + b == a;
    } else {
      var b' := b[..|b| - 1];
      assert (a + b)[..|a + b| - 1] == a + b';
      assert (a + b)[|a + b| - 1] == b[|b| - 1];
      KeptAppend(a, b');
    }
  }

  /** Every record comes from a kept step, and every kept step gives a record. */
  lemma {:induction false} KeptFromSteps(steps: seq<Step>)
    ensures |Kept(steps)| <= |steps|
    ensures forall l :: l in Kept(steps) ==> Keep(l) in steps
    ensures forall k :: 0 <= k < |steps| && steps[k].Keep? ==> steps[k].listing in Kept(steps)
    decreases |steps|
  {
    if steps != [] {
      var init := steps[..|steps| - 1];
      KeptFromSteps(init);
      forall l | l in Kept(steps) ensures Keep(l) in steps {
        if l in Kept(init) {
          var k :| 0 <= k < |init| && init[k] == Keep(l);
          assert steps[k] == init[k];
        }
      }
      forall k | 0 <= k < |steps| && steps[k].Keep?
        ensures steps[k].listing in Kept(steps)
      {
        if k < |init| {
          assert init[k] == steps[k];
        }
      }
    }
  }

  /** An item is kept exactly when both elements are present, the stripped title is
      non-empty and not the placeholder, and the stripped price text parses to a
      non-zero amount; the record holds that title, that amount and the attributes
      read from the title. */
  lemma KeepExactly(item: RawItem, listing: Listing)
    ensures Classify(item) == Keep(listing) <==>
      && item.title.Some? && item.price.Some?
      && listing.name == Strip(item.title.value)
      && listing.name != ""
      && Lower(listing.name) != Placeholder
      && ExtractPrice(Some(Strip(item.price.value))) == Amount(listing.price)
      && listing.price.units > 0
      && listing.attributes == AttributesOf(listing.name)
  {
  }

  /** An item whose title is the placeholder is skipped before its price is read, so
      even a price that `float()` rejects does not stop the loop. */
  lemma PlaceholderSkipped(title: string, price: Option<string>)
    requires Lower(Strip(title)) == Placeholder
    ensures Classify(RawItem(Some(title), price)) == Skip
  {
  }

  /** An item without a title element or without a price element is skipped. */
  lemma MissingSkipped(item: RawItem)
    requires item.title.None? || item.price.None?
    ensures Classify(item) == Skip
  {
  }

  /** An item raises exactly when both elements are present, the title is not the
      placeholder, and the first price match in the stripped price text holds no digit. */
  lemma RaiseExactly(item: RawItem)
    ensures Classify(item).Raise? <==>
      && item.title.Some? && item.price.Some?
      && Lower(Strip(item.title.value)) != Placeholder
      && var s := Strip(item.price.value);
         && Search(PricePattern, s, 0).Some?
         && var m := Search(PricePattern, s, 0).value;
            forall c :: c in s[m.groupStart..m.end] ==> !IsDigit(c)
  {
    if item.title.Some? && item.price.Some? {
      ConversionErrorExactly(Strip(item.price.value));
    }
  }

  /** What a kept item's record holds. */
  lemma KeptListingValid(item: RawItem, l: Listing)
    requires Classify(item) == Keep(l)
    ensures && l.name != "" && Strip(l.name) == l.name && Lower(l.name) != Placeholder
            && l.price.units > 0
            && l.attributes == AttributesOf(l.name)
            && item.title.Some? && item.price.Some?
            && Strip(item.title.value) == l.name
            && ExtractPrice(Some(Strip(item.price.value))) == Amount(l.price)
  {
    KeepExactly(item, l);
    StripIdempotent(item.title.value);
  }

  /** Every record of the table has a non-empty, stripped name that is not the
      placeholder, a non-zero price, the attributes of its name, and comes from an
      item of the page with that stripped title and a price text that parses to that
      price. */
  lemma RecordsValid(items: seq<RawItem>)
    ensures forall l :: l in Scraped(items) ==>
      && l.name != "" && Strip(l.name) == l.name && Lower(l.name) != Placeholder
      && l.price.units > 0
      && l.attributes == AttributesOf(l.name)
      && exists k :: && 0 <= k < |items| && items[k].title.Some? && items[k].price.Some?
                     && Strip(items[k].title.value) == l.name
                     && ExtractPrice(Some(Strip(items[k].price.value))) == Amount(l.price)
  {
    var steps := Steps(items);
    ProcessExactly(steps);
    KeptFromSteps(steps);
    forall l | l in Scraped(items)
      ensures && l.name != "" && Strip(l.name) == l.name && Lower(l.name) != Placeholder
              && l.price.units > 0
              && l.attributes == AttributesOf(l.name)
      ensures exists k :: && 0 <= k < |items| && items[k].title.Some? && items[k].price.Some?
                          && Strip(items[k].title.value) == l.name
                          && ExtractPrice(Some(Strip(items[k].price.value))) == Amount(l.price)
    {
      var k :| 0 <= k < |steps| && steps[k] == Keep(l);
      KeptListingValid(items[k], l);
    }
  }

  /** The table is empty when some item raises, and otherwise holds the record of
      every kept item, and only those, in page order. */
  lemma ScrapedExactly(items: seq<RawItem>)
    ensures (exists k :: 0 <= k < |items| && Classify(items[k]).Raise?) ==> Scraped(items) == []
    ensures (forall k :: 0 <= k < |items| ==> !Classify(items[k]).Raise?) ==>
      && Scraped(items) == Kept(Steps(items))
      && forall k :: 0 <= k < |items| && Classify(items[k]).Keep? ==> Classify(items[k]).listing in Scraped(items)
  {
    ProcessExactly(Steps(items));
    KeptFromSteps(Steps(items));
  }

  /** Example: the placeholder is skipped although its price text would raise, an item
      without a title is skipped, and the listing in between becomes the one record. */
  lemma ExamplePage(items: seq<RawItem>)
    requires items == [RawItem(Some("Shop on eBay"), Some(",")),
                       RawItem(Some("Gold 64GB"), Some("$1,234.56")),
                       RawItem(None, Some("$5"))]
    ensures Scraped(items) == [Listing("Gold 64GB", Decimal(123456, 2),
                                       Attributes(Some("64GB"), Some("Gold"), None))]
  {
    PlaceholderStep(items[0]);
    ListingStep(items[1]);
    MissingSkipped(items[2]);
    var l := Listing("Gold 64GB", Decimal(123456, 2), Attributes(Some("64GB"), Some("Gold"), None));
    SeqOfThree(Steps(items), Skip, Keep(l), Skip);
    SkipKeepSkip(l);
  }

  lemma SeqOfThree<T>(s: seq<T>, a: T, b: T, c: T)
    requires |s| == 3 && s[0] == a && s[1] == b && s[2] == c
    ensures s == [a, b, c]
  {
  }

  lemma SkipKeepSkip(l: Listing)
    ensures Process([Skip, Keep(l), Skip]) == Some([l])
  {
    var none: seq<Step> := [];
    var empty: seq<Listing> := [];
    assert Process(none) == Some(empty);
    ProcessSnoc(none, Skip);
    assert none + [Skip] == [Skip];
    assert empty + [l] == [l];
    ProcessSnoc([Skip], Keep(l));
    assert [Skip] + [Keep(l)] == [Skip, Keep(l)];
    ProcessSnoc([Skip, Keep(l)], Skip);
    assert [Skip, Keep(l)] + [Skip] == [Skip, Keep(l), Skip];
  }

  /** One more step: a failure stays a failure, and otherwise the step decides. */
  lemma ProcessSnoc(steps: seq<Step>, step: Step)
    ensures Process(steps + [step]) ==
      match Process(steps)
      case None => None
      case Some(records) =>
        match step
        case Raise => None
        case Skip => Some(records)
        case Keep(listing) => Some(records + [listing])
  {
    assert (steps + [step])[..|steps|] == steps;
  }

  lemma PlaceholderStep(item: RawItem)
    requires item == RawItem(Some("Shop on eBay"), Some(","))
    ensures Classify(item) == Skip
  {
    var placeholder := "Shop on eBay";
    StripUnchanged(placeholder);
    assert Lower(placeholder) == Placeholder;
    PlaceholderSkipped(placeholder, Some(","));
  }

  lemma ListingStep(item: RawItem)
    requires item == RawItem(Some("Gold 64GB"), Some("$1,234.56"))
    ensures Classify(item) == Keep(Listing("Gold 64GB", Decimal(123456, 2),
                                           Attributes(Some("64GB"), Some("Gold"), None)))
  {
    var title, price := "Gold 64GB", "$1,234.56";
    StripUnchanged(title);
    StripUnchanged(price);
    ExampleDollars(price);
    ExampleColorStorage(title);
    assert Lower(title) != Placeholder by {
      assert |Lower(title)| != |Placeholder|;
    }
  }

  /** Example: one item whose price text is a lone comma empties the whole table. */
  lemma ExampleRaise(items: seq<RawItem>)
    requires items == [RawItem(Some("Gold 64GB"), Some("$1,234.56")), RawItem(Some("Case"), Some(","))]
    ensures Scraped(items) == []
  {
    RaiseStep(items[1]);
    assert Classify(items[1]).Raise?;
    ScrapedExactly(items);
  }

  lemma RaiseStep(item: RawItem)
    requires item == RawItem(Some("Case"), Some(","))
    ensures Classify(item) == Raise
  {
    var title, price := "Case", ",";
    StripUnchanged(price);
    ExampleLoneComma(price);
    StripUnchanged(title);
    assert Lower(title) != Placeholder by {
      assert |Lower(title)| != |Placeholder|;
    }
  }
}
