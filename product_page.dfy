/** The data logic of the `ProductPage` page object (pages/ProductPage.ts):
    the site checks, the bounded extraction of the "similar items" cards,
    the wallet-category score and the price-band enrichment. Browser reads
    are inputs: the page title and URL are strings, and the cards are given
    as what their reads returned. */
module ProductPage {
  import opened Strings
  import opened Records
  import opened PriceText

  // ---------------------------------------------------------------------
  // Site checks (navigateToProduct, verifyProductPageLoaded)
  // ---------------------------------------------------------------------

  datatype Outcome = Pass | Fail(message: string)

  /** The check `navigateToProduct` makes once the page has loaded: it
      throws "Not an eBay page" exactly when "eBay" (case as written)
      occurs nowhere in the page title. */
  function NavigateToProduct(title: string): (r: Outcome)
    ensures r == Pass <==> exists i: nat :: OccursAt(title, "eBay", i)
    ensures r != Pass ==> r == Fail("Not an eBay page")
  {
    if Contains(title, "eBay") then Pass else Fail("Not an eBay page")
  }

  /** `verifyProductPageLoaded`: the title mentions "eBay" and the URL
      mentions "ebay.com". */
  function VerifyProductPageLoaded(title: string, url: string): (r: bool)
    ensures r <==> (exists i: nat :: OccursAt(title, "eBay", i)) && (exists j: nat :: OccursAt(url, "ebay.com", j))
  {
    Contains(title, "eBay") && Contains(url, "ebay.com")
  }

  /** A page that passes the loaded check also passes the navigation check. */
  lemma LoadedPagePassesNavigation(title: string, url: string)
    requires VerifyProductPageLoaded(title, url)
    ensures NavigateToProduct(title) == Pass
  {
  }

  /** `sub` cannot occur in a text that lacks its first character. */
  lemma AbsentFirstChar(s: string, sub: string)
    requires sub != [] && sub[0] !in s
    ensures !Contains(s, sub)
  {
    forall i: nat
      ensures !OccursAt(s, sub, i)
    {
      if i + |sub| <= |s| {
        assert s[i..i + |sub|][0] == s[i];
      }
    }
  }

  /** The brand check is case-sensitive: an upper-case "EBAY" title fails. */
  lemma UpperCaseTitleFails()
    ensures NavigateToProduct("EBAY") == Fail("Not an eBay page")
  {
    AbsentFirstChar("EBAY", "eBay");
  }

  // ---------------------------------------------------------------------
  // Extraction (getSimilarItems)
  // ---------------------------------------------------------------------

  /** At most this many cards are read (pages/ProductPage.ts:45). */
  const MaxSimilarItems: nat := 6

  /** What the browser returns for one card when none of its reads throws:
      `textContent()` of the title and price elements (`None` for null),
      the image's `src` attribute (`None` when absent) and `isVisible()`. */
  datatype CardFields = CardFields(
    titleText: Option<string>,
    priceText: Option<string>,
    imageAttr: Option<string>,
    visible: bool)

  /** JavaScript's `text || fallback` on a `string | null`: null and the
      empty string give the fallback. */
  function OrElse(text: Option<string>, fallback: string): (r: string)
    ensures text == None || text == Some("") ==> r == fallback
    ensures text.Some? && text.value != "" ==> r == text.value
  {
    if text.Some? && text.value != "" then text.value else fallback
  }

  function Min(a: nat, b: nat): nat {
    if a < b then a else b
  }

  /** The placeholder pushed for card `i` when one of its reads threw. */
  function Placeholder(i: nat): (r: SimilarItem)
    ensures r.price == "N/A" && !r.isVisible && r.imageSrc == None
    ensures r.priceValue == None && r.inPriceRange == None
    ensures |r.title| > 5 && r.title[..5] == "Item "
    ensures AllDigits(r.title[5..]) && DigitsValue(r.title[5..]) == i + 1
  {
    var digits := NatToDecimal(i + 1);
    NatToDecimalReadsBack(i + 1);
    assert ("Item " + digits)[5..] == digits;
    SimilarItem("Item " + digits, "N/A", None, false, None, None)
  }

  /** The record pushed for card `i`; `None` stands for a card on which some
      read threw. Extraction never sets the price fields, and only a
      placeholder lacks an image source. */
  function CardRecord(card: Option<CardFields>, i: nat): (r: SimilarItem)
    ensures r.priceValue == None && r.inPriceRange == None
    ensures r.imageSrc == None <==> card == None
  {
    match card
    case None => Placeholder(i)
    case Some(f) =>
      SimilarItem(
        Trim(OrElse(f.titleText, "No title")),
        Trim(OrElse(f.priceText, "No price")),
        Some(OrElse(f.imageAttr, "")),
        f.visible,
        None,
        None)
  }

  /** The records of the given cards, record `i` built from card `i`. */
  function CardRecords(cards: seq<Option<CardFields>>): (r: seq<SimilarItem>)
    ensures |r| == |cards|
  {
    if cards == [] then []
    else CardRecords(cards[..|cards| - 1]) + [CardRecord(cards[|cards| - 1], |cards| - 1)]
  }

  /** Record `i` is built from card `i` alone. */
  lemma {:induction false} CardRecordsAt(cards: seq<Option<CardFields>>, i: nat)
    requires i < |cards|
    ensures CardRecords(cards)[i] == CardRecord(cards[i], i)
  {
    var front := cards[..|cards| - 1];
    var last := CardRecord(cards[|cards| - 1], |cards| - 1);
    assert CardRecords(cards) == CardRecords(front) + [last];
    if i < |front| {
      CardRecordsAt(front, i);
      assert front[i] == cards[i];
      assert (CardRecords(front) + [last])[i] == CardRecords(front)[i];
    }
  }

  /** Reading one more card appends its record. */
  lemma CardRecordsExtend(cards: seq<Option<CardFields>>, i: nat)
    requires i < |cards|
    ensures CardRecords(cards[..i + 1]) == CardRecords(cards[..i]) + [CardRecord(cards[i], i)]
  {
    assert cards[..i + 1][..i] == cards[..i];
  }

  /** `getSimilarItems`: `cards` lists, in page order, the outcome of the
      reads on each card that the locator matched. Exactly
      `min(count, 6)` records come back, record `i` built from card `i`
      alone, so one failing card changes only its own record. */
  method GetSimilarItems(cards: seq<Option<CardFields>>) returns (items: seq<SimilarItem>)
    ensures |items| == Min(|cards|, MaxSimilarItems) <= MaxSimilarItems
    ensures items == CardRecords(cards[..|items|])
    ensures forall i :: 0 <= i < |items| ==> items[i] == CardRecord(cards[i], i)
  {
    var n := Min(|cards|, MaxSimilarItems);
    items := [];
    var i := 0;
    while i < n
      invariant i <= n && items == CardRecords(cards[..i])
    {
      var record := CardRecord(cards[i], i);
      CardRecordsExtend(cards, i);
      items := items + [record];
      i := i + 1;
    }
    forall k | 0 <= k < n
      ensures items[k] == CardRecord(cards[k], k)
    {
      CardRecordsAt(cards[..n], k);
      assert cards[..n][k] == cards[k];
    }
  }

  /** A card whose reads threw becomes "Item <i+1>", priced "N/A",
      invisible and without an image source. */
  lemma FailedCardIsPlaceholder(i: nat)
    ensures CardRecord(None, i).title == "Item " + NatToDecimal(i + 1)
    ensures CardRecord(None, i).price == "N/A"
    ensures !CardRecord(None, i).isVisible && CardRecord(None, i).imageSrc == None
  {
  }

  /** Placeholders keep the index-based identity of their cards: two
      different indices never share a placeholder title. */
  lemma PlaceholderTitlesDistinct(i: nat, j: nat)
    requires i != j
    ensures Placeholder(i).title != Placeholder(j).title
  {
    var a, b := NatToDecimal(i + 1), NatToDecimal(j + 1);
    NatToDecimalReadsBack(i + 1);
    NatToDecimalReadsBack(j + 1);
    assert ("Item " + a)[5..] == a;
    assert ("Item " + b)[5..] == b;
  }

  /** A card that was read successfully gets its title text trimmed, or
      "No title" when the text was null or empty. */
  lemma ReadCardTitle(f: CardFields, i: nat)
    ensures f.titleText == None || f.titleText == Some("") ==> CardRecord(Some(f), i).title == "No title"
    ensures f.titleText.Some? && f.titleText.value != "" ==> CardRecord(Some(f), i).title == Trim(f.titleText.value)
  {
    var text := OrElse(f.titleText, "No title");
    assert CardRecord(Some(f), i).title == Trim(text);
    if f.titleText == None || f.titleText == Some("") {
      assert text == "No title";
      NoTitleIsTrimmed();
    }
  }

  /** Likewise its price text, with "No price" as the default. */
  lemma ReadCardPrice(f: CardFields, i: nat)
    ensures f.priceText == None || f.priceText == Some("") ==> CardRecord(Some(f), i).price == "No price"
    ensures f.priceText.Some? && f.priceText.value != "" ==> CardRecord(Some(f), i).price == Trim(f.priceText.value)
  {
    var text := OrElse(f.priceText, "No price");
    assert CardRecord(Some(f), i).price == Trim(text);
    if f.priceText == None || f.priceText == Some("") {
      assert text == "No price";
      NoPriceIsTrimmed();
    }
  }

  /** Its image source is "" when the attribute is missing, and it keeps
      the visibility the browser reported. */
  lemma ReadCardImageAndVisibility(f: CardFields, i: nat)
    ensures f.imageAttr == None ==> CardRecord(Some(f), i).imageSrc == Some("")
    ensures f.imageAttr.Some? ==> CardRecord(Some(f), i).imageSrc == f.imageAttr
    ensures CardRecord(Some(f), i).isVisible == f.visible
  {
    match f.imageAttr
    case None =>
    case Some(src) =>
      assert OrElse(f.imageAttr, "") == src;
  }

  lemma NoTitleIsTrimmed()
    ensures Trim("No title") == "No title"
  {
    var s := "No title";
    assert s[0] == 'N' && s[|s| - 1] == 'e';
    TrimKeepsTrimmed(s);
  }

  lemma NoPriceIsTrimmed()
    ensures Trim("No price") == "No price"
  {
    var s := "No price";
    assert s[0] == 'N' && s[|s| - 1] == 'e';
    TrimKeepsTrimmed(s);
  }

  /** A title made only of whitespace is not empty, so it escapes the
      "No title" default and is trimmed to the empty string. */
  lemma WhitespaceTitleBecomesEmpty(f: CardFields, i: nat)
    requires f.titleText.Some? && f.titleText.value != [] && AllWhitespace(f.titleText.value)
    ensures CardRecord(Some(f), i).title == ""
  {
    TrimShape(f.titleText.value);
  }

  // ---------------------------------------------------------------------
  // Percentages (validateItemCategories, validatePriceRange)
  // ---------------------------------------------------------------------

  /** `total > 0 ? (count / total) * 100 : 0`: never a division by zero,
      and within [0, 100] whenever `count <= total`. */
  function Percentage(count: nat, total: nat): (p: real)
    ensures total == 0 ==> p == 0.0
    ensures total > 0 ==> p * total as real == count as real * 100.0
    ensures count <= total ==> 0.0 <= p <= 100.0
  {
    if total > 0 then
      var q := count as real / total as real;
      assert q * total as real == count as real;
      assert count <= total ==> q <= 1.0;
      q * 100.0
    else 0.0
  }

  // ---------------------------------------------------------------------
  // Category score (validateItemCategories)
  // ---------------------------------------------------------------------

  /** The keywords hard-coded in `validateItemCategories`. */
  const WalletKeywords: seq<string> := ["wallet", "leather", "card holder", "money clip", "billfold"]

  /** `keywords.some(k => text.includes(k))`. */
  function AnyKeyword(text: string, keywords: seq<string>): (r: bool)
    ensures r <==> exists n :: 0 <= n < |keywords| && Contains(text, keywords[n])
  {
    if keywords == [] then false
    else Contains(text, keywords[0]) || AnyKeyword(text, keywords[1..])
  }

  /** An item counts as related when its lower-cased title contains one of
      the keywords. */
  function IsRelated(item: SimilarItem, keywords: seq<string>): (r: bool)
    ensures r <==> exists n :: 0 <= n < |keywords| && Contains(Lower(item.title), keywords[n])
  {
    AnyKeyword(Lower(item.title), keywords)
  }

  /** The number of related items. */
  function CountRelated(items: seq<SimilarItem>, keywords: seq<string>): (n: nat)
    ensures n <= |items|
  {
    if items == [] then 0
    else
      CountRelated(items[..|items| - 1], keywords)
      + (if IsRelated(items[|items| - 1], keywords) then 1 else 0)
  }

  /** `validateItemCategories`: `total` is the number of items,
      `walletRelated` the number of related ones, and `percentage` their
      share, 0 for an empty batch. */
  method ValidateItemCategories(items: seq<SimilarItem>) returns (v: CategoryValidation)
    ensures v.total == |items|
    ensures v.walletRelated == CountRelated(items, WalletKeywords) <= v.total
    ensures v.percentage == Percentage(v.walletRelated, v.total)
    ensures 0.0 <= v.percentage <= 100.0
    ensures v.total == 0 ==> v.percentage == 0.0
  {
    var related := 0;
    var i := 0;
    while i < |items|
      invariant i <= |items|
      invariant related == CountRelated(items[..i], WalletKeywords)
    {
      assert items[..i + 1][..i] == items[..i];
      if AnyKeyword(Lower(items[i].title), WalletKeywords) {
        related := related + 1;
      }
      i := i + 1;
    }
    assert items[..i] == items;
    var percentage := if |items| > 0 then (related as real / |items| as real) * 100.0 else 0.0;
    v := CategoryValidation(related, |items|, percentage);
  }

  /** Counting over two batches adds up. */
  lemma {:induction false} CountRelatedAppend(a: seq<SimilarItem>, b: seq<SimilarItem>, keywords: seq<string>)
    ensures CountRelated(a + b, keywords) == CountRelated(a, keywords) + CountRelated(b, keywords)
    decreases |b|
  {
    if b == [] {
      assert a + b == a;
    } else {
      var b' := b[..|b| - 1];
      assert (a + b)[..|a + b| - 1] == a + b';
      assert (a + b)[|a + b| - 1] == b[|b| - 1];
      CountRelatedAppend(a, b', keywords);
    }
  }

  /** Every item is related exactly when the count reaches the total. */
  lemma {:induction false} AllRelatedIff(items: seq<SimilarItem>, keywords: seq<string>)
    ensures CountRelated(items, keywords) == |items| <==> forall i :: 0 <= i < |items| ==> IsRelated(items[i], keywords)
  {
    if items != [] {
      var front := items[..|items| - 1];
      AllRelatedIff(front, keywords);
      assert forall i :: 0 <= i < |front| ==> front[i] == items[i];
    }
  }

  /** No item is related exactly when the count is 0. */
  lemma {:induction false} NoneRelatedIff(items: seq<SimilarItem>, keywords: seq<string>)
    ensures CountRelated(items, keywords) == 0 <==> forall i :: 0 <= i < |items| ==> !IsRelated(items[i], keywords)
  {
    if items != [] {
      var front := items[..|items| - 1];
      NoneRelatedIff(front, keywords);
      assert forall i :: 0 <= i < |front| ==> front[i] == items[i];
    }
  }

  // ---------------------------------------------------------------------
  // Price band (validatePriceRange)
  // ---------------------------------------------------------------------

  /** `itemPrice >= mainPrice * 0.5 && itemPrice <= mainPrice * 1.5`; NaN
      fails both comparisons. */
  function InBand(v: Number, mainPrice: real): (r: bool)
    ensures v.NaN? ==> !r
    ensures r ==> mainPrice >= 0.0
    ensures v == Num(mainPrice) && mainPrice >= 0.0 ==> r
    ensures v == Num(0.0) && mainPrice > 0.0 ==> !r
  {
    v.Num? && mainPrice * 0.5 <= v.value && v.value <= mainPrice * 1.5
  }

  /** The copy of `item` that `validatePriceRange` pushes: every field kept,
      the parsed price and its band flag added. */
  function WithPrice(item: SimilarItem, mainPrice: real): (r: SimilarItem)
    ensures r.title == item.title && r.price == item.price
    ensures r.imageSrc == item.imageSrc && r.isVisible == item.isVisible
    ensures r.priceValue == Some(ExtractPriceValue(item.price))
    ensures r.inPriceRange == Some(InBand(ExtractPriceValue(item.price), mainPrice))
  {
    var v := ExtractPriceValue(item.price);
    item.(priceValue := Some(v), inPriceRange := Some(InBand(v, mainPrice)))
  }

  /** The enriched batch, in input order. */
  function PricedItems(items: seq<SimilarItem>, mainPrice: real): (r: seq<SimilarItem>)
    ensures |r| == |items|
  {
    if items == [] then []
    else PricedItems(items[..|items| - 1], mainPrice) + [WithPrice(items[|items| - 1], mainPrice)]
  }

  /** Element `i` of the enriched batch is the priced copy of item `i`. */
  lemma {:induction false} PricedItemsAt(items: seq<SimilarItem>, i: nat, mainPrice: real)
    requires i < |items|
    ensures PricedItems(items, mainPrice)[i] == WithPrice(items[i], mainPrice)
  {
    var front := items[..|items| - 1];
    var last := WithPrice(items[|items| - 1], mainPrice);
    assert PricedItems(items, mainPrice) == PricedItems(front, mainPrice) + [last];
    if i < |front| {
      PricedItemsAt(front, i, mainPrice);
      assert front[i] == items[i];
      assert (PricedItems(front, mainPrice) + [last])[i] == PricedItems(front, mainPrice)[i];
    } else {
      assert (PricedItems(front, mainPrice) + [last])[i] == last;
    }
  }

  /** `validatePriceRange`: one enriched copy per item, same order. */
  method ValidatePriceRange(items: seq<SimilarItem>, mainPrice: real) returns (results: seq<SimilarItem>)
    ensures |results| == |items|
    ensures results == PricedItems(items, mainPrice)
  {
    results := [];
    var minPrice := mainPrice * 0.5;
    var maxPrice := mainPrice * 1.5;
    for i := 0 to |items|
      invariant results == PricedItems(items[..i], mainPrice)
    {
      var itemPrice := ExtractPriceValue(items[i].price);
      var inRange := itemPrice.Num? && itemPrice.value >= minPrice && itemPrice.value <= maxPrice;
      var priced := items[i].(priceValue := Some(itemPrice), inPriceRange := Some(inRange));
      assert priced == WithPrice(items[i], mainPrice);
      PricedItemsExtend(items, i, mainPrice);
      results := results + [priced];
    }
    assert items[..|items|] == items;
  }

  /** Pricing one more item of a batch appends its priced copy. */
  lemma PricedItemsExtend(items: seq<SimilarItem>, i: nat, mainPrice: real)
    requires i < |items|
    ensures PricedItems(items[..i + 1], mainPrice) == PricedItems(items[..i], mainPrice) + [WithPrice(items[i], mainPrice)]
  {
    assert items[..i + 1][..i] == items[..i];
  }

  /** The number of results flagged in range. */
  function InRangeCount(results: seq<SimilarItem>): (n: nat)
    ensures n <= |results|
  {
    if results == [] then 0
    else InRangeCount(results[..|results| - 1]) + (if results[|results| - 1].inPriceRange == Some(true) then 1 else 0)
  }

  /** The in-range share that `validatePriceRange` computes and only logs. */
  function PriceRangePercentage(results: seq<SimilarItem>): (p: real)
    ensures 0.0 <= p <= 100.0
    ensures results == [] ==> p == 0.0
  {
    Percentage(InRangeCount(results), |results|)
  }

  /** A price text without digits or commas (the placeholder's "N/A", "No
      price") reads as 0, which lies outside the band of any positive
      reference price. */
  lemma UnpricedItemOutOfRange(item: SimilarItem, mainPrice: real)
    requires NoNumChar(item.price) && mainPrice > 0.0
    ensures WithPrice(item, mainPrice).priceValue == Some(Num(0.0))
    ensures WithPrice(item, mainPrice).inPriceRange == Some(false)
  {
    NoNumberReadsZero(item.price);
  }

  /** Every placeholder record is out of range for a positive reference
      price. */
  lemma PlaceholderOutOfRange(i: nat, mainPrice: real)
    requires mainPrice > 0.0
    ensures WithPrice(Placeholder(i), mainPrice).inPriceRange == Some(false)
  {
    assert NoNumChar("N/A") by {
      assert forall k :: 0 <= k < |"N/A"| ==> "N/A"[k] in {'N', '/', 'A'};
    }
    UnpricedItemOutOfRange(Placeholder(i), mainPrice);
  }

  /** Running the price pass twice gives what one pass gives. */
  lemma PricingIdempotent(items: seq<SimilarItem>, mainPrice: real)
    ensures PricedItems(PricedItems(items, mainPrice), mainPrice) == PricedItems(items, mainPrice)
  {
    var once := PricedItems(items, mainPrice);
    var twice := PricedItems(once, mainPrice);
    forall i | 0 <= i < |items|
      ensures twice[i] == once[i]
    {
      PricedItemsAt(once, i, mainPrice);
      PricedItemsAt(items, i, mainPrice);
    }
  }

  /** The two scores are independent: pricing a batch does not change its
      category count. */
  lemma {:induction false} PricingKeepsCategoryCount(items: seq<SimilarItem>, mainPrice: real, keywords: seq<string>)
    ensures CountRelated(PricedItems(items, mainPrice), keywords) == CountRelated(items, keywords)
  {
    if items != [] {
      var front := items[..|items| - 1];
      var priced := PricedItems(items, mainPrice);
      assert priced[..|priced| - 1] == PricedItems(front, mainPrice);
      PricingKeepsCategoryCount(front, mainPrice, keywords);
    }
  }
}
