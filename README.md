# eBay similar-items page object — a Dafny model

This project models the data logic of the `ProductPage` page object in a
Playwright suite that checks eBay's "similar items" panel. It covers:

- the two site checks on the page title and URL (`navigateToProduct`,
  `verifyProductPageLoaded`);
- the bounded card extraction with placeholders (`getSimilarItems`);
- the wallet-category score (`validateItemCategories`);
- the price-text parser (`extractPriceValue`);
- the price-band enrichment (`validatePriceRange`).

The browser is not modelled. What the browser returns is an input instead:
the page title and URL are strings, and each matched card is given as the
outcome of its reads. `None` means one of its reads threw; otherwise the
card holds the title text, the price text, the image `src` attribute and
the visibility flag.

Modules:

- `Strings`: the JavaScript string operations the page object uses:
  - `includes` as substring occurrence;
  - `toLowerCase` on ASCII letters;
  - `trim` with the ECMAScript whitespace set;
  - decimal digit strings, for the placeholder titles.
- `Records`: the `SimilarItem` and `CategoryValidation` records of
  types/test-types.ts. `Number` is a real value or NaN.
- `PriceText`: `extractPriceValue`. It takes the leftmost greedy match of
  `[\d,]+\.?\d*`, removes the first comma of the match only, and reads the
  result with `parseFloat`, restricted to the strings a match can produce.
- `ProductPage`: the site checks, and the three loops as methods proved
  against specification functions (`CardRecord`, `CountRelated`,
  `PricedItems`), with the lemmas about those functions.
- `Scenarios`: worked examples stated on the model. One is the category
  score of three titles; the other is the price band of three prices
  around a reference price of 15.00.

Facts about the code that shape the model:

- The keyword list is hard-coded at pages/ProductPage.ts:74. The model
  names it `WalletKeywords`, and the counting functions take the list as
  a parameter.
- `validatePriceRange` only logs its in-range percentage
  (pages/ProductPage.ts:115-117) and returns the enriched items.
  `PriceRangePercentage` states the logged share beside the method.
- The card cap is the literal `6` at pages/ProductPage.ts:45, modelled as
  `MaxSimilarItems`.

## Model

| member | source | states |
|---|---|---|
| Strings.Contains | pages/ProductPage.ts:9 | `s.includes(sub)` holds exactly when `sub` occurs at some index of `s` |
| Strings.Lower | pages/ProductPage.ts:77 | `toLowerCase` keeps the length, maps `A`-`Z` to `a`-`z` and leaves every other character alone |
| Strings.Trim | pages/ProductPage.ts:54-55 | `trim()` never lengthens the text; `TrimShape` states what it keeps |
| Strings.TrimStartShape | pages/ProductPage.ts:54-55 | dropping leading whitespace leaves the suffix that starts at the first non-whitespace character, and everything dropped is whitespace |
| Strings.TrimEndShape | pages/ProductPage.ts:54-55 | dropping trailing whitespace leaves the prefix that ends at the last non-whitespace character, and everything dropped is whitespace |
| Strings.TrimShape | pages/ProductPage.ts:54-55 | the trimmed text has no whitespace at either end, and it is empty exactly when the input is all whitespace |
| Strings.TrimIsInText | pages/ProductPage.ts:54-55 | the trimmed text is a substring of the original |
| Strings.TrimIdempotent | pages/ProductPage.ts:54-55 | trimming twice gives what trimming once gives |
| Strings.NatToDecimal | pages/ProductPage.ts:61 | the `${i + 1}` rendering is a non-empty string of decimal digits |
| Strings.NatToDecimalReadsBack | pages/ProductPage.ts:61 | the rendering has no leading zero and reads back as the number |
| PriceText.MatchesPattern | pages/ProductPage.ts:95 | the language of `[\d,]+\.?\d*`: a digit or comma first, then digits, commas and dots with only digits after a dot; a word of it has at most one dot |
| PriceText.NumRunShape | pages/ProductPage.ts:95 | the `[\d,]+` part of a match covers digits and commas only and stops at the first other character |
| PriceText.DigitRunShape | pages/ProductPage.ts:95-96 | a run of digits stops at the first non-digit |
| PriceText.MatchAt | pages/ProductPage.ts:95 | the match at a digit or comma is a non-empty prefix of the text |
| PriceText.MatchAtIsLongestMatch | pages/ProductPage.ts:95 | that match has the shape of `[\d,]+\.?\d*`, and it cannot be extended by one more character of the text |
| PriceText.LeftmostMatch | pages/ProductPage.ts:95 | a match is never empty |
| PriceText.LeftmostMatchNoneIff | pages/ProductPage.ts:95-96 | there is no match exactly when the text has no digit and no comma |
| PriceText.LeftmostMatchHasPatternShape | pages/ProductPage.ts:95 | every match found has the shape of `[\d,]+\.?\d*` |
| PriceText.LeftmostMatchSkipsPrefix | pages/ProductPage.ts:95 | a prefix without digits or commas does not change the match |
| PriceText.LeftmostMatchStartsAtFirstNumChar | pages/ProductPage.ts:95 | the match is the greedy match starting at the first digit or comma |
| PriceText.RemoveFirstComma | pages/ProductPage.ts:96 | `replace(',', '')` never lengthens the text; `RemoveCommaAt` and `NoCommaUnchanged` state what it keeps |
| PriceText.IndexOfShape | pages/ProductPage.ts:96 | the index found is that of the first comma, or the length when there is none |
| PriceText.RemoveCommaAt | pages/ProductPage.ts:96 | `replace(',', '')` deletes the first comma only and keeps everything around it |
| PriceText.NoCommaUnchanged | pages/ProductPage.ts:96 | `replace(',', '')` leaves a text without commas unchanged |
| PriceText.ParseDecimalPrefix | pages/ProductPage.ts:96 | `parseFloat` of a digit/comma/dot string is never negative, and it is NaN exactly when the text opens neither with a digit nor with a dot followed by a digit |
| PriceText.ReadsDigits | pages/ProductPage.ts:96 | `parseFloat` of a digit string is the integer it spells |
| PriceText.ReadsDecimal | pages/ProductPage.ts:96 | `parseFloat` of digits, a dot and a rest is the whole part plus the fraction that opens the rest |
| PriceText.ReadsFraction | pages/ProductPage.ts:96 | `parseFloat` of a dot followed by a digit is the fraction |
| PriceText.ExtractPriceValue | pages/ProductPage.ts:93-97 | the empty text gives 0, and every result is NaN or a non-negative number |
| PriceText.NoNumberReadsZero | pages/ProductPage.ts:95-96 | a text without digits or commas has no match and gives 0 |
| PriceText.ExtractAtNumChar | pages/ProductPage.ts:95-96 | a text that opens with a digit or comma is read from the greedy match at its start |
| PriceText.CurrencyPrefixIgnored | pages/ProductPage.ts:95-96 | a currency sign or label in front of the number does not change the value |
| PriceText.CleanInteger | pages/ProductPage.ts:95-96 | a run of digits reads as the integer it spells |
| PriceText.CleanDecimal | pages/ProductPage.ts:95-96 | digits, a dot and digits read as the whole part plus the fraction |
| PriceText.LabelledDecimal | pages/ProductPage.ts:95-96 | a decimal behind a currency sign or label, such as `$25.99`, reads as that decimal |
| PriceText.OneSeparatorRemoved | pages/ProductPage.ts:96 | a single thousands separator is removed: `a,b` reads as the digits `ab` |
| PriceText.SeparatedDecimal | pages/ProductPage.ts:95-96 | one separator and a decimal part, `a,b.f`, read as the digits `ab` plus the fraction `0.f` |
| PriceText.LabelledSeparatedDecimal | pages/ProductPage.ts:93-97 | the same behind a currency sign or label: `$1,234.56` reads as 1234.56 |
| PriceText.LeadingCommaDigits | pages/ProductPage.ts:95-96 | a match may open with a comma: `,99` reads as 99 |
| PriceText.LeadingCommaFraction | pages/ProductPage.ts:95-96 | `,.5` reads as 0.5 |
| PriceText.FirstCommaAfterDigits | pages/ProductPage.ts:96 | in a match that opens with digits and a comma, that comma is the one removed |
| PriceText.SecondSeparatorTruncates | pages/ProductPage.ts:96 | with two separators only the first is removed, and parsing stops at the second: `a,b,c` reads as `ab` |
| PriceText.ThousandsExample | pages/ProductPage.ts:94-96 | `"1,234,567.89"` yields 1234 |
| PriceText.LoneCommaIsNaN | pages/ProductPage.ts:95-96 | the text `","` matches, but yields NaN rather than 0 |
| PriceText.DecimalRoundTrip | pages/ProductPage.ts:93-97 | printing a whole number in decimal and extracting it gives the number back |
| ProductPage.NavigateToProduct | pages/ProductPage.ts:8-11 | the check passes exactly when "eBay" occurs in the title, and otherwise fails with "Not an eBay page" |
| ProductPage.VerifyProductPageLoaded | pages/ProductPage.ts:14-18 | true exactly when the title contains "eBay" and the URL contains "ebay.com" |
| ProductPage.LoadedPagePassesNavigation | pages/ProductPage.ts:6-18 | a page that passes the loaded check also passes the navigation check |
| ProductPage.UpperCaseTitleFails | pages/ProductPage.ts:9-10 | the brand check is case-sensitive: the title "EBAY" fails |
| ProductPage.OrElse | pages/ProductPage.ts:48-50 | `text \|\| fallback` gives the fallback for null and for the empty string, and the text otherwise |
| ProductPage.Placeholder | pages/ProductPage.ts:60-64 | the placeholder for card `i` is titled "Item " followed by the digits of `i + 1`, is priced "N/A", is invisible, and has no image source and no price fields |
| ProductPage.CardRecord | pages/ProductPage.ts:46-65 | a record never carries the price fields, and it lacks an image source exactly when the card's reads threw |
| ProductPage.CardRecords | pages/ProductPage.ts:45-66 | one record per card |
| ProductPage.CardRecordsAt | pages/ProductPage.ts:45-66 | record `i` is built from card `i` and its index alone |
| ProductPage.GetSimilarItems | pages/ProductPage.ts:40-70 | exactly `min(count, 6)` records, and record `i` is built from card `i` alone, in index order |
| ProductPage.FailedCardIsPlaceholder | pages/ProductPage.ts:59-65 | a card whose reads threw becomes "Item i+1", priced "N/A", invisible and without an image source |
| ProductPage.PlaceholderTitlesDistinct | pages/ProductPage.ts:61 | placeholders of different indices have different titles |
| ProductPage.ReadCardTitle | pages/ProductPage.ts:48-54 | a read card's title is its trimmed text, or "No title" when the text is null or empty |
| ProductPage.ReadCardPrice | pages/ProductPage.ts:49-55 | a read card's price is its trimmed text, or "No price" when the text is null or empty |
| ProductPage.ReadCardImageAndVisibility | pages/ProductPage.ts:50-57 | a read card's image source is the attribute, or "" when it is missing; the visibility is the one reported |
| ProductPage.WhitespaceTitleBecomesEmpty | pages/ProductPage.ts:48-54 | a whitespace-only title escapes the default and is trimmed to "" |
| ProductPage.Percentage | pages/ProductPage.ts:83 | 0 for an empty batch; otherwise `p * total = count * 100`; within [0, 100] when `count <= total` |
| ProductPage.AnyKeyword | pages/ProductPage.ts:78 | `keywords.some(k => text.includes(k))` holds exactly when some keyword occurs in the text |
| ProductPage.IsRelated | pages/ProductPage.ts:77-78 | an item is related exactly when some keyword occurs in its lower-cased title |
| ProductPage.CountRelated | pages/ProductPage.ts:76-81 | the related count never exceeds the number of items |
| ProductPage.ValidateItemCategories | pages/ProductPage.ts:72-91 | `total` is the number of items, `walletRelated` the number of related items (at most `total`), and `percentage` their share, in [0, 100] and 0 for an empty batch |
| ProductPage.CountRelatedAppend | pages/ProductPage.ts:76-81 | the count over two batches is the sum of their counts |
| ProductPage.AllRelatedIff | pages/ProductPage.ts:76-81 | the count equals the total exactly when every item is related |
| ProductPage.NoneRelatedIff | pages/ProductPage.ts:76-81 | the count is 0 exactly when no item is related |
| ProductPage.InBand | pages/ProductPage.ts:101-106 | NaN is never in the band; a value in the band means a non-negative reference price; the reference price lies in its own band; 0 lies outside the band of a positive price |
| ProductPage.WithPrice | pages/ProductPage.ts:105-112 | the copy keeps title, price, image and visibility, and adds the parsed price and the inclusive band flag `[0.5p, 1.5p]` |
| ProductPage.PricedItems | pages/ProductPage.ts:104-113 | one enriched copy per item |
| ProductPage.PricedItemsAt | pages/ProductPage.ts:104-113 | copy `i` is item `i` enriched, so the order is kept |
| ProductPage.ValidatePriceRange | pages/ProductPage.ts:99-120 | the results are the enriched batch: same length, element `i` is item `i` with `priceValue` and `inPriceRange` set |
| ProductPage.InRangeCount | pages/ProductPage.ts:115 | the in-range count never exceeds the number of results |
| ProductPage.PriceRangePercentage | pages/ProductPage.ts:115-117 | the logged in-range share lies in [0, 100] and is 0 for an empty batch |
| ProductPage.UnpricedItemOutOfRange | pages/ProductPage.ts:105-106 | a price text without digits or commas reads as 0, which is out of range for a positive reference price |
| ProductPage.PlaceholderOutOfRange | pages/ProductPage.ts:60-112 | a placeholder ("N/A") is out of range for a positive reference price |
| ProductPage.PricingIdempotent | pages/ProductPage.ts:104-113 | pricing an already priced batch changes nothing |
| ProductPage.PricingKeepsCategoryCount | pages/ProductPage.ts:108-112 | pricing a batch does not change its category count |
| Scenarios.PhoneCaseMatchesNothing | pages/ProductPage.ts:74-78 | "phone case" contains none of the wallet keywords |
| Scenarios.WholeDollars | pages/ProductPage.ts:93-97 | a dollar price with zero cents, `$ddd.00`, reads as its whole-dollar amount |
| Scenarios.SeparatorAndCents | pages/ProductPage.ts:93-97 | `"$1,234.56"` yields 1234.56 |
| Scenarios.CategoryScenario | pages/ProductPage.ts:72-91 | "Leather Card Holder", "Phone Case", "Wallet Chain" give 2 related items and 200/3 percent, with the five keywords or with "wallet" and "leather" |
| Scenarios.PriceScenario | pages/ProductPage.ts:99-120 | against a reference price of 15, "$10.00" is in range, "$25.00" and "$100.00" are not, and the in-range share is 100/3 percent |

## Left out

- pages/BasePage.ts and the browser calls of the page object are left out because they are I/O. This covers `scrollToSimilarItemsSection`, `isSimilarItemsSectionVisible`, `getSimilarItemsCount`, `clickSeeAllLink` and `checkMobileResponsiveness`. The card count and the per-card read outcomes are inputs to `GetSimilarItems`; the title and URL are inputs to the site checks.
- `NavigateToProduct` models only the title check after navigation. Navigating and reading the title are left out because they are I/O; a thrown error is the `Fail` outcome.
- Console logging and `toFixed(1)` formatting are left out because they only produce log text.
- Numbers are exact reals, not IEEE-754 doubles. The model does not capture rounding of prices with many digits, or percentages computed with rounding.
- `ParseDecimalPrefix` covers `parseFloat` only on strings of digits, commas and dots, which are the only strings a match can hand it. Signs, exponents, leading whitespace and "Infinity" never reach it.
- `Lower` models `toLowerCase` on ASCII letters only. Non-ASCII letters keep their case, because Unicode case mapping is not modelled.
- `Strings.Trim` works on Dafny characters (Unicode scalar values), not on UTF-16 code units.
- The selector strings (fixtures/test-data.ts:30-37) are left out because they only locate elements in the browser.
- `maxProductCount` (fixtures/test-data.ts:24) is left out because the page object never reads it; the modelled cap is the literal `6` at pages/ProductPage.ts:45.
- The test scripts under tests/ are left out because they drive the browser.
- utils/TestHelpers.ts is left out because it holds screenshots, timing, network emulation and formatting.
- `ValidatePriceRange` returns the results and does not return the percentage, matching the code. The logged share is stated separately by `PriceRangePercentage`.
