/** The records the page object exchanges with its tests
    (types/test-types.ts). */
module Records {

  datatype Option<T> = None | Some(value: T)

  /** A JavaScript number as far as prices need one: a finite value or NaN.
      Prices are modelled as exact reals, not IEEE-754 doubles. */
  datatype Number = Num(value: real) | NaN

  /** One card of the "similar items" panel. `priceValue` and
      `inPriceRange` stay absent until a price-range pass has run. */
  datatype SimilarItem = SimilarItem(
    title: string,
    price: string,
    imageSrc: Option<string>,
    isVisible: bool,
    priceValue: Option<Number>,
    inPriceRange: Option<bool>)

  /** The result of the category check: how many of `total` items are
      wallet-related, and that share as a percentage. */
  datatype CategoryValidation = CategoryValidation(walletRelated: nat, total: nat, percentage: real)
}
