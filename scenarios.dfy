/** The worked examples of the similar-items checks, stated on the model.

    Several examples take their literal text as a parameter
    (`requires p == "$10.00"`) rather than writing it inside the `ensures`:
    a literal argument lets the solver unfold the parser on it without
    bound, and the parameter form keeps each proof small. */
module Scenarios {
  import opened Strings
  import opened Records
  import opened PriceText
  import opened ProductPage

  /** A visible card with the given title and no price. */
  function Titled(title: string): SimilarItem {
    SimilarItem(title, "", Some(""), true, None, None)
  }

  /** A visible card with the given price text. */
  function Priced(price: string): SimilarItem {
    SimilarItem("Wallet", price, Some(""), true, None, None)
  }

  lemma LowerLeatherCardHolder(t: string)
    requires t == "Leather Card Holder"
    ensures Lower(t) == "leather card holder"
  {
    var u := Lower(t);
    forall i | 0 <= i < 19 ensures u[i] == "leather card holder"[i] {
      assert u[i] == LowerChar(t[i]);
    }
  }

  lemma LowerPhoneCase(t: string)
    requires t == "Phone Case"
    ensures Lower(t) == "phone case"
  {
    var u := Lower(t);
    forall i | 0 <= i < 10 ensures u[i] == "phone case"[i] {
      assert u[i] == LowerChar(t[i]);
    }
  }

  lemma LowerWalletChain(t: string)
    requires t == "Wallet Chain"
    ensures Lower(t) == "wallet chain"
  {
    var u := Lower(t);
    forall i | 0 <= i < 12 ensures u[i] == "wallet chain"[i] {
      assert u[i] == LowerChar(t[i]);
    }
  }

  lemma LeatherMatches(u: string, keywords: seq<string>)
    requires u == "leather card holder"
    requires keywords == WalletKeywords || keywords == ["wallet", "leather"]
    ensures AnyKeyword(u, keywords)
  {
    assert OccursAt(u, keywords[1], 0);
  }

  lemma WalletMatches(u: string, keywords: seq<string>)
    requires u == "wallet chain"
    requires keywords == WalletKeywords || keywords == ["wallet", "leather"]
    ensures AnyKeyword(u, keywords)
  {
    assert OccursAt(u, keywords[0], 0);
  }

  lemma PhoneCaseMatchesNothing(u: string, keywords: seq<string>)
    requires u == "phone case"
    requires keywords == WalletKeywords || keywords == ["wallet", "leather"]
    ensures !AnyKeyword(u, keywords)
  {
    PhoneCaseLetters(u);
    AbsentFirstChar(u, "wallet");
    AbsentFirstChar(u, "leather");
    assert !Contains(u, "card holder");
    AbsentFirstChar(u, "money clip");
    AbsentFirstChar(u, "billfold");
    forall n | 0 <= n < |keywords|
      ensures !Contains(u, keywords[n])
    {
      assert keywords[n] in WalletKeywords;
    }
  }

  lemma PhoneCaseLetters(u: string)
    requires u == "phone case"
    ensures |u| == 10 && 'w' !in u && 'l' !in u && 'm' !in u && 'b' !in u
  {
  }

  /** Two related items around an unrelated one count 2. */
  lemma CountOfThree(a: SimilarItem, b: SimilarItem, c: SimilarItem, keywords: seq<string>)
    requires IsRelated(a, keywords) && !IsRelated(b, keywords) && IsRelated(c, keywords)
    ensures CountRelated([a, b, c], keywords) == 2
  {
    assert [a][..0] == [];
    assert CountRelated([a], keywords) == 1;
    assert [a, b][..1] == [a];
    assert CountRelated([a, b], keywords) == 1;
    assert [a, b, c][..2] == [a, b];
  }

  /** "Leather Card Holder" and "Wallet Chain" match, "Phone Case" does
      not: 2 of 3 items, about 66.7 percent, with either keyword list. */
  lemma CategoryScenario(items: seq<SimilarItem>, keywords: seq<string>)
    requires items == [Titled("Leather Card Holder"), Titled("Phone Case"), Titled("Wallet Chain")]
    requires keywords == WalletKeywords || keywords == ["wallet", "leather"]
    ensures CountRelated(items, keywords) == 2
    ensures Percentage(CountRelated(items, keywords), |items|) == 200.0 / 3.0
  {
    LowerLeatherCardHolder(items[0].title);
    LeatherMatches(Lower(items[0].title), keywords);
    LowerPhoneCase(items[1].title);
    PhoneCaseMatchesNothing(Lower(items[1].title), keywords);
    LowerWalletChain(items[2].title);
    WalletMatches(Lower(items[2].title), keywords);
    CountOfThree(items[0], items[1], items[2], keywords);
    assert items == [items[0], items[1], items[2]];
    ShareOfThree(2);
  }

  /** `count` of 3 items is `count * 100 / 3` percent. */
  lemma ShareOfThree(count: nat)
    ensures Percentage(count, 3) == count as real * 100.0 / 3.0
  {
    var p := Percentage(count, 3);
    assert p * 3.0 == count as real * 100.0;
  }

  lemma ZeroCents()
    ensures Fraction("00") == 0.0
  {
    var z := "00";
    assert AllDigits(z);
    assert DigitRun(z) == 2;
    assert z[..2] == z;
    assert z[..1] == "0";
    assert DigitsValue(z) == 0;
  }

  lemma FiftySixCents(fs: string)
    requires fs == "56"
    ensures Fraction(fs) == 0.56
  {
    assert AllDigits(fs);
    assert DigitRun(fs) == 2;
    assert fs[..2] == fs;
    assert fs[..1] == "5";
    assert "5"[..0] == "";
    assert DigitsValue(fs) == 56;
  }

  /** A price with a thousands separator and cents: `"$1,234.56"` reads
      as 1234.56. */
  lemma SeparatorAndCents(p: string)
    requires p == "$1,234.56"
    ensures ExtractPriceValue(p) == Num(1234.56)
  {
    var a, b, fs := "1", "234", "56";
    assert NoNumChar("$");
    assert p == "$" + a + "," + b + "." + fs;
    LabelledSeparatedDecimal("$", a, b, fs);
    ValueOf1234(a + b);
    FiftySixCents(fs);
  }

  /** A dollar price with zero cents reads as its whole-dollar amount. */
  lemma WholeDollars(ds: string)
    requires ds != [] && AllDigits(ds)
    ensures ExtractPriceValue("$" + ds + ".00") == Num(DigitsValue(ds) as real)
  {
    assert NoNumChar("$");
    LabelledDecimal("$", ds, "00");
    ZeroCents();
    assert "." + "00" == ".00";
    AppendAssoc("$" + ds, ".", "00");
  }

  lemma TenDollars(p: string)
    requires p == "$10.00"
    ensures ExtractPriceValue(p) == Num(10.0)
  {
    var ds := "10";
    DollarsText(p, ds);
    WholeDollars(ds);
    assert ds[..1] == "1";
  }

  lemma TwentyFiveDollars(p: string)
    requires p == "$25.00"
    ensures ExtractPriceValue(p) == Num(25.0)
  {
    var ds := "25";
    DollarsText(p, ds);
    WholeDollars(ds);
    assert ds[..1] == "2";
  }

  lemma HundredDollars(p: string)
    requires p == "$100.00"
    ensures ExtractPriceValue(p) == Num(100.0)
  {
    var ds := "100";
    ValueOf100(ds);
    DollarsText(p, ds);
    WholeDollars(ds);
  }

  /** The three prices of the price scenario, split into sign, dollars and
      cents. */
  lemma DollarsText(p: string, ds: string)
    requires (p == "$10.00" && ds == "10") || (p == "$25.00" && ds == "25") || (p == "$100.00" && ds == "100")
    ensures p == "$" + ds + ".00"
  {
  }

  lemma ValueOf100(ds: string)
    requires ds == "100"
    ensures ds != [] && AllDigits(ds) && DigitsValue(ds) == 100
  {
    assert ds[..2] == "10";
    assert "10"[..1] == "1";
    assert "1"[..0] == "";
  }

  /** One result in range between two out of range counts 1. */
  lemma InRangeOfThree(x: SimilarItem, y: SimilarItem, z: SimilarItem)
    requires x.inPriceRange == Some(true)
    requires y.inPriceRange == Some(false) && z.inPriceRange == Some(false)
    ensures InRangeCount([x, y, z]) == 1
  {
    assert [x][..0] == [];
    assert InRangeCount([x]) == 1;
    assert [x, y][..1] == [x];
    assert InRangeCount([x, y]) == 1;
    assert [x, y, z][..2] == [x, y];
  }

  /** Against a reference price of 15.00 the band is [7.5, 22.5]: $10.00
      is in range, $25.00 and $100.00 are not, about 33.3 percent. */
  lemma PriceScenario(p0: string, p1: string, p2: string, r: seq<SimilarItem>)
    requires p0 == "$10.00" && p1 == "$25.00" && p2 == "$100.00"
    requires r == PricedItems([Priced(p0), Priced(p1), Priced(p2)], 15.0)
    ensures r[0].inPriceRange == Some(true)
    ensures r[1].inPriceRange == Some(false)
    ensures r[2].inPriceRange == Some(false)
    ensures PriceRangePercentage(r) == 100.0 / 3.0
  {
    TenDollars(p0);
    TwentyFiveDollars(p1);
    HundredDollars(p2);
    var items := [Priced(p0), Priced(p1), Priced(p2)];
    PricedItemsAt(items, 0, 15.0);
    PricedItemsAt(items, 1, 15.0);
    PricedItemsAt(items, 2, 15.0);
    InRangeOfThree(r[0], r[1], r[2]);
    assert r == [r[0], r[1], r[2]];
    ShareOfThree(1);
  }
}
