/** `extractPriceValue` (pages/ProductPage.ts:93-97): the leftmost match of
    the regular expression `[\d,]+\.?\d*` in a price text, with its first
    comma removed, read by `parseFloat`; 0 when the text is empty or has no
    match. */
module PriceText {
  import opened Strings
  import opened Records

  /** A character of the class `[\d,]` (`\d` is ASCII 0-9). */
  predicate IsNumChar(c: char) {
    IsDigit(c) || c == ','
  }

  predicate NoNumChar(s: string) {
    forall i :: 0 <= i < |s| ==> !IsNumChar(s[i])
  }

  /** Length of the longest prefix of `s` drawn from `[\d,]`. */
  function NumRun(s: string): (n: nat)
    ensures n <= |s|
  {
    if s != [] && IsNumChar(s[0]) then 1 + NumRun(s[1..]) else 0
  }

  /** `NumRun` stops at the first character outside `[\d,]`. */
  lemma {:induction false} NumRunShape(s: string)
    ensures forall i :: 0 <= i < NumRun(s) ==> IsNumChar(s[i])
    ensures NumRun(s) < |s| ==> !IsNumChar(s[NumRun(s)])
  {
    if s != [] && IsNumChar(s[0]) {
      NumRunShape(s[1..]);
      assert forall i :: 1 <= i < NumRun(s) ==> s[i] == s[1..][i - 1];
    }
  }

  /** Length of the longest prefix of `s` made of digits. */
  function DigitRun(s: string): (n: nat)
    ensures n <= |s|
  {
    if s != [] && IsDigit(s[0]) then 1 + DigitRun(s[1..]) else 0
  }

  /** `DigitRun` stops at the first character that is not a digit. */
  lemma {:induction false} DigitRunShape(s: string)
    ensures forall i :: 0 <= i < DigitRun(s) ==> IsDigit(s[i])
    ensures DigitRun(s) < |s| ==> !IsDigit(s[DigitRun(s)])
  {
    if s != [] && IsDigit(s[0]) {
      DigitRunShape(s[1..]);
      assert forall i :: 1 <= i < DigitRun(s) ==> s[i] == s[1..][i - 1];
    }
  }

  /** A run of `k` digits followed by a non-digit (or the end) has
      `DigitRun` equal to `k`. */
  lemma {:induction false} DigitRunIs(s: string, k: nat)
    requires k <= |s|
    requires forall i :: 0 <= i < k ==> IsDigit(s[i])
    requires k < |s| ==> !IsDigit(s[k])
    ensures DigitRun(s) == k
  {
    if k > 0 {
      DigitRunIs(s[1..], k - 1);
    }
  }

  /** Likewise for runs of digits and commas. */
  lemma {:induction false} NumRunIs(s: string, k: nat)
    requires k <= |s|
    requires forall i :: 0 <= i < k ==> IsNumChar(s[i])
    requires k < |s| ==> !IsNumChar(s[k])
    ensures NumRun(s) == k
  {
    if k > 0 {
      NumRunIs(s[1..], k - 1);
    }
  }

  /** `m` is a whole match of `[\d,]+\.?\d*`: it opens with a digit or a
      comma, every character is a digit, a comma or a dot, and only digits
      follow a dot (so there is at most one). */
  function MatchesPattern(m: string): (r: bool)
    ensures r ==> forall i, j :: 0 <= i < j < |m| && m[i] == '.' ==> m[j] != '.'
  {
    && |m| > 0 && IsNumChar(m[0])
    && (forall i :: 0 <= i < |m| ==> IsNumChar(m[i]) || m[i] == '.')
    && (forall i, j :: 0 <= i < j < |m| && m[i] == '.' ==> IsDigit(m[j]))
  }

  /** The greedy match of `[\d,]+\.?\d*` at the start of `s`: a non-empty
      prefix of `s` (`MatchAtIsLongestMatch` states its shape). */
  function MatchAt(s: string): (m: string)
    requires s != [] && IsNumChar(s[0])
    ensures 0 < |m| <= |s| && m == s[..|m|]
  {
    var a := NumRun(s);
    var b := if a < |s| && s[a] == '.' then a + 1 else a;
    s[..b + DigitRun(s[b..])]
  }

  /** The match at the start of `s` has the shape of the pattern and
      cannot be extended by one more character of `s`. */
  lemma MatchAtIsLongestMatch(s: string)
    requires s != [] && IsNumChar(s[0])
    ensures MatchesPattern(MatchAt(s))
    ensures |MatchAt(s)| < |s| ==> !MatchesPattern(s[..|MatchAt(s)| + 1])
  {
    var a := NumRun(s);
    var b := if a < |s| && s[a] == '.' then a + 1 else a;
    var c := b + DigitRun(s[b..]);
    assert MatchAt(s) == s[..c];
    MatchAtMatches(s, a, b, c);
    MatchAtIsGreedy(s, a, b, c);
  }

  lemma MatchAtMatches(s: string, a: nat, b: nat, c: nat)
    requires s != [] && IsNumChar(s[0])
    requires a == NumRun(s)
    requires b == if a < |s| && s[a] == '.' then a + 1 else a
    requires c == b + DigitRun(s[b..])
    ensures MatchesPattern(s[..c])
  {
    NumRunShape(s);
    DigitRunShape(s[b..]);
    var m := s[..c];
    forall i | 0 <= i < a
      ensures IsNumChar(m[i])
    {
      assert m[i] == s[i];
    }
    forall i | b <= i < c
      ensures IsDigit(m[i])
    {
      assert m[i] == s[b..][i - b];
    }
    if b == a && a < |s| {
      assert s[b..][0] == s[a];
    }
    assert b == a ==> c == a;
    PatternOfRuns(m, a);
  }

  /** A non-empty run of digits and commas, optionally followed by a dot
      and digits, has the shape of the pattern. */
  lemma PatternOfRuns(m: string, a: nat)
    requires 0 < a <= |m|
    requires forall i :: 0 <= i < a ==> IsNumChar(m[i])
    requires a < |m| ==> m[a] == '.'
    requires forall i :: a < i < |m| ==> IsDigit(m[i])
    ensures MatchesPattern(m)
  {
  }

  lemma MatchAtIsGreedy(s: string, a: nat, b: nat, c: nat)
    requires s != [] && IsNumChar(s[0])
    requires a == NumRun(s)
    requires b == if a < |s| && s[a] == '.' then a + 1 else a
    requires c == b + DigitRun(s[b..])
    ensures c < |s| ==> !MatchesPattern(s[..c + 1])
  {
    NumRunShape(s);
    DigitRunShape(s[b..]);
    if c < |s| {
      var e := s[..c + 1];
      assert !IsDigit(s[c]) by { assert s[c] == s[b..][c - b]; }
      if b == a {
        assert c == a;
        assert !IsNumChar(e[c]) && e[c] != '.';
      } else {
        assert e[a] == '.' && e[c] == s[c] && a < c;
      }
    }
  }

  /** The leftmost match of `[\d,]+\.?\d*` in `s` (`String.prototype.match`
      without the `g` flag); `None` exactly when `s` has no digit and no
      comma. */
  function LeftmostMatch(s: string): (r: Option<string>)
    ensures r.Some? ==> |r.value| > 0
  {
    if s == [] then None
    else if IsNumChar(s[0]) then Some(MatchAt(s))
    else LeftmostMatch(s[1..])
  }

  /** There is no match exactly when `s` has no digit and no comma. */
  lemma {:induction false} LeftmostMatchNoneIff(s: string)
    ensures LeftmostMatch(s).None? <==> NoNumChar(s)
  {
    if s != [] && !IsNumChar(s[0]) {
      LeftmostMatchNoneIff(s[1..]);
      assert forall i :: 1 <= i < |s| ==> s[i] == s[1..][i - 1];
    }
  }

  /** Whatever `LeftmostMatch` finds has the shape of the pattern. */
  lemma {:induction false} LeftmostMatchHasPatternShape(s: string)
    ensures LeftmostMatch(s).Some? ==> MatchesPattern(LeftmostMatch(s).value)
  {
    if s != [] {
      if IsNumChar(s[0]) {
        MatchAtIsLongestMatch(s);
      } else {
        LeftmostMatchHasPatternShape(s[1..]);
      }
    }
  }

  /** Text with no digit and no comma in front of the match (a currency
      sign, a label) does not change the match. */
  lemma {:induction false} LeftmostMatchSkipsPrefix(p: string, s: string)
    requires NoNumChar(p)
    ensures LeftmostMatch(p + s) == LeftmostMatch(s)
  {
    if p == [] {
      assert p + s == s;
    } else {
      assert (p + s)[1..] == p[1..] + s;
      assert (p + s)[0] == p[0];
      LeftmostMatchSkipsPrefix(p[1..], s);
    }
  }

  /** The match starts at the first digit or comma of `s`. */
  lemma LeftmostMatchStartsAtFirstNumChar(s: string, i: nat)
    requires i < |s| && IsNumChar(s[i]) && NoNumChar(s[..i])
    ensures LeftmostMatch(s) == Some(MatchAt(s[i..]))
  {
    assert s == s[..i] + s[i..];
    LeftmostMatchSkipsPrefix(s[..i], s[i..]);
  }

  /** Index of the first `c` in `t`, or `|t|` when there is none. */
  function IndexOf(t: string, c: char): (i: nat)
    ensures i <= |t|
  {
    if t == [] then 0
    else if t[0] == c then 0
    else 1 + IndexOf(t[1..], c)
  }

  /** `IndexOf` finds the first occurrence of `c`. */
  lemma {:induction false} IndexOfShape(t: string, c: char)
    ensures forall j :: 0 <= j < IndexOf(t, c) ==> t[j] != c
    ensures IndexOf(t, c) < |t| ==> t[IndexOf(t, c)] == c
  {
    if t != [] && t[0] != c {
      IndexOfShape(t[1..], c);
      assert forall j :: 1 <= j < IndexOf(t, c) ==> t[j] == t[1..][j - 1];
    }
  }

  /** `t.replace(',', '')`: with a string pattern only the first comma is
      removed; a text without a comma is returned unchanged. */
  function RemoveFirstComma(t: string): (r: string)
    ensures |r| <= |t|
  {
    var i := IndexOf(t, ',');
    if i < |t| then
      t[..i] + t[i + 1..]
    else
      t
  }

  /** The value of the decimal digits that open `fs`, read as the fraction
      `0.fs`. */
  function Fraction(fs: string): (f: real)
    ensures 0.0 <= f < 1.0
  {
    var k := DigitRun(fs);
    var ds := fs[..k];
    DigitRunShape(fs);
    DigitsValueBound(ds);
    RatioBelowOne(DigitsValue(ds), Pow10(k));
    DigitsValue(ds) as real / Pow10(k) as real
  }

  lemma RatioBelowOne(x: nat, p: nat)
    requires x < p
    ensures 0.0 <= x as real / p as real < 1.0
  {
    var q := x as real / p as real;
    assert q * p as real == x as real;
  }

  /** `parseFloat(t)` for a string of digits, commas and dots (the only
      strings a match can hand it): the longest prefix of the form
      `\d+(\.\d*)?` or `\.\d+`, read as a decimal; NaN when there is none. */
  function ParseDecimalPrefix(t: string): (n: Number)
    ensures n.Num? ==> n.value >= 0.0
    ensures n.NaN? <==> !(t != [] && IsDigit(t[0])) && !(|t| >= 2 && t[0] == '.' && IsDigit(t[1]))
  {
    var d := DigitRun(t);
    DigitRunShape(t);
    if d > 0 then
      var whole := DigitsValue(t[..d]) as real;
      if d < |t| && t[d] == '.' then Num(whole + Fraction(t[d + 1..])) else Num(whole)
    else if |t| >= 2 && t[0] == '.' && IsDigit(t[1]) then Num(Fraction(t[1..]))
    else NaN
  }

  /** `extractPriceValue(priceText)`. The result is never negative; it is 0
      for the empty text and for a text with no digit and no comma. */
  function ExtractPriceValue(priceText: string): (r: Number)
    ensures priceText == [] ==> r == Num(0.0)
    ensures r.Num? ==> r.value >= 0.0
  {
    if priceText == [] then Num(0.0)
    else match LeftmostMatch(priceText)
      case None => Num(0.0)
      case Some(m) => ParseDecimalPrefix(RemoveFirstComma(m))
  }

  /** A text that opens with a digit or a comma is read from the match at
      its start. */
  lemma ExtractAtNumChar(s: string)
    requires s != [] && IsNumChar(s[0])
    ensures ExtractPriceValue(s) == ParseDecimalPrefix(RemoveFirstComma(MatchAt(s)))
  {
  }

  /** A text with no digit and no comma (a label such as "N/A") reads as 0. */
  lemma NoNumberReadsZero(priceText: string)
    requires NoNumChar(priceText)
    ensures ExtractPriceValue(priceText) == Num(0.0)
  {
    LeftmostMatchNoneIff(priceText);
  }

  // ---------------------------------------------------------------------
  // What the parser yields on the price texts a card can show
  // ---------------------------------------------------------------------

  /** A currency sign or label in front of the number is ignored. */
  lemma CurrencyPrefixIgnored(p: string, s: string)
    requires NoNumChar(p)
    ensures ExtractPriceValue(p + s) == ExtractPriceValue(s)
  {
    LeftmostMatchSkipsPrefix(p, s);
    if s == [] {
      assert p + s == p;
      NoNumberReadsZero(p);
    }
  }

  /** A plain run of digits is read as the integer it spells. */
  lemma CleanInteger(ds: string)
    requires ds != [] && AllDigits(ds)
    ensures ExtractPriceValue(ds) == Num(DigitsValue(ds) as real)
  {
    NumRunIs(ds, |ds|);
    DigitRunIs(ds, |ds|);
    var m := MatchAt(ds);
    assert m == ds;
    NoCommaUnchanged(ds);
    assert ds[..|ds|] == ds;
    ExtractAtNumChar(ds);
  }

  /** Digits, a dot and digits (`"25.99"`) are read as that decimal. */
  lemma CleanDecimal(ds: string, fs: string)
    requires ds != [] && AllDigits(ds) && AllDigits(fs)
    ensures ExtractPriceValue(ds + "." + fs) == Num(DigitsValue(ds) as real + Fraction(fs))
  {
    var s := ds + "." + fs;
    var k := |ds|;
    assert s[k] == '.';
    assert forall i :: 0 <= i < k ==> s[i] == ds[i];
    NumRunIs(s, k);
    assert s[k + 1..] == fs;
    DigitRunIs(fs, |fs|);
    var m := MatchAt(s);
    assert m == s;
    forall j | 0 <= j < |s|
      ensures s[j] != ','
    {
      if j > k { assert s[j] == fs[j - k - 1]; }
    }
    NoCommaUnchanged(s);
    DigitRunIs(s, k);
    assert s[..k] == ds;
    ExtractAtNumChar(s);
  }

  /** A decimal behind a label or currency sign (`"$25.99"`) is read as
      that decimal. */
  lemma LabelledDecimal(p: string, ds: string, fs: string)
    requires NoNumChar(p)
    requires ds != [] && AllDigits(ds) && AllDigits(fs)
    ensures ExtractPriceValue(p + ds + "." + fs) == Num(DigitsValue(ds) as real + Fraction(fs))
  {
    var s := ds + "." + fs;
    AppendAssoc(p, ds + ".", fs);
    AppendAssoc(p, ds, ".");
    CurrencyPrefixIgnored(p, s);
    CleanDecimal(ds, fs);
  }

  /** `parseFloat` of digits, a dot and whatever follows reads the whole
      part plus the fraction that opens the rest. */
  lemma ReadsDecimal(ds: string, fs: string)
    requires ds != [] && AllDigits(ds)
    ensures ParseDecimalPrefix(ds + "." + fs) == Num(DigitsValue(ds) as real + Fraction(fs))
  {
    var t := ds + "." + fs;
    var k := |ds|;
    assert forall i :: 0 <= i < k ==> t[i] == ds[i];
    assert t[k] == '.';
    DigitRunIs(t, k);
    assert t[..k] == ds;
    assert t[k + 1..] == fs;
  }

  /** `parseFloat(".5")`: a dot followed by a digit reads as a fraction. */
  lemma ReadsFraction(fs: string)
    requires fs != [] && IsDigit(fs[0])
    ensures ParseDecimalPrefix("." + fs) == Num(Fraction(fs))
  {
    var t := "." + fs;
    assert t[1] == fs[0];
    assert t[1..] == fs;
  }

  /** `parseFloat` reads the digits before a character that is neither a
      digit nor a dot, and stops there. */
  lemma ReadsDigitsUpTo(t: string, k: nat)
    requires 0 < k <= |t|
    requires forall i :: 0 <= i < k ==> IsDigit(t[i])
    requires k < |t| ==> !IsDigit(t[k]) && t[k] != '.'
    ensures ParseDecimalPrefix(t) == Num(DigitsValue(t[..k]) as real)
  {
    DigitRunIs(t, k);
  }

  /** Removing the first comma when it stands at index `k`. */
  lemma RemoveCommaAt(t: string, k: nat)
    requires k < |t| && t[k] == ','
    requires forall j :: 0 <= j < k ==> t[j] != ','
    ensures RemoveFirstComma(t) == t[..k] + t[k + 1..]
  {
    IndexOfShape(t, ',');
    assert IndexOf(t, ',') == k;
  }

  /** A text without a comma is left unchanged. */
  lemma NoCommaUnchanged(t: string)
    requires forall j :: 0 <= j < |t| ==> t[j] != ','
    ensures RemoveFirstComma(t) == t
  {
    IndexOfShape(t, ',');
  }

  /** One thousands separator is removed: `"1,234"` reads as 1234. */
  lemma OneSeparatorRemoved(a: string, b: string)
    requires a != [] && AllDigits(a) && AllDigits(b)
    ensures ExtractPriceValue(a + "," + b) == Num(DigitsValue(a + b) as real)
  {
    var s := a + "," + b;
    var k := |a|;
    forall i | 0 <= i < |s|
      ensures IsNumChar(s[i])
    {
      if i < k { assert s[i] == a[i]; }
      else if i > k { assert s[i] == b[i - k - 1]; }
    }
    NumRunIs(s, |s|);
    assert s[..|s|] == s;
    assert MatchAt(s) == s;
    forall j | 0 <= j < k
      ensures s[j] != ','
    {
      assert s[j] == a[j];
    }
    RemoveCommaAt(s, k);
    var t := a + b;
    assert s[..k] == a && s[k + 1..] == b;
    assert AllDigits(t);
    ReadsDigitsUpTo(t, |t|);
    assert t[..|t|] == t;
    ExtractAtNumChar(s);
  }

  /** One thousands separator and a decimal part: `"1,234.56"` reads as
      1234.56. */
  lemma SeparatedDecimal(a: string, b: string, fs: string)
    requires a != [] && AllDigits(a) && AllDigits(b) && AllDigits(fs)
    ensures ExtractPriceValue(a + "," + b + "." + fs) == Num(DigitsValue(a + b) as real + Fraction(fs))
  {
    var s := a + "," + b + "." + fs;
    SeparatedDecimalIsWholeMatch(a, b, fs);
    ExtractAtNumChar(s);
    var rest := b + "." + fs;
    AppendAssoc(a + ",", b + ".", fs);
    AppendAssoc(a + ",", b, ".");
    FirstCommaAfterDigits(a, rest);
    AppendAssoc(a, b + ".", fs);
    AppendAssoc(a, b, ".");
    DigitsJoin(a, b);
    ReadsDecimal(a + b, fs);
  }

  /** The whole of `a,b.fs` is one match. */
  lemma SeparatedDecimalIsWholeMatch(a: string, b: string, fs: string)
    requires a != [] && AllDigits(a) && AllDigits(b) && AllDigits(fs)
    ensures var s := a + "," + b + "." + fs; IsNumChar(s[0]) && MatchAt(s) == s
  {
    var s := a + "," + b + "." + fs;
    var k := |a| + 1 + |b|;
    forall i | 0 <= i < k
      ensures IsNumChar(s[i])
    {
      if i < |a| { assert s[i] == a[i]; }
      else if i > |a| { assert s[i] == b[i - |a| - 1]; }
    }
    assert s[k] == '.';
    NumRunIs(s, k);
    assert s[k + 1..] == fs;
    DigitRunIs(fs, |fs|);
    assert s[..|s|] == s;
  }

  lemma DigitsJoin(a: string, b: string)
    requires AllDigits(a) && AllDigits(b)
    ensures AllDigits(a + b)
  {
    forall i | 0 <= i < |a + b|
      ensures IsDigit((a + b)[i])
    {
      if i >= |a| { assert (a + b)[i] == b[i - |a|]; }
    }
  }

  /** The same behind a currency sign or label: `"$1,234.56"` reads as
      1234.56. */
  lemma LabelledSeparatedDecimal(p: string, a: string, b: string, fs: string)
    requires NoNumChar(p)
    requires a != [] && AllDigits(a) && AllDigits(b) && AllDigits(fs)
    ensures ExtractPriceValue(p + a + "," + b + "." + fs) == Num(DigitsValue(a + b) as real + Fraction(fs))
  {
    var s := a + "," + b + "." + fs;
    SeparatedDecimal(a, b, fs);
    CurrencyPrefixIgnored(p, s);
    PrefixJoin(p, a + "," + b + ".", fs);
    PrefixJoin(p, a + "," + b, ".");
    PrefixJoin(p, a + ",", b);
    PrefixJoin(p, a, ",");
  }

  /** Regrouping a prefix in front of a joined text. */
  lemma PrefixJoin(p: string, x: string, y: string)
    ensures p + (x + y) == p + x + y
  {
    AppendAssoc(p, x, y);
  }

  /** A match may open with a comma: `",99"` reads as 99. */
  lemma LeadingCommaDigits(ds: string)
    requires ds != [] && AllDigits(ds)
    ensures ExtractPriceValue("," + ds) == Num(DigitsValue(ds) as real)
  {
    var s := "," + ds;
    CommaDigitsIsWholeMatch(ds);
    ExtractAtNumChar(s);
    LeadingCommaRemoved(ds);
    ReadsDigits(ds);
  }

  /** `parseFloat` of a digit string is the integer it spells. */
  lemma ReadsDigits(ds: string)
    requires ds != [] && AllDigits(ds)
    ensures ParseDecimalPrefix(ds) == Num(DigitsValue(ds) as real)
  {
    ReadsDigitsUpTo(ds, |ds|);
    assert ds[..|ds|] == ds;
  }

  lemma CommaDigitsIsWholeMatch(ds: string)
    requires AllDigits(ds)
    ensures IsNumChar(("," + ds)[0]) && MatchAt("," + ds) == "," + ds
  {
    var s := "," + ds;
    forall i | 0 <= i < |s|
      ensures IsNumChar(s[i])
    {
      if i > 0 { assert s[i] == ds[i - 1]; }
    }
    NumRunIs(s, |s|);
    assert s[|s|..] == [];
  }

  /** A comma at the start is the one removed. */
  lemma LeadingCommaRemoved(t: string)
    ensures RemoveFirstComma("," + t) == t
  {
    var s := "," + t;
    RemoveCommaAt(s, 0);
    assert s[..0] + s[1..] == t;
  }

  /** A comma followed by a fraction: `",.5"` reads as 0.5. */
  lemma LeadingCommaFraction(fs: string)
    requires fs != [] && AllDigits(fs)
    ensures ExtractPriceValue(",." + fs) == Num(Fraction(fs))
  {
    var s := ",." + fs;
    CommaFractionIsWholeMatch(fs);
    ExtractAtNumChar(s);
    CommaDotJoin(fs);
    LeadingCommaRemoved("." + fs);
    ReadsFraction(fs);
  }

  lemma CommaFractionIsWholeMatch(fs: string)
    requires AllDigits(fs)
    ensures IsNumChar((",." + fs)[0]) && MatchAt(",." + fs) == ",." + fs
  {
    var s := ",." + fs;
    assert s[1] == '.';
    NumRunIs(s, 1);
    assert s[2..] == fs;
    DigitRunIs(fs, |fs|);
    assert s[..|s|] == s;
  }

  lemma CommaDotJoin(fs: string)
    ensures ",." + fs == "," + ("." + fs)
  {
    AppendAssoc(",", ".", fs);
    assert "," + "." == ",.";
  }

  /** Only the first separator is removed, so parsing stops at the second:
      `"1,234,567.89"` reads as 1234. */
  lemma SecondSeparatorTruncates(a: string, b: string, c: string)
    requires a != [] && AllDigits(a) && AllDigits(b)
    ensures ExtractPriceValue(a + "," + b + "," + c) == Num(DigitsValue(a + b) as real)
  {
    var q := a + "," + b + ",";
    var s := q + c;
    assert forall i :: 0 <= i < |q| ==> IsNumChar(q[i]) by {
      forall i | 0 <= i < |q|
        ensures IsNumChar(q[i])
      {
        if i < |a| { assert q[i] == a[i]; }
        else if |a| < i < |a| + |b| + 1 { assert q[i] == b[i - |a| - 1]; }
      }
    }
    MatchCoversNumPrefix(q, c);
    var m := MatchAt(s);
    assert m == q + m[|q|..];
    TwoSeparators(a, b, m[|q|..]);
    ExtractAtNumChar(s);
  }

  /** A match swallows every digit and comma that opens the text. */
  lemma MatchCoversNumPrefix(q: string, c: string)
    requires q != [] && forall i :: 0 <= i < |q| ==> IsNumChar(q[i])
    ensures |MatchAt(q + c)| >= |q| && MatchAt(q + c)[..|q|] == q
  {
    var s := q + c;
    assert forall i :: 0 <= i < |q| ==> s[i] == q[i];
    NumRunAtLeast(s, |q|);
  }

  lemma {:induction false} NumRunAtLeast(s: string, k: nat)
    requires k <= |s|
    requires forall i :: 0 <= i < k ==> IsNumChar(s[i])
    ensures NumRun(s) >= k
  {
    if k > 0 {
      NumRunAtLeast(s[1..], k - 1);
    }
  }

  /** The first comma of a match that opens with digits is the one right
      after them. */
  lemma FirstCommaAfterDigits(a: string, rest: string)
    requires AllDigits(a)
    ensures RemoveFirstComma(a + "," + rest) == a + rest
  {
    var m := a + "," + rest;
    forall j | 0 <= j < |a|
      ensures m[j] != ','
    {
      assert m[j] == a[j];
    }
    RemoveCommaAt(m, |a|);
    assert m[..|a|] == a;
    assert m[|a| + 1..] == rest;
  }

  lemma TwoSeparators(a: string, b: string, r: string)
    requires a != [] && AllDigits(a) && AllDigits(b)
    ensures ParseDecimalPrefix(RemoveFirstComma(a + "," + b + "," + r)) == Num(DigitsValue(a + b) as real)
  {
    var rest := b + "," + r;
    AppendAssoc(a + ",", b + ",", r);
    AppendAssoc(a + ",", b, ",");
    FirstCommaAfterDigits(a, rest);
    var t := a + rest;
    var n := |a| + |b|;
    forall i | 0 <= i < n
      ensures IsDigit(t[i])
    {
      if i < |a| {
        assert t[i] == a[i];
      } else {
        assert t[i] == rest[i - |a|] == b[i - |a|];
      }
    }
    assert t[n] == rest[|b|] == ',';
    ReadsDigitsUpTo(t, n);
    assert t[..n] == a + b;
  }

  lemma ThousandsExample(p: string)
    requires p == "1,234,567.89"
    ensures ExtractPriceValue(p) == Num(1234.0)
  {
    var a, b, c := "1", "234", "567.89";
    assert p == a + "," + b + "," + c;
    SecondSeparatorTruncates(a, b, c);
    ValueOf1234(a + b);
  }

  lemma ValueOf1234(ds: string)
    requires ds == "1" + "234"
    ensures AllDigits(ds) && DigitsValue(ds) == 1234
  {
    assert ds == "1234";
    assert ds[..3] == "123";
    assert "123"[..2] == "12";
    assert "12"[..1] == "1";
    assert "1"[..0] == "";
  }

  /** A lone comma is a match, but nothing is left for `parseFloat` once
      it is removed: the value is NaN, not 0. */
  lemma LoneCommaIsNaN()
    ensures ExtractPriceValue(",") == NaN
  {
    assert NumRun(",") == 1;
    assert MatchAt(",") == ",";
    assert IndexOf(",", ',') == 0;
    assert RemoveFirstComma(",") == "";
  }

  /** Printing an integer price and parsing it back gives the same value. */
  lemma DecimalRoundTrip(n: nat)
    ensures ExtractPriceValue(NatToDecimal(n)) == Num(n as real)
  {
    NatToDecimalReadsBack(n);
    CleanInteger(NatToDecimal(n));
  }
}
