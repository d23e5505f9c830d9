/** The request schemas of the product module. A price travels as text and must
    match `^\d+(\.\d{1,2})?$`: digits, then optionally a point and one or two
    digits. The parser below reads such a text as integer cents. */
module ProductSchema {
  import opened Wrappers
  import opened Numbers

  /** The price pattern, stated directly: an integer part of at least one digit,
      and either nothing else or a point followed by one or two digits. */
  predicate PriceFormat(s: string) {
    || (|s| >= 1 && AllDigits(s))
    || exists k :: 1 <= k < |s| && s[k] == '.' && AllDigits(s[..k]) && 1 <= |s| - (k + 1) <= 2 && AllDigits(s[k + 1..])
  }

  /** The position of the first '.', or the length when there is none. */
  function DotIndex(s: string): (k: nat)
    ensures k <= |s|
    ensures forall i :: 0 <= i < k ==> s[i] != '.'
    ensures k < |s| ==> s[k] == '.'
    decreases |s|
  {
    if s == [] then 0
    else if s[0] == '.' then 0
    else 1 + DotIndex(s[1..])
  }

  /** The value in cents of one or two digits after the point. */
  function FractionCents(f: string): (c: nat)
    requires 1 <= |f| <= 2 && AllDigits(f)
    ensures c < 100
  {
    if |f| == 1 then 10 * DigitValue(f[0]) else 10 * DigitValue(f[0]) + DigitValue(f[1])
  }

  /** The price text read as cents, or nothing when it does not match the pattern. */
  function ParsePrice(s: string): (r: Option<nat>)
    ensures |s| >= 1 && AllDigits(s) ==> r == Some(100 * DigitsValue(s))
    ensures s == [] || !IsDigit(s[0]) ==> r.None?
  {
    var k := DotIndex(s);
    if k == 0 || !AllDigits(s[..k]) then None
    else if k == |s| then Some(100 * DigitsValue(s))
    else
      var f := s[k + 1..];
      if 1 <= |f| <= 2 && AllDigits(f) then Some(100 * DigitsValue(s[..k]) + FractionCents(f))
      else None
  }

  /** The parser accepts exactly the texts the pattern matches. */
  lemma {:induction false} ParsePriceAcceptsFormat(s: string)
    ensures ParsePrice(s).Some? <==> PriceFormat(s)
  {
    if ParsePrice(s).Some? {
      ParsedPriceHasFormat(s);
    }
    if PriceFormat(s) {
      FormattedPriceIsParsed(s);
    }
  }

  lemma {:induction false} ParsedPriceHasFormat(s: string)
    requires ParsePrice(s).Some?
    ensures PriceFormat(s)
  {
    var k := DotIndex(s);
    if k == |s| {
      assert s[..k] == s;
    } else {
      assert 1 <= k < |s| && s[k] == '.' && AllDigits(s[..k]) && 1 <= |s| - (k + 1) <= 2 && AllDigits(s[k + 1..]);
    }
  }

  lemma {:induction false} FormattedPriceIsParsed(s: string)
    requires PriceFormat(s)
    ensures ParsePrice(s).Some?
  {
    if !(|s| >= 1 && AllDigits(s)) {
      var j :| 1 <= j < |s| && s[j] == '.' && AllDigits(s[..j]) && 1 <= |s| - (j + 1) <= 2 && AllDigits(s[j + 1..]);
      assert s == s[..j] + "." + s[j + 1..];
      ParsePriceOfParts(s[..j], s[j + 1..]);
    }
  }

  /** Two decimal places, as `toFixed(2)` prints a whole number of cents. */
  function FormatCents(c: nat): (s: string)
    ensures PriceFormat(s)
  {
    var s := NatToDigits(c / 100) + "." + [DigitChar(c % 100 / 10), DigitChar(c % 10)];
    var k := |NatToDigits(c / 100)|;
    assert s[..k] == NatToDigits(c / 100) && s[k] == '.' && s[k + 1..] == [DigitChar(c % 100 / 10), DigitChar(c % 10)];
    s
  }

  /** Printing cents with two decimals and parsing the text back gives the same
      cents. */
  lemma FormatCentsRoundTrip(c: nat)
    ensures ParsePrice(FormatCents(c)) == Some(c)
  {
    var w := NatToDigits(c / 100);
    var f := [DigitChar(c % 100 / 10), DigitChar(c % 10)];
    var s := FormatCents(c);
    assert s == w + "." + f;
    DotOfDigits(w, f);
    assert s[..|w|] == w && s[|w| + 1..] == f;
  }

  lemma DotOfDigits(w: string, f: string)
    requires AllDigits(w)
    ensures DotIndex(w + "." + f) == |w|
    decreases |w|
  {
    if w != [] {
      assert (w + "." + f)[1..] == w[1..] + "." + f;
      DotOfDigits(w[1..], f);
    }
  }

  /** A price with a fractional part is its whole units in cents plus the
      cents the one or two digits after the point stand for. */
  lemma {:induction false} ParsePriceOfParts(w: string, f: string)
    requires |w| >= 1 && AllDigits(w)
    requires 1 <= |f| <= 2 && AllDigits(f)
    ensures ParsePrice(w + "." + f) == Some(100 * DigitsValue(w) + FractionCents(f))
  {
    var s := w + "." + f;
    DotOfDigits(w, f);
    assert s[..|w|] == w && s[|w| + 1..] == f;
  }

  /** Texts the pattern is written to accept, with their cents. */
  lemma PriceExamples()
    ensures ParsePrice("10") == Some(1000)
    ensures ParsePrice("10.5") == Some(1050)
    ensures ParsePrice("10.55") == Some(1055)
  {
    assert "10"[..1] == "1";
    assert DigitsValue("10") == 10;
    assert "10.5" == "10" + "." + "5" && "10.55" == "10" + "." + "55";
    ParsePriceOfParts("10", "5");
    ParsePriceOfParts("10", "55");
  }

  /** Texts the pattern refuses: a point with no digit after it, no digit
      before it, three decimals, a sign. */
  lemma PriceCounterexamples()
    ensures ParsePrice("10.") == None
    ensures ParsePrice(".5") == None
    ensures ParsePrice("1.234") == None
    ensures ParsePrice("-1") == None
  {
    assert DotIndex("10.") == 2 && "10."[..2] == "10" && "10."[3..] == "";
    assert DotIndex("1.234") == 1 && "1.234"[..1] == "1" && "1.234"[2..] == "234";
    assert !IsDigit(".5"[0]) && !IsDigit("-1"[0]);
  }

  const MaxNameLength: int := 255

  datatype CreateProductBody = CreateProductBody(name: string, description: Option<string>, price: string, stock: Option<int>)
  datatype UpdateProductBody = UpdateProductBody(name: Option<string>, description: Option<string>, price: Option<string>, stock: Option<int>)

  datatype CreateProductInput = CreateProductInput(name: string, description: Option<string>, price: nat, stock: nat)
  datatype UpdateProductInput = UpdateProductInput(name: Option<string>, description: Option<string>, price: Option<nat>, stock: Option<nat>)

  predicate ValidName(name: string) {
    1 <= |name| <= MaxNameLength
  }

  /** `createProductSchema`: a name of 1..255 characters, an optional
      description, a price matching the pattern and a non-negative stock that
      defaults to 0. */
  function ParseCreateProduct(b: CreateProductBody): (r: Result<CreateProductInput>)
    ensures r.Success? <==> ValidName(b.name) && PriceFormat(b.price) && (b.stock.None? || b.stock.value >= 0)
    ensures r.Success? ==>
      && r.value.name == b.name && r.value.description == b.description
      && Some(r.value.price) == ParsePrice(b.price)
      && r.value.stock == (if b.stock.Some? then b.stock.value else 0)
  {
    ParsePriceAcceptsFormat(b.price);
    if !ValidName(b.name) then Failure(Invalid("name"))
    else if ParsePrice(b.price).None? then Failure(Invalid("price"))
    else if b.stock.Some? && b.stock.value < 0 then Failure(Invalid("stock"))
    else
      var stock := if b.stock.Some? then b.stock.value else 0;
      Success(CreateProductInput(b.name, b.description, ParsePrice(b.price).value, stock))
  }

  /** `updateProductSchema`: every field optional, each obeying the create rule. */
  function ParseUpdateProduct(b: UpdateProductBody): (r: Result<UpdateProductInput>)
    ensures r.Success? <==>
      && (b.name.None? || ValidName(b.name.value))
      && (b.price.None? || PriceFormat(b.price.value))
      && (b.stock.None? || b.stock.value >= 0)
    ensures r.Success? ==>
      && r.value.name == b.name && r.value.description == b.description
      && (r.value.price.Some? <==> b.price.Some?)
      && (b.price.Some? ==> r.value.price == ParsePrice(b.price.value))
      && (r.value.stock.Some? <==> b.stock.Some?)
      && (b.stock.Some? ==> r.value.stock.value == b.stock.value)
  {
    ParsePriceAcceptsFormat(b.price.GetOr(""));
    if b.name.Some? && !ValidName(b.name.value) then Failure(Invalid("name"))
    else if b.price.Some? && ParsePrice(b.price.value).None? then Failure(Invalid("price"))
    else if b.stock.Some? && b.stock.value < 0 then Failure(Invalid("stock"))
    else
      var price := if b.price.Some? then ParsePrice(b.price.value) else None;
      var stock: Option<nat> := if b.stock.Some? then Some(b.stock.value) else None;
      Success(UpdateProductInput(b.name, b.description, price, stock))
  }
}
