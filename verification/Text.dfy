/** The text operations of Python that the other modules need. */
module Text {

  /** `str.isspace` for one character. */
  predicate IsSpace(c: char) {
    || c == ' ' || '\t' <= c <= '\r' || '\U{1C}' <= c <= '\U{1F}' || c == '\U{85}' || c == '\U{A0}' || c == '\U{1680}'
    || '\U{2000}' <= c <= '\U{200A}' || c in {'\U{2028}', '\U{2029}', '\U{202F}', '\U{205F}', '\U{3000}'}
  }

  predicate IsDigit(c: char) { '0' <= c <= '9' }

  /** `str.lstrip()`. */
  function Lstrip(text: string): string {
    if text != [] && IsSpace(text[0]) then Lstrip(text[1..]) else text
  }

  /** `str.rstrip()`. */
  function Rstrip(text: string): string {
    if text != [] && IsSpace(text[|text| - 1]) then Rstrip(text[..|text| - 1]) else text
  }

  /** `str.strip()`. */
  function Strip(text: string): string { Rstrip(Lstrip(text)) }

  // ----- Stripping -----

  lemma {:induction false} RstripTwice(text: string)
    ensures Rstrip(Rstrip(text)) == Rstrip(text)
    decreases |text|
  {
    if text != [] && IsSpace(text[|text| - 1]) { RstripTwice(text[..|text| - 1]); }
  }

  lemma {:induction false} LstripStart(text: string)
    ensures Lstrip(text) != [] ==> !IsSpace(Lstrip(text)[0])
  {
    if text != [] && IsSpace(text[0]) { LstripStart(text[1..]); }
  }

  lemma {:induction false} RstripStart(text: string)
    requires text != [] && !IsSpace(text[0])
    ensures Rstrip(text) != [] && Rstrip(text)[0] == text[0]
    decreases |text|
  {
    if IsSpace(text[|text| - 1]) { RstripStart(text[..|text| - 1]); }
  }

  lemma StripTwice(text: string)
    ensures Strip(Strip(text)) == Strip(text)
  {
    LstripStart(text);
    if Lstrip(text) != [] { RstripStart(Lstrip(text)); }
    RstripTwice(Lstrip(text));
  }

  lemma NothingToStrip(text: string)
    requires text != [] && !IsSpace(text[0]) && !IsSpace(text[|text| - 1])
    ensures Strip(text) == text
  {
  }

  lemma {:induction false} RstripRemovesSpace(text: string, c: char)
    requires c in text && !IsSpace(c)
    ensures c in Rstrip(text)
    decreases |text|
  {
    if IsSpace(text[|text| - 1]) {
      assert text == text[..|text| - 1] + [text[|text| - 1]];
      RstripRemovesSpace(text[..|text| - 1], c);
    }
  }

  /** Only whitespace is stripped. */
  lemma {:induction false} StripRemovesSpace(text: string, c: char)
    requires c in text && !IsSpace(c)
    ensures c in Strip(text)
  {
    if IsSpace(text[0]) {
      assert text == [text[0]] + text[1..];
      StripRemovesSpace(text[1..], c);
    } else {
      RstripRemovesSpace(text, c);
    }
  }

  // ----- Decimal numerals -----

  /** `str.isdecimal()`, on ASCII. */
  predicate IsDecimal(text: string) { text != [] && forall i :: 0 <= i < |text| ==> IsDigit(text[i]) }

  /** `int(text)`. */
  function ToNat(text: string): nat
    requires forall i :: 0 <= i < |text| ==> IsDigit(text[i])
  {
    if text == [] then 0
    else
      assert IsDigit(text[|text| - 1]);
      ToNat(text[..|text| - 1]) * 10 + (text[|text| - 1] as int - '0' as int)
  }

  function Digit(n: nat): char
    requires n < 10
  {
    (n + '0' as int) as char
  }

  /** `str(n)`. */
  function Numeral(n: nat): string {
    if n < 10 then [Digit(n)] else Numeral(n / 10) + [Digit(n % 10)]
  }

  lemma {:induction false} NumeralOfNat(text: string)
    requires IsDecimal(text)
    ensures text[0] != '0' ==> ToNat(text) > 0 && Numeral(ToNat(text)) == text
  {
    var n := |text| - 1;
    assert text == text[..n] + [text[n]];
    if n > 0 {
      NumeralOfNat(text[..n]);
    } else {
      assert ToNat(text[..0]) == 0;
      assert text == [Digit(ToNat(text))];
    }
  }

  lemma {:induction false} NumeralStart(n: nat)
    ensures Numeral(n) != [] && (n > 0 ==> Numeral(n)[0] != '0')
  {
    if n >= 10 { NumeralStart(n / 10); }
  }

  /** `int(str(n))` is `n`. */
  lemma {:induction false} NatOfNumeral(n: nat)
    ensures IsDecimal(Numeral(n)) && ToNat(Numeral(n)) == n
  {
    if n < 10 {
      assert Numeral(n)[..0] == [] && ToNat([]) == 0;
    } else {
      NatOfNumeral(n / 10);
      var text := Numeral(n);
      assert text[..|text| - 1] == Numeral(n / 10);
    }
  }
}
