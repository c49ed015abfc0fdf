/** The `Product` record and the validation rules its data annotations declare.
    A product is valid exactly when its name, price and quantity each pass their
    rule; the id carries no annotation and plays no part in validity. */
module ProductModel {
  import opened Wrappers

  /** Bounds of a C# `int`. */
  const IntMin: int := -0x8000_0000
  const IntMax: int := 0x7FFF_FFFF

  type Int32 = x: int | IntMin <= x <= IntMax

  /** Largest magnitude of a C# `decimal`: 2^96 - 1. */
  const DecimalMax: real := 79228162514264337593543950335.0

  /** A C# `decimal`, kept exact; its 28-digit scale limit is not modelled. */
  type Decimal = r: real | -DecimalMax <= r <= DecimalMax witness 0.0

  /** `double.MaxValue`, (2^53 - 1) * 2^971, written out in hexadecimal. */
  const DoubleMax: real := 0xFFFFFFFFFFFFF800000000000000000000000000000000000000000000000000000000000000000000000000000000000000000000000000000000000000000000000000000000000000000000000000000000000000000000000000000000000000000000000000000000000000000000000000000000000000000000000000 as real

  /** Bounds of the `[StringLength(100, MinimumLength = 3)]` rule on the name. */
  const NameMinLength: nat := 3
  const NameMaxLength: nat := 100

  /** Bounds of `[Range(0.01, double.MaxValue)]` on the price. */
  const PriceMin: real := 0.01

  /** Lower bound of `[Range(1, int.MaxValue)]` on the quantity. */
  const QuantityMin: int := 1

  datatype Product = Product(id: int, name: Option<string>, price: Decimal, quantity: Int32)

  /** The characters `char.IsWhiteSpace` accepts: the Unicode separators
      (categories Zs, Zl, Zp) plus the controls U+0009..U+000D and U+0085. */
  predicate IsWhiteSpace(c: char) {
    || c == ' '
    || '\t' <= c <= '\r'
    || c == '\U{85}'
    || c == '\U{A0}'
    || c == '\U{1680}'
    || '\U{2000}' <= c <= '\U{200A}'
    || c == '\U{2028}'
    || c == '\U{2029}'
    || c == '\U{202F}'
    || c == '\U{205F}'
    || c == '\U{3000}'
  }

  /** `string.IsNullOrWhiteSpace` on a non-null string: empty or all white space. */
  predicate IsBlank(s: string) {
    forall i :: 0 <= i < |s| ==> IsWhiteSpace(s[i])
  }

  /** UTF-16 code units needed for one character. */
  function CodeUnits(c: char): nat {
    if c as int > 0xFFFF then 2 else 1
  }

  /** `string.Length`: the number of UTF-16 code units, which is what
      `[StringLength]` measures. */
  function Utf16Length(s: string): (n: nat)
    ensures |s| <= n <= 2 * |s|
  {
    if |s| == 0 then 0 else CodeUnits(s[0]) + Utf16Length(s[1..])
  }

  /** The UTF-16 encoding of one character: itself when it fits in 16 bits,
      otherwise a high surrogate followed by a low surrogate. Each unit is a
      16-bit value, and the units decode back to the character. */
  function EncodeChar(c: char): (u: seq<int>)
    ensures |u| == 1 || |u| == 2
    ensures forall k :: 0 <= k < |u| ==> 0 <= u[k] <= 0xFFFF
    ensures |u| == 1 ==> u[0] == c as int
    ensures |u| == 2 ==>
              && 0xD800 <= u[0] < 0xDC00 <= u[1] < 0xE000
              && 0x10000 + (u[0] - 0xD800) * 0x400 + (u[1] - 0xDC00) == c as int
  {
    if c as int <= 0xFFFF then [c as int]
    else
      var v := c as int - 0x10000;
      [0xD800 + v / 0x400, 0xDC00 + v % 0x400]
  }

  /** The UTF-16 encoding of a string, character by character. */
  function EncodeUtf16(s: string): (u: seq<int>)
    decreases |s|
  {
    if |s| == 0 then [] else EncodeChar(s[0]) + EncodeUtf16(s[1..])
  }

  /** The measured length is the length of the UTF-16 encoding. */
  lemma {:induction false} Utf16LengthIsEncodedLength(s: string)
    ensures Utf16Length(s) == |EncodeUtf16(s)|
    decreases |s|
  {
    if |s| > 0 {
      Utf16LengthIsEncodedLength(s[1..]);
    }
  }

  /** The measured length of a concatenation is the sum of the lengths. */
  lemma {:induction false} Utf16LengthAppend(a: string, b: string)
    ensures Utf16Length(a + b) == Utf16Length(a) + Utf16Length(b)
    decreases |a|
  {
    if |a| == 0 {
      assert a + b == b;
    } else {
      assert (a + b)[1..] == a[1..] + b;
      Utf16LengthAppend(a[1..], b);
    }
  }

  /** `[Required]` (no empty or blank strings) together with `[StringLength]`
      (which lets `null` through, so `[Required]` alone rejects it). */
  predicate NameValid(name: Option<string>): (b: bool)
    ensures b ==> name.Some? && 2 <= |name.value| <= NameMaxLength
  {
    match name
    case None => false
    case Some(s) => !IsBlank(s) && NameMinLength <= Utf16Length(s) <= NameMaxLength
  }

  /** `[Range(0.01, double.MaxValue)]`: both bounds inclusive. Every
      `decimal` is below `double.MaxValue`, so only the lower bound binds. */
  predicate PriceValid(price: Decimal): (b: bool)
    ensures b <==> price >= PriceMin
  {
    PriceMin <= price <= DoubleMax
  }

  /** `[Range(1, int.MaxValue)]`: both bounds inclusive. Every `int` is at
      most `int.MaxValue`, so only the lower bound binds. */
  predicate QuantityValid(quantity: Int32): (b: bool)
    ensures b <==> quantity >= QuantityMin
  {
    QuantityMin <= quantity <= IntMax
  }

  /** What `ModelState.IsValid` reports for a bound product. */
  predicate IsValid(p: Product): (b: bool)
    ensures b ==> p.name.Some? && p.price > 0.0 && p.quantity > 0
  {
    NameValid(p.name) && PriceValid(p.price) && QuantityValid(p.quantity)
  }

  /** A valid name has between 2 and 100 characters: two characters outside
      the Basic Multilingual Plane already make 4 code units. */
  lemma NameValidCharacterBounds(s: string)
    requires NameValid(Some(s))
    ensures 2 <= |s| <= 100
  {
  }

  /** Every character of a Basic-Multilingual-Plane string is one code unit. */
  lemma {:induction false} Utf16LengthOfBmp(s: string)
    requires forall i :: 0 <= i < |s| ==> s[i] as int <= 0xFFFF
    ensures Utf16Length(s) == |s|
  {
    if |s| > 0 {
      Utf16LengthOfBmp(s[1..]);
    }
  }

  /** For names made of Basic-Multilingual-Plane characters the length rule
      is exactly 3 to 100 characters. */
  lemma NameValidBmp(s: string)
    requires forall i :: 0 <= i < |s| ==> s[i] as int <= 0xFFFF
    ensures NameValid(Some(s)) <==> !IsBlank(s) && 3 <= |s| <= 100
  {
    Utf16LengthOfBmp(s);
  }

  /** A name of two astral characters is four code units long, so the length
      rule accepts it although it has only two characters. */
  lemma TwoAstralCharactersAreAValidName()
    ensures NameValid(Some("\U{1F600}\U{1F600}"))
  {
  }

  /** Validity ignores the id: two products that differ only in id are
      valid together or invalid together. */
  lemma ValidityIgnoresId(p: Product, id: int)
    ensures IsValid(p.(id := id)) <==> IsValid(p)
  {
  }

  /** A product is valid exactly when all three field rules hold; failing
      any one of them makes it invalid. */
  lemma IsValidIff(p: Product)
    ensures IsValid(p) <==>
              && p.name.Some? && !IsBlank(p.name.value)
              && 3 <= Utf16Length(p.name.value) <= 100
              && p.price >= 0.01
              && p.quantity >= 1
  {
  }
}
