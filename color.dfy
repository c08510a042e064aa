/** `Color` (src/color.rs): an RGBA color with `f32` components, modelled
    over the reals, its constants, the component-wise operators and the
    parsing of `#rrggbb` hex strings. */
module Colors {
  import opened Common

  datatype Color = Color(r: real, g: real, b: real, a: real)

  const TRANSPARENT: Color := Color(0.0, 0.0, 0.0, 0.0)

  /** `Color::new`: an opaque color. */
  function New(r: real, g: real, b: real): Color
  {
    Color(r, g, b, 1.0)
  }

  const BLACK: Color := New(0.0, 0.0, 0.0)
  const LIGHTGREY: Color := New(0.7, 0.7, 0.75)
  const DARKGREY: Color := New(0.1, 0.1, 0.15)
  const GREY: Color := New(0.4, 0.4, 0.5)
  const RED: Color := New(1.0, 0.0, 0.0)
  const ORANGE: Color := New(1.0, 0.6, 0.0)
  const GREEN: Color := New(0.0, 1.0, 0.0)
  const DARKGREEN: Color := New(0.1, 0.3, 0.1)
  const BLUE: Color := New(0.0, 0.0, 1.0)
  const LIGHTBLUE: Color := New(0.4, 0.4, 1.0)
  const WHITE: Color := New(1.0, 1.0, 1.0)
  const YELLOW: Color := New(1.0, 1.0, 0.0)
  const PURPLE: Color := New(1.0, 0.0, 1.0)

  /** `Color::alpha`: the same color with alpha `a`. */
  function Alpha(c: Color, a: real): Color
  {
    c.(a := a)
  }

  /** `Mul<Color> for Color`: component-wise product, alpha included. */
  function MulColor(c: Color, d: Color): Color
  {
    Color(c.r * d.r, c.g * d.g, c.b * d.b, c.a * d.a)
  }

  /** `Mul<f32> for Color`: scales the color channels, keeps alpha. */
  function MulScalar(c: Color, k: real): Color
  {
    Color(c.r * k, c.g * k, c.b * k, c.a)
  }

  /** `Add<f32> for Color`: shifts the color channels, keeps alpha. */
  function AddScalar(c: Color, k: real): Color
  {
    Color(c.r + k, c.g + k, c.b + k, c.a)
  }

  /** `Lerp for Color`: each of the four components interpolated on its own. */
  function LerpColor(c: Color, d: Color, factor: real): Color
  {
    Color(c.r + (d.r - c.r) * factor, c.g + (d.g - c.g) * factor,
          c.b + (d.b - c.b) * factor, c.a + (d.a - c.a) * factor)
  }

  function NamedOpaque(): set<Color>
  {
    {BLACK, LIGHTGREY, DARKGREY, GREY, RED, ORANGE, GREEN, DARKGREEN, BLUE, LIGHTBLUE, WHITE, YELLOW, PURPLE}
  }

  /** The constants are opaque except `TRANSPARENT`, whose four components are 0;
      `TRANSPARENT` is therefore the only one of them that batching drops. */
  lemma ConstantsOpaque()
    ensures TRANSPARENT.r == TRANSPARENT.g == TRANSPARENT.b == TRANSPARENT.a == 0.0
    ensures forall c | c in NamedOpaque() :: c.a == 1.0 && c != TRANSPARENT
  {
  }

  /** `alpha` replaces only the alpha channel: re-applying the old alpha
      restores the color, and a new color is opaque until `alpha` is applied. */
  lemma AlphaReplacesOnlyAlpha(c: Color, a: real)
    ensures Alpha(Alpha(c, a), c.a) == c
    ensures Alpha(c, a).a == a
    ensures Alpha(New(c.r, c.g, c.b), c.a) == c
  {
  }

  /** Scaling by a scalar is the color product with the gray `(k, k, k, 1)`,
      so it leaves alpha alone, while `Mul<Color>` also multiplies alpha. */
  lemma MulScalarIsMulByGray(c: Color, k: real)
    ensures MulScalar(c, k) == MulColor(c, Color(k, k, k, 1.0))
    ensures MulScalar(c, k).a == c.a && AddScalar(c, k).a == c.a
    ensures MulColor(c, Color(1.0, 1.0, 1.0, 1.0)) == c
  {
  }

  /** Interpolation reaches both end points. */
  lemma LerpColorEndpoints(c: Color, d: Color)
    ensures LerpColor(c, d, 0.0) == c && LerpColor(c, d, 1.0) == d
  {
  }

  // ----- Hex parsing (`Color::from_hex`) -----

  /** A byte of the UTF-8 encoding of the hex string. */
  newtype byte = x: int | 0 <= x < 256

  /** `hex_digit_value`: '0'..'9' are 0..9, 'a'..'f' and 'A'..'F' are 10..15,
      every other byte is 0. */
  function HexDigitValue(c: byte): (v: nat)
    ensures v < 16
    ensures '0' as byte <= c <= '9' as byte ==> v == (c - '0' as byte) as nat
    ensures 'a' as byte <= c <= 'f' as byte ==> v == (c - 'a' as byte) as nat + 10
    ensures 'A' as byte <= c <= 'F' as byte ==> v == (c - 'A' as byte) as nat + 10
    ensures !IsHexDigit(c) ==> v == 0
  {
    if '0' as byte <= c <= '9' as byte then (c - '0' as byte) as nat
    else if 'a' as byte <= c <= 'f' as byte then (c - 'a' as byte) as nat + 10
    else if 'A' as byte <= c <= 'F' as byte then (c - 'A' as byte) as nat + 10
    else 0
  }

  predicate IsHexDigit(c: byte)
  {
    '0' as byte <= c <= '9' as byte || 'a' as byte <= c <= 'f' as byte || 'A' as byte <= c <= 'F' as byte
  }

  /** The lower-case and upper-case spellings of the digit `v`. */
  function LowerHexDigit(v: nat): byte
    requires v < 16
  {
    if v < 10 then ('0' as byte) + v as byte else ('a' as byte) + (v - 10) as byte
  }

  function UpperHexDigit(v: nat): byte
    requires v < 16
  {
    if v < 10 then ('0' as byte) + v as byte else ('A' as byte) + (v - 10) as byte
  }

  /** `parse_hex_pair`: the byte written by the two digits at `start`. */
  function ParseHexPair(s: seq<byte>, start: nat): (v: nat)
    requires start + 1 < |s|
    ensures v < 256
  {
    16 * HexDigitValue(s[start]) + HexDigitValue(s[start + 1])
  }

  /** The three bytes of `#rrggbb`.  The source maps each through
      `color_map_to_srgb` (a `powf`), which is not part of this model. */
  datatype Rgb8 = Rgb8(r: nat, g: nat, b: nat)

  datatype HexError = EmptyString | MissingHash | WrongLength

  /** `Color::from_hex` up to the sRGB mapping: indexing an empty string
      panics, a first byte other than '#' panics, and so does any length
      other than 7 bytes. */
  function FromHex(hex: seq<byte>): (r: Result<Rgb8, HexError>)
    ensures r.Ok? <==> |hex| == 7 && hex[0] == '#' as byte
    ensures r.Ok? ==> r.value.r < 256 && r.value.g < 256 && r.value.b < 256
  {
    if |hex| == 0 then Err(EmptyString)
    else if hex[0] != '#' as byte then Err(MissingHash)
    else if |hex| == 7 then Ok(Rgb8(ParseHexPair(hex, 1), ParseHexPair(hex, 3), ParseHexPair(hex, 5)))
    else Err(WrongLength)
  }

  /** The `#rrggbb` spelling of three bytes (lower-case digits). */
  function FormatHex(c: Rgb8): seq<byte>
    requires c.r < 256 && c.g < 256 && c.b < 256
  {
    ['#' as byte, LowerHexDigit(c.r / 16), LowerHexDigit(c.r % 16),
     LowerHexDigit(c.g / 16), LowerHexDigit(c.g % 16),
     LowerHexDigit(c.b / 16), LowerHexDigit(c.b % 16)]
  }

  /** Both spellings of every digit parse back to the digit. */
  lemma HexDigitRoundTrip(v: nat)
    requires v < 16
    ensures HexDigitValue(LowerHexDigit(v)) == v
    ensures HexDigitValue(UpperHexDigit(v)) == v
  {
  }

  /** Parsing undoes formatting: every color written as `#rrggbb` is read back. */
  lemma FromHexRoundTrip(c: Rgb8)
    requires c.r < 256 && c.g < 256 && c.b < 256
    ensures FromHex(FormatHex(c)) == Ok(c)
  {
    var s := FormatHex(c);
    HexDigitRoundTrip(c.r / 16);
    HexDigitRoundTrip(c.r % 16);
    HexDigitRoundTrip(c.g / 16);
    HexDigitRoundTrip(c.g % 16);
    HexDigitRoundTrip(c.b / 16);
    HexDigitRoundTrip(c.b % 16);
    assert ParseHexPair(s, 1) == c.r;
    assert ParseHexPair(s, 3) == c.g;
    assert ParseHexPair(s, 5) == c.b;
  }

  /** A mixed-case example from the spelling the source accepts. */
  lemma FromHexExample()
    ensures FromHex(['#' as byte, 'F' as byte, 'f' as byte, '0' as byte, '8' as byte, 'a' as byte, 'B' as byte])
            == Ok(Rgb8(255, 8, 171))
  {
  }
}
