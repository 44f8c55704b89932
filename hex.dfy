/**
 * Reading the six-hex-digit colour strings of a palette file
 * (the closure inside `Palette::new`).
 */
module HexColors {
  import opened Colors

  datatype Result<T, E> = Ok(value: T) | Err(error: E)

  /** Why `Palette::new` would panic on a colour string. */
  datatype HexError =
    | TooShort(pair: nat)   // the slice `c[2k..2k+2]` is out of range
    | NotHex(pair: nat)     // `from_str_radix(.., 16)` rejects the slice

  predicate IsHexDigit(c: char) {
    '0' <= c <= '9' || 'a' <= c <= 'f' || 'A' <= c <= 'F'
  }

  function HexDigitValue(c: char): (v: nat)
    requires IsHexDigit(c)
    ensures v < 16
  {
    if c <= '9' then c as int - '0' as int
    else if c <= 'F' then c as int - 'A' as int + 10
    else c as int - 'a' as int + 10
  }

  /** The lower-case hex digit of a value below 16. */
  function HexDigit(v: nat): (c: char)
    requires v < 16
    ensures IsHexDigit(c) && HexDigitValue(c) == v
  {
    if v < 10 then ('0' as int + v) as char else ('a' as int + v - 10) as char
  }

  /** A string of exactly the shape the parser accepts: six hex digits first. */
  predicate WellFormed(c: string) {
    |c| >= 6 && forall i | 0 <= i < 6 :: IsHexDigit(c[i])
  }

  /** The value of the two hex digits at positions 2k and 2k+1. */
  function PairValue(c: string, k: nat): (v: byte)
    requires 2 * k + 2 <= |c| && IsHexDigit(c[2 * k]) && IsHexDigit(c[2 * k + 1])
  {
    16 * HexDigitValue(c[2 * k]) + HexDigitValue(c[2 * k + 1])
  }

  /**
   * `u8::from_str_radix(&c[2k..2k + 2], 16).unwrap()`: the k-th channel, or the
   * reason the source panics on it.
   */
  function Channel(c: string, k: nat): (r: Result<byte, HexError>)
    ensures r.Ok? <==> 2 * k + 2 <= |c| && IsHexDigit(c[2 * k]) && IsHexDigit(c[2 * k + 1])
    ensures r.Ok? ==> r.value == PairValue(c, k)
    ensures r.Err? ==> r.error.pair == k
  {
    if |c| < 2 * k + 2 then Err(TooShort(k))
    else if IsHexDigit(c[2 * k]) && IsHexDigit(c[2 * k + 1]) then Ok(PairValue(c, k))
    else Err(NotHex(k))
  }

  /**
   * One colour string read as `RRGGBB`, channel by channel in the source's
   * order; the first failing channel decides the error.
   */
  function ParseColor(c: string): (r: Result<Rgb, HexError>)
    ensures r.Ok? <==> WellFormed(c)
    ensures r.Ok? ==> r.value == Rgb(PairValue(c, 0), PairValue(c, 1), PairValue(c, 2))
  {
    match Channel(c, 0)
    case Err(e) => Err(e)
    case Ok(red) =>
      match Channel(c, 1)
      case Err(e) => Err(e)
      case Ok(green) =>
        match Channel(c, 2)
        case Err(e) => Err(e)
        case Ok(blue) => Ok(Rgb(red, green, blue))
  }

  /** The six lower-case hex digits of a colour; the inverse of ParseColor. */
  function HexColor(x: Rgb): (s: string)
    ensures |s| == 6 && WellFormed(s)
  {
    [HexDigit(x.r / 16), HexDigit(x.r % 16),
     HexDigit(x.g / 16), HexDigit(x.g % 16),
     HexDigit(x.b / 16), HexDigit(x.b % 16)]
  }

  lemma PairOfHexByte(s: string, k: nat, v: byte)
    requires 2 * k + 2 <= |s| && s[2 * k] == HexDigit(v / 16) && s[2 * k + 1] == HexDigit(v % 16)
    ensures PairValue(s, k) == v
  {
  }

  /** Formatting a colour and reading it back gives the colour, whatever follows the six digits. */
  lemma ParseHexColor(x: Rgb, rest: string)
    ensures ParseColor(HexColor(x) + rest) == Ok(x)
  {
    var s := HexColor(x) + rest;
    assert s[..6] == HexColor(x);
    PairOfHexByte(s, 0, x.r);
    PairOfHexByte(s, 1, x.g);
    PairOfHexByte(s, 2, x.b);
  }

  /** Only the first six characters are read: anything after them is ignored. */
  lemma TrailingCharactersIgnored(c: string)
    requires |c| >= 6
    ensures ParseColor(c) == ParseColor(c[..6])
  {
  }
}
