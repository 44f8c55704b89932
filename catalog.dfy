/**
 * The palette catalogue of src/palettes.rs: one named palette with its
 * author and colour strings, the 28 categories of the catalogue file, and
 * how both are displayed.
 */
module PaletteCatalog {

  /** One palette of the catalogue file. */
  datatype JsonPalette = JsonPalette(name: string, author: string, colors: seq<string>)

  /** The catalogue: palettes grouped by colour count (`moreThan64bit` is `more`). */
  datatype JsonPalettes = JsonPalettes(
    bit2: seq<JsonPalette>, bit3: seq<JsonPalette>, bit4: seq<JsonPalette>,
    bit5: seq<JsonPalette>, bit6: seq<JsonPalette>, bit7: seq<JsonPalette>,
    bit8: seq<JsonPalette>, bit9: seq<JsonPalette>, bit10: seq<JsonPalette>,
    bit11: seq<JsonPalette>, bit12: seq<JsonPalette>, bit13: seq<JsonPalette>,
    bit14: seq<JsonPalette>, bit15: seq<JsonPalette>, bit16: seq<JsonPalette>,
    bit20: seq<JsonPalette>, bit24: seq<JsonPalette>, bit28: seq<JsonPalette>,
    bit32: seq<JsonPalette>, bit36: seq<JsonPalette>, bit40: seq<JsonPalette>,
    bit44: seq<JsonPalette>, bit48: seq<JsonPalette>, bit52: seq<JsonPalette>,
    bit56: seq<JsonPalette>, bit60: seq<JsonPalette>, bit64: seq<JsonPalette>,
    more: seq<JsonPalette>
  )

  predicate IsDigit(c: char) {
    '0' <= c <= '9'
  }

  /** The decimal digits of n, as `{}` formats a `usize`: no leading zeros, "0" for zero. */
  function Decimal(n: nat): (s: string)
    ensures |s| >= 1
    ensures forall i | 0 <= i < |s| :: IsDigit(s[i])
    ensures |s| > 1 ==> s[0] != '0'
  {
    if n < 10 then [('0' as int + n) as char]
    else Decimal(n / 10) + [('0' as int + n % 10) as char]
  }

  /** The number a string of decimal digits denotes. */
  function DecimalValue(s: string): nat
    requires forall i | 0 <= i < |s| :: IsDigit(s[i])
  {
    if s == [] then 0
    else
      assert IsDigit(s[|s| - 1]);
      10 * DecimalValue(s[..|s| - 1]) + (s[|s| - 1] as int - '0' as int)
  }

  /** Reading back the digits of n gives n: the printed count is the count. */
  lemma {:induction false} DecimalRoundTrip(n: nat)
    ensures DecimalValue(Decimal(n)) == n
  {
    var s := Decimal(n);
    if n >= 10 {
      DecimalRoundTrip(n / 10);
      assert s[..|s| - 1] == Decimal(n / 10);
    }
  }

  /** Distinct numbers render differently. */
  lemma DecimalInjective(m: nat, n: nat)
    requires Decimal(m) == Decimal(n)
    ensures m == n
  {
    DecimalRoundTrip(m);
    DecimalRoundTrip(n);
  }

  /** The author clause of the display: empty for a blank author ("" or a single space). */
  function AuthorPart(author: string): (s: string)
    ensures s == [] <==> author == "" || author == " "
    ensures s != [] ==> s == " by " + author
  {
    if author == " " || author == "" then "" else " by " + author
  }

  /** `Display for JsonPalette`: `<name><author part> [<count> Colors]`. */
  function RenderPalette(p: JsonPalette): (s: string)
    ensures |p.name| <= |s| && s[..|p.name|] == p.name
  {
    p.name + AuthorPart(p.author) + " [" + Decimal(|p.colors|) + " Colors]"
  }

  /**
   * The rendering's layout after the name: the author part (empty for a
   * blank author), then " [", then exactly the digits of |colors|, then
   * the closing " Colors]".
   */
  lemma RenderedCount(p: JsonPalette)
    ensures var s := RenderPalette(p);
            var start := |p.name| + |AuthorPart(p.author)| + 2;
            start <= |s| - 8
            && s[|p.name|..start - 2] == AuthorPart(p.author)
            && s[start - 2..start] == " ["
            && s[|s| - 8..] == " Colors]"
            && (forall i | start <= i < |s| - 8 :: IsDigit(s[i]))
            && DecimalValue(s[start..|s| - 8]) == |p.colors|
  {
    var s := RenderPalette(p);
    var start := |p.name| + |AuthorPart(p.author)| + 2;
    assert s[start..|s| - 8] == Decimal(|p.colors|);
    DecimalRoundTrip(|p.colors|);
  }

  /**
   * Two palettes with the same name and author render alike only if they
   * have the same number of colours.
   */
  lemma RenderDistinguishesCounts(p: JsonPalette, q: JsonPalette)
    requires p.name == q.name && p.author == q.author
    requires RenderPalette(p) == RenderPalette(q)
    ensures |p.colors| == |q.colors|
  {
    var start := |p.name| + |AuthorPart(p.author)| + 2;
    var s := RenderPalette(p);
    assert s[start..|s| - 8] == Decimal(|p.colors|);
    assert s[start..|s| - 8] == Decimal(|q.colors|);
    DecimalInjective(|p.colors|, |q.colors|);
  }

  /** The 28 categories in declaration order. */
  function Categories(ps: JsonPalettes): (cs: seq<seq<JsonPalette>>)
    ensures |cs| == 28
  {
    [ps.bit2, ps.bit3, ps.bit4, ps.bit5, ps.bit6, ps.bit7, ps.bit8, ps.bit9,
     ps.bit10, ps.bit11, ps.bit12, ps.bit13, ps.bit14, ps.bit15, ps.bit16,
     ps.bit20, ps.bit24, ps.bit28, ps.bit32, ps.bit36, ps.bit40, ps.bit44,
     ps.bit48, ps.bit52, ps.bit56, ps.bit60, ps.bit64, ps.more]
  }

  /**
   * `JsonPalettes::len`: the sum of the 28 category sizes, which is the
   * number of palettes in all categories laid end to end.
   */
  function Len(ps: JsonPalettes): (n: nat)
    ensures n == |AllPalettes(ps)|
  {
    |ps.bit2| + |ps.bit3| + |ps.bit4| + |ps.bit5| + |ps.bit6| + |ps.bit7|
    + |ps.bit8| + |ps.bit9| + |ps.bit10| + |ps.bit11| + |ps.bit12| + |ps.bit13|
    + |ps.bit14| + |ps.bit15| + |ps.bit16| + |ps.bit20| + |ps.bit24| + |ps.bit28|
    + |ps.bit32| + |ps.bit36| + |ps.bit40| + |ps.bit44| + |ps.bit48| + |ps.bit52|
    + |ps.bit56| + |ps.bit60| + |ps.bit64| + |ps.more|
  }

  /** Every palette of the catalogue, category after category. */
  function AllPalettes(ps: JsonPalettes): seq<JsonPalette>
  {
    ps.bit2 + ps.bit3 + ps.bit4 + ps.bit5 + ps.bit6 + ps.bit7 + ps.bit8 + ps.bit9
    + ps.bit10 + ps.bit11 + ps.bit12 + ps.bit13 + ps.bit14 + ps.bit15 + ps.bit16
    + ps.bit20 + ps.bit24 + ps.bit28 + ps.bit32 + ps.bit36 + ps.bit40 + ps.bit44
    + ps.bit48 + ps.bit52 + ps.bit56 + ps.bit60 + ps.bit64 + ps.more
  }

  /** `len` is at least the size of any one category. */
  lemma LenBoundsEachCategory(ps: JsonPalettes, c: seq<JsonPalette>)
    requires c in Categories(ps)
    ensures |c| <= Len(ps)
  {
  }

  /** `Display for JsonPalettes`: `[<len> Palettes]`. */
  function RenderPalettes(ps: JsonPalettes): (s: string)
    ensures |s| >= 11 && s[0] == '[' && s[|s| - 10..] == " Palettes]"
  {
    "[" + Decimal(Len(ps)) + " Palettes]"
  }

  /** The number shown in the catalogue's rendering is `len`. */
  lemma RenderedPaletteCount(ps: JsonPalettes)
    ensures var s := RenderPalettes(ps);
            (forall i | 1 <= i < |s| - 10 :: IsDigit(s[i]))
            && DecimalValue(s[1..|s| - 10]) == Len(ps)
  {
    var s := RenderPalettes(ps);
    assert s[1..|s| - 10] == Decimal(Len(ps));
    DecimalRoundTrip(Len(ps));
  }
}
