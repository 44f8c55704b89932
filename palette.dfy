/**
 * The palette of src/main.rs: building it from hex strings (`Palette::new`)
 * and the nearest-two search `Palette::find_closest`, which keeps the best
 * and second-best entries in one left-to-right pass.
 *
 * The search is specified declaratively: over the sequence `ds` of the
 * entries' distances to the target, the closest entry is the first one
 * whose distance is the least of the sentinel 101 and all distances, and
 * the alternative is the first entry, other than the closest, whose
 * distance is the least of the sentinel and the other entries' distances.
 * ScanStep proves that the source's update rule computes exactly this.
 */
module PaletteMatch {
  import opened Colors
  import opened HexColors
  import opened OrderedDither

  /** A palette: its colours in L*a*b*, in the order they were given. */
  datatype Palette = Palette(colors: seq<Lab>)

  /** The result of one lookup. */
  datatype ColorMix = ColorMix(closest: Rgb, alternative: Rgb, mix: Mix)

  /** The starting distance of both candidates; above any CIEDE2000 value. */
  const Sentinel: real := 101.0

  /** Which colour string made `Palette::new` panic, and why. */
  datatype ColorError = ColorError(index: nat, cause: HexError)

  /** The colour strings read in order; the first malformed one is the error. */
  function ParseColors(hexes: seq<string>): (r: Result<seq<Rgb>, ColorError>)
    ensures r.Ok? <==> forall i | 0 <= i < |hexes| :: WellFormed(hexes[i])
    ensures r.Ok? ==> |r.value| == |hexes|
                      && forall i | 0 <= i < |hexes| :: ParseColor(hexes[i]) == Ok(r.value[i])
    ensures r.Err? ==> r.error.index < |hexes|
                       && ParseColor(hexes[r.error.index]) == Err(r.error.cause)
                       && forall i | 0 <= i < r.error.index :: WellFormed(hexes[i])
  {
    if hexes == [] then Ok([])
    else
      match ParseColor(hexes[0])
      case Err(e) => Err(ColorError(0, e))
      case Ok(c) =>
        match ParseColors(hexes[1..])
        case Err(e) => Err(ColorError(e.index + 1, e.cause))
        case Ok(cs) => Ok([c] + cs)
  }

  /** `Palette::new`: one L*a*b* colour per string, in input order. */
  function NewPalette(space: ColorSpace, hexes: seq<string>): (r: Result<Palette, ColorError>)
    ensures r.Ok? <==> forall i | 0 <= i < |hexes| :: WellFormed(hexes[i])
    ensures r.Ok? ==> |r.value.colors| == |hexes|
                      && forall i | 0 <= i < |hexes| ::
                           r.value.colors[i] == space.fromRgb(ParseColor(hexes[i]).value)
  {
    match ParseColors(hexes)
    case Err(e) => Err(e)
    case Ok(rgbs) => Ok(Palette(seq(|rgbs|, i requires 0 <= i < |rgbs| => space.fromRgb(rgbs[i]))))
  }

  /** Building a palette from formatted colours gives back those colours, in order. */
  lemma NewPaletteOfHexColors(space: ColorSpace, xs: seq<Rgb>)
    ensures NewPalette(space, seq(|xs|, i requires 0 <= i < |xs| => HexColor(xs[i])))
            == Ok(Palette(seq(|xs|, i requires 0 <= i < |xs| => space.fromRgb(xs[i]))))
  {
    var hexes := seq(|xs|, i requires 0 <= i < |xs| => HexColor(xs[i]));
    forall i | 0 <= i < |xs|
      ensures ParseColor(hexes[i]) == Ok(xs[i])
    {
      ParseHexColor(xs[i], []);
      assert HexColor(xs[i]) + [] == hexes[i];
    }
    var r := NewPalette(space, hexes);
    assert r.value.colors == seq(|xs|, i requires 0 <= i < |xs| => space.fromRgb(xs[i]));
  }

  /** The distance of every palette entry to the target, in palette order. */
  function Deltas(space: ColorSpace, target: Lab, colors: seq<Lab>): (ds: seq<real>)
    ensures |ds| == |colors|
    ensures forall j | 0 <= j < |ds| :: ds[j] == space.delta(target, colors[j]) as real
    ensures forall j | 0 <= j < |ds| :: 0.0 <= ds[j]
  {
    seq(|colors|, j requires 0 <= j < |colors| => space.delta(target, colors[j]) as real)
  }

  /** The least of the sentinel and the distances of all entries except entry `skip`. */
  function Least(ds: seq<real>, skip: int): (v: real)
    ensures v <= Sentinel
    ensures forall j | 0 <= j < |ds| && j != skip :: v <= ds[j]
    ensures v == Sentinel || exists j | 0 <= j < |ds| && j != skip :: ds[j] == v
  {
    if |ds| == 0 then Sentinel
    else
      var rest := Least(ds[..|ds| - 1], skip);
      if |ds| - 1 != skip && ds[|ds| - 1] < rest then ds[|ds| - 1] else rest
  }

  /** The three properties of Least determine it. */
  lemma LeastUnique(ds: seq<real>, skip: int, v: real)
    requires v <= Sentinel
    requires forall j | 0 <= j < |ds| && j != skip :: v <= ds[j]
    requires v == Sentinel || exists j | 0 <= j < |ds| && j != skip :: ds[j] == v
    ensures v == Least(ds, skip)
  {
  }

  /** The first entry other than `skip` at distance v, or |ds| if there is none. */
  function FirstIndexOf(ds: seq<real>, skip: int, v: real): (j: nat)
    ensures j <= |ds|
    ensures j < |ds| ==> j != skip && ds[j] == v
    ensures forall i | 0 <= i < j && i != skip :: ds[i] != v
  {
    if |ds| == 0 then 0
    else if skip != 0 && ds[0] == v then 0
    else 1 + FirstIndexOf(ds[1..], skip - 1, v)
  }

  /** The entry the scan keeps for the least distance among entries other than `skip`. */
  function Pick(ds: seq<real>, skip: int): (j: nat)
    ensures j == 0 || j < |ds|
    ensures Least(ds, skip) < Sentinel ==>
              j < |ds| && j != skip && ds[j] == Least(ds, skip)
              && forall i | 0 <= i < j && i != skip :: ds[i] > ds[j]
    ensures Least(ds, skip) == Sentinel ==> j == 0
  {
    var v := Least(ds, skip);
    if v < Sentinel then FirstIndexOf(ds, skip, v) else 0
  }

  /** The four values `find_closest` holds after scanning some entries. */
  datatype ScanState = ScanState(closest: nat, closestDelta: real, alternative: nat, alternativeDelta: real)

  /**
   * What the scan of the distances `ds` ends with: the first nearest entry
   * and the first nearest of the others, each with its distance, the
   * sentinel standing in for entry 0 when no distance is below it.
   */
  function Scan(ds: seq<real>): (s: ScanState)
    ensures s.closest == 0 || s.closest < |ds|
    ensures s.alternative == 0 || s.alternative < |ds|
    ensures s.closestDelta <= s.alternativeDelta <= Sentinel
    ensures s.closestDelta < Sentinel ==> s.closest < |ds|
    ensures s.alternativeDelta < Sentinel ==> s.alternative < |ds|
    ensures forall j | 0 <= j < |ds| :: s.closestDelta <= ds[j]
    ensures forall j | 0 <= j < |ds| && j != s.closest :: s.alternativeDelta <= ds[j]
    ensures s.closestDelta < Sentinel ==>
              ds[s.closest] == s.closestDelta && forall j | 0 <= j < s.closest :: ds[j] > s.closestDelta
    ensures s.closestDelta == Sentinel ==> s.closest == 0
    ensures s.alternativeDelta < Sentinel ==>
              s.alternative != s.closest && ds[s.alternative] == s.alternativeDelta
              && forall j | 0 <= j < s.alternative && j != s.closest :: ds[j] > s.alternativeDelta
    ensures s.alternativeDelta == Sentinel ==> s.alternative == 0
    ensures (forall j | 0 <= j < |ds| :: 0.0 <= ds[j]) ==> 0.0 <= s.closestDelta
  {
    var c := Pick(ds, -1);
    ScanState(c, Least(ds, -1), Pick(ds, c), Least(ds, c))
  }

  /** Entry 0 is both candidates at the sentinel distance before any entry is scanned. */
  lemma ScanEmpty()
    ensures Scan([]) == ScanState(0, Sentinel, 0, Sentinel)
  {
  }

  /** Skipping an index outside the sequence skips nothing. */
  lemma LeastSkipOutside(ds: seq<real>, skip: int)
    requires skip < 0 || |ds| <= skip
    ensures Least(ds, skip) == Least(ds, -1)
  {
    LeastUnique(ds, -1, Least(ds, skip));
  }

  /** Least over a prefix one entry longer. */
  lemma LeastExtend(ds: seq<real>, i: nat, skip: int)
    requires i < |ds|
    ensures Least(ds[..i + 1], skip)
            == if i != skip && ds[i] < Least(ds[..i], skip) then ds[i] else Least(ds[..i], skip)
  {
    assert ds[..i + 1][..i] == ds[..i];
  }

  /** FirstIndexOf finds the first matching entry. */
  lemma FirstIndexOfIs(ds: seq<real>, skip: int, v: real, a: nat)
    requires a < |ds| && a != skip && ds[a] == v
    requires forall j | 0 <= j < a && j != skip :: ds[j] != v
    ensures FirstIndexOf(ds, skip, v) == a
  {
  }

  /**
   * An entry i that does not beat the least distance kept so far (or is
   * the skipped one) changes neither that distance nor the entry kept for it.
   */
  lemma PickExtend(ds: seq<real>, i: nat, skip: int)
    requires i < |ds|
    requires i == skip || Least(ds[..i], skip) <= ds[i]
    ensures Least(ds[..i + 1], skip) == Least(ds[..i], skip)
    ensures Pick(ds[..i + 1], skip) == Pick(ds[..i], skip)
  {
    var p, q := ds[..i], ds[..i + 1];
    LeastExtend(ds, i, skip);
    var v := Least(p, skip);
    if v < Sentinel {
      var a := Pick(p, skip);
      assert q[a] == p[a];
      assert forall j | 0 <= j < a && j != skip :: q[j] == p[j] && p[j] > v;
      FirstIndexOfIs(q, skip, v, a);
    }
  }

  /** A strictly nearer entry i becomes the closest and demotes the old closest to alternative. */
  lemma ScanStepNearer(ds: seq<real>, i: nat)
    requires i < |ds| && ds[i] < Scan(ds[..i]).closestDelta
    ensures var s := Scan(ds[..i]);
            Scan(ds[..i + 1]) == ScanState(i, ds[i], s.closest, s.closestDelta)
  {
    var p, q := ds[..i], ds[..i + 1];
    var s := Scan(p);
    LeastExtend(ds, i, -1);
    assert Least(q, -1) == ds[i];
    assert forall j | 0 <= j < i :: q[j] == p[j] && p[j] > ds[i];
    FirstIndexOfIs(q, -1, ds[i], i);
    assert Pick(q, -1) == i;
    PickExtend(ds, i, i);
    LeastSkipOutside(p, i);
    if s.closestDelta < Sentinel {
      FirstIndexOfIs(p, i, s.closestDelta, s.closest);
      FirstIndexOfIs(p, -1, s.closestDelta, s.closest);
    }
    assert Pick(p, i) == Pick(p, -1);
  }

  /** Otherwise an entry i strictly nearer than the alternative becomes the alternative. */
  lemma ScanStepNearerAlternative(ds: seq<real>, i: nat)
    requires i < |ds| && Scan(ds[..i]).closestDelta <= ds[i] < Scan(ds[..i]).alternativeDelta
    ensures var s := Scan(ds[..i]);
            Scan(ds[..i + 1]) == ScanState(s.closest, s.closestDelta, i, ds[i])
  {
    var p, q := ds[..i], ds[..i + 1];
    var s := Scan(p);
    PickExtend(ds, i, -1);
    LeastExtend(ds, i, s.closest);
    assert s.closest != i;
    assert Least(q, s.closest) == ds[i];
    assert forall j | 0 <= j < i && j != s.closest :: q[j] == p[j] && p[j] > ds[i];
    FirstIndexOfIs(q, s.closest, ds[i], i);
  }

  /** An entry i no nearer than the alternative changes nothing. */
  lemma ScanStepFarther(ds: seq<real>, i: nat)
    requires i < |ds| && Scan(ds[..i]).alternativeDelta <= ds[i]
    ensures Scan(ds[..i + 1]) == Scan(ds[..i])
  {
    var s := Scan(ds[..i]);
    PickExtend(ds, i, -1);
    PickExtend(ds, i, s.closest);
  }

  /**
   * The update rule of `find_closest` (a strictly nearer entry becomes the
   * closest and demotes the old closest to alternative; else a strictly
   * nearer-than-alternative entry becomes the alternative; else nothing
   * changes) turns the scan of the first i entries into the scan of the
   * first i + 1.
   */
  lemma {:induction false} ScanStep(ds: seq<real>, i: nat)
    requires i < |ds|
    ensures var s := Scan(ds[..i]);
            var d := ds[i];
            Scan(ds[..i + 1])
            == if d < s.closestDelta then ScanState(i, d, s.closest, s.closestDelta)
               else if d < s.alternativeDelta then ScanState(s.closest, s.closestDelta, i, d)
               else s
  {
    var s := Scan(ds[..i]);
    if ds[i] < s.closestDelta {
      ScanStepNearer(ds, i);
    } else if ds[i] < s.alternativeDelta {
      ScanStepNearerAlternative(ds, i);
    } else {
      ScanStepFarther(ds, i);
    }
  }

  /** `closest_delta / alternative_delta` in f32: 0/0 is NaN. */
  function MixOf(closestDelta: real, alternativeDelta: real): (m: Mix)
    requires 0.0 <= closestDelta <= alternativeDelta
    ensures m.NaN? <==> alternativeDelta == 0.0
    ensures m.Finite? ==> 0.0 <= m.value <= 1.0 && m.value * alternativeDelta == closestDelta
  {
    if alternativeDelta == 0.0 then NaN else Finite(closestDelta / alternativeDelta)
  }

  /** The result `find_closest` computes for a target colour (alpha plays no part). */
  function ClosestMix(palette: Palette, space: ColorSpace, px: Rgb): (cm: ColorMix)
    requires |palette.colors| > 0
    ensures exists j | 0 <= j < |palette.colors| :: cm.closest == space.toRgb(palette.colors[j])
    ensures exists j | 0 <= j < |palette.colors| :: cm.alternative == space.toRgb(palette.colors[j])
    ensures cm.mix.Finite? ==> 0.0 <= cm.mix.value <= 1.0
  {
    var ds := Deltas(space, space.fromRgb(px), palette.colors);
    var s := Scan(ds);
    ColorMix(space.toRgb(palette.colors[s.closest]), space.toRgb(palette.colors[s.alternative]),
             MixOf(s.closestDelta, s.alternativeDelta))
  }

  /**
   * `Palette::find_closest`: one pass over the palette keeping the nearest
   * and second-nearest entries. Indexing `colors[0]` panics on an empty
   * palette, hence the precondition.
   */
  method FindClosest(palette: Palette, space: ColorSpace, r: byte, g: byte, b: byte, a: byte)
    returns (cm: ColorMix)
    requires |palette.colors| > 0
    ensures cm == ClosestMix(palette, space, Rgb(r, g, b))
  {
    var target := space.fromRgb(Rgb(r, g, b));
    var closestColor, closestDelta := palette.colors[0], Sentinel;
    var alternativeColor, alternativeDelta := palette.colors[0], Sentinel;
    ghost var ds := Deltas(space, target, palette.colors);
    ghost var s := ScanState(0, Sentinel, 0, Sentinel);
    ScanEmpty();
    assert ds[..0] == [];
    for i := 0 to |palette.colors|
      invariant s == Scan(ds[..i])
      invariant s.closest < |palette.colors| && s.alternative < |palette.colors|
      invariant closestDelta == s.closestDelta && alternativeDelta == s.alternativeDelta
      invariant closestColor == palette.colors[s.closest] && alternativeColor == palette.colors[s.alternative]
    {
      var paletteColor := palette.colors[i];
      var delta := space.delta(target, paletteColor) as real;
      ScanStep(ds, i);
      if delta < closestDelta {
        alternativeColor, alternativeDelta := closestColor, closestDelta;
        closestColor, closestDelta := paletteColor, delta;
        s := ScanState(i, delta, s.closest, s.closestDelta);
      } else if delta < alternativeDelta {
        alternativeColor, alternativeDelta := paletteColor, delta;
        s := ScanState(s.closest, s.closestDelta, i, delta);
      }
    }
    assert ds[..|palette.colors|] == ds;
    cm := ColorMix(space.toRgb(closestColor), space.toRgb(alternativeColor),
                   MixOf(closestDelta, alternativeDelta));
  }

  /**
   * A one-colour palette returns that colour as both candidates; the
   * alternative keeps the sentinel distance, so the mix is d / 101 (capped
   * at 1), not 1.
   */
  lemma SingleEntry(space: ColorSpace, lab: Lab, px: Rgb)
    ensures var d := space.delta(space.fromRgb(px), lab) as real;
            ClosestMix(Palette([lab]), space, px)
            == ColorMix(space.toRgb(lab), space.toRgb(lab),
                        Finite(if d < Sentinel then d / Sentinel else 1.0))
  {
    var ds := Deltas(space, space.fromRgb(px), [lab]);
    assert ds[..0] == [] && ds[..1] == ds;
    ScanEmpty();
    ScanStep(ds, 0);
  }

  /**
   * The mix is NaN exactly when two different palette entries both match
   * the target exactly (distance 0).
   */
  lemma MixNaNIffTwoExactMatches(palette: Palette, space: ColorSpace, px: Rgb)
    requires |palette.colors| > 0
    ensures var ds := Deltas(space, space.fromRgb(px), palette.colors);
            ClosestMix(palette, space, px).mix.NaN?
            <==> exists j, k | 0 <= j < k < |ds| :: ds[j] == 0.0 && ds[k] == 0.0
  {
    var ds := Deltas(space, space.fromRgb(px), palette.colors);
    var s := Scan(ds);
    if s.alternativeDelta == 0.0 {
      assert s.closest < s.alternative && ds[s.closest] == 0.0 && ds[s.alternative] == 0.0;
    }
    if exists j, k | 0 <= j < k < |ds| :: ds[j] == 0.0 && ds[k] == 0.0 {
      var j, k :| 0 <= j < k < |ds| && ds[j] == 0.0 && ds[k] == 0.0;
      var other := if j != s.closest then j else k;
      assert s.alternativeDelta <= ds[other];
    }
  }

  /**
   * The closest candidate is at least as near as every palette entry that
   * is nearer than the sentinel.
   */
  lemma ClosestIsNearest(palette: Palette, space: ColorSpace, px: Rgb, j: nat)
    requires j < |palette.colors|
    ensures var target := space.fromRgb(px);
            var s := Scan(Deltas(space, target, palette.colors));
            space.delta(target, palette.colors[j]) < Sentinel ==>
              space.delta(target, palette.colors[s.closest]) <= space.delta(target, palette.colors[j])
  {
  }
}
