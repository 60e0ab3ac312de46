/**
 * The shape of `calculate_indices`: an image of six reflectance bands
 * gains three derived bands (NDVI, NDBI, MNDWI) after its own. The
 * floating-point ratio itself is a parameter `nd`: nd(a, b) stands for
 * (a - b) / (a + b + 1e-8).
 */
module Features {
  import opened Wrappers
  import opened Shapes

  /** The bands of one pixel. */
  type Pixel = seq<real>
  /** An image: rows of pixels. */
  type Image = seq<seq<Pixel>>

  // Band positions of the input image.
  const Blue: nat := 0
  const Green: nat := 1
  const Red: nat := 2
  const Nir: nat := 3
  const Swir1: nat := 4
  const Swir2: nat := 5

  /** The number of input bands the image is meant to have. */
  const InputBands: nat := 6
  /** The number of bands appended: NDVI, NDBI, MNDWI. */
  const DerivedBands: nat := 3

  /** Every pixel of `img` has exactly `bands` bands (a numpy H x W x bands array). */
  predicate HasBands(img: Image, bands: nat) {
    forall i, j :: 0 <= i < |img| && 0 <= j < |img[i]| ==> |img[i][j]| == bands
  }

  /** One pixel with NDVI, NDBI and MNDWI appended, in that order. */
  function StackPixel(p: Pixel, nd: (real, real) -> real): Pixel
    requires |p| > Swir1
  {
    p + [nd(p[Nir], p[Red]), nd(p[Swir1], p[Nir]), nd(p[Green], p[Swir1])]
  }

  /**
   * The feature stack. The source reads bands 0 to 4 of the image, so an
   * image with fewer bands fails on the first band it lacks.
   */
  function CalculateIndices(img: Image, bands: nat, nd: (real, real) -> real): (r: Result<Image>)
    requires HasBands(img, bands)
    ensures r.Err? <==> bands <= Swir1
    ensures r.Err? ==> r.error == MissingBand(bands)
    ensures r.Ok? ==> SameShape(r.value, img) && HasBands(r.value, bands + DerivedBands)
  {
    if bands <= Swir1 then Err(MissingBand(bands))
    else
      Ok(seq(|img|, i requires 0 <= i < |img| =>
        seq(|img[i]|, j requires 0 <= j < |img[i]| => StackPixel(img[i][j], nd))))
  }

  /** The first `bands` bands of every pixel. */
  function KeepBands(img: Image, bands: nat): (r: Image)
    requires HasBands(img, bands + DerivedBands)
    ensures SameShape(r, img) && HasBands(r, bands)
  {
    seq(|img|, i requires 0 <= i < |img| =>
      seq(|img[i]|, j requires 0 <= j < |img[i]| => img[i][j][..bands]))
  }

  // ---------------------------------------------------------------------
  // Lemmas

  /** Dropping the derived bands gives the input image back: the input bands are kept unchanged. */
  lemma DropDerivedRecoversInput(img: Image, bands: nat, nd: (real, real) -> real)
    requires HasBands(img, bands) && bands > Swir1
    ensures CalculateIndices(img, bands, nd).Ok?
    ensures KeepBands(CalculateIndices(img, bands, nd).value, bands) == img
  {
    var out := CalculateIndices(img, bands, nd).value;
    var back := KeepBands(out, bands);
    forall i | 0 <= i < |img|
      ensures back[i] == img[i]
    {
      forall j | 0 <= j < |img[i]|
        ensures back[i][j] == img[i][j]
      {
        assert out[i][j] == StackPixel(img[i][j], nd);
      }
    }
  }

  /**
   * A six-band image gives nine bands per pixel: the six input bands,
   * then NDVI from (NIR, Red), NDBI from (SWIR1, NIR), MNDWI from (Green, SWIR1).
   */
  lemma SixBandsGiveNine(img: Image, nd: (real, real) -> real, i: nat, j: nat)
    requires HasBands(img, InputBands)
    requires i < |img| && j < |img[i]|
    ensures CalculateIndices(img, InputBands, nd).Ok?
    ensures var p, q := img[i][j], CalculateIndices(img, InputBands, nd).value[i][j];
      && |q| == 9 && q[..InputBands] == p
      && q[6] == nd(p[Nir], p[Red])
      && q[7] == nd(p[Swir1], p[Nir])
      && q[8] == nd(p[Green], p[Swir1])
  {
  }
}
