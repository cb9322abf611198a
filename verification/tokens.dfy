/** The form tokens of a framing request (models.py:323-344) and the
    channel swap of models.py:352-354. */
module Tokens {
  import opened Results

  /** A target aspect ratio, width part first (`ratio[0]`, `ratio[1]`). */
  datatype Ratio = Ratio(w: nat, h: nat)

  /** The only ratios a token can resolve to. */
  const KnownRatios: set<Ratio> := {Ratio(1, 1), Ratio(4, 5), Ratio(3, 2), Ratio(9, 16)}

  /** `parse_ratio`: total; every unknown token resolves to the tall 9:16. */
  function ParseRatio(token: string): (r: Ratio)
    ensures r in KnownRatios && r.w > 0 && r.h > 0
    ensures r == Ratio(1, 1) <==> token == "sq"
    ensures r == Ratio(4, 5) <==> token == "45"
    ensures r == Ratio(3, 2) <==> token == "32"
    ensures r == Ratio(9, 16) <==> token !in {"sq", "45", "32"}
  {
    if token == "sq" then Ratio(1, 1)
    else if token == "45" then Ratio(4, 5)
    else if token == "32" then Ratio(3, 2)
    else Ratio(9, 16)
  }

  /** `parse_resolution`: the short edge to resize to, or None to keep the
      canvas as composed; every unknown token resolves to 1080. */
  function ParseResolution(token: string): (r: Option<nat>)
    ensures r.None? <==> token == "best"
    ensures r == Some(3840) <==> token == "4k"
    ensures r == Some(1080) <==> token != "best" && token != "4k"
  {
    if token == "best" then None
    else if token == "4k" then Some(3840)
    else Some(1080)
  }

  /** An opaque colour, one 8-bit value per channel. */
  newtype Channel = x: int | 0 <= x < 256

  datatype Rgb = Rgb(r: Channel, g: Channel, b: Channel)

  /** `rgb_to_bgr`: reverses the channel order. */
  function RgbToBgr(c: Rgb): (bgr: Rgb)
    ensures bgr.r == c.b && bgr.g == c.g && bgr.b == c.r
  {
    Rgb(c.b, c.g, c.r)
  }

  /** Swapping the channel order twice gives back the colour. */
  lemma RgbToBgrInvolution(c: Rgb)
    ensures RgbToBgr(RgbToBgr(c)) == c
  {
  }
}
