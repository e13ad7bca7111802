/** The text colour the page picks so that its heading stays legible on the
    fetched background. Whether a colour is light is decided by the colour
    library's floating-point luminance code, which is not part of this model:
    it enters as the uninterpreted predicate `isLight`. */
module Contrast {
  import opened Palette

  const Black: string := "#000"
  const White: string := "#fff"

  /** Black text on a light background, white text otherwise. */
  function TextColour(background: Colour, isLight: Colour -> bool): (t: string)
    ensures t == Black || t == White
    ensures t == Black <==> isLight(background)
    ensures t == White <==> !isLight(background)
  {
    if isLight(background) then Black else White
  }
}
