/** The page's own state: the fetched background colour with the text colour
    and shadow derived from it, and the saved-colours list that the Save and
    Remove buttons replace. */
module App {
  import opened Palette
  import Contrast

  datatype Option<T> = None | Some(value: T)

  class Page {
    var backgroundColour: Colour
    var textColour: string
    var textShadow: string
    var savedColours: seq<Colour>

    /** The page before any colour has arrived: the colour states are empty
        strings and the saved list is what storage holds under the key
        "colours", or the empty list when nothing is stored. */
    constructor (stored: Option<seq<Colour>>)
      ensures backgroundColour == "" && textColour == "" && textShadow == ""
      ensures savedColours == if stored.Some? then stored.value else []
      ensures !Shown()
    {
      backgroundColour, textColour, textShadow := "", "", "";
      savedColours := if stored.Some? then stored.value else [];
    }

    /** The page renders nothing, and so offers no Save button, until a
        background colour is set. */
    predicate Shown()
      reads this
    {
      backgroundColour != ""
    }

    /** A colour has arrived from the colour service. The colour library
        first parses it; `parses` is that library's verdict, and it rejects
        the empty string. A rejected colour makes the callback throw before
        any state is set, so nothing changes. An accepted colour becomes the
        background, the text colour follows its lightness and the shadow is a
        darkened rendering of it. The saved list is never touched, and a page
        once shown stays shown. */
    method ColourArrived(c: Colour, parses: Colour -> bool, isLight: Colour -> bool,
                         darkShadow: Colour -> string)
      requires !parses("")
      modifies this`backgroundColour, this`textColour, this`textShadow
      ensures !parses(c) ==>
                (backgroundColour == old(backgroundColour) &&
                 textColour == old(textColour) && textShadow == old(textShadow))
      ensures parses(c) ==>
                (backgroundColour == c && textShadow == darkShadow(c) &&
                 textColour == Contrast.TextColour(c, isLight))
      ensures Shown() <==> old(Shown()) || parses(c)
    {
      if parses(c) {
        textColour := Contrast.TextColour(c, isLight);
        textShadow := darkShadow(c);
        backgroundColour := c;
      }
    }

    /** The Save button: the current background colour joins the saved list,
        which afterwards holds each colour once. */
    method Save()
      requires Shown()
      modifies this`savedColours
      ensures savedColours == SaveColour(old(savedColours), backgroundColour)
      ensures NoDuplicates(savedColours) && backgroundColour in savedColours
      ensures forall x :: x in savedColours <==> x in old(savedColours) || x == backgroundColour
      ensures NoDuplicates(old(savedColours)) && backgroundColour in old(savedColours) ==>
        savedColours == old(savedColours)
      ensures NoDuplicates(old(savedColours)) && backgroundColour !in old(savedColours) ==>
        savedColours == old(savedColours) + [backgroundColour]
    {
      var before := savedColours;
      savedColours := SaveColour(savedColours, backgroundColour);
      if NoDuplicates(before) {
        if backgroundColour in before {
          SavePresent(before, backgroundColour);
        } else {
          SaveAbsent(before, backgroundColour);
        }
      }
    }

    /** A Remove button: every saved entry equal to `c` is dropped and the
        others keep their order. */
    method Remove(c: Colour)
      modifies this`savedColours
      ensures savedColours == RemoveColour(old(savedColours), c)
      ensures c !in savedColours && IsSubsequence(savedColours, old(savedColours))
      ensures forall x :: x != c ==> (x in savedColours <==> x in old(savedColours))
      ensures c !in old(savedColours) ==> savedColours == old(savedColours)
      ensures NoDuplicates(old(savedColours)) ==> NoDuplicates(savedColours)
    {
      var before := savedColours;
      savedColours := RemoveColour(savedColours, c);
      RemoveKeepsOrder(before, c);
      if c !in before {
        RemoveAbsent(before, c);
      }
      if NoDuplicates(before) {
        RemovePreservesNoDuplicates(before, c);
      }
    }
  }
}
