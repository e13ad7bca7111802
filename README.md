# hexbot saved colours, in Dafny

The hexbot page shows a random colour fetched from a colour service, picks
black or white text for it depending on whether the colour is light, and keeps
a list of saved colours. The Save button adds the current background colour to
the list and the Remove button next to an entry takes that colour out. The
list is held by a stored-state hook under the key `"colours"` and starts out
as the stored list, or empty when nothing is stored.

This project models that logic from `src/App.js`:

- `palette.dfy`, module `Palette`: the two list computations as pure functions
  over `seq<string>`.
  - `SaveColour` is the Save handler's `Array.from(new Set([...saved, colour]))`.
    It is built on `Distinct`, the insertion-ordered JavaScript `Set`, which
    adds elements left to right with `Insert`.
  - `RemoveColour` is the Remove handler's `filter(d => d !== c)`.
  - Lemmas state the laws of both. `Distinct` is pinned down by an independent
    description: no duplicates, the same members, in order of first
    occurrence. Other lemmas cover Save's dedup, append-only-if-new and
    idempotence, and Remove's order preservation and no-op on an absent
    colour.
- `contrast.dfy`, module `Contrast`: the text colour choice, `"#000"` on a
  light background and `"#fff"` otherwise. The library's lightness test is
  the function parameter `isLight`.
- `app.dfy`, module `App`: the page state as a class `Page`. Its fields are
  `backgroundColour`, `textColour`, `textShadow` and `savedColours`. Its
  methods are specified by the functions above. `Save` requires the page to
  be shown (a non-empty background colour), because before that the page
  renders nothing and has no Save button.

Save's `Set` round trip also collapses duplicates that the stored list
already held. `SaveAppendsToDistinct` states the general behaviour, and
`SavePresent` and `SaveAbsent` cover duplicate-free lists.

## Model

| member | source | states |
|---|---|---|
| `Palette.Insert` | src/App.js:41 | Adding to an insertion-ordered set gives the old members plus the new colour, and keeps a duplicate-free list duplicate-free |
| `Palette.Distinct` | src/App.js:41 | `Array.from(new Set(s))` has no duplicates, has exactly the members of `s`, and is no longer than `s` |
| `Palette.DistinctInFirstOccurrenceOrder` | src/App.js:41 | The set lists its colours in the order in which each first occurs in the input |
| `Palette.DistinctCharacterised` | src/App.js:41 | A list equals `Distinct(s)` exactly when it is duplicate-free, has the members of `s`, and follows their first-occurrence order |
| `Palette.DistinctOfDuplicateFree` | src/App.js:41 | A list without duplicates comes out of the set round trip unchanged |
| `Palette.SaveColour` | src/App.js:40-42 | After Save the list has no duplicates, even if the old list had some. Its members are exactly the old members plus the saved colour |
| `Palette.SaveAppendsToDistinct` | src/App.js:41 | Save gives the distinct old colours in first-seen order, with the saved colour appended only when it was not already there |
| `Palette.SavePresent` | src/App.js:41 | Saving a colour already in a duplicate-free list gives back the identical list |
| `Palette.SaveAbsent` | src/App.js:41 | Saving a new colour to a duplicate-free list gives the old list with the colour at the end |
| `Palette.SaveIdempotent` | src/App.js:41 | Saving the same colour twice gives the same list as saving it once |
| `Palette.RemoveColour` | src/App.js:44-46 | After Remove(c) no entry equals `c`. Every other colour keeps its number of occurrences, so it is present exactly when it was before |
| `Palette.RemoveKeepsOrder` | src/App.js:45 | The list after Remove is a subsequence of the list before, so the remaining colours keep their relative order |
| `Palette.RemoveAbsent` | src/App.js:45 | Removing a colour that is not in the list leaves the list unchanged |
| `Palette.RemovePreservesNoDuplicates` | src/App.js:45 | Remove keeps a duplicate-free list duplicate-free |
| `Palette.SaveSaveRemove` | src/App.js:40-46 | Starting from the empty list, saving c1 and then a different c2, then removing c1, leaves `[c2]` |
| `Contrast.TextColour` | src/App.js:25 | The text colour is `"#000"` or `"#fff"`: `"#000"` exactly when the background is light and `"#fff"` exactly when it is not |
| `App.Page.constructor` | src/App.js:14-19 | The page starts with empty colour states, so it is not `Shown` and renders nothing (line 48). The saved list is the stored value, or the empty list when nothing is stored |
| `App.Page.ColourArrived` | src/App.js:23-31 | A colour the library rejects (`""` always is) makes the callback throw at line 24, and then no state changes. An accepted colour becomes the background, the text colour follows its lightness and the shadow is its darkened rendering. The saved list is untouched either way. Afterwards the page is `Shown` exactly when it was before or the colour was accepted, so a shown page stays shown (line 48) |
| `App.Page.Save` | src/App.js:40-42 | Callable only when the page is `Shown`, because the render guard on line 48 hides the Save button of line 68 until then. The saved list becomes `SaveColour` of the old list and the background colour. It is duplicate-free and contains that colour. It is unchanged if the colour was present in a duplicate-free list, and extended by it at the end if the colour was absent |
| `App.Page.Remove` | src/App.js:44-46 | The saved list becomes `RemoveColour` of the old list. It no longer holds `c`, keeps the other colours in order, is unchanged when `c` was absent, and stays duplicate-free |

## Left out

- Fetching a random colour from the colour service (`getColour`, src/App.js:6-11) is network I/O. The fetched colour is a parameter of `App.Page.ColourArrived`.
- The effect that re-fetches whenever the button counter changes, the counter itself (`handleButtonClick`) and the asynchronous `.then` callback (src/App.js:21-38) are React scheduling. `ColourArrived` models only what the callback does once a colour has arrived.
- The colour library's `isLight()` and `darken(0.4).string()` (src/App.js:24-26) are floating-point colour math in a foreign library. They are the parameters `isLight` and `darkShadow`, and the shadow string is opaque.
- App.Page.ColourArrived: which strings `Color(c)` parses (src/App.js:24) is left to the parameter `parses`. The only fact the model assumes about it is that the library rejects the empty string. What happens to the rejected promise after the throw is React and browser behaviour, and it is not modelled.
- The stored-state hook's persistence (src/App.js:19) is foreign code. Only the in-memory list is modelled, with the stored value or the empty default passed to the constructor.
- The JSX rendering and CSS (src/App.js:50-100) are presentation. Only the render guard on line 48 is kept, as the precondition of `Save`.
- The stored list is replaced on every Save and Remove (src/App.js:41, 45). The code has no write-failure path, so none is modelled.
- `backgroundHoverColour` (src/App.js:15) is declared but never used by the code.
