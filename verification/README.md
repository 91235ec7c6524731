# Globe search: country and location lookup

This project models the search logic of a three.js globe page. The page has two search boxes. Each one ends with the camera being tweened towards a point on the globe.

- **Country search** runs on every `input` event of the country field. It lower-cases the raw text and does not trim it. It then picks the first feature of the GeoJSON collection whose lower-cased `properties.name` *contains* that text. If there is a hit, it projects the feature's `lat`/`lon` at radius 1.05 and zooms there. If there is no hit, nothing happens.
- **Location search** runs when the search button is clicked. It trims the text and then lower-cases it. A blank result is rejected with a prompt. Otherwise the page shows a "Searching for …" alert and picks the first location whose lower-cased name is *exactly equal* to the key. A hit zooms to the location. A miss shows "Location not found!".
- **zoomToLocation** tweens the camera to the projected point with `z + 2`.

The project has four modules:

- `JsString` (`js_string.dfy`) covers the JavaScript string built-ins used here. `toLowerCase` is modelled as ASCII lower-casing. `trim` uses the full ECMAScript WhiteSpace and LineTerminator set. `includes` is a left-to-right scan, proved equal to "occurs at some index".
- `FirstMatch` (`first_match.dfy`) models `Array.prototype.find`. It returns the index of the first element that satisfies the predicate.
- `Globe` (`globe.dfy`) holds the 3-vectors, the shell radius 1.05, the +2 z standoff and the camera target. The `latLonToXYZ` projection is not defined in the modelled files, so every search takes it as a function parameter (`Projection`) and says nothing about what it computes.
- `Search` (`search.dfy`) holds both handlers. Each one returns an `Outcome`: `Rejected`, `NotFound`, or `Found(target)`, where `target` is the camera position the tween heads for. The alert pop-ups of the location search are returned as a list of `Alert` values, each with its text.

Three behaviours of the code are worth stating up front:

- An empty search term is rejected only by the location search. The country search does not trim its input, and the empty string is contained in every name, so an empty country term zooms to the first feature (`Search.CountryEmptyTermTakesFirst`).
- "Not found" is reported only by the location search. The country handler does nothing when there is no match.
- The fixed `z + 2` offset does not keep the camera outside the globe: for the point of the 1.05 shell furthest along −z, the target lies inside the unit Earth sphere (`Globe.ZoomTargetCanBeInsideEarth`; the Earth radius comes from main.js:18).

## Model

| member | source | states |
|---|---|---|
| `JsString.ToLowerCase` | serach.js:5-7 | Lower-casing keeps the length. Each character is mapped on its own: an ASCII capital moves 32 code points up to its small letter, and every other character is kept. |
| `JsString.LowerCaseEqualIff` | serach.js:5-7 | Two strings lower-case to the same string exactly when, position by position, their characters are equal or one is an ASCII capital and the other its small letter. Both directions are proved. |
| `JsString.Trim` | serach.js:29 | The result has no white space at either end. It is empty exactly when the input is all white space. |
| `JsString.TrimStrips` | serach.js:29 | Trim only removes white space, and only from the two ends: the input is the result with white space added in front and behind. |
| `JsString.TrimRemovesPadding` | serach.js:29 | Trimming any white-space padding around a trimmed string gives that string back. |
| `JsString.TrimIff` | serach.js:29 | Trim is characterised completely: `Trim(s) == x` holds exactly when x is trimmed and s is x with white-space padding. |
| `JsString.TrimIdempotent` | serach.js:29 | Trimming twice is the same as trimming once. |
| `JsString.LowerCaseCommutesWithTrim` | serach.js:29 | Lower-casing and trimming commute, so the order in which the key is built does not matter. |
| `JsString.IncludesIff` | serach.js:7 | The `includes` scan succeeds exactly when the term occurs at some index of the name. Both directions are proved. |
| `JsString.Includes` | serach.js:7 | A string includes only terms no longer than itself. A term of the same length is included exactly when it equals the string. `IncludesIff` relates the scan to "occurs at some index". |
| `JsString.IncludesEmpty` | serach.js:7 | The empty term is included in every string. |
| `FirstMatch.Find` | serach.js:6-8 | A returned index satisfies the predicate and no earlier index does. No index is returned exactly when no element satisfies the predicate. |
| `FirstMatch.FindReturnsTheFirst` | serach.js:38-40 | Whenever some index is the earliest match, `find` returns exactly that index. |
| `Globe.ZoomTarget` | serach.js:21 | The tween's end position is the given point moved by (0, 0, 2): x and y are kept and z grows by 2. |
| `Globe.Aim` | serach.js:12 | The camera target of a hit is its projection at radius 1.05 moved by (0, 0, 2), so it is exactly 2 units from the projected point. |
| `Globe.ZoomTargetDisplacement` | serach.js:21 | The camera target is displaced from the projected point by exactly (0, 0, 2), so its squared distance from the point is 4. Distinct points give distinct targets. |
| `Globe.ZoomTargetCanBeInsideEarth` | serach.js:21 | For the point (0, 0, −1.05) on the projection shell, the camera target lies inside the unit Earth sphere. |
| `Search.SearchCountry` | serach.js:4-15 | The country search is never rejected. It asks for no zoom exactly when no lower-cased name contains the lower-cased term. On a hit, the target is the shell-radius projection, raised by 2 in z, of the earliest matching feature. |
| `Search.CountryFindsEarliest` | serach.js:6-13 | If feature i matches and no earlier feature does, the search zooms to feature i's target. |
| `Search.CountryIgnoresCase` | serach.js:5 | Two terms that differ only in letter case give the same outcome. |
| `Search.CountryIgnoresNameCase` | serach.js:7 | Re-casing the stored feature names does not change any outcome. |
| `Search.CountryEmptyTermTakesFirst` | serach.js:5-7 | With a non-empty collection, the empty term zooms to the first feature. |
| `Search.CountryTermNotTrimmed` | serach.js:5 | "france" finds France, but " france" (with a leading space) finds nothing, because the term is not trimmed. |
| `Search.LocationKey` | serach.js:29-31 | The search key is the lower-cased input with its white-space padding stripped from both ends, and it has no white space at either end. It is empty, so the search is rejected, exactly when the input is all white space. |
| `Search.LocationKeyIff` | serach.js:29 | The key is characterised completely: it equals k exactly when k has no white space at either end and the lower-cased input is k with white-space padding. |
| `Search.SearchLocation` | serach.js:27-51 | The location search is rejected exactly when the input is all white space, and then no lookup happens. Otherwise it reports not found exactly when no lower-cased name equals the trimmed, lower-cased input. On a hit, the target is the shell-radius projection, raised by 2 in z, of the earliest such location. |
| `Search.LocationFindsRecasedName` | serach.js:29-47 | Any re-casing of a searchable stored name, with any white space around it, finds that location, provided no earlier location has the same lower-cased name. |
| `Search.LocationUnsearchableNameUnreachable` | serach.js:29-40 | A stored name that is empty or has white space at either end can never be matched by a non-blank input. |
| `Search.CountryAcceptsPartOfName` | serach.js:6-8 | The country rule accepts "tok" for a feature named Tokyo, because it looks for a substring. |
| `Search.LocationNeedsWholeName` | serach.js:38-40 | The location rule does not find Tokyo from "tok", because it compares whole names. |
| `Search.TokyoScenario` | serach.js:27-47 | Searching " tOKYO " among one Tokyo entry zooms to Tokyo's projection at radius 1.05, with 2 added to z. |
| `Search.LocationAlerts` | serach.js:31-49 | The search shows one or two alerts. The first asks for a name exactly when the input is blank, and otherwise announces the key. A second alert, "Location not found!", appears exactly when the input is not blank and no lower-cased name equals the key. |
| `Search.AlertsMatchOutcome` | serach.js:31-50 | A rejected search only asks for a name. Any other search first announces its key, and adds "Location not found!" exactly when nothing was found. |
| `Search.AlertText` | serach.js:32-49 | Exactly the announcing alert begins with "Searching for ", and what follows that prefix is the key itself. |
| `Search.AlertTextsDistinct` | serach.js:32-49 | The three alert texts never coincide, so each outcome is told apart by what the user sees. |

## Left out

- main.js as a whole is not modelled: scene, camera, textures, renderer, resize handling, orbit controls and the animation loop. It is scene-graph plumbing; only the Earth radius 1 is used, in `Globe.EarthRadius`.
- The body of `latLonToXYZ` is not modelled. It is not defined in the modelled files, so it is a `Projection` parameter.
- The `TWEEN.Tween` animation is not modelled: quadratic-out easing, the 1000 ms duration, and how concurrent tweens interact. The model stops at the tween's end position.
- DOM lookups, event listeners and `alert` calls are not modelled as effects. The input text is a parameter. Zoom requests and alerts are return values.
- The GeoJSON import is a sequence of `Feature` values. Missing `properties.name`, `lat` or `lon` values are not modelled; in JavaScript they would throw or produce NaN.
- The `locations` global is taken as a parameter.
- `JsString.ToLowerCase`: only ASCII letters are mapped. JavaScript uses full Unicode case mapping, which can also change a string's length.
- Strings are sequences of Unicode code points, not of UTF-16 code units as in JavaScript. Ill-formed input such as a lone surrogate cannot be written down in the model, so it is not covered.
- `Globe.ZoomTargetDisplacement`: coordinates are exact reals, so IEEE-754 rounding of `z + 2` and of the projection is not modelled.
