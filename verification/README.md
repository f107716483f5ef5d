# ShoreSquad email capture, modelled in Dafny

ShoreSquad is a promotional single-page site for a beach-cleanup group. Apart
from DOM wiring, the only logic in its client script that stands on its own is
the "get updates" email capture:

- `isValidEmail` tests the prompted string against the regular expression
  `^[^\s@]+@[^\s@]+\.[^\s@]+$`;
- `storeEmailSubscription` reads the JSON list under the `shoresquad_emails`
  storage key (a missing key reads as `[]`) and appends the address unless it
  is already there;
- `handleGetUpdates` prompts for an address and stores it if valid. It shows
  an error notice if the input is non-empty but invalid. It does nothing if
  the prompt was cancelled (`null`) or left empty.

The model has four modules:

- `Wrappers` holds `Option`. It stands for `null`: a cancelled prompt or a
  missing storage key.
- `Email` holds the validator. `IsWhitespace` is JavaScript's `\s`: the
  WhiteSpace and LineTerminator code points of ECMAScript. `FirstAtSplit`
  splits the string at its first `@`. The ghost `RegexMatches` is the literal
  reading of the pattern: three `[^\s@]+` runs separated by a literal `@` and
  a literal `.`. The two are proved equal, and `IsValidEmail`'s contract is
  the pattern's meaning.
- `Subscriptions` models the stored list as a `seq<string>`. `Store` is the
  append-if-absent update, and `StoreEmailSubscription` reads an
  `Option<seq<string>>` storage slot.
- `Updates` models the gate as `GetUpdates`. It returns
  `Stored(list) | Invalid | Ignored`. `Step` and `Session` give the storage
  state after one request and after a series of requests.

The prompt, the storage and the notices are not called by the model. The
prompt's result and the current storage contents are passed in as
parameters. The new storage contents, or "unchanged", come back as values.

## Model

| member | source | states |
|---|---|---|
| Email.IsWhitespace | js/app.js:600 | the `\s` of the pattern: no printable ASCII character except the space is whitespace, so letters, digits, `@` and `.` never are |
| Email.IsValidEmail | js/app.js:599-602 | `isValidEmail` holds exactly when the anchored pattern `[^\s@]+@[^\s@]+\.[^\s@]+` matches the string |
| Email.SplitIffRegex | js/app.js:600 | splitting at the first `@` and checking both parts accepts exactly the strings the pattern matches |
| Email.SplitImpliesRegex | js/app.js:600 | every string the first-`@` split accepts splits into three non-empty `[^\s@]` runs around an `@` and a `.` |
| Email.RegexImpliesSplit | js/app.js:600 | any such three-run split, wherever its dot falls in the domain, is accepted by the first-`@` split |
| Email.Characterization | js/app.js:600 | `local + "@" + domain` is accepted iff the local part is non-empty without whitespace or `@` and the domain has no whitespace or `@` and a dot with a character on each side, for every split |
| Email.DotPlacement | js/app.js:600 | for a well-formed local part and an `@`-free, whitespace-free domain, acceptance is equivalent to a dot at a position other than the domain's first and last |
| Email.WhitespaceRejected | js/app.js:600 | a string with a whitespace character anywhere is rejected |
| Email.ExactlyOneAt | js/app.js:600 | every accepted string contains exactly one `@` |
| Email.ShortestAccepted | js/app.js:600 | every accepted string has at least five characters |
| Email.MisplacedDotRejected | js/app.js:600 | `a@b`, `a@.b` and `a@b.` are rejected |
| Email.MinimalAccepted | js/app.js:600 | `a@b.c` is accepted, and so is `a@b..`, whose last run is itself a dot |
| Email.AtPlacementRejected | js/app.js:600 | an empty local part (`@b.c`) and a second `@` (`a@b@c.d`) are rejected |
| Subscriptions.Load | js/app.js:609 | a missing storage key reads as the empty list; a present one reads as the stored list |
| Subscriptions.Store | js/app.js:610-612 | the result contains the address; its members are the old members plus the address; the old list is a prefix of it; a present address leaves the list unchanged; an absent one adds exactly one entry at the end |
| Subscriptions.StoreEmailSubscription | js/app.js:607-612 | with the key missing the stored list becomes `[email]`, the same as storing into `[]`; otherwise it is the append-if-absent update of the stored list |
| Subscriptions.StoreIdempotent | js/app.js:610 | storing an address twice gives the same list as storing it once |
| Subscriptions.StorePreservesNoDuplicates | js/app.js:610-611 | a duplicate-free list stays duplicate-free after a store |
| Subscriptions.DistinctLength | js/app.js:610-611 | a duplicate-free list has as many entries as distinct addresses |
| Subscriptions.StoreCountsSubscribers | js/app.js:610-611 | on a duplicate-free list the stored list's length is the number of distinct subscribers including the new address |
| Updates.Truthy | js/app.js:176 | the `email &&` test: every present, valid address passes it, so it discards only `null` and the empty string |
| Updates.GetUpdates | js/app.js:173-185 | the outcome is Stored iff the input is present and valid, Invalid iff it is present, non-empty and invalid, and Ignored iff it is null or empty; a stored list is exactly the append-if-absent update of the stored list (a missing key read as empty), so it contains the address and keeps the old list as its prefix |
| Updates.EmptyNeverValid | js/app.js:176 | the empty string is never a valid address, so the truthiness test before the validator only filters out `null` |
| Updates.Step | js/app.js:176-184 | storage is unchanged unless the input is a valid address; otherwise it becomes exactly the append-if-absent update of the stored list, whose members are the old members plus that address; the old list is always a prefix of the new one |
| Updates.StepIdempotent | js/app.js:176-181 | repeating the same request leaves storage as one request did |
| Updates.StepPreservesInvariant | js/app.js:176-184 | a duplicate-free list of valid addresses stays so after a request |
| Updates.Session | js/app.js:173-185 | over repeated requests, whatever was stored before stays a prefix of the stored list, and a series with no valid address leaves storage untouched |
| Updates.SessionMembers | js/app.js:173-185 | after any series of requests, from any stored list, the list contains exactly the original addresses plus every valid address entered |
| Updates.SessionInvariant | js/app.js:173-185 | after any series of requests, starting from a duplicate-free list of valid addresses, the list stays duplicate-free and holds only valid addresses |

## Left out

- The browser's storage and the JSON step: `localStorage.getItem`/`setItem`,
  `JSON.parse` and `JSON.stringify`, and the `try`/`catch` around them
  (js/app.js:608-616). Storage is a value passed in and returned. A storage
  exception, or a stored value that does not parse as a list of strings, is
  not modelled.
- The write itself: when the address is already present the source skips
  `setItem`. The model returns the same list, which leaves the stored
  contents the same.
- Notifications, `trackEvent` and console logging in `handleGetUpdates`
  (js/app.js:177-178, 183). They only display or log.
- `prompt` is a parameter. Its result is `Option<string>`, with `None` for a
  cancelled prompt.
- Strings: JavaScript strings are UTF-16 code units, and the model uses
  Dafny `char`s (Unicode scalar values). The regular expression has no `u`
  flag. No character of `\s` is a surrogate, so `[^\s@]` treats each code unit
  as an ordinary character, and the model treats each scalar value the same
  way.
- IsWhitespace: the Unicode space separators are fixed to the current Unicode
  list (U+0020, U+00A0, U+1680, U+2000-U+200A, U+202F, U+205F, U+3000). An
  engine built on an older Unicode version may differ.
- All UI wiring: navigation, buttons, forms, focus trapping, scrolling,
  animations, observers, lazy loading, service worker and install prompts
  (js/app.js:54-594, 640-691). This is browser I/O with no contract beyond
  the DOM.
- `WeatherService.getWeatherForLocation` and `MapService.getNearbyBeaches`
  (js/app.js:697-722). The first returns random numbers and the second a
  constant. There is no station selection, classification or forecast logic
  in this script to model.
