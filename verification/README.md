# touring-ui: place details, view selection state and error cleaning

A Dafny model of the two pieces of pure logic inside the touring-ui Angular
front-end:

- the root component (`AppComponent`), which turns a places-API record into a
  map marker (category label, working-hours line), keeps the set of selected
  place types, snapshots it into the search request, adds markers from a
  search result and keeps at most one info window open;
- `ErrorService.throwError`, which renders an HTTP failure to text, removes the
  first `"Error: "` from it and fails with an `ErrorInfo`.

Modules, one per concern:

| file | module | models |
|---|---|---|
| `wrappers.dfy` | `Wrappers` | `Option` (`undefined`), `Result` (an rxjs stream that emits or errors) |
| `js_strings.dfy` | `JsStrings` | `indexOf`, `split`/`join` with a non-empty separator, `replace` with a string pattern, `padStart`, decimal `toString` |
| `error_service.dfy` | `ErrorService` | `ErrorInfo`, the message cleaning and `throwError` |
| `place.dfy` | `PlaceDto` | `Place`, `OpeningHours`, `Period`, `DayTime` (the fields the component reads) |
| `place_details.dfy` | `PlaceDetails` | weekday remap, `normalizeCategory`, `normalizeWorkingHours`, `generateIMarker` |
| `app_view.dfy` | `AppView` | selection, `filter` request, marker windows, the click rule |

Hidden inputs are parameters: today's weekday (`new Date().getDay()`, 0 =
Sunday) and the `days` name table (the values of the `Day` enum, whose file
is not part of this model). The rendering of the raw HTTP error object to text
and the bundled fixture list are parameters too. Coordinates, radius and
rating are `real` values that are only ever copied.

Behaviour kept exactly as the code has it:

- The weekday remap is not injective: Sunday and Monday both give index 0, and
  index 5 is never produced.
- The "Open soon" line prints the raw 24-hour hour next to an AM/PM suffix
  (`14:00 PM`); only the minute is zero-padded.
- The open-now branch is filter, map, `[0]`: the first description whose label
  before `": "` equals today's name wins, and none gives `undefined`. A
  description with no `": "` at all prints its missing second field as
  `"undefined"`.
- `replace('Error: ', '')` removes the first occurrence wherever it stands, not
  only a leading one, so cleaning is not idempotent.
- A JavaScript `Set` iterates in insertion order and `Array.from` copies that
  order, so the selection is a duplicate-free sequence: toggling a type off and
  on again moves it last.
- `place.types[0]` on a place without types is `undefined`, and calling
  `split` on it raises inside the `forEach`: markers already made stay, the
  rest of the list gets none.

## Model

| member | source | states |
|---|---|---|
| `ErrorService.CleanMessage` | src/app/core/error.service.ts:13 | a message without "Error: " is unchanged; otherwise the result is 7 characters shorter and putting "Error: " back at the first occurrence's position gives the input back |
| `ErrorService.ThrowError` | src/app/core/error.service.ts:10-15 | always a failure (for every value type), carrying an `ErrorInfo` whose message is the cleaned rendering, as characterised for `CleanMessage` |
| `ErrorService.CleanLeadingPrefix` | src/app/core/error.service.ts:13 | a message starting with "Error: " loses exactly that prefix |
| `ErrorService.CleanInnerOccurrence` | src/app/core/error.service.ts:13 | an "Error: " that is not at the start is removed too, when no 'E' precedes it |
| `ErrorService.CleanTimeoutExample` | src/app/core/error.service.ts:13 | "Error: timeout" becomes "timeout" |
| `ErrorService.CleanPlainExample` | src/app/core/error.service.ts:13 | "timeout", which has no "Error: ", stays "timeout" |
| `ErrorService.CleanInnerExample` | src/app/core/error.service.ts:13 | "HTTP Error: 500" becomes "HTTP 500" |
| `ErrorService.CleanNotIdempotent` | src/app/core/error.service.ts:13 | a message starting with "Error: Error: " loses one prefix per cleaning, so cleaning twice differs from cleaning once: cleaning is not idempotent |
| `JsStrings.JoinSplit` | src/app/app.component.ts:150 | splitting on a separator and joining with the same separator gives the input back |
| `JsStrings.SplitJoin` | src/app/app.component.ts:150 | joining parts that lack the separator's first character and splitting again gives the parts back |
| `PlaceDetails.CustomDayOfWeek` | src/app/app.component.ts:154-155 | the index lies in 0..6, is never 5, and is the weekday or one less |
| `PlaceDetails.CustomDayOfWeekImage` | src/app/app.component.ts:154-155 | the indices reached from weekdays 0..6 are exactly 0..6 without 5; Sunday and Monday both reach 0 |
| `PlaceDetails.UnderscoresToSpaces` | src/app/app.component.ts:150 | `split("_").join(" ")` equals replacing every underscore by a space character by character (so the length is kept and no underscore remains) |
| `PlaceDetails.StartCase` | src/app/app.component.ts:150 | splitting the start-cased text on spaces gives back the non-empty input words with upper-cased first letters; every word is non-empty, has no space and does not start lower-case; an underscore absent from the input stays absent; the result is empty exactly when the input is all spaces |
| `PlaceDetails.NormalizeCategory` | src/app/app.component.ts:149-151 | no underscore survives; a non-empty label is start-cased words separated by single spaces; the label is empty exactly when the category holds only underscores and spaces |
| `PlaceDetails.NormalizeSnakeCase` | src/app/app.component.ts:149-151 | for lower-case ASCII snake_case input, the category is each word with an upper-case first letter, joined by single spaces |
| `PlaceDetails.OpenNowHours` | src/app/app.component.ts:159-162 | a line is always "Working hours: " and the second field of some description labelled with today's name; an undefined name gives no line |
| `PlaceDetails.OpenNowHoursFirstMatch` | src/app/app.component.ts:159-162 | filter-map-first yields a line exactly when some description is labelled with today's name, and then the line of the first such description |
| `PlaceDetails.WorkingHoursWhenOpen` | src/app/app.component.ts:157-162 | when open now, the working hours are present iff a description carries today's label from `days`, and come from the first one |
| `PlaceDetails.WorkingHoursFromFirstDescription` | src/app/app.component.ts:158-162 | a first description "<today>: <hours>" gives "Working hours: <hours>", when the name has no ':' and `<hours>` contains no ": " (otherwise `split(": ")[1]` stops at the next ": ") |
| `PlaceDetails.WorkingHoursUndefinedField` | src/app/app.component.ts:160-161 | a first description equal to today's name gives "Working hours: undefined", when the name contains no ": " |
| `PlaceDetails.MinuteText` | src/app/app.component.ts:168 | the padded minute is two digits, or more without a leading zero, and reads back as the minute; below 10 it is '0' then the digit, from 10 on it is the plain decimal |
| `PlaceDetails.MinuteTextParse` | src/app/app.component.ts:168 | every two-digit or unpadded minute field is the padding of the minute it reads as |
| `JsStrings.NatToStringParse` | src/app/app.component.ts:171 | every decimal numeral without a leading zero is the rendering of the number it reads as |
| `PlaceDetails.FormatOpenSoon` | src/app/app.component.ts:167-171 | the line starts "Open soon: " and ends in "AM" exactly when the hour is below 12 |
| `PlaceDetails.ParseFormatOpenSoon` | src/app/app.component.ts:167-171 | reading an "Open soon" line back gives the raw hour (no 12-hour conversion), the minute, and PM exactly when the hour is 12 or more; the reader accepts only an unpadded hour and a minute padded to two digits |
| `PlaceDetails.FormatParseOpenSoon` | src/app/app.component.ts:167-171 | conversely, a line that reads back as an hour, a minute and the matching AM/PM is exactly the line printed for them, so the read-back fixes the text |
| `PlaceDetails.OpenSoonExamples` | src/app/app.component.ts:167-171 | 9:05 prints "Open soon: 9:05 AM"; 14:00 prints "Open soon: 14:00 PM" |
| `PlaceDetails.NormalizeWorkingHours` | src/app/app.component.ts:153-179 | absent hours give nothing; open now gives a "Working hours: " line or nothing; otherwise a line exists iff `periods` reaches the remapped index, and it reads back as that period's opening hour and minute |
| `PlaceDetails.GenerateMarker` | src/app/app.component.ts:132-147 | a marker exists iff the place has a type; it sits at the place's location, carries its display name, rating and rating count, the first type's category and the place's working hours |
| `AppView.Init` | src/app/app.component.ts:21-38 | the initial state keeps the invariant, selects nothing, has no info windows and takes the given default center and radius |
| `AppView.Remove` | src/app/app.component.ts:53 | `Set.delete` keeps exactly the other members, keeps the selection duplicate-free, removes one element when the type is present and changes nothing when it is absent |
| `AppView.RemoveAt` | src/app/app.component.ts:53 | deleting a member of a duplicate-free selection cuts out exactly its position; the members before and after it keep their order |
| `AppView.SelectedIffOddToggles` | src/app/app.component.ts:51-61 | after any run of `toggleType` calls, `isSelected(t)` holds exactly when it held before and `t` was toggled an even number of times, or did not and was toggled an odd number of times |
| `AppView.InitSelectedIffOdd` | src/app/app.component.ts:51-61 | from the initial empty selection, `isSelected(t)` holds exactly when `t` was toggled an odd number of times |
| `AppView.ToggleType` | src/app/app.component.ts:51-61 | toggling flips `isSelected` for that type only, touches nothing else, and keeps the invariant |
| `AppView.ToggleTwice` | src/app/app.component.ts:51-61 | toggling twice restores the selected set; the whole state when the type was absent, and the type moved last when it was present |
| `AppView.FilterRequest` | src/app/app.component.ts:63-69 | `includedTypes` holds exactly the selected types, without duplicates; latitude, longitude and radius come from the current center and radius |
| `AppView.MarkersUntilFailure` | src/app/app.component.ts:112-116 | markers are made in place order, each the place's own marker, and the loop stops exactly at the first place without types |
| `AppView.ShowMarkers` | src/app/app.component.ts:112-130 | earlier windows are untouched; one closed window is added per marker of `MarkersUntilFailure`, holding that marker, in order; selection, current window, center and radius are unchanged; the invariant is kept |
| `AppView.OnSearchResult` | src/app/app.component.ts:71-81 | the places are the response, or the fixture list after a failure; an empty list changes nothing; a non-empty one adds one closed window per marker of `MarkersUntilFailure`, in order, after the existing ones; selection, current window, center and radius are unchanged |
| `AppView.ClickMarker` | src/app/app.component.ts:117-128 | the clicked window opens and becomes current, the previously current one closes, others keep their state; if only the current window could be open before, exactly the clicked one is open after; selection, center and radius are unchanged |
| `AppView.ClicksLeaveOneOpen` | src/app/app.component.ts:117-128 | after any non-empty run of clicks from a valid state, exactly the last clicked window is open |

## Left out

- Angular plumbing: component lifecycle, dependency injection, templates, the
  module file, the info-window sub-component and the view attachment through
  `ComponentFactoryResolver`/`ApplicationRef` (app.component.ts:188-199).
- Google Maps objects: maps, markers and info windows are not modelled; an info
  window is an entry of `windows` with an open flag, and `displayMarker`
  contributes only the marker position. A window the user closes with the
  map's own close button is an SDK event and is not modelled.
- SDK readiness polling with `setTimeout`, geolocation recentering and map
  construction (app.component.ts:84-110), and the script loader service: timers
  and asynchronous I/O.
- The network layer: the HTTP client wrapper, the places service's URL
  concatenation and the request itself. A search result arrives as a `Result`
  parameter of `AppView.OnSearchResult`.
- AppView.OnSearchResult: a `null` response body (guarded by `places &&`) is
  not modelled; a successful response is always a list.
- The raw-error logging (`console.log`) and the text rendering of the error
  object: the rendering is a parameter of `ErrorService.ThrowError`.
- The clock and the `Day` enum: the weekday and the `days` name table are
  parameters; the weekday is required to be in 0..6, the range of `getDay()`.
- AppView.MarkersUntilFailure: `normalizeWorkingHours` reads the clock once per
  place (app.component.ts:154); the model uses one weekday for a whole batch of
  markers, so a batch built across midnight is not modelled.
- PlaceDetails.NormalizeCategory: lodash `startCase` is modelled only as
  splitting on spaces, dropping empty words, upper-casing the first ASCII
  letter and joining with one space. It agrees with lodash on lower-case ASCII
  snake_case, which is all `NormalizeSnakeCase` claims; camelCase splitting,
  digits, punctuation, apostrophes and accents are not modelled.
- JsStrings.Split: only non-empty separators are modelled (the component uses
  `": "` and `"_"`).
- Hours and minutes are whole non-negative numbers; fractional or negative
  JSON numbers are not modelled. The `date` part of a `DayTime` and the
  `close` time of a period are not read by the component and are left out or
  carried unused.
- Configuration constants (API origin, map defaults, zoom limits) and the
  contents of the bundled fixture list, which is a parameter.
- Unused `Place` fields (address, reviews, photos, payment and accessibility
  options, and the rest).
