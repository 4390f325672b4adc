# Weather dashboard core in Dafny

This project models the parts of the weather dashboard that hold state or
rewrite text, and proves properties of the model:

- **Selection and autocomplete** (`dashboard.dfy`, `client/src/Dashboard.js`).
  A class `DashboardState` holds the component's five state fields: the city
  catalog, the search term, the suggested cities, the highlighted index and
  the selected cities. It also holds the browser storage slot
  `selectedCities`. Each handler is a method. The weather answer and the
  catalog answer are passed to the handlers as parameters. `toLowerCase` is
  an abstract per-character function `lower`, fixed when the state is built.
  The list computations the handlers use (`filter`, `find`, `findIndex`) are
  pure functions with lemmas about them. The blink `map` that changes one
  entry is a sequence update inside the handlers.
- **Enrichment cache** (`enrichment.dfy`, `server/index.js`). The process-wide
  `NodeCache` is a class over a map from key to (value, expiry instant).
  The expiry instant is always the time of the `set` plus 3600 seconds.
  `generateExpandedDescription` is a method. It takes the current time and
  the generator's answer as parameters.
- **Generator-side cleanup** (`generator_cleanup.dfy`, `app.py`). The string
  steps inside `generate` are a pure function of the raw model output and the
  prompt.
- Shared string operations (`text.dfy`): `split` with one-character
  separators and its inverse `join`, `trim`/`strip`, substring test,
  `replace` of a character and of a substring, and the "first sentence" cut.
  JavaScript's `trim` and Python's `strip` remove different sets of
  characters. Each set is written out as a predicate: `JsSpace` follows
  sections 12.2 and 12.3 of ECMA-262, and `PySpace` follows `str.isspace`.
- `wrappers.dfy` holds the `Option` type. It stands for `null`/`undefined`.

The model follows the code on these points:

- On failure, `generateExpandedDescription` returns `null`, not the raw
  description. The fallback to the raw description sits only in commented-out
  code of the weather route.
- The code trims the first line before it cuts at the first '.'. A space just
  before that '.' therefore stays.
- A selection is appended only after its weather request has succeeded, with
  the weather attached. No entry is ever without weather. There is no
  separate "attach weather" step.
- Selections are identified by `name`, not by the catalog `_id`.
- An empty search term clears the suggestions but leaves the highlighted
  index as it was. So the index can point past the (empty) suggestion list
  until the next non-empty term or arrow key. ArrowUp from -1 stays at -1.
- The whole selection is persisted, `blink` flag included.
- Cache entries are served while `now < expiresAt`, a strict bound. This is a
  choice, because the cache library's own boundary is not part of this model.

## Model

| member | source | states |
|---|---|---|
| `Text.Split` | server/index.js:105-110 | there is at least one field; every field is free of the separator; the first field is the longest separator-free prefix; there is more than one field exactly when the separator occurs; with no separator the only field is the whole text |
| `Text.SplitJoin` | app.py:33 | joining the fields of a split with the separator gives back the input (split loses nothing) |
| `Text.TrimStart` | server/index.js:105 | result is a suffix of the input, everything dropped is whitespace, and the result does not start with whitespace |
| `Text.TrimEnd` | server/index.js:105 | result is a prefix of the input, everything dropped is whitespace, and the result does not end with whitespace |
| `Text.Contains` | client/src/Dashboard.js:47 | `includes`/`in`: a prefix occurs, and a text never contains anything longer than itself |
| `Text.ContainsOccurs` | server/index.js:109 | `Contains` holds exactly when the searched text occurs at some index |
| `Text.Strip` | app.py:25 | the result is an infix of the input and everything outside it is whitespace; neither end of the result is whitespace, so exactly the maximal whitespace prefix and suffix go |
| `Text.StripStripped` | app.py:29 | stripping a text that has no whitespace at either end returns it unchanged |
| `Text.ReplaceChar` | app.py:29 | `replace('\n', ' ')`: same length, the replaced character no longer occurs, nothing but the input's characters and the replacement appear |
| `Text.DeleteChar` | app.py:29 | `replace('\r', '')`: exactly the input's characters other than the deleted one remain, so it no longer occurs |
| `Text.RemoveAll` | app.py:25 | `replace(prompt, '')`: the result is no longer than the input and holds only its characters (the exact result is given by `Text.Pieces`) |
| `Text.Pieces` | app.py:25 | for a non-empty prompt, the text is cut into parts such that joining them with the prompt gives back the text, joining them with nothing gives the result of `replace(prompt, '')`, and no occurrence of the prompt starts inside a part (the cuts are the leftmost ones) |
| `Text.RemoveAllAbsent` | app.py:25 | when the prompt does not occur, nothing is removed |
| `Text.RemoveAllLeading` | app.py:25 | a prompt occurrence at the front is removed and the rest is processed alike |
| `Text.RemoveEchoedPrompt` | app.py:25 | output = prompt + continuation without the prompt gives exactly the continuation |
| `Text.RemoveAllSinglePass` | app.py:25 | removal is one left-to-right pass: "aabb" minus "ab" is "ab", which still contains "ab" |
| `Text.FirstSentence` | app.py:33-34 | without '.', the text is unchanged; with '.', the result is a prefix of the text, its last character is '.' and it has no other '.' |
| `Text.FirstSentenceIdempotent` | server/index.js:109-111 | cutting to the first sentence twice is the same as once |
| `Text.FirstSentenceStripped` | app.py:33-34 | the first sentence of a text without surrounding whitespace has none either |
| `Text.ReplaceCharAbsent` | app.py:29 | replacing a character that does not occur changes nothing |
| `Text.DeleteCharAbsent` | app.py:29 | deleting a character that does not occur changes nothing |
| `GeneratorCleanup.CreativePrompt` | app.py:16 | the prompt is the fixed instruction followed by the description, so it is never empty |
| `GeneratorCleanup.SingleLine` | app.py:29 | after newline-to-space, carriage-return deletion and strip: no '\n', no '\r', no whitespace at either end |
| `GeneratorCleanup.Flatten` | app.py:29-34 | no line break in the result; if the single line has no '.', the result is that stripped line; otherwise it is the prefix of the line that ends at the line's first '.' |
| `GeneratorCleanup.OneLiner` | app.py:25-34 | the full cleanup of the raw output never contains '\n' or '\r' |
| `GeneratorCleanup.FlattenIdempotent` | app.py:29-34 | applying the newline, strip and first-sentence steps to a cleaned result returns it unchanged |
| `GeneratorCleanup.FlattenStripped` | app.py:29-34 | the cleaned result has no whitespace at either end |
| `GeneratorCleanup.SingleLineFixed` | app.py:29 | a stripped text without line breaks is left alone by the single-line step |
| `GeneratorCleanup.OneLinerIdempotent` | app.py:25-34 | cleaning a cleaned result again (the prompt no longer in it) changes nothing |
| `GeneratorCleanup.OneLinerOfEcho` | app.py:16-25 | when the model echoes the prompt and then continues it, the result depends only on the continuation |
| `GeneratorCleanup.SampleOneLiner` | app.py:16-34 | a concrete run: prompt + " Wet. Sun" cleans to "Wet." |
| `Enrichment.FirstLine` | server/index.js:105 | the result is the strip of the text up to its first '\n' (or of the whole text when it has none), so it has no '\n' and no whitespace at either end |
| `Enrichment.CleanGenerated` | server/index.js:105-111 | no '\n'; with no '.' in the trimmed first line, the result is that line; else it is the prefix of that line ending at its first '.' |
| `Enrichment.CleanGeneratedIdempotent` | server/index.js:105-111 | cleaning a one-liner again changes nothing |
| `Enrichment.CleanGeneratedStripped` | server/index.js:105-111 | the one-liner has no whitespace at either end |
| `Enrichment.FirstLineFixed` | server/index.js:105 | a trimmed text without a line break is its own first line |
| `Enrichment.BlankFirstLine` | server/index.js:105-114 | a generated text whose first line is empty cleans to "", which is stored but, being falsy, is never a hit |
| `Enrichment.Lookup` | server/index.js:82-86 | a value is found exactly when its key is stored and the entry has not expired (`now < expiresAt`), and it is the stored value |
| `Enrichment.IsHit` | server/index.js:86 | `if (cachedResponse)`: nothing found and an empty string are misses; any non-empty value is a hit |
| `Enrichment.LookupAfterSet` | server/index.js:114 | after a set at time t, the value is served exactly during [t, t + 3600) and other keys read as before |
| `Enrichment.ExpiredStaysExpired` | server/index.js:82 | once an entry is not served, it is not served at any later time |
| `Enrichment.Cache.constructor` | server/index.js:82 | the cache starts empty |
| `Enrichment.Cache.Get` | server/index.js:85 | a value is found exactly when the key is stored and not expired, and it is the stored value |
| `Enrichment.Cache.Set` | server/index.js:114 | the entry for the key becomes (value, now + 3600); other entries are untouched |
| `Enrichment.Cache.GenerateExpandedDescription` | server/index.js:84-120 | truthy cached value: returned as is, no generator call, cache unchanged; otherwise the generator is called; with generated text, the one-liner is returned and stored under the raw description with expiry now + 3600; on a rejected request or a reply without `generated_text`: `null` and cache unchanged |
| `Enrichment.SameDescriptionTwice` | server/index.js:85-115 | two sequential calls within the TTL: after a call that asked the generator and got a non-empty one-liner, the second returns it without asking; after an empty one-liner, the second asks again |
| `Dashboard.Lowered` | client/src/Dashboard.js:47 | `toLowerCase`: same length, each character mapped by `lower` |
| `Dashboard.Matches` | client/src/Dashboard.js:45-49 | a city is suggested exactly when it is in the catalog and its lowered name contains the lowered term |
| `Dashboard.MatchesAppend` | client/src/Dashboard.js:46-48 | filtering distributes over concatenation, so suggestions keep catalog order |
| `Dashboard.FindExactIndex` | client/src/Dashboard.js:71-73 | -1 exactly when no catalog city's lowered name equals the lowered term; otherwise the first such city |
| `Dashboard.FindIndexByName` | client/src/Dashboard.js:82 | -1 exactly when no entry has that name; otherwise the first entry with that name |
| `Dashboard.RemoveByName` | client/src/Dashboard.js:112-114 | an entry remains exactly when it was selected and has another name |
| `Dashboard.RemoveByNameAppend` | client/src/Dashboard.js:113 | deleting distributes over concatenation, so the rest keep their relative order |
| `Dashboard.RemoveAbsentName` | client/src/Dashboard.js:113 | deleting a name that is not selected changes nothing |
| `Dashboard.AppendKeepsDistinct` | client/src/Dashboard.js:82-102 | appending a city that `findIndex` did not find keeps names pairwise distinct |
| `Dashboard.RemoveKeepsDistinct` | client/src/Dashboard.js:113 | deleting keeps names pairwise distinct |
| `Dashboard.SetBlinkKeepsDistinct` | client/src/Dashboard.js:86-94 | setting or clearing one entry's blink flag keeps names pairwise distinct |
| `Dashboard.MoveDown` | client/src/Dashboard.js:57-60 | ArrowDown adds 1 exactly when index < count - 1, else keeps the index; an index in [-1, count-1] stays there |
| `Dashboard.MoveUp` | client/src/Dashboard.js:61-64 | ArrowUp subtracts 1 exactly when index > 0; -1 stays -1; the index never drops below -1 |
| `Dashboard.ResolveEnter` | client/src/Dashboard.js:65-78 | valid highlight: that suggestion; else a non-empty suggestion list: its first; else a catalog city whose lowered name equals the lowered term, and the first one in catalog order, as `find` returns; none exactly when there is no such city |
| `Dashboard.EqualNameContains` | client/src/Dashboard.js:47-72 | a name equal to the term up to case also contains it |
| `Dashboard.EnterOnCurrentSuggestions` | client/src/Dashboard.js:45-78 | with suggestions freshly filtered for the term, Enter selects nothing exactly when there are no suggestions, and what it selects is a catalog city matching the term |
| `Dashboard.Slot` | client/src/Dashboard.js:32-38 | the slot is removed exactly when the selection is empty |
| `Dashboard.Restored` | client/src/Dashboard.js:20-23 | a stored list is adopted as it is, an empty slot gives no list, and restoring undoes storing |
| `Dashboard.SlotRoundTrip` | client/src/Dashboard.js:20-36 | restoring what was stored gives back the whole list, blink and weather included |
| `Dashboard.DashboardState.constructor` | client/src/Dashboard.js:7-11 | initial state: empty catalog, term, suggestions and selection, highlight -1; the slot holds what an earlier visit left |
| `Dashboard.DashboardState.PersistEffect` | client/src/Dashboard.js:32-38 | the slot holds the selection when it is non-empty and is removed when it is empty; nothing else changes |
| `Dashboard.DashboardState.LoadCatalog` | client/src/Dashboard.js:14-26 | a failed catalog request changes nothing; a successful one sets the catalog and, in the same block, adopts a stored list (and persists it) |
| `Dashboard.DashboardState.MountAsWritten` | client/src/Dashboard.js:13-38 | page load in the code's effect order: the selection ends empty and the slot removed, whatever was saved; a failed catalog request leaves the catalog as it was |
| `Dashboard.DashboardState.Mount` | client/src/Dashboard.js:13-38 | page load with the slot read before the first persist: a saved list comes back when the catalog request succeeds; a failed catalog request leaves the catalog as it was and the selection empty |
| `Dashboard.DashboardState.SearchChange` | client/src/Dashboard.js:41-54 | the term is stored; a non-empty term sets the suggestions to the filter and the highlight to -1 (so it is in range); an empty term clears the suggestions and keeps the highlight; nothing else changes |
| `Dashboard.DashboardState.SelectCity` | client/src/Dashboard.js:81-109 | duplicate name: only that entry's blink becomes true, no request, search untouched; new city with weather: one entry {city, weather, blink false} appended and the search cleared to "", [], -1; failed request: nothing changes; names stay distinct; the slot follows the list |
| `Dashboard.DashboardState.EndBlink` | client/src/Dashboard.js:91-95 | the timer resets the blink flag at that index only; nothing else changes |
| `Dashboard.DashboardState.DeleteCity` | client/src/Dashboard.js:112-114 | the selection becomes the name filter of the old one (a no-op for an absent name), names stay distinct, the slot follows |
| `Dashboard.DashboardState.KeyPress` | client/src/Dashboard.js:56-79 | arrow keys move the highlight as `MoveDown`/`MoveUp` and change nothing else; Enter selects `ResolveEnter`'s city with the effect of `SelectCity`, or changes nothing; the highlight stays in range and names stay distinct |
| `Dashboard.SavedSelectionLostOnLoad` | client/src/Dashboard.js:19-38 | for any saved list, a page load as written ends with an empty selection and no slot |
| `Dashboard.SavedSelectionRestored` | client/src/Dashboard.js:19-38 | with the corrected load order, the saved list is restored and stays stored |

## Findings

| source | as written | input that shows it | evidently intended | confidence | as-written member | corrected member |
|---|---|---|---|---|---|---|
| client/src/Dashboard.js:13-38 | The persistence effect is declared after the catalog effect. On mount both run in the same effect flush. The catalog effect stops at its first `await`. The persistence effect then sees the empty initial selection and removes the slot. `localStorage.getItem` at line 20 runs only after the catalog request settles, and by then it finds nothing. | Any earlier visit that left a non-empty list in `selectedCities`, followed by a page reload. The restored selection is empty and the slot is gone. | The saved selection is restored on load. | not executed; high | `Dashboard.DashboardState.MountAsWritten` (shown by `Dashboard.SavedSelectionLostOnLoad`) | `Dashboard.DashboardState.Mount` (proved by `Dashboard.SavedSelectionRestored`) |

## Left out

- Network I/O is left out: the catalog, weather and generator requests, the
  Express routes, OAuth/session handling, the database and the other proxy
  routes. Each answer is a parameter of the operation that consumes it.
- The language model behind `generate` is left out. Its raw output is the
  parameter `raw`.
- `console.log`, `console.error` and `print` calls are left out; they have no
  effect on state.
- React timing is left out: the one-second blink delay, the asynchronous
  gaps between a request and its answer, and the stale closures over
  `selectedCities` across `await` and the timer. The stale closures can write
  back an outdated list. Each handler runs to completion as one sequential
  step, and the blink reset is its own step (`EndBlink`). Repeated duplicate
  selections start one timer each; the model does not track pending timers.
- Server concurrency is left out. `generateExpandedDescription` reads the
  cache, awaits the generator and then writes the cache. The model makes the
  read and the write at the same instant `now` and runs each call to its end
  before the next one starts. Two overlapping calls for the same
  description, which can both miss and both call the generator, are not
  modelled.
- The model does not serialise the slot (`JSON.stringify`/`JSON.parse`). The
  slot is an optional list, so a malformed stored string, which throws inside
  the catalog `try` block, is not modelled.
- `toLowerCase` is an arbitrary per-character function. Real Unicode case
  mapping can change a string's length, and the model does not capture that.
- The model's strings are sequences of Unicode scalar values. JavaScript
  strings are UTF-16 code units, so strings with surrogate pairs are not
  modelled exactly.
- NodeCache internals are left out: the periodic check, the deletion of an
  expired key when it is read, cloning, and millisecond timestamps. Time is in
  seconds. Deleting expired keys does not change what reads return.
- `generateExpandedDescription` has no live caller. Its only use in the
  weather route is commented out, so the weather route is not tied to the cache.
- The rendering components are left out: `CityCard`, with its °C to °F
  floating-point display, `LandingPage` and `ChatComponent`, along with the
  JSX. Coordinates and temperatures are carried as opaque `real` values.
