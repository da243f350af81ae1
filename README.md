# Save system of "Between: Fractured Promises", modelled in Dafny

The game's browser scripts keep the player's narrative variables (trust,
romance, suspicion, the current passage and the unlocked gallery) in one
in-memory record, `SaveSystem.gameState`. They persist that record into
the browser's `localStorage` under the key `between_<slot>`. This project
models that save system and proves what each of its operations does.

- `Save.SaveSystem` is a class with two fields. `gameState` is the record,
  a `map<string, Value>`. `storage` is the durable string-keyed table. The
  methods `Init`, `SaveGame`, `LoadGame` and `SetVariable` follow the
  source's branches.
- `Json` is a concrete text format for records, `{"key":value,...}`, with JSON's integer syntax and string escapes. Its
  `Encode` and `Decode` stand in for `JSON.stringify` and `JSON.parse`. The
  round trip `Decode(Encode(m)) == Some(m)` is proved, not assumed. So is the
  fact that a snapshot cut short by its last character does not decode.
- `KeyOrder` is a lexicographic order on keys. The encoder uses it to write
  a map's entries in a fixed order.
- `Save.Snapshot(storage, slot)` is what loading `slot` would install. The
  lemmas about saving and loading are stated in terms of it.

The browser's storage quota is modelled as a write that may be refused.
`SaveGame` picks nondeterministically whether the store accepts the write.
It reports the outcome only through a ghost out-parameter, because the
source swallows the exception and its callers cannot tell.

In two places the code is looser than a reader might expect, and the model follows the code:

- `setVariable` accepts a key that is present in the *current* record, not
  one of the five default names. After a load, that is whatever keys the
  loaded text had.
- `loadGame` treats a stored empty string like a missing key (`if (stateJson)`).

## Model

| member | source | states |
|---|---|---|
| `Save.LemmaSlotKeyInjective` | Between_FracturedPromises/scripts/save.js:31 | two slots share a key exactly when they are the same slot |
| `Save.SaveSystem.constructor` | Between_FracturedPromises/scripts/save.js:10-17 | a new session holds the default record and the given durable table |
| `Save.FreshStart` | Between_FracturedPromises/scripts/save.js:11-22 | start-up over a table whose autosave does not load (absent, empty or unreadable) leaves exactly trust=50, romance=0, suspicion=10, currentPassage="Start", unlockedGallery=[] and no other variable |
| `Save.SaveSystem.Init` | Between_FracturedPromises/scripts/save.js:19-22 | start-up installs the autosave snapshot when it loads, otherwise keeps the record; the table is unchanged |
| `Save.SaveSystem.SaveGame` | Between_FracturedPromises/scripts/save.js:28-36 | the record is unchanged; an accepted write sets only the slot's key to the record's text; a refused write leaves the table as it was |
| `Save.SaveSystem.LoadGame` | Between_FracturedPromises/scripts/save.js:43-57 | answers true exactly when the slot's snapshot loads and then installs it wholesale; otherwise answers false and changes nothing; never writes the table |
| `Save.SaveSystem.SetVariable` | Between_FracturedPromises/scripts/save.js:64-71 | a key already in the record gets the new value, every other entry and the key set stay; an unknown key changes nothing |
| `Save.LemmaMissingSlot` | Between_FracturedPromises/scripts/save.js:45-52 | a slot whose key is absent or holds the empty text loads nothing |
| `Save.LemmaSaveThenLoad` | Between_FracturedPromises/scripts/save.js:30-50 | right after the record's text is written under a slot, loading that slot gives back exactly that record |
| `Save.LemmaSlotIsolation` | Between_FracturedPromises/scripts/save.js:31-45 | writing one slot does not change what any other slot loads |
| `Save.LemmaTruncatedSlot` | Between_FracturedPromises/scripts/save.js:47-56 | a slot holding a record's text cut short by one character loads nothing, so the load fails and the record stays |
| `Save.LemmaSaveTwice` | Between_FracturedPromises/scripts/save.js:28-36 | writing the same record's text twice leaves the same table as writing it once, and the slot loads that record |
| `Save.SaveTwice` | Between_FracturedPromises/scripts/save.js:28-36 | two saves of a slot in a row: if either write is accepted, the table is the old one with only that slot's key set to the record's text, and the slot loads the record; if both are refused, the table is unchanged; the record never changes |
| `Save.SaveThenLoad` | Between_FracturedPromises/scripts/save.js:28-57 | a save followed by a load of the same slot: an accepted write leaves the old table with only the slot's key set to the record's text, and the load answers true and restores the record; a refused write leaves the table as it was, and the load answers and installs what the old table holds for the slot; a failed load keeps the record |
| `Save.AutosaveScenario` | Between_FracturedPromises/scripts/save.js:10-71 | over a table whose autosave does not load (absent, empty or unreadable): start-up, trust:=75, save autosave, trust:=10, load autosave: a successful load brings trust back to 75, a failed one leaves it at 10, and the load succeeds exactly when the save was accepted |
| `Save.ResumeScenario` | Between_FracturedPromises/scripts/save.js:10-71 | over a table whose autosave loads and has a trust variable: start-up, trust:=75, save autosave, trust:=10, load autosave: the load succeeds, and trust is 75 when the save was accepted and the autosave's own trust when it was refused |
| `Json.LemmaRoundTrip` | Between_FracturedPromises/scripts/save.js:30-47 | decoding the text the encoder writes gives back the same record |
| `Json.Encode` | Between_FracturedPromises/scripts/save.js:30 | the text of a record is a braced object, so it is never empty |
| `Json.Decode` | Between_FracturedPromises/scripts/save.js:47 | the empty text does not decode |
| `Json.LemmaDecodedEndsWithBrace` | Between_FracturedPromises/scripts/save.js:47 | only texts that end with the closing brace decode (a fact about the modelled subset, which has no whitespace) |
| `Json.LemmaCutShortRejected` | Between_FracturedPromises/scripts/save.js:47 | a record's text without its last character fails to decode |
| `Json.LemmaLeadingZeroRejected` | Between_FracturedPromises/scripts/save.js:47 | as in JSON, a zero followed by more digits does not read as a number |
| `Json.LemmaRawControlRejected` | Between_FracturedPromises/scripts/save.js:47 | as in JSON, a control character written raw inside a string does not read |
| `Json.LemmaEscapeNoControl` | Between_FracturedPromises/scripts/save.js:30 | as with `JSON.stringify`, the written form of a string holds no raw control character |

## Left out

- `chat.js` and `ui.js`: DOM queries, element creation, style toggles and `setTimeout` pacing. They hold no state beyond the page.
- The rest of the JSON grammar. `Json` reads and writes objects whose values are integers, strings and arrays of strings. It follows JSON's integer syntax (an optional minus, no leading zeros) and JSON's string escapes (`\"`, `\\`, `\/`, `\b`, `\f`, `\n`, `\r`, `\t` and `\uXXXX`). Texts that `JSON.parse` accepts outside this subset make `Decode` fail: whitespace before, between or after tokens (`{"trust":1}` followed by a newline, say), fractions and exponents, `true`/`false`/`null`, nested objects, arrays of anything but strings, and `\u` escapes of surrogate halves. On such a text `LoadGame` answers false and keeps the record, where the source would install the parsed value. The encoder never writes such a text.
- `SetVariable`: its value is a `Value` (an integer, a string or an array of strings), while `setVariable` (save.js:62-66) takes any JavaScript value. For some values outside `Value` the source's save-then-load does not restore the record. `JSON.stringify` drops a key whose value is `undefined` or a function. It writes `NaN`, `Infinity` and `-Infinity` as `null`. Booleans, fractions and nested objects do survive the source's round trip, but they cannot be expressed here. So `LemmaSaveThenLoad`, `SaveThenLoad`, `SaveTwice`, `AutosaveScenario` and `ResumeScenario` hold only for records over this narrower domain. Values are also copied, not shared. In the source, an array passed to `setVariable` stays shared with the caller, so changing it later changes what `saveGame` writes. In the model, nothing outside the object can change the record.
- Key order in the text. `JSON.stringify` writes keys in property order (integer-like keys first, ascending, then the others in insertion order); the model writes them in increasing lexicographic order, because a Dafny map has no order. Loading is insensitive to the order either way.
- Parse results that are not objects. `JSON.parse("5")` or `JSON.parse("null")` succeeds, and the source then installs a non-record as `gameState`. The model's `Decode` yields only records, and rejects any other text as a parse failure.
- Shape validation of loaded records. The source performs none, and neither does the model: any decoded record replaces `gameState`, whatever its keys.
- The prototype chain of JavaScript's `in` (`"toString" in gameState` is true). The model's membership is the map's own domain.
- Read failures of `localStorage` (its `getItem` throwing). The source's `catch` answers false; the model's table read cannot fail.
- Number representation. JavaScript numbers are doubles; variables hold unbounded integers here.
- `console.log`/`console.warn`/`console.error` diagnostics and the `DOMContentLoaded` wiring at save.js:74. `Init` stands for the start-up call.
- The single global `SaveSystem` object. It is modelled as an object constructed over a given durable table.
