# Snippet manager: a verified model of its core

The snippet manager is a single-user web app that keeps titled code snippets (title,
optional description, code) and supports create, read, update and delete. This project
models four parts of it in Dafny and proves what each of them promises:

- **The persistence gateway's local backend** (`DataService`). It works over one stored
  array of records. `list` heals a missing, unparsable or non-array value to an empty list
  and otherwise returns the records newest first. `create` puts a new record in front.
  `update` rewrites the first record with the id, or fails with "Not found" and writes
  nothing. `delete` filters the id out and always succeeds. The storage slot is a field of
  the `LocalStore` class, and each operation is a method. `List` reads the slot and writes
  nothing. Each changing operation reads the slot whole and writes it back whole, except an
  `update` that fails with "Not found", which writes nothing. The same module holds the `uuid` template and the choice between the local
  and the remote backend.
- **The app's working state** (`App`). The state is the items on screen, the id being
  edited and the notification. The `AppState` class has one method per handler:
  initial load, save, edit, cancel and delete.
- **The add/edit form** (`SnippetForm`). This covers where the fields start, when the
  form is valid, the error map, the payload it submits and when it clears itself.
- **`timeAgo`** (`SnippetCard`). This is integer rounding from milliseconds to seconds,
  minutes, hours and days.

`Text` models `String.prototype.trim`, the truthiness of an optional string (`x || ''`)
and the decimal rendering of integers. `Snippet` holds the record type and the id-based
filter and search that the store and the app share. `Wrappers` holds `Option` and `Result`.

Modelling decisions:

- Clock readings (`Date.now()`) are parameters named `now`.
- The random nibbles `uuid` draws are a parameter `draws`, one per placeholder of the
  template.
- `window.confirm` is a boolean input of `HandleDelete`.
- What a service call or `onSubmit` resolved to is an input of the handler that made the
  call. The call the handler makes is one of its outputs.
- The stored value is the datatype `Slot` = `Missing | Corrupt | NotArray | Items(records)`.
  This stands for what `getItem` and `JSON.parse` yield; the JSON grammar is not modelled.
- `Array.prototype.sort` is stable (ECMAScript 2019 onward). It is modelled by
  `SortByRecency`, an insertion sort. `StableOrderUnique` proves that "newest first, with
  records of equal timestamp in stored order" has only one result. So any correct stable
  sort agrees with the model.
- A record's `extra` map stands for any further fields that a stored object carries. The
  object spread in `update` keeps them.
- Two operations treat duplicate ids differently. If two records ever share an id, the
  local `update` rewrites only the first of them in storage (`findIndex`). `handleSubmit`
  in the app rewrites every item on screen with that id (`map`). Both are modelled as
  written: `UpdateChangesOnlyFirstMatch` and `ReplaceById` state them.
- `Listed` returns the records newest first, but storage itself need not stay in that
  order. `delete` always leaves it newest first (`DeleteRemovesId`). `create` does so
  exactly when `now` is at least every listed `updatedAt` (`CreateKeepsNewestFirst`).
  A successful `update` at index `i` rewrites that position in place. It leaves storage
  newest first exactly when `list[i-1].updatedAt >= now >= list[i+1].updatedAt`, for the
  neighbours that exist (`UpdateKeepsNewestFirst`). The clock is an input, so neither
  condition is assumed.

## Model

| member | source | states |
|---|---|---|
| DataService.Listed | react_web_app/src/services/dataService.js:14-24 | a missing, unparsable or non-array value lists as `[]` and no case fails; an array lists newest first, as a permutation of the stored records, with records of equal `updatedAt` in stored order |
| DataService.SortByRecencyCorrect | react_web_app/src/services/dataService.js:20 | the sort is newest first, a permutation, and stable for every timestamp |
| DataService.InsertSorted | react_web_app/src/services/dataService.js:20 | each insertion step of the sort keeps a newest-first sequence newest first |
| DataService.InsertKeepsTies | react_web_app/src/services/dataService.js:20 | an inserted record goes before every record with the same timestamp, which gives stability |
| DataService.StableOrderUnique | react_web_app/src/services/dataService.js:20 | two newest-first sequences that agree on the order of each timestamp's records are equal |
| DataService.SortByRecencyCharacterised | react_web_app/src/services/dataService.js:20 | any newest-first sequence that keeps each timestamp's records in input order is the sort's result |
| DataService.SortByRecency | react_web_app/src/services/dataService.js:20 | the comparator sort `b.updatedAt - a.updatedAt`; `SortByRecencyCorrect` proves it newest first, a permutation and stable, and `SortByRecencyCharacterised` proves it is the only such order |
| DataService.SortSortedUnchanged | react_web_app/src/services/dataService.js:20 | sorting an already newest-first list changes nothing |
| DataService.SubsequenceSorted | react_web_app/src/services/dataService.js:62 | leaving records out of a newest-first list keeps it newest first, and adds no record |
| DataService.NewRecord | react_web_app/src/services/dataService.js:30-37 | a created record takes its title and code verbatim and its description as given or `''`; `createdAt == updatedAt == now`; it has no other fields |
| DataService.Revised | react_web_app/src/services/dataService.js:48-54 | an updated record keeps id, `createdAt` and further fields; it takes title, code and defaulted description from the payload and `updatedAt = now` |
| DataService.AfterCreate | react_web_app/src/services/dataService.js:38-40 | the slot `create` writes: the new record in front of the listed records (`CreateAddsOne`); `LocalStore.Create` is proved to write it |
| DataService.AfterUpdate | react_web_app/src/services/dataService.js:44-57 | the reply and slot `update` leaves: "Not found" with the slot untouched when no record has the id (`UpdateNotFound`), else the first match revised in place (`UpdateChangesOnlyFirstMatch`); `LocalStore.Update` is proved to return and write it |
| DataService.AfterDelete | react_web_app/src/services/dataService.js:61-63 | the slot `delete` writes: the listed records without the id (`DeleteRemovesId`, `DeleteIdempotent`); `LocalStore.Delete` is proved to write it |
| DataService.CreateAddsOne | react_web_app/src/services/dataService.js:38-40 | after a create the list holds the earlier records plus the new one, one more than before |
| DataService.UpdateNotFound | react_web_app/src/services/dataService.js:44-46 | update fails with "Not found" exactly when no listed record has the id, and then leaves the slot as it was |
| DataService.UpdateChangesOnlyFirstMatch | react_web_app/src/services/dataService.js:44-58 | a successful update rewrites only the first listed record with the id; the length and every other position are unchanged |
| DataService.CreateKeepsNewestFirst | react_web_app/src/services/dataService.js:39-40 | the stored array is newest first exactly when the new record is at least as recent as every listed record |
| DataService.ReplaceKeepsNewestFirst | react_web_app/src/services/dataService.js:55-56 | writing one position of a newest-first array keeps it newest first exactly when the new record fits between that position's neighbours |
| DataService.UpdateKeepsNewestFirst | react_web_app/src/services/dataService.js:53-57 | after a successful update the stored array is newest first exactly when `now` lies between the timestamps of the first match's neighbours |
| DataService.DeleteRemovesId | react_web_app/src/services/dataService.js:60-65 | after a delete no record has the id; the others remain in listed order, newest first, and list back unchanged |
| DataService.DeleteIdempotent | react_web_app/src/services/dataService.js:60-65 | deleting the same id twice leaves storage as the first delete left it |
| DataService.LocalStore.constructor | react_web_app/src/services/dataService.js:13-15 | the store starts with whatever value the key already holds |
| DataService.LocalStore.List | react_web_app/src/services/dataService.js:14-24 | `list()` returns the listed records of the slot and writes nothing |
| DataService.LocalStore.Save | react_web_app/src/services/dataService.js:25-27 | `_save` overwrites the slot with the array it is given |
| DataService.LocalStore.Create | react_web_app/src/services/dataService.js:28-42 | returns the new record, whose id has the version-4 layout; stores it in front of the listed records |
| DataService.LocalStore.Update | react_web_app/src/services/dataService.js:43-59 | returns the reply and writes the slot that `AfterUpdate` gives; "Not found" writes nothing |
| DataService.LocalStore.Delete | react_web_app/src/services/dataService.js:60-65 | always answers true; stores the listed records without the id |
| DataService.Replacement | react_web_app/src/services/dataService.js:6-8 | the replace callback: an `x` becomes the draw's hex digit, a `y` the digit of `(r & 3) + 8`, one of `8 9 a b`; `Fill` and `UuidIsVersion4` state the resulting digits |
| DataService.Fill | react_web_app/src/services/dataService.js:5-9 | keeps the template's length; each `x` becomes a lower-case hex digit, each `y` one of `8 9 a b`, and every other character stays |
| DataService.FillDraws | react_web_app/src/services/dataService.js:5-9 | every string that fits the template is what `Fill` makes of some draws |
| DataService.Uuid | react_web_app/src/services/dataService.js:3-10 | `uuid()` takes one draw per placeholder of the template; `UuidIsVersion4` and `UuidCoversVersion4` prove its outputs are exactly the version-4 strings |
| DataService.UuidIsVersion4 | react_web_app/src/services/dataService.js:3-10 | 36 characters, `-` at 8, 13, 18 and 23, `4` at 14, one of `8 9 a b` at 19, lower-case hex elsewhere |
| DataService.UuidCoversVersion4 | react_web_app/src/services/dataService.js:3-10 | every string with that layout is the output of some draws |
| DataService.FitsTemplateIffVersion4 | react_web_app/src/services/dataService.js:5 | the strings that fit the template are exactly those with that layout |
| DataService.ApiBase | react_web_app/src/services/dataService.js:69-71 | the chosen base address neither begins nor ends with white space |
| DataService.CreateDataService | react_web_app/src/services/dataService.js:105-114 | the API backend is chosen exactly when the base address is non-empty, and it uses that address |
| DataService.BackendChoice | react_web_app/src/services/dataService.js:69-71 | the API backend is chosen exactly when one setting holds a visible character; a visible primary setting wins over the fallback |
| Snippet.RemoveId | react_web_app/src/services/dataService.js:62 | keeps exactly the records with another id, in order, and is the identity when no record has the id |
| Snippet.RemoveIdIdempotent | react_web_app/src/App.js:92 | filtering an id out twice is filtering it out once |
| Snippet.FindIndex | react_web_app/src/services/dataService.js:45 | the first position with the id, or none exactly when no record has it |
| Snippet.CountId | react_web_app/src/services/dataService.js:62 | the number of records with the id, zero exactly when none has it |
| App.ReplaceById | react_web_app/src/App.js:69 | every item with the id becomes the returned record; length and all other positions are unchanged |
| App.FindById | react_web_app/src/App.js:100 | the first item with the edited id, or none when nothing is edited or no item has it |
| App.FindByIdAfterRemove | react_web_app/src/App.js:92-93 | deleting one id does not change which item another edited id finds |
| App.PrependOtherId | react_web_app/src/App.js:74 | prepending a record with another id does not change the edited item |
| App.AppState.EditingItem | react_web_app/src/App.js:100 | present iff an id is edited and some item has it, and then that item, with the edited id |
| App.AppState.constructor | react_web_app/src/App.js:26-34 | no items, nothing edited, notification closed |
| App.AppState.Load | react_web_app/src/App.js:44-57 | a listed result replaces the items; a failure keeps them (empty at start) and notifies |
| App.AppState.HandleSubmit | react_web_app/src/App.js:65-82 | update when an id is edited, else create; success prepends or replaces and leaves edit mode after an update, answering true; failure changes nothing but the notification and answers false |
| App.AppState.HandleEdit | react_web_app/src/App.js:84-86 | the edited id becomes the given one; nothing else changes |
| App.AppState.CancelEdit | react_web_app/src/App.js:122 | edit mode ends; nothing else changes |
| App.AppState.HandleDelete | react_web_app/src/App.js:88-98 | without confirmation nothing changes; on success the items lose the id and edit mode ends only if that id was edited; on failure only the notification changes |
| App.AppState.OpenToast | react_web_app/src/App.js:60-62 | the notification opens with the given type and message |
| App.AppState.CloseToast | react_web_app/src/App.js:63 | the notification returns to its closed state |
| SnippetForm.IsEdit | react_web_app/src/components/SnippetForm.js:7 | edit mode iff initial values are given with a non-empty id; `EditStartsFromRecord` states it for a record |
| SnippetForm.StartValue | react_web_app/src/components/SnippetForm.js:8-10 | each field starts at its initial value, or `''` when that is absent or empty |
| SnippetForm.EditStartsFromRecord | react_web_app/src/App.js:120 | editing a record starts the fields at its values, and edit mode holds iff its id is non-empty |
| SnippetForm.Valid | react_web_app/src/components/SnippetForm.js:20 | title and code both non-empty after trimming; `ValidIffVisible` states it as both holding a non-white-space character |
| SnippetForm.ValidIffVisible | react_web_app/src/components/SnippetForm.js:20 | valid iff title and code each hold a non-white-space character; the description plays no part |
| SnippetForm.Validation | react_web_app/src/components/SnippetForm.js:22-28 | the error map has only the keys `title` and `code`, each present iff that field trims to empty, with its message |
| SnippetForm.ValidationAgreesWithValid | react_web_app/src/components/SnippetForm.js:20-28 | `validate()` answers true iff the form is `valid` |
| SnippetForm.Submitted | react_web_app/src/components/SnippetForm.js:34 | the payload: title and description trimmed, code as typed; `SubmittedFromValidForm` states what it carries for a valid form |
| SnippetForm.SubmittedFromValidForm | react_web_app/src/components/SnippetForm.js:34 | a valid form submits a non-empty, trimmed title, a trimmed description and the code verbatim |
| SnippetForm.Form.constructor | react_web_app/src/components/SnippetForm.js:7-12 | fields from the initial values, no errors, not submitting |
| SnippetForm.Form.Receive | react_web_app/src/components/SnippetForm.js:14-18 | new initial values reload the three fields |
| SnippetForm.Form.Change | react_web_app/src/components/SnippetForm.js:52-76 | an input's change sets that field alone |
| SnippetForm.Form.CanSubmit | react_web_app/src/components/SnippetForm.js:87 | the submit button is enabled iff the form is `Valid` and not submitting |
| SnippetForm.Form.Validate | react_web_app/src/components/SnippetForm.js:22-28 | shows the error map and answers whether the form is valid |
| SnippetForm.Form.HandleSubmit | react_web_app/src/components/SnippetForm.js:30-41 | an invalid form submits nothing and keeps its fields; a valid one submits the trimmed payload, ends not submitting, and clears iff `onSubmit` answered true outside edit mode |
| SnippetCard.RoundDiv | react_web_app/src/components/SnippetCard.js:45 | `Math.round(a/b)` is the nearest integer to a/b, halves rounded up |
| SnippetCard.AgeOf | react_web_app/src/components/SnippetCard.js:44-52 | the count and unit of the rounding chain; `UnitThresholds`, `CountRanges`, `DaysUnbounded` and `FutureIsSeconds` state which unit and which counts arise |
| SnippetCard.TimeAgo | react_web_app/src/components/SnippetCard.js:43-53 | the count rendered in decimal followed by the unit's suffix; `TimeAgoSuffix` and `TimeAgoDeterminesAge` prove the text determines the count and unit |
| SnippetCard.UnitThresholds | react_web_app/src/components/SnippetCard.js:43-53 | seconds iff elapsed < 59 500 ms, minutes iff < 3 569 500, hours iff < 84 569 500, days otherwise |
| SnippetCard.CountRanges | react_web_app/src/components/SnippetCard.js:46-52 | seconds < 60, minutes 1 to 59, hours 1 to 23, days at least 1; no cap is applied |
| SnippetCard.DaysUnbounded | react_web_app/src/components/SnippetCard.js:51-52 | every day count n >= 1 is shown, for an age of exactly n days |
| SnippetCard.TimeAgoSuffix | react_web_app/src/components/SnippetCard.js:43-53 | the text ends in its unit's suffix and in no other one |
| SnippetCard.FutureIsSeconds | react_web_app/src/components/SnippetCard.js:44-46 | a future timestamp gives a seconds text with a count of zero or less |
| SnippetCard.TimeAgoDeterminesAge | react_web_app/src/components/SnippetCard.js:46-52 | equal texts come from equal counts in equal units |
| Text.Trim | react_web_app/src/components/SnippetForm.js:20 | `String.prototype.trim`; `TrimIsInfix`, `TrimEnds`, `TrimEmptyIffAllSpace` and `TrimIdempotent` state it |
| Text.Truthy | react_web_app/src/App.js:67 | JavaScript truthiness of an optional string: present and non-empty, as in `if (editingId)` and `!!(initialValues && initialValues.id)` |
| Text.OrEmpty | react_web_app/src/components/SnippetForm.js:8-10 | an optional string defaulted to `''`: the string itself when present and non-empty, `''` otherwise |
| Text.TrimEmptyIffAllSpace | react_web_app/src/components/SnippetForm.js:24-25 | `s.trim()` is empty iff every character of `s` is white space |
| Text.TrimIsInfix | react_web_app/src/components/SnippetForm.js:34 | `s.trim()` is the part of `s` between a white-space prefix and a white-space suffix |
| Text.TrimEnds | react_web_app/src/components/SnippetForm.js:34 | `s.trim()` neither begins nor ends with white space |
| Text.TrimIdempotent | react_web_app/src/components/SnippetForm.js:34 | trimming twice is trimming once |
| Text.IntToString | react_web_app/src/components/SnippetCard.js:46 | `${n}` is non-empty and starts with `-` iff n is negative; `IntToStringRoundTrip` reads it back to n |
| Text.IntToStringRoundTrip | react_web_app/src/components/SnippetCard.js:46 | reading back `${n}` gives `n` |

## Left out

- The remote backend (`apiImpl`, dataService.js:73-102) is network I/O through `fetch`, and its JSON replies are passed on unchecked. Only its outcome is modelled, as a `Result` that the app handlers receive. Its URLs are `apiBase + "/snippets"` for list and create and `apiBase + "/snippets/" + id` for update and delete.
- `JSON.parse`, `JSON.stringify` and `window.localStorage` are not modelled. The stored value is the abstract `Slot`, and a stored array's elements are taken to be well-formed records. A record with a missing or non-numeric `updatedAt` makes the sort comparator return `NaN`, and that case is not modelled.
- `Math.random` and `Date.now` are inputs. The model claims neither that ids are unique nor that `createdAt <= updatedAt`, because the code enforces neither.
- Interleaved asynchronous calls are not modelled: each handler runs to completion. So the lost-update hazard of two overlapping read-modify-write calls is outside the model. So are the `mounted` flag of the initial load and the moment when `submitting` is true while `onSubmit` is pending.
- React plumbing is not modelled: hooks, effect timing, the form's `key`, rendering and the theme attribute. The `disabled` state of the submit button is modelled only as the predicate `Form.CanSubmit`.
- The text of the toast and its timer (Toast.js), the clipboard (CodeBlock.js), list rendering (SnippetList.js), the render test (App.test.js), `toLocaleString` and the `expanded` toggle are UI only and are not modelled.
- Numbers are unbounded integers. JavaScript's 53-bit precision and its exponent notation for numbers of 10^21 and more do not arise at realistic timestamps and are not modelled.
- `IsSpace` lists the ECMAScript WhiteSpace and LineTerminator code points by hand. Nothing proved depends on which code points are in it.
