# kathboard — a verified model of the friend tracker's core

kathboard is a personal friend tracker. A Flask/PostgreSQL backend keeps one
row per friend in a `friends` table with fixed columns. It keeps free-form
details in an entity-attribute-value table, `attributes`, with one row per
(friend, key, value). A React client lists the friends, can hide some of them,
and shows a form for the selected friend. That form has the fixed fields, one
input for every key any friend has ever used (the global *key catalog*), a notes
editor, and a PIN gate in front of everything.

This project models that core in Dafny and proves what it promises:

- `strings.dfy` (module `Strings`) covers the string semantics the SQL and
  Python rely on:
  - the code-point lexicographic order of `ORDER BY key ASC`;
  - `str.strip()` over ASCII whitespace;
  - the case-insensitive substring test of `name ILIKE '%term%'`.
- `database.dfy` (module `FriendDatabase`) holds the two tables as sequences of
  rows in id order, with their SERIAL counters, in a class `Database`.
  - Each query is a method that does what the cursor does. Its contract ties the
    new state or the result to a specification function.
  - The specification functions are `Upsert`, `FriendRows`, `KeySet`,
    `UpdateRows`/`AllowedItems` and `Matching`/`NewestFirst`. Lemmas prove what
    those functions promise.
  - `Valid()` is the table invariant every operation keeps: ids ascending and
    below their counters, foreign keys intact, and at most one row per
    (friend, key).
- `client.dfy` (module `Client`) covers the client's state. The pure functions
  and their lemmas are:
  - the fold of the attributes response into an object;
  - `visibleFriends`/`hiddenCount`;
  - the list rewrites after hiding a friend or setting the relationship;
  - the defaults filled in when a friend is selected;
  - the catalog-driven detail fields.

  The class `App` holds the component's state variables. Its handlers change
  them and append the requests they send to a log, `sent`. The six handlers
  that act on the selected friend (`AddAttribute`, `UpdateAttribute`,
  `UpdateCoreField`, `UpdateNotes`, `UpdateRelationshipContext` and
  `ToggleHidden`) do nothing when no friend is selected; `SelectFriend` and the
  three receive handlers always act.
- `rich_notes.dfy` (module `RichNotes`) is the echo guard of the rich-text
  notes editor. It is a pure state machine (`Step`/`Run`) plus a class `Editor`
  whose handlers are proved to follow it. Updates are not reported to
  `onChange` while the guard flag is raised. So a programmatic load is never
  echoed back before the deferred reset runs, and that reset reopens the flow.
- `pin_gate.dfy` (module `PinGate`) covers the PIN input:
  - the sanitiser (digits only, at most four);
  - the four-digit check done on submit.
- `scenarios.dfy` (module `Scenarios`) connects backend and client: after a
  detail is written for one friend, every friend's form shows a field for its
  key. The field is empty for friends without a value, and holds the written
  value for the friend it was written for.
- `options.dfy` (module `Options`) holds the `Option` and `Result` types.

Some behaviours of the code that are easy to miss, and that the model keeps:

- Search results are ordered newest first (`ORDER BY created_at DESC`), not in table order.
- The key catalog is returned sorted (`SELECT DISTINCT key ORDER BY key`), not
  in the order keys were first used.
- A friend's name and an attribute key are not checked to be non-empty. Only
  the HTML forms mark them `required`, and the model does not add a check the
  code lacks.
- Search excludes a row whose `hidden` is NULL, because `hidden = FALSE` is not
  true of NULL, even though such a friend is not hidden in the client.
- `updateAttribute` refreshes the friend's attributes but not the key catalog.
  Only `addAttribute` refreshes the catalog.

## Model

| member | source | states |
|---|---|---|
| `Strings.Less` | backend/database.py:123 | definition of the code-point lexicographic order of `ORDER BY key ASC`, a proper prefix first |
| `Strings.LessIrreflexive` | backend/database.py:123 | no key sorts strictly before itself |
| `Strings.LessTransitive` | backend/database.py:123 | the key order is transitive |
| `Strings.LessTotal` | backend/database.py:123 | any two different keys are ordered one way or the other |
| `Strings.InsertSorted` | backend/database.py:123 | inserting a key into a strictly ascending list keeps it strictly ascending (sorted, no duplicates) and the result holds exactly the old keys plus the new one |
| `Strings.IsSpace` | backend/database.py:53 | definition of the ASCII characters `str.strip()` removes: space, TAB to CR, and FS to US |
| `Strings.SkipSpace` | backend/database.py:53 | returns the first non-whitespace position at or after `i`, everything skipped being whitespace |
| `Strings.SkipSpaceBack` | backend/database.py:53 | returns the position after the last non-whitespace character, everything skipped being whitespace |
| `Strings.Strip` | backend/database.py:53 | `q.strip()`: the result is a contiguous infix of the input with only whitespace around it, and it neither starts nor ends with whitespace |
| `Strings.StripEmptyIffAllSpace` | backend/database.py:53 | a query strips to the empty term exactly when it is all whitespace |
| `Strings.Lower` | backend/database.py:62 | case folding keeps the length, leaves no upper-case ASCII letter, turns each one into its lower-case letter and keeps every other character |
| `Strings.ContainsIffOccurs` | backend/database.py:54 | the `%term%` pattern matches exactly when the term occurs at some position of the name |
| `Strings.ContainsIgnoringCase` | backend/database.py:62 | definition of `name ILIKE '%term%'` for a term without wildcards, under ASCII case folding |
| `Strings.ContainsEmpty` | backend/database.py:54 | the empty term (pattern `%%`) matches every name |
| `FriendDatabase.ReferencesExtend` | backend/database.py:39 | adding a friend keeps every attribute row's foreign key intact |
| `FriendDatabase.NewFriend` | backend/database.py:21-33 | definition of the row `INSERT INTO friends (name)` creates: the given id and name, `created_at` from NOW(), NULL columns and `hidden` FALSE |
| `FriendDatabase.Assign` | backend/database.py:110 | definition of `UPDATE attributes SET value = v WHERE friend_id = f AND key = k` |
| `FriendDatabase.Upsert` | backend/database.py:99-118 | definition of `set_friend_attribute`: update when the SELECT finds a row, insert with the next id when the friend exists, foreign-key failure otherwise |
| `FriendDatabase.UpsertStoresValue` | backend/database.py:99-118 | after a successful write, (friend, key) has a row and every row for it holds the written value |
| `FriendDatabase.UpsertFailsIffNoFriend` | backend/database.py:113-117 | with the foreign key intact, a write fails exactly when the friend does not exist |
| `FriendDatabase.UpsertFrame` | backend/database.py:108-117 | rows of other (friend, key) pairs are untouched; rows of (friend, key) change only in value; one row is appended exactly when none existed |
| `FriendDatabase.UpsertKeepsPairsUnique` | backend/database.py:102-117 | inserting only when the SELECT found nothing keeps one row per (friend, key) |
| `FriendDatabase.UpsertIdempotent` | backend/database.py:99-118 | writing the same value twice leaves the table as the first write did |
| `FriendDatabase.UpsertKeepsTableInvariants` | backend/database.py:99-118 | a write keeps ids ascending and below the counter, foreign keys intact, and on update consumes no id |
| `FriendDatabase.FriendRows` | backend/database.py:94 | definition of `WHERE friend_id = f` over the table in id order |
| `FriendDatabase.FriendRowsMembers` | backend/database.py:94 | `WHERE friend_id = f` keeps exactly the rows of friend `f` |
| `FriendDatabase.FriendRowsAscending` | backend/database.py:94 | one friend's rows come back in ascending id order |
| `FriendDatabase.AppendedRowComesLast` | backend/database.py:94 | an inserted row comes last among its friend's rows and other friends' rows are unchanged |
| `FriendDatabase.KeySet` | backend/database.py:123 | definition of the keys `SELECT DISTINCT key FROM attributes` returns, as a set |
| `FriendDatabase.UpsertCatalogsKey` | backend/database.py:120-125 | a successful write adds its key to the set of keys in the table and removes none |
| `FriendDatabase.WithColumn` | backend/database.py:145 | one `SET c = v` assignment changes column `c` only, never id, name or created_at |
| `FriendDatabase.AllowedItems` | backend/database.py:128-139 | the kept items all name whitelisted columns |
| `FriendDatabase.AllowedItemsMembers` | backend/database.py:136-139 | the whitelist keeps exactly the items naming an allowed column |
| `FriendDatabase.AllowedItemsDistinct` | backend/database.py:136-139 | the kept items still name each column at most once |
| `FriendDatabase.LookupFound` | backend/database.py:136 | a dict has a value for a key exactly when some item names it, and it is that item's value |
| `FriendDatabase.AllowedLookup` | backend/database.py:136-139 | filtering finds the same value for an allowed column as the full dict |
| `FriendDatabase.ApplyItems` | backend/database.py:145 | the assignments never change id, name or created_at |
| `FriendDatabase.ApplyItemsColumns` | backend/database.py:145 | each column takes the value the assignments give it, or keeps its old value |
| `FriendDatabase.UpdateRows` | backend/database.py:145 | definition of `UPDATE friends SET ... WHERE id = %s` |
| `FriendDatabase.UpdateFieldsEffect` | backend/database.py:127-150 | on the row with that id, each allowed column takes the dict's value if named and keeps its value otherwise; keys outside the whitelist have no effect; other rows, id, name and created_at are unchanged |
| `FriendDatabase.UpdateWithoutAllowedKeys` | backend/database.py:141-142 | a dict without any allowed key changes nothing |
| `FriendDatabase.BuildUpdates` | backend/database.py:134-139 | the `updates`/`values` lists pair up, in iteration order, exactly the items with an allowed key |
| `FriendDatabase.NewestFirst` | backend/database.py:73 | definition of the order `ORDER BY created_at DESC` gives, rows with equal timestamps in either order |
| `FriendDatabase.InsertNewestFirst` | backend/database.py:73 | inserting a row into a newest-first list keeps it newest-first and adds exactly that row |
| `FriendDatabase.NewerThanAll` | backend/database.py:73 | everything inserted after the head of a newest-first list is no newer than it |
| `FriendDatabase.Permitted` | backend/database.py:62-72 | definition of the WHERE clause for one row: name contains the term ignoring case, and `hidden = FALSE` unless hidden rows are included |
| `FriendDatabase.Matching` | backend/database.py:58-76 | definition of the rows passing the WHERE clause, in table order |
| `FriendDatabase.MatchingMembers` | backend/database.py:58-76 | the WHERE clause keeps exactly the rows whose name contains the term and, unless hidden rows are included, whose `hidden` is FALSE |
| `FriendDatabase.SearchHonoursVisibility` | backend/database.py:58-76 | without `include_hidden` no row lacking `hidden = FALSE` is returned; with it, every matching name is |
| `FriendDatabase.BlankQueryMatchesAll` | backend/database.py:52-76 | a blank or whitespace-only query returns every row the visibility rule allows |
| `FriendDatabase.Database.constructor` | backend/database.py:20-43 | empty tables whose SERIAL counters start at 1, satisfying the invariant |
| `FriendDatabase.Database.CreateFriend` | backend/database.py:79-88 | appends a row with a fresh id, NULL columns and `hidden` FALSE, returns that id, keeps the invariant |
| `FriendDatabase.Database.GetFriendAttributes` | backend/database.py:90-97 | returns exactly friend `f`'s rows, in ascending id order |
| `FriendDatabase.Database.SetFriendAttribute` | backend/database.py:99-118 | the new table is `Upsert` of the old, or unchanged with a foreign-key failure; the counter advances exactly when an insert was attempted; the invariant is kept |
| `FriendDatabase.Database.GetAllAttributeKeys` | backend/database.py:120-125 | returns every key of every friend, each once, in ascending order |
| `FriendDatabase.Database.UpdateFriendFields` | backend/database.py:127-150 | the table becomes `UpdateRows` over the whitelisted items, unchanged when there are none (a missing body counts as empty); the invariant is kept |
| `FriendDatabase.Database.SearchFriendsByName` | backend/database.py:52-77 | returns, newest first, exactly the rows passing the WHERE clause for the stripped query (a missing query counts as empty) |
| `Client.AttributeMap` | frontend/src/App.js:56-59 | the object has exactly the response's keys, each with the value of its last entry |
| `Client.FoldIsDetermined` | frontend/src/App.js:56-59 | the fold's result is determined by the response |
| `Client.IsHidden` | frontend/src/App.js:176-178 | definition of JavaScript truthiness of `f.hidden`: only `true` counts as hidden, `false`, null and a missing field do not |
| `Client.Shown` | frontend/src/App.js:176 | definition of `friends.filter((f) => !f.hidden)` |
| `Client.Hidden` | frontend/src/App.js:178 | definition of `friends.filter((f) => f.hidden)` |
| `Client.VisibleFriends` | frontend/src/App.js:174-176 | definition of `visibleFriends`: all friends when hidden ones are shown, otherwise the filter |
| `Client.HiddenCount` | frontend/src/App.js:178 | definition of `hiddenCount` |
| `Client.ShownIsOrderedSelection` | frontend/src/App.js:174-176 | without hidden friends shown, the list holds exactly the friends that are not hidden, in their order |
| `Client.HiddenPlusShown` | frontend/src/App.js:174-178 | `hiddenCount` counts exactly the hidden friends, and hidden plus shown is the whole list |
| `Client.WithHidden` | frontend/src/App.js:152-156 | definition of the `map` that gives the selected friend its new `hidden` |
| `Client.WithRelationshipContext` | frontend/src/App.js:133-137 | definition of the `map` that gives the selected friend its new `relationship_context` |
| `Client.HidingRemovesOnlySelected` | frontend/src/App.js:152-156 | hiding removes the selected friend from the shown list and changes no other friend's visibility |
| `Client.UnhidingShowsSelected` | frontend/src/App.js:152-156 | un-hiding puts the selected friend back in the shown list |
| `Client.WithHiddenChangesOnlySelected` | frontend/src/App.js:152-156 | entries with the selected id get the new `hidden`, every other entry is unchanged, and length and order are kept |
| `Client.ContextUpdateKeepsVisibility` | frontend/src/App.js:133-137 | entries with the selected id get the new `relationship_context`, every other entry is unchanged; the shown list afterwards is the old shown list updated the same way, and the hidden count is unchanged |
| `Client.SelectionOf` | frontend/src/App.js:161-170 | missing fields default to `""` and `hidden` to false; present values are kept |
| `Client.FieldValue` | frontend/src/App.js:289 | definition of a detail field's value: the friend's value for the key, or `""` without one (for a key that is no property name of `Object.prototype`) |
| `Client.CatalogFields` | frontend/src/App.js:284-289 | one input per catalog key, in catalog order; a key the friend has no value for shows `""`, a key it has a value for shows that value, and no key outside the catalog gets a field |
| `Client.App.constructor` | frontend/src/App.js:23-39 | every state variable starts at its initial value, and mounting requests the friends and the key catalog |
| `Client.App.ReceiveFriends` | frontend/src/App.js:41-45 | the friends list becomes the response |
| `Client.App.ReceiveAttributeKeys` | frontend/src/App.js:47-51 | the catalog becomes the response |
| `Client.App.ReceiveAttributes` | frontend/src/App.js:53-61 | the attributes object becomes the fold of the response |
| `Client.App.AddAttribute` | frontend/src/App.js:74-88 | with a friend selected: posts the typed key and value, clears both inputs, and refreshes the friend's attributes and the catalog; otherwise nothing changes |
| `Client.App.UpdateAttribute` | frontend/src/App.js:90-100 | with a friend selected: posts the value and refreshes the friend's attributes; otherwise nothing changes |
| `Client.App.UpdateCoreField` | frontend/src/App.js:102-110 | with a friend selected: sends the one field as a partial update; otherwise nothing changes |
| `Client.App.UpdateNotes` | frontend/src/App.js:112-120 | with a friend selected: sends the notes as a partial update; otherwise nothing changes |
| `Client.App.UpdateRelationshipContext` | frontend/src/App.js:122-138 | with a friend selected: records the value, sends it, and rewrites the friend's list entry; otherwise nothing changes |
| `Client.App.ToggleHidden` | frontend/src/App.js:140-157 | with a friend selected: negates the flag, sends the new flag, and rewrites the friend's list entry with it; otherwise nothing changes |
| `Client.App.SelectFriend` | frontend/src/App.js:159-172 | selects the friend, sets the form state to its defaults, and requests its attributes |
| `RichNotes.Incoming` | frontend/src/RichNotes.jsx:30 | definition of the document a value loads: a null or missing value is the empty document |
| `RichNotes.Step` | frontend/src/RichNotes.jsx:17-41 | definition of one event: an update or edit reports unless the flag is raised; a differing value loads with the flag raised and a reset scheduled; a reset clears the flag |
| `RichNotes.Run` | frontend/src/RichNotes.jsx:17-41 | definition of a sequence of events: the final state and every `onChange` argument in order |
| `RichNotes.GuardSuppressesUpdates` | frontend/src/RichNotes.jsx:17-21 | while the flag is raised, neither an update nor an edit calls `onChange` |
| `RichNotes.UpdatesReportWhenClear` | frontend/src/RichNotes.jsx:17-21 | with the flag clear, each update reports the current content once |
| `RichNotes.SameValueIsIgnored` | frontend/src/RichNotes.jsx:30-33 | a value equal to the content changes nothing; a null value is the empty document |
| `RichNotes.NewValueLoadsSilently` | frontend/src/RichNotes.jsx:27-41 | a different value replaces the content, raises the flag and schedules one reset, without an `onChange` call |
| `RichNotes.ResetReopensFlow` | frontend/src/RichNotes.jsx:38-40 | the deferred reset clears the flag, after which an edit reaches `onChange` |
| `RichNotes.NoEchoBeforeReset` | frontend/src/RichNotes.jsx:17-41 | while the flag is raised, no sequence of events short of a reset calls `onChange` |
| `RichNotes.LoadIsNeverEchoed` | frontend/src/RichNotes.jsx:17-41 | a programmatic load followed by any events short of the reset is never echoed to `onChange` |
| `RichNotes.Editor.constructor` | frontend/src/RichNotes.jsx:8-16 | the editor starts with the value, or the empty document when there is none, the flag clear and nothing reported |
| `RichNotes.Editor.OnUpdate` | frontend/src/RichNotes.jsx:17-21 | follows `Step` on an update: reports the content unless the flag is raised |
| `RichNotes.Editor.UserEdit` | frontend/src/RichNotes.jsx:17-21 | follows `Step` on an edit |
| `RichNotes.Editor.ValueChanged` | frontend/src/RichNotes.jsx:27-41 | follows `Step` on a load and reports nothing |
| `RichNotes.Editor.ResetFires` | frontend/src/RichNotes.jsx:38-40 | follows `Step` on a reset and reports nothing |
| `PinGate.IsDigit` | frontend/src/PinGate.js:22 | definition of what `\d` matches without the `u` flag: `0` to `9` |
| `PinGate.Digits` | frontend/src/PinGate.js:22 | removing non-digits leaves only digits and never lengthens the input |
| `PinGate.DigitsAppend` | frontend/src/PinGate.js:22 | removing non-digits distributes over concatenation |
| `PinGate.DigitsOfDigits` | frontend/src/PinGate.js:22 | a string of digits is left as it is |
| `PinGate.Sanitize` | frontend/src/PinGate.js:22 | the input keeps only digits, the first four of them (fewer if there are fewer) |
| `PinGate.SanitizeIdempotent` | frontend/src/PinGate.js:20-25 | sanitising a sanitised PIN changes nothing |
| `PinGate.IsPin` | frontend/src/PinGate.js:11 | definition of `/^\d{4}$/.test(pin)`: exactly four ASCII digits |
| `PinGate.OnPinChange` | frontend/src/PinGate.js:20-25 | the PIN becomes the sanitised input and the error is cleared |
| `PinGate.Submit` | frontend/src/PinGate.js:7-18 | a four-digit PIN unlocks with no error; anything else shows "Enter a 4-digit PIN." and stays as locked as it was |
| `PinGate.TypedPinUnlocksIffFourDigits` | frontend/src/PinGate.js:7-25 | typing and submitting unlocks exactly when the input's value holds at least four digits |
| `Scenarios.Pairs` | backend/database.py:94 | definition: the projection of the returned rows onto their (key, value) pairs, in row order |
| `Scenarios.OwnRowsHoldValue` | backend/database.py:99-118 | after a write, the friend's own rows include the key and each row for it holds the value |
| `Scenarios.NewKeyShowsEmptyForOthers` | frontend/src/App.js:284-289 | after a write for one friend, another friend without a value for that key sees an empty field for it |
| `Scenarios.WrittenValueShowsForFriend` | frontend/src/App.js:53-61 | after a write, the friend it was written for sees the written value in that key's field |

## Left out

- Connections, transactions and commits (`_connect`, `init_db`) are not modelled as such. Each query runs atomically on the in-memory tables; a rejected insert leaves the table unchanged.
- The time between the SELECT and the UPDATE/INSERT of `set_friend_attribute` is not modelled. There is no uniqueness constraint, so two concurrent writers could insert two rows for one key. The model runs one call at a time. The UPDATE still rewrites every matching row.
- `NOW()` is the `now` parameter of `CreateFriend`. Timestamps are integers.
- Postgres type coercion of column values is not modelled. A column value is NULL, text or a boolean, whatever the column's type.
- The collation of `ORDER BY key ASC` is not modelled: keys are ordered by code point (the `C` collation). Case folding and whitespace are ASCII-only.
- Ids are unbounded naturals. `SERIAL` and `friend_id INTEGER` are 32-bit, so an insert fails once the counter passes 2^31 - 1; the model has no such overflow failure, and no property of the model depends on it.
- Ties in `created_at` may come back in either order. The model promises only newest-first and the right set of rows.
- A JSON `null` attribute value is not modelled: attribute values are strings.
- FriendDatabase.Database.SetFriendAttribute: a JSON `null` key is not modelled. Its `key` is a string, so the `NOT NULL` failure of `key TEXT NOT NULL` has no counterpart.
- FriendDatabase.Database.CreateFriend: a JSON `null` name is not modelled. Its `name` is a string, so the `NOT NULL` failure of `name TEXT NOT NULL` has no counterpart.
- FriendDatabase.Database.UpdateFriendFields: only a JSON object body (a dict) or a missing body is modelled. `(fields or {}).items()` raises on a non-empty JSON list or other truthy non-dict, and an empty list, `0`, `false` or `""` is treated as `{}`; neither case is captured.
- FriendDatabase.Database.SearchFriendsByName: the pattern characters of `ILIKE` inside the term are not modelled. `%` and `_` are wildcards, and `\` is Postgres's default escape character, so `a\b` matches names containing `ab`, and a term ending in `\` turns the closing `%` into a literal percent sign. The model treats the term as a plain substring.
- Client.AttributeMap: the client object `attrObj` is modelled as a map. The one key for which the browser differs is `__proto__`. Assigning a string to `attrObj["__proto__"]` stores nothing, so the model's entry for that key does not exist in the program. Every other key, including other `Object.prototype` names such as `toString`, is stored as a data property, as in the model.
- Client.FieldValue: `attributes[key] || ""` differs from the model in two cases. For `__proto__` the field always shows `[object Object]`. For any other `Object.prototype` name (`constructor`, `toString`, ...) that the friend has no value for, the field shows the inherited function instead of `""`. A stored value for such a name is shown as in the model.
- Scenarios.NewKeyShowsEmptyForOthers: stated under the map model of the client object. For `__proto__`, or for another `Object.prototype` name, the other friend's field shows the inherited property, not `""`.
- Scenarios.WrittenValueShowsForFriend: stated under the map model of the client object. It fails only for `__proto__`, where the writer sees `[object Object]`.
- `get_all_friends`, `addFriend`, the `onChange` setters of the inputs, the `showHidden` checkbox and the rendering are outside the core and not modelled. The constructor and the receive handlers stand in for the core's use of them.
- `fetch` and the network are not modelled. Each handler appends the requests it sends to `sent`; awaiting responses, and their order, is not modelled. The responses arrive through `ReceiveFriends`, `ReceiveAttributeKeys` and `ReceiveAttributes`.
- The handlers' views of state captured when an `await` began are not modelled. Each handler reads the current state.
- The Tiptap editor is abstracted to the HTML string it holds. `getHTML()` normalisation, the toolbar and history are not modelled. `setTimeout` is a `Reset` event that may come at any later point. In the model an `Update` that arrives after that reset reports the loaded content. In the program, `setContent(next, false)` raises no update in the first place.
- PinGate.OnPinChange: the input's `maxLength={4}` (frontend/src/PinGate.js:54) is not modelled. The handler receives the input's value after the browser has cut it to four characters, so a pasted `1a2b3c4d` arrives as `1a2b` and sanitises to `12`. The model's input is that already-cut value.
- `sessionStorage` and the `onUnlock` callback of the PIN gate are not modelled; a successful submit sets `unlocked`.
- The Flask routes in `backend/app.py` are not part of this model: the database functions are modelled directly.
