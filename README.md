# Model of the active_pwm entry manager

`active_pwm` keeps password entries in memory. The model covers the core in `pwm.py`:

- **`PasswordEntry`** is a mutable record. It rotates its password into an append-only history. It stores a recurrence policy (an interval and one of the units years, months, weeks or days). From that policy and the last modification it recomputes the stored expiration.
- **`PWM`** is the manager. It owns a list of active entries, a trash of soft-deleted entries, an id counter that starts at 1, and a fuzzy-search threshold that starts at 0.8.
  - Mutations by id: add, remove (active to trash), restore (trash to active), purge (delete from the trash for good) and update (write a record back into its slot).
  - Queries: lookup by name, listing by tag with pagination, expired entries, the trash, and fuzzy search.

Both classes are Dafny classes whose methods assign their fields in place, as the Python code does. The manager's lists are `seq<PasswordEntry>` fields of object references. So the record returned by `GetEntry` is the stored record, and writing it back with `UpdateEntry` keeps that aliasing.

- Time is `Timestamp`, an integer count of microseconds since the epoch.
- `FAR_FUTURE` is 9999-12-31T23:59:59.999999, the sentinel of a disabled policy.
- The clock is a `now` parameter of every operation that reads it.
- Calendar arithmetic (shift by n units, floor to the day) is a `Calendar` value of two functions passed in.
- The similarity score is a parameter `ratio: (string, string) -> real`.
- The threshold is a `real`.

The invariant `PWM.Valid()` says:

- no id occurs twice across `entries ++ trash`;
- every id lies in `[1, nextId)`;
- the threshold lies in `(0, 1)`.

The constructor establishes it. Every mutation of the manager preserves it; adding also needs that the added record is not already stored. It reads only the ids of the stored records, so a change to any other field of a record (a new password, a new policy) keeps it (`Manager.PWM.ValidKept`).

Removing, restoring and writing back a record stamp `modified` but do not recompute `nextExpiration` (pwm.py:97, 163, 129). The model follows the code here. So a stored record's expiration need not agree with its policy and its last modification; `Scenarios.StaleAfterRemove` shows a record for which it does not. Only the record's own mutators and `AddEntry` keep the two in agreement.

Files:

- `outcomes.dfy`: the `Option`, `Result` and `Outcome` types and the error values. Each Python `raise` becomes an `Err` or `Fail` value.
- `timing.dfy`: timestamps, the far-future sentinel, the term units, the calendar, and the expiration rule.
- `entry.dfy`: the `PasswordEntry` class.
- `store.dfy`: facts about sequences of entries:
  - lookup by id;
  - the multiset of ids and the identity invariant;
  - the tag and expiry filters;
  - the tag union;
  - the reload counter rule.
- `slices.dfy`: Python slice semantics (including negative and out-of-range bounds) and the paging lemmas.
- `text.dfy`: the substring test behind Python's `query in text`.
- `pwm.dfy`: the `PWM` class and the search predicate.
- `scenarios.dfy`: client runs that mirror `pwm_test.py`, plus generic runs on any manager: remove then restore, remove then purge, and the client's look-up, rotate and write-back flow. Each is proved from the operations' contracts and from the lemmas about the store functions those contracts name (`WithTag`, `ExpiredAt`, `IndexOfId`).

## Model

| member | source | states |
|---|---|---|
| Entry.PasswordEntry.constructor | pwm.py:15-30 | a new record has id -1, empty history, the policy disabled (-1 days), the far-future expiration, and created = modified = now |
| Entry.PasswordEntry.SetNextExpiration | pwm.py:51-58 | with a positive interval the expiration is the day-floor of the last modification shifted by the interval in the unit; otherwise it is `FAR_FUTURE` |
| Entry.PasswordEntry.SetPassword | pwm.py:35-40 | the history grows by exactly the pair (now, old password) at its end, earlier history unchanged; password and modification time are the new ones; expiration recomputed from now |
| Entry.PasswordEntry.SetExpirationInterval | pwm.py:42-49 | a unit outside years/months/weeks/days fails with `InvalidUnit` and changes no field; otherwise interval, unit and modification time are stored and the expiration follows the rule |
| Store.IndexOfId | pwm.py:90-93 | the first position holding the id, or -1 exactly when no position holds it |
| Store.FindId | pwm.py:156-159 | the scan loop returns the first position holding the id, or -1 |
| Store.DeleteKeepsUnique | pwm.py:173-174 | deleting one record of the trash keeps ids unique and below the counter |
| Store.MoveKeepsUnique | pwm.py:94-96 | moving one record from one list to the end of the other keeps the ids the same multiset, so the invariant holds |
| Store.ReplaceKeepsUnique | pwm.py:124-125 | writing a record with the same id into a slot keeps the invariant |
| Store.AppendFreshKeepsUnique | pwm.py:79-81 | appending a record that takes the counter's id keeps the invariant with the counter one higher |
| Store.StoresDisjoint | pwm.py:151-152 | under the invariant no record is both active and trashed |
| Store.IdsDistinct | pwm.py:90-93 | under the invariant different positions hold different ids, so the scan's first match is the only match |
| Store.OnlyHolder | pwm.py:94-96 | under the invariant the record at a position is the only holder of its id: the other list has none, and its own list has none once it is taken out |
| Store.NotInBag | pwm.py:90-93 | a list whose id bag lacks an id has no record the scan could match |
| Store.IndexOfIdAppend | pwm.py:96 | a record appended to a list that lacks its id is the first match for it |
| Store.WithTag | pwm.py:115-117 | the tag filter keeps exactly the records carrying the tag and never lengthens the list |
| Store.WithTagConcat | pwm.py:117 | the filter distributes over concatenation, so it keeps store order |
| Store.WithTagAll | pwm.py:117 | when every record carries the tag the filter returns the list unchanged |
| Store.WithTagSingle | pwm.py:117 | the filter keeps a single record exactly when it carries the tag |
| Store.WithTagCount | pwm.py:117 | the filter keeps each record carrying the tag exactly as often as the list holds it, and no other record |
| Store.ExpiredAt | pwm.py:149 | keeps exactly the records whose expiration lies strictly before now |
| Store.ExpiredAtCount | pwm.py:149 | the expiry filter keeps each expired record exactly as often as the list holds it, and no other record |
| Store.ExpiredAtConcat | pwm.py:149 | the expiry filter distributes over concatenation, so it keeps store order |
| Store.DisabledNeverExpires | pwm.py:52-58 | a record with a disabled policy and a recomputed expiration never appears among the expired records |
| Store.AllTags | pwm.py:210 | a tag is listed exactly when some record carries it |
| Store.MaxId | pwm.py:146 | the maximum is one of the ids and bounds all of them |
| Store.NextIdAfterLoad | pwm.py:146 | the reload counter is one past the largest id and exceeds every id; no ids fails with `EmptyMax` |
| Slices.Bound | pwm.py:110 | Python's normalisation of a slice bound: counted from the end when negative, clipped to [0, n] |
| Slices.SliceWindow | pwm.py:110 | with non-negative bounds a slice is the window [start, stop) clipped to the list |
| Slices.PageContents | pwm.py:110 | page p of e items has max(0, min(e, n - p*e)) items, the ones from position p*e on, and none past the end |
| Slices.PagesCover | pwm.py:110 | pages 0..k-1 concatenate to the first k*e items: nothing skipped or repeated |
| Slices.PageMinusOneEmpty | pwm.py:110 | page -1 is always empty (its stop bound is 0) |
| Slices.PageMinusTwo | pwm.py:110 | page -2 is the second-to-last full window, not empty |
| Slices.PagesOf101 | pwm_test.py:81-94 | over 101 items pages (1,10) and (1,50) are full, (0,1000) has all 101 and (2,100) is empty |
| Text.EmptyIsSubstring | pwm.py:192 | the empty query occurs in every text |
| Text.InfixIsSubstring | pwm.py:192 | a text occurs in any text that contains it between a prefix and a suffix |
| Manager.MatchesAntitone | pwm.py:183-205 | a match above a limit is a match above every lower limit |
| Manager.EntryMatches | pwm.py:183-205 | the check sequence with its early exits and the tag loop's `break` decides exactly the search predicate |
| Manager.PWM.constructor | pwm.py:62-66 | an empty manager with counter 1 and threshold 0.8 that satisfies the invariant |
| Manager.PWM.GetFuzzyMatchThreshold | pwm.py:68-69 | returns the stored threshold, which lies in (0, 1) under the invariant |
| Manager.PWM.SetFuzzyMatchThreshold | pwm.py:71-76 | a value strictly between 0 and 1 is stored and returned; any other fails with `InvalidThreshold` and keeps the old value |
| Manager.PWM.AddEntry | pwm.py:78-85 | appends the record at the end, gives it the old counter as id, adds exactly 1 to the counter, stamps created = modified = now and recomputes the expiration |
| Manager.PWM.AddKeepsValid | pwm.py:79-81 | adding a record not yet stored keeps the invariant |
| Manager.PWM.RemoveEntry | pwm.py:88-99 | no active id match fails with `NotFound` and changes nothing; otherwise exactly the first match leaves `entries` and goes to the end of the trash, only its modification time changes (to now), and no other record changes; under the invariant the moved record is then the first (and only) trashed match for its id |
| Manager.PWM.RemoveKeepsValid | pwm.py:94-96 | removing keeps the invariant, and the moved record is the first trashed match for its id |
| Manager.PWM.GetEntry | pwm.py:101-105 | nothing exactly when no active record has the name; otherwise the first record that has it |
| Manager.PWM.GetEntries | pwm.py:107-118 | with the defaults `None, 0, -1`: every listed record is active and carries the tag if one is given; without paging, all such records are listed; with neither tag nor paging the list is `entries` itself, and with a tag but no paging it is the tag filter of `entries`, which keeps store order and multiplicity (`Store.WithTagConcat`, `Store.WithTagCount`) |
| Manager.PWM.GetEntriesPaged | pwm.py:109-115 | a page of the (filtered) list has max(0, min(e, n - p*e)) records, those from position p*e on, and none for a page past the end |
| Manager.PWM.UpdateEntry | pwm.py:121-132 | no active id match fails with `NotFound` and changes nothing; otherwise the first match's slot (only it) holds the given record, which is stamped now; the expiration is not recomputed |
| Manager.PWM.UpdateKeepsValid | pwm.py:124-125 | updating keeps the invariant |
| Manager.PWM.GetExpiredEntries | pwm.py:148-149 | exactly the active records whose expiration lies strictly before now, each as often as it is stored, and in store order (it is the expiry filter `Store.ExpiredAt`; see `Store.ExpiredAtConcat`) |
| Manager.PWM.GetTrash | pwm.py:151-152 | the trash itself; under the invariant none of its records is active |
| Manager.PWM.RestoreEntry | pwm.py:154-165 | no trashed id match fails with `NotFound` and changes nothing; otherwise exactly the first match leaves the trash and goes to the end of `entries`, stamped now, and nothing else changes |
| Manager.PWM.RestoreKeepsValid | pwm.py:160-162 | restoring keeps the invariant |
| Manager.PWM.PurgeEntry | pwm.py:167-176 | no trashed id match fails with `NotFound`; otherwise exactly the first match is deleted from the trash; only the trash field may change, so the counter never goes back; under the invariant no record with that id is left in either list |
| Manager.PWM.PurgeKeepsValid | pwm.py:174 | purging keeps the invariant and leaves the id in neither list |
| Manager.PWM.ValidKept | pwm.py:35-49 | a change to a stored record that keeps its id (such as its own mutators make) keeps the invariant |
| Manager.PWM.Search | pwm.py:179-206 | the result is exactly the set of active records the search predicate accepts at 100 times the threshold, each once |
| Manager.PWM.Hits | pwm.py:182-205 | the records accepted by the search are active records |
| Manager.PWM.HitsAntitone | pwm.py:181 | raising the threshold never adds a hit |
| Manager.PWM.EmptyQueryHitsAll | pwm.py:192 | the empty query finds every active record, whatever the threshold, through the notes substring test |
| Manager.PWM.NotesInfixHit | pwm.py:192 | a query that occurs literally in a record's notes finds it, whatever the scores |
| Manager.PWM.ExactNameHit | pwm.py:183 | when a string scores 100 against itself, searching for a record's exact name finds it, since the threshold is below 1 |
| Manager.PWM.IdsBelowCounter | pwm.py:80-81 | under the invariant every stored id is in [1, counter), so the id the next add issues is fresh |
| Manager.PWM.ActiveIdsDistinct | pwm.py:90-93 | under the invariant no two active records share an id, so the first match is the only one |
| Manager.PWM.FirstMatchIsSelf | pwm.py:123-125 | under the invariant a stored record is the first active match for its own id, so writing it back targets its own slot |
| Manager.PWM.GetAllTags | pwm.py:209-210 | the evidently intended listing: a tag is listed exactly when some active record carries it |
| Manager.PWM.GetAllTagsAsWritten | pwm.py:209-210 | the listing as written always fails: its comprehension reads `entry` before binding it |
| Scenarios.SetUp | pwm_test.py:6-15 | one record added to a new manager gets id 1, the counter becomes 2, and the invariant holds |
| Scenarios.ThresholdScenario | pwm_test.py:17-29 | the threshold reads 0.8, then 0.9 after setting it; 1.1 and -0.1 are refused and 0.9 is kept |
| Scenarios.CreateEntryScenario | pwm_test.py:31-42 | a record's id goes from -1 to 2 when it is added second |
| Scenarios.SetPasswordScenario | pwm_test.py:44-49 | the record found by name takes the new password and keeps exactly the old one in its history |
| Scenarios.RestoreScenario | pwm_test.py:63-68 | remove then restore leaves an empty trash and one active record |
| Scenarios.RemoveThenRestore | pwm.py:154-165 | on any manager, remove succeeds exactly when an active record has the id, and then restoring the same id succeeds and both sizes are back; under the invariant the trash is exactly as before and the removed record itself is now last among the active ones |
| Scenarios.RemoveThenPurge | pwm.py:167-176 | under the invariant, purging a record just removed succeeds, leaves the trash as it was before the removal, and leaves no record with that id in either list |
| Scenarios.PurgedIsGone | pwm.py:154-176 | once neither list holds an id, restoring and purging it both fail with `NotFound` and change neither list |
| Scenarios.RotateScenario | pwm.py:101-132 | the client flow get_entry, set_password, update_entry keeps the invariant and the list of active records; the record found by name has the new password and is stamped now |
| Scenarios.RotateStored | pwm.py:35-40 | rotating the password of a stored record keeps the manager's invariant |
| Scenarios.WriteBack | pwm.py:121-132 | writing back a stored record succeeds, keeps the invariant and leaves the list of active records as it was |
| Scenarios.StaleAfterRemove | pwm.py:88-99 | a record with a ten-day policy removed later keeps the expiration computed at the earlier time, so it disagrees with its policy whenever the calendar tells the two times apart |
| Scenarios.PurgeScenario | pwm_test.py:70-76 | remove then purge leaves both lists empty and the counter at 2 |
| Scenarios.UpdateScenario | pwm_test.py:109-115 | a renamed record written back is found under its new name, stamped at the later time |
| Scenarios.UpdateUnknownScenario | pwm_test.py:117-127 | writing back a record never added fails, since its id -1 matches nothing |
| Scenarios.TagScenario | pwm_test.py:96-107 | with records tagged {t1,t2} and {t1,t3}, t1 lists both in insertion order and t2 and t3 one each |
| Scenarios.TwoTagged | pwm_test.py:96-107 | the tag filter over the two records of that scenario |
| Scenarios.FilterPair | pwm.py:117 | the tag filter over two records keeps, in order, each that carries the tag |
| Scenarios.ExpirationIntervalScenario | pwm_test.py:129-141 | in the loop over days, weeks, months and years each unit is accepted and stored with interval 10, and, while ten units from now do not land before now, no record is expired; "invalid" is refused |
| Scenarios.SetPolicy | pwm_test.py:135-138 | one turn of that loop: the unit is accepted and stored, and the expired list is empty |
| Scenarios.ExpiredScenario | pwm_test.py:143-151 | a record with a ten-day policy is not expired; after its stored expiration is moved into the past and it is written back, it is expired |

## Left out

- Persistence: `save` and `load` (pwm.py:134-146) are file and TOML I/O and are not modelled. As written, `load` stores the raw dictionaries, so the `entry.id` at pwm.py:146 would fail on them. Only the counter rule is modelled, as `Store.NextIdAfterLoad`.
- `_FAR_PAST` (pwm.py:13) is never used.
- The similarity score of the fuzzy-matching library is an arbitrary function parameter. Nothing is assumed about it except, in `Manager.PWM.ExactNameHit`, that a string scores 100 against itself.
- Calendar arithmetic (shift by years, months, weeks or days; floor to the day) is an arbitrary function pair. `Scenarios.ExpiredScenario` assumes, as a precondition, that a ten-day shift of `now` does not land before `now`.
- The clock: each operation takes `now` instead of reading it.
- Manager.PWM.AddEntry: the source reads the clock twice, once for `created` and once for `modified` (pwm.py:82-83). The model uses one `now` for both.
- Entry.PasswordEntry.constructor: the dataclass takes every field as an optional keyword argument (pwm.py:17-30). The constructor takes the seven text fields and `now`, and gives id, history, policy and expiration their defaults; a caller sets any other value by assigning the public field afterwards, as the tests do. The two default factories for `created` and `modified` read the clock twice (pwm.py:24-25); the constructor uses one `now` for both.
- Floating point: the threshold and the scores are `real`. There is no rounding, so `threshold * 100` is exact.
- An invalid unit stored directly into the field, bypassing `set_expiration_interval`, would make the calendar library raise. The model's calendar is total.
- Python list identity: `get_entries`, `get_trash` and `get_expired_entries` return the manager's own list object (or a new one) that a caller could then mutate. The model returns sequence values, so later changes to the returned list are not modelled.
- Manager.PWM.Search: the Python result is a set of dataclass values, deduplicated by value equality and hashed by id, and turned into a list in arbitrary order. The model returns a set of records. Under the invariant the two coincide, because distinct records have distinct ids.
- Manager.PWM.GetEntries: a negative page follows Python's negative slice indices, as the code does (page -1 is empty, see `Slices.PageMinusOneEmpty`; page -2 counts from the end, see `Slices.PageMinusTwo`). It is not treated as an out-of-range page that is always empty.
- Mutation of the invariant by callers: a caller can assign a stored record's `id` directly (the test at pwm_test.py:149 assigns `next_expiration`). The mutating methods therefore promise `old(Valid()) ==> Valid()` and do not require `Valid()`.
- `main.py` (a web login route) and `gen_hash.py` (hash provisioning) are not part of this model.

## Findings

| source | as written | input that shows it | evidently intended | confidence | as-written member | corrected member |
|---|---|---|---|---|---|---|
| pwm.py:210 | `[tag for tag in entry.tags for entry in self.entries]` evaluates `entry.tags` in the outer clause, where `entry` is not yet bound | any call, even on an empty manager: `NameError` | the union of the tags of the active entries, `[tag for entry in self.entries for tag in entry.tags]` | high, not executed | Manager.PWM.GetAllTagsAsWritten | Manager.PWM.GetAllTags |
