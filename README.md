# CosShop grocery list — a Dafny model

CosShop is a shared grocery list. A browser client (`cosshop-frontend/src/App.js`) shows the
items and a text field with suggestions from the history of past names. A small REST server
(`cosshop/api/`) keeps two tables:

- `GroceryItem`: name, date added, checked flag, position and list ("paris" or "saussaye");
- `GroceryHistory`: the names added so far, unless deleted, with the time each was last added.

This project models both halves:

- `schema.dfy` (module `Schema`): the two records, the field defaults and the table invariants
  from the model declarations. These are the length limits, the list choices, the non-negative
  position, the unique `(name, list_name)` pair of items and the unique history name.
- `views.dfy` (module `Views`): the server's views. The database is the class `Backend`. It has
  one map per table, from primary key to record, plus the next key of each. `Create` validates
  a request, stores the record and upserts the history row. `Reorder` is the reorder loop,
  updating the item map in place. The listing, the history search and the full history are
  functions of the tables.
- `client.dfy` (module `Client`): `formatDate`, and the component state (`items`, `input`,
  `suggestions`) as the class `App`. Its methods are the transitions that follow each request.
  Each method returns what it would send and takes the request's outcome as a parameter. The
  list updates are the functions `WithoutId`, `ReplaceById`, `Unchecked` and `CheckedIds`.
- `common.dfy`, `seqs.dfy`, `sorting.dfy`, `text.dfy`: Option/Result, order-preserving
  filter and map, a stable insertion sort, and string helpers. The helpers are ECMAScript's
  `trim` with its exact whitespace set, ASCII lower-casing and decimal digits.

Timestamps are integers from a clock parameter (`now`), in place of the automatic
`auto_now_add`/`auto_now` fields. Primary keys come from per-table counters that never
reuse a key.

The client and the server disagree on what a duplicate is. The model keeps this disagreement.
The client compares lower-cased names against the trimmed input across every shown item, in
both lists. It then sends the input untrimmed. The server's uniqueness is on the exact
`(name, list_name)` pair. `SentTrimmedNameIsNew`, `UntrimmedNamesSlipThrough` and
`ClientStricterThanServer` state where the two agree and where they do not.

`App.js` has no offline action queue, no list tabs and no drag-and-drop reordering; the model
follows the source.

## Model

| member | source | states |
|---|---|---|
| `Schema.ItemTableOk` | cosshop/api/models.py:4-14 | the item table's declared constraints (the row's own key, name of 1 to 255 characters, `order >= 0`, one of the two lists, unique `(name, list_name)`); a table meeting them holds no record under two keys |
| `Schema.HistoryTableOk` | cosshop/api/models.py:20-22 | the history table's declared constraints (the row's own key, name of 1 to 255 characters, unique name); a table meeting them holds no record under two keys |
| `Views.Backend.Valid` | cosshop/api/models.py:3-22 | both tables meet their constraints and every key is below the table's counter, so the next key of each table is unused |
| `Schema.NewItem` | cosshop/api/models.py:3-12 | a created record has the request's name, `added_at` from the clock, and `checked = false`, `order = 0`, `list_name = "paris"` for each field the request omits |
| `Views.ValidateCreate` | cosshop/api/models.py:4-14 | a create request is accepted exactly when the name is 1 to 255 characters, the order is non-negative, the list is one of the two choices and no row has the same exact `(name, list_name)`; a `NotUnique` refusal means such a row exists |
| `Views.CreateKeepsItemTable` | cosshop/api/models.py:14 | storing an accepted record under a fresh id keeps every field constraint and the pair uniqueness of the item table |
| `Views.NameOnlyRequest` | cosshop/api/models.py:6-12 | a request with only a name is accepted exactly when the name is 1 to 255 characters and not yet in list "paris", and yields an unchecked record at order 0 in "paris" |
| `Views.ItemListing` | cosshop/api/views.py:11 | the listing holds every row of the item table and nothing else, with no row repeated when rows carry their own key, sorted ascending by `order` and, for equal `order`, by `added_at` |
| `Views.UpsertHistory` | cosshop/api/views.py:17 | after the upsert some row has the name and `last_added = now`; an existing row with the name is refreshed, and otherwise one row is inserted under a fresh id; rows with other names are unchanged; the history invariants are kept |
| `Views.UpsertLeavesOneRow` | cosshop/api/models.py:21 | after creating an item there is exactly one history row with its name, whether or not one existed before |
| `Views.Backend.Create` | cosshop/api/views.py:14-17 | a valid request stores the record under the next id and upserts the history with its name; an invalid one changes neither table; the database invariant is kept |
| `Views.Matching` | cosshop/api/views.py:25 | the history rows returned are exactly those whose name starts with the query, ignoring case, with no row repeated when rows carry their own key |
| `Views.NewestFirst` | cosshop/api/views.py:25 | the rows reordered newest first: the same rows with the same multiplicities |
| `Views.NewestFive` | cosshop/api/views.py:25 | at most five of the given rows, never more copies of a row than given, newest first, and a row is left out only when five rows at least as new were kept |
| `Views.SearchHistory` | cosshop/api/views.py:22-26 | an absent or empty `q` gives no rows; otherwise at most five rows, each in the table and starting with `q` ignoring case, newest first, none repeated when rows carry their own key; a matching row is missing only when five rows at least as new were returned |
| `Views.AllHistory` | cosshop/api/views.py:31-33 | the full history holds every row and nothing else, with no row repeated when rows carry their own key, newest first |
| `Views.LastIndexOf` | cosshop/api/views.py:50-51 | the result is the last position of the id in `ids`, or -1 when it does not occur |
| `Views.Reordered` | cosshop/api/views.py:49-51 | an item whose id occurs in `ids` ends with `order` equal to the last position of that id; other items are unchanged; no field but `order` changes; the table invariant, including `order >= 0`, is kept |
| `Views.ReorderedNothing` | cosshop/api/views.py:49 | with no ids the table is unchanged |
| `Views.ReorderedStep` | cosshop/api/views.py:50-51 | processing one more position of `ids` is one more row update, applied only if a row with that id exists |
| `Views.Backend.Reorder` | cosshop/api/views.py:44-52 | the loop leaves the item table equal to `Reordered` of the old table and `ids` (an absent key counts as an empty list), leaves the history alone, keeps the database invariant and answers "ok" |
| `Client.FormatDate` | cosshop-frontend/src/App.js:5-11 | "" exactly when there is no date; "NaN/NaN" for an unparseable one; otherwise five characters: two digits reading back as the day, '/', and two digits reading back as the 1-based month |
| `Client.TwoDigits` | cosshop-frontend/src/App.js:8-9 | `String(n).padStart(2, "0")` for n below 100 is two digits reading back as n |
| `Client.CheckAdd` | cosshop-frontend/src/App.js:37-46 | nothing is sent for input that is all whitespace; a duplicate (the trimmed input equals some shown name, ignoring case) raises a notice; otherwise the request body is the input exactly as typed |
| `Client.AddFailureAlertAsWritten` | cosshop-frontend/src/App.js:62-65 | an error body alerts the server's first message about the name when it is non-empty, and otherwise the generic notice; a thrown JavaScript error alerts the first letter of its class name |
| `Client.NetworkFailureAlertsOneLetter` | cosshop-frontend/src/App.js:60-65 | a network failure (a `TypeError` from `fetch`) alerts "T", not the generic notice |
| `Client.AddFailureAlert` | cosshop-frontend/src/App.js:62-65 | the alert is the server's first message about the name when it is non-empty, and otherwise the generic notice; it is never empty, and always the notice for a thrown error |
| `Client.AlertsAgreeOnServerReplies` | cosshop-frontend/src/App.js:48-51 | for every error body the server sends, the corrected alert equals the alert as written |
| `Seqs.FilterCounts` | cosshop-frontend/src/App.js:97 | `filter` keeps each value that passes the test exactly as many times as the list holds it, and no other value |
| `Client.WithoutId` | cosshop-frontend/src/App.js:72 | the result holds no item with the id and keeps every other item exactly as many times as the list holds it; it is a subsequence of the list, so relative order is kept |
| `Client.DeleteIdempotent` | cosshop-frontend/src/App.js:72 | deleting an id twice gives the same list as deleting it once |
| `Client.ReplaceById` | cosshop-frontend/src/App.js:85 | same length; each item with the id is replaced by the reply, every other item stays at its position |
| `Client.ReplaceKeepsOthers` | cosshop-frontend/src/App.js:85 | replacing by a record with the same id leaves the list outside that id exactly as it was |
| `Client.Unchecked` | cosshop-frontend/src/App.js:97 | the result is exactly the unchecked items, each as many times as the list holds it, as a subsequence of the list |
| `Client.CheckedIds` | cosshop-frontend/src/App.js:91-95 | position by position, the ids of the checked items in list order (one per checked item, repeats included); every checked item's id is included, the ids are a subsequence of the list's ids, and together with the unchecked items they account for the whole list |
| `Client.NoCheckedAfterDeleteAll` | cosshop-frontend/src/App.js:97 | after deleting the checked items no checked item remains, and repeating the deletion changes nothing |
| `Client.ButtonShownIffDeletes` | cosshop-frontend/src/App.js:175 | the "Delete all checked" button is shown exactly when pressing it sends at least one request |
| `Client.CheckingShowsButton` | cosshop-frontend/src/App.js:85 | replacing a listed item by a checked record makes the button appear |
| `Client.SuggestionQuery` | cosshop-frontend/src/App.js:26-27 | no query for blank input; otherwise the query is the trimmed input, non-empty and neither starting nor ending with whitespace |
| `Client.SentTrimmedNameIsNew` | cosshop-frontend/src/App.js:39-46 | if the shown list holds every server row and the input has no surrounding whitespace, a name the client sends is not a `(name, "paris")` pair the server already holds |
| `Client.UntrimmedNamesSlipThrough` | cosshop-frontend/src/App.js:46 | with " milk" shown, "milk" passes the client check and the server accepts it, so both names end up in the list |
| `Client.ClientStricterThanServer` | cosshop-frontend/src/App.js:39 | a "Milk" in list "saussaye" makes the client refuse "milk", which the server would accept in list "paris" |
| `Client.App.constructor` | cosshop-frontend/src/App.js:14-16 | the component starts with no items, an empty field and no suggestions |
| `Client.App.LoadItems` | cosshop-frontend/src/App.js:19-23 | the initial load replaces the list by the server's listing |
| `Client.App.SetInput` | cosshop-frontend/src/App.js:123 | typing sets the field and nothing else |
| `Client.App.RefreshSuggestions` | cosshop-frontend/src/App.js:25-33 | blank input clears the suggestions without a request; otherwise the trimmed input is the query and the reply, when there is one, becomes the suggestions |
| `Client.App.AddItem` | cosshop-frontend/src/App.js:35-67 | blank input changes nothing and sends nothing; a duplicate sends nothing and raises the duplicate notice; otherwise the raw input is sent, and on success the record is appended at the end, the field is cleared and the suggestions are hidden, while on failure the state is unchanged and the corrected notice `AddFailureAlert` is raised |
| `Client.App.DeleteItem` | cosshop-frontend/src/App.js:70-74 | once the request resolves, the list is `WithoutId` of the old list; if it rejects, the list is unchanged |
| `Client.App.ToggleChecked` | cosshop-frontend/src/App.js:77-87 | the request carries the negation of the given `checked`; the reply replaces the items with that id; no reply leaves the list unchanged |
| `Client.App.DeleteAllChecked` | cosshop-frontend/src/App.js:90-99 | the requests are `CheckedIds` of the old list, in order; once all resolve the list is exactly the unchecked items in order; if any rejects, the list is unchanged |
| `Client.App.HandleSuggestion` | cosshop-frontend/src/App.js:101-105 | the picked name becomes the input and the suggestions close; the list is unchanged |
| `Client.App.ShowDeleteAllChecked` | cosshop-frontend/src/App.js:175 | the button is rendered exactly when some request would be sent by pressing it |

## Findings

| source | as written | input that shows it | evidently intended | confidence | as-written member | corrected member |
|---|---|---|---|---|---|---|
| cosshop-frontend/src/App.js:62-65 | the `catch` of `addItem` alerts `err?.name?.[0]`, which reads the server's `name` messages but also the `name` property of a JavaScript error | the server is unreachable, so `fetch` rejects with a `TypeError` whose `name` is "TypeError", and the alert reads "T" | the generic notice "Erreur lors de l’ajout…" for every failure that is not a message about the name | high; not executed | `Client.AddFailureAlertAsWritten` (shown by `Client.NetworkFailureAlertsOneLetter`) | `Client.AddFailureAlert`, used by `Client.App.AddItem` |

## Left out

- HTTP, `fetch`, JSON, promise chaining, `alert` and input focus are left out. Each client method returns the request it would send and any notice it would raise, and takes the request's outcome as a parameter.
- Rendering, styling and the React effect lifecycle are left out. The effect on `input` is the method `RefreshSuggestions`, to be called after the input changes. Picking a suggestion changes `input`, so that effect runs again and fetches suggestions for the picked name.
- Concurrency is left out: two browsers, and replies that arrive after the state they were computed from has changed. Each transition is applied atomically to the state it was started from.
- Client.App.ToggleChecked: an error reply from the server (for example for a deleted item) puts the error body into the list in place of the item. The model only takes a record or no reply.
- Client.FormatDate: date parsing and time-zone conversion (`new Date`, `getDate`, `getMonth`) are not modelled. The function takes the day and 0-based month directly.
- Text.Lower: `toLowerCase` and `istartswith` are modelled on ASCII letters only. Unicode case folding is not modelled.
- Views.ValidateCreate: the framework's field validation is modelled only as the declared constraints. Only the first failing field is reported, not the full error map. Its whitespace trimming of `CharField` input is framework code, not part of this model, so the server stores the name as received. The client's `name` messages are a parameter of `AddFailure`, not derived from `CreateError`.
- The item detail views (retrieve, patch, delete), the history delete view, URL routing, the serializers and the migration are generic framework wiring. They are not part of this model. The listing order is the one in `views.py:11`, which the migration duplicates.
- Views.ItemListing and Views.AllHistory: the database leaves the order among rows with equal sort keys unspecified. The model uses primary-key order for those rows.
- Views.Backend.Reorder: `ids` is a list of integers. Non-integer JSON values in `ids` are not modelled.
- Client.App.AddItem: on a failed request it raises the corrected alert `AddFailureAlert`. The code as written alerts `AddFailureAlertAsWritten`, which is "T" on a network failure (see Findings).
- Client.App.RefreshSuggestions: the query is put into `?q=` without URL encoding. Characters such as `&`, `#`, `+` and `%` change the query the server reads ("fish & chips" is searched as "fish "). The model sends the trimmed input as the query the server receives.
- Client.App.DeleteItem and Client.App.DeleteAllChecked: a rejected request leaves the list unchanged. For `DeleteAllChecked` that holds even when some of the deletes reached the server, so the list can show items the server no longer has. The server side of each delete is not modelled.
- Transactions, and ids consumed by failed inserts, are not modelled. Keys only need to be fresh.
