# Attack on Titan character browser: favorites store and search filter

This project models the logic inside the three screens of a small React Native app that
browses "Attack on Titan" characters from a public REST API:

- **Favorites screen** (`screens/FavoritesScreen.js`): each time it gains focus, it reloads the
  favorites array stored under the `'favorites'` key. It keeps only entries with a usable `id`.
  After the user confirms, it removes one favorite from its list and writes that list back.
- **Details screen** (`screens/DetailsScreen.js`): it shows one fetched character. Its
  "add to favorites" action reads the stored array, treating a missing one as `[]`. It reports
  "already exists" when an entry has the same `id`. Otherwise it appends the character and
  writes the whole array back.
- **Home screen** (`screens/HomeScreen.js`): it fetches the character list. On every
  keystroke it filters that list by a case-insensitive substring match on `name`. A blank
  query shows the whole list.

Each event handler is one atomic step. The outcome of every I/O call is an input: the fetched
response is an `Option`, and the storage write's success is a `bool`. Storage is a class
`Storage.Store` with one field, the value under `'favorites'`. That value is abstracted as
`Absent | Malformed | Stored(entries)`, and each entry is a character or `null`. A
character's `id` is `Undefined | Null | Num(n)`. On those values, structural equality is
JavaScript's strict equality `===`, which tells `null` and `undefined` apart.

Files: `wrappers.dfy` (Option), `seqs.dfy` (order-preserving filter and subsequences),
`characters.dfy`, `storage.dfy`, `favorites.dfy`, `details.dfy`, `home.dfy`, and
`scenario.dfy`. The last is a client that adds a character, adds it again, and removes it,
checked against the screens' contracts alone.

Where the documented contract of the favorites store and the code differ, the model follows
the code:
- Loading a malformed blob leaves the screen list as it was; it does not empty it.
- Remove writes the screen's own list. It does not re-read storage first.
- Add does not reject a character whose `id` is missing or `null`. Only loading drops such
  entries.
- A failed list fetch keeps the previous lists; it does not empty them.
- A successful fetch shows the whole fetched list even while the search bar holds a
  non-blank query.

## Model

| member | source | states |
|---|---|---|
| Seqs.Filter | screens/HomeScreen.js:31 | `Array.prototype.filter`: the result is no longer than the input, and every kept element comes from the input and satisfies the predicate |
| Seqs.FilterMembership | screens/FavoritesScreen.js:66 | an element is kept by a filter exactly when it is in the input and satisfies the predicate |
| Seqs.FilterIsSubsequence | screens/FavoritesScreen.js:66 | a filter keeps its elements in their original relative order |
| Seqs.FilterIdempotent | screens/FavoritesScreen.js:66 | filtering twice with one predicate equals filtering once |
| Storage.Entries | screens/FavoritesScreen.js:68 | the array written for a list of characters has one present entry per character, same order |
| Storage.Store.constructor | screens/DetailsScreen.js:29 | storage starts with the given value under `'favorites'` |
| Characters.HasValidId | screens/FavoritesScreen.js:51 | a character's id is usable exactly when it is neither `undefined` nor `null` |
| Favorites.IsValidEntry | screens/FavoritesScreen.js:51 | a stored entry is kept exactly when it is not `null` and its id is neither `undefined` nor `null` |
| Favorites.ValidEntries | screens/FavoritesScreen.js:51 | the loaded list is no longer than the stored array, and each of its characters is stored as a present entry with an `id` that is neither `undefined` nor `null` |
| Favorites.ValidEntriesMembership | screens/FavoritesScreen.js:51 | a character is loaded if and only if it is stored as a present entry with a usable `id` (an id of 0 is kept) |
| Favorites.ValidEntriesOrder | screens/FavoritesScreen.js:51 | the loaded list keeps the stored order: a subsequence of the stored array |
| Favorites.ValidEntriesIsFilter | screens/FavoritesScreen.js:51 | the loaded list equals the generic order-preserving filter of the stored array by "present with a usable id" |
| Favorites.ValidEntriesAppend | screens/FavoritesScreen.js:51 | loading a concatenation of arrays is loading each part in turn, so stored order is kept |
| Favorites.Loaded | screens/FavoritesScreen.js:48-57 | the list after a load: empty for an absent blob, the previous list for a malformed one, otherwise no longer than the stored array and holding only stored characters with usable ids |
| Favorites.ValidEntriesRoundTrip | screens/FavoritesScreen.js:51-68 | a list whose characters all have usable ids is loaded back unchanged after it is written |
| Favorites.LoadedAllValid | screens/FavoritesScreen.js:48-57 | after any load (absent, malformed or stored blob) the screen list holds only characters with usable ids |
| Favorites.WithoutId | screens/FavoritesScreen.js:66 | the list after removing an id is no longer than before and holds only characters of the list without that id |
| Favorites.WithoutIdMembership | screens/FavoritesScreen.js:66 | after removing an id, no character with that id remains, and every other character stays |
| Favorites.WithoutIdOrder | screens/FavoritesScreen.js:66 | removing keeps the relative order of the remaining characters |
| Favorites.WithoutIdAbsent | screens/FavoritesScreen.js:66 | removing an id that no character has leaves the list unchanged |
| Favorites.WithoutIdTwice | screens/FavoritesScreen.js:66 | removing the same id twice equals removing it once |
| Favorites.RemoveThenLoad | screens/FavoritesScreen.js:66-68 | after a remove whose write succeeds, the next load shows exactly the list after removal |
| Favorites.FavoritesScreen.constructor | screens/FavoritesScreen.js:41 | the screen list starts empty |
| Favorites.FavoritesScreen.LoadFavorites | screens/FavoritesScreen.js:45-59 | an absent blob empties the list; a malformed one leaves it unchanged; a stored array sets it to the valid entries; storage is not written; every listed character has a usable id |
| Favorites.FavoritesScreen.RemoveFavorite | screens/FavoritesScreen.js:64-74 | the list loses exactly the characters with the id; if the write succeeds, storage holds the new list, otherwise storage is unchanged while the list keeps the removal |
| Details.FindById | screens/DetailsScreen.js:32 | the left-to-right `some` scan: a true answer is witnessed by a stored entry with the id, and it throws only on an array holding a `null` entry |
| Details.FindByIdNotFound | screens/DetailsScreen.js:32 | the `some` scan answers false exactly when every entry is present and none has the id |
| Details.FindByIdNullFree | screens/DetailsScreen.js:32 | on an array without `null` entries the scan never throws, and it answers true exactly when some entry has the id |
| Details.FindByIdAppend | screens/DetailsScreen.js:32-38 | appending to an array where the scan found nothing makes the scan's answer depend only on the new entry |
| Details.ScanForId | screens/DetailsScreen.js:32 | the loop over the array stops at the first match or `null` entry and returns what the left-to-right scan specifies |
| Details.AddFavorite | screens/DetailsScreen.js:27-44 | the add as one step: storage changes only when the result is Added, which needs a successful write and leaves an array stored; a malformed blob always fails |
| Details.AddToAbsent | screens/DetailsScreen.js:29 | an absent blob counts as `[]`: the add succeeds exactly when the write does, storing the one-element array |
| Details.AddAppends | screens/DetailsScreen.js:38-39 | the add succeeds if and only if the write succeeds and every entry is present without the id; then the array grows by one, keeps the old entries in order, and ends with the character |
| Details.AddDuplicate | screens/DetailsScreen.js:32-35 | when the scan reaches an entry with the character's id before any `null` entry, the result is AlreadyExists and nothing is written, whatever follows the match |
| Details.FindByIdMatchPrefix | screens/DetailsScreen.js:32 | the scan answers true when a matching entry is preceded only by present entries |
| Details.AddNullEntryFails | screens/DetailsScreen.js:32 | a `null` entry reached before any match makes the add fail without a write |
| Details.FindByIdNullPrefix | screens/DetailsScreen.js:32 | the scan throws when a `null` entry comes before any match |
| Details.AddKeepsIdsDistinct | screens/DetailsScreen.js:32-39 | if the stored ids are pairwise distinct before an add, they are after it |
| Details.AddTwice | screens/DetailsScreen.js:32-39 | right after a successful add, adding the same character again reports AlreadyExists and leaves storage as the first add left it |
| Details.AddThenLoad | screens/DetailsScreen.js:38-39 | after a successful add of a character with a usable id, the next load of the favorites screen shows what it showed before, followed by that character |
| Details.AddStoresIdLessCharacter | screens/DetailsScreen.js:38 | a character without a usable id is still stored by add, and loading the result does not show it |
| Details.DetailsScreen.constructor | screens/DetailsScreen.js:8-10 | no character is shown and loading is on |
| Details.DetailsScreen.FetchCharacterDetails | screens/DetailsScreen.js:13-23 | a successful fetch shows the fetched character, a failed one keeps the previous value; loading ends either way |
| Details.DetailsScreen.AddToFavorites | screens/DetailsScreen.js:27-44 | the result and the new stored value are what the add specification gives for the old stored value, the shown character and the write's success |
| Home.Trim | screens/HomeScreen.js:28 | `trim` gives the empty string exactly for a query made only of JavaScript whitespace and line terminators, and otherwise a string that neither starts nor ends with one |
| Home.ToLower | screens/HomeScreen.js:32 | lowercasing keeps the length and maps each character on its own (ASCII letters only) |
| Home.Contains | screens/HomeScreen.js:32 | `includes` can hold only when the substring is no longer than the string |
| Home.ContainsIff | screens/HomeScreen.js:32 | `includes` holds exactly when the substring occurs at some position |
| Home.NameMatches | screens/HomeScreen.js:32 | a name can match only a query that is no longer than the name |
| Home.FilterByName | screens/HomeScreen.js:31-33 | the filtered list is no longer than the list and holds only its characters whose name matches |
| Home.SearchResult | screens/HomeScreen.js:28-34 | the shown list is the whole list for a blank query, holds only characters of the list, and for a non-blank query only characters whose name matches |
| Home.SearchBlank | screens/HomeScreen.js:28-29 | a blank query shows the whole list, same elements, same order |
| Home.SearchMembership | screens/HomeScreen.js:31-34 | a non-blank query shows exactly the characters whose lowercased name contains the lowercased, untrimmed query |
| Home.SearchIsSubsequence | screens/HomeScreen.js:31 | the shown list is a subsequence of the fetched list and no longer than it |
| Home.SearchSameLower | screens/HomeScreen.js:32 | two queries with the same lowercase form show the same list |
| Home.SearchIgnoresCase | screens/HomeScreen.js:32 | the uppercase and lowercase spellings of a query show the same list as the query |
| Home.SearchKeepsLeadingSpace | screens/HomeScreen.js:28-32 | a non-blank query is matched untrimmed: with a leading space, only names containing a space match |
| Home.HomeScreen.constructor | screens/HomeScreen.js:7-10 | both lists are empty, loading is off, and the query is empty |
| Home.HomeScreen.FetchCharacters | screens/HomeScreen.js:12-24 | on success both lists become the fetched list, whatever the query; on failure both lists are kept; loading ends false |
| Home.HomeScreen.OnChangeSearch | screens/HomeScreen.js:26-36 | the query is recorded, the shown list becomes the search result for it, and the fetched list is untouched |

## Left out

- Rendering, styles, list tuning and key extraction, alert dialogs and the remove confirmation, navigation, and `console.error` logging. These are presentation only.
- HTTP requests: each response is an input to the handler, `None` when the request fails. A successful details response whose body is `null` is not modelled.
- JSON text and the storage API: the stored value is the abstract blob. An empty stored string behaves like an absent one in both screens, so it is folded into `Absent`. A read from storage that itself fails is not modelled.
- Array entries that are neither objects nor `null` (numbers or strings inside the stored array) are not modelled. Each entry is a character or `null`.
- Ids are integers or missing/`null`. String ids, where `"1" !== 1`, are not modelled. Only `id` and `name` are kept of a character record.
- A character whose `name` is missing, which makes the search filter throw, is not modelled.
- Home.ToLower: lowercases ASCII letters only; JavaScript's full Unicode `toLowerCase` is not modelled.
- Home.HomeScreen.FetchCharacters: states only the final `loading` value; the intermediate `loading = true`, visible while the request is pending, is not modelled.
- Concurrency: two overlapping handlers, such as two quick "add" taps that both read stale storage, are not modelled. Each handler runs atomically.
