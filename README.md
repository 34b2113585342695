# Code-copilot history: a Dafny model

This project models the two parts of the code-generation web application that carry logic:

- **Client history state** (`client/src/App.jsx`). The single-page client keeps an ordered
  list of history entries `{id, prompt, language, code, timestamp, favorite}` and the editing
  state (`prompt`, `language`, `code`, `isGenerating`, `theme`). Favourite flags live only in
  the browser: an effect writes the favourite ids to local storage whenever the history
  changes, and the page merges them back into the server's list when it loads. The component
  is the class `App.AppState`. Its fields are the state variables plus the two local-storage
  keys. A third field, `favoritesAtMount`, keeps what local storage held at page load. It is
  not part of the component: only the corrected `LoadHistory` reads it. Each handler is one method. The list transforms the handlers use (`map`, `filter`,
  spread-prepend) are functions in `HistoryList`.
- **History listing and deletion** (`server/src/controllers/historyController.js`).
  `GET /api/history` reads `page`, `limit` and `language` from the query string and applies
  defaults. It resolves the language key to a filter, sorts the matching rows newest first,
  returns one page of them in the client-facing shape and reports `meta`.
  `DELETE /api/history/:id` removes rows by id and answers 200 or 404. The Generation and
  Language tables are sequences of rows. `HistoryQuery` holds the listing as functions, and
  `HistoryStore.GenerationTable` is the Generation table as a class whose delete method
  updates its rows.

Modules: `Wrappers` (Option), `Seqs` (filter and subsequence, used by both sides), `Api`
(the JSON item the server sends), `JsString` (`String.prototype.trim`), `HistoryList`, `App`,
`HistoryQuery`, `HistoryStore`.

Inputs from outside the program are parameters:
- the reply of `GET /api/history` is an `Option<seq<Item>>`, where `None` means the request threw;
- the reply of `POST /api/generate` is an `Option<Item>`;
- the outcome of `DELETE` is a boolean that says whether axios resolved;
- what local storage held at page load is given to the constructor;
- `parseInt` of a query parameter is an `Option<int>`, where `None` means absent or NaN.

## Model

| member | source | states |
|---|---|---|
| `JsString.Trim` | client/src/App.jsx:72 | the trimmed prompt neither starts nor ends with white space |
| `JsString.TrimCut` | client/src/App.jsx:72 | the trimmed prompt is a contiguous part of the prompt: it is preceded and followed only by white space |
| `JsString.TrimEmptyIff` | client/src/App.jsx:72 | `prompt.trim()` is empty exactly when every character of the prompt is ECMAScript white space |
| `HistoryList.Merge` | client/src/App.jsx:33-37 | one entry per server item, same length and order, same id/prompt/language/code, timestamp from `createdAt`; `favorite` holds iff the id is in the saved list |
| `HistoryList.FavoriteIdsMembers` | client/src/App.jsx:63 | an id is in the derived favourite-id list iff some entry with that id is a favourite |
| `HistoryList.FavoriteIdsInOrder` | client/src/App.jsx:63 | the favourite entries are a subsequence of the history, and the saved ids are a subsequence of the history's ids (history order) |
| `HistoryList.MergeRestoresFavorites` | client/src/App.jsx:33-37 | with unique ids, merging a list's items with its own derived favourite ids gives back the list, flags included |
| `HistoryList.Prepend` | client/src/App.jsx:89-97 | the new entry is first, built from the reply with `favorite = false`; the previous list follows unchanged |
| `HistoryList.PrependKeepsFavoriteIds` | client/src/App.jsx:95-97 | prepending a new generation does not change the stored favourite ids |
| `HistoryList.RemoveById` | client/src/App.jsx:117 | no entry with the removed id remains |
| `HistoryList.RemoveByIdSpec` | client/src/App.jsx:117 | every entry with another id is kept as often as before and in its relative order; no other entry is dropped; a list without the id is unchanged |
| `HistoryList.RemoveByIdIdempotent` | client/src/App.jsx:117 | removing the same id again changes nothing |
| `HistoryList.ToggleFavorite` | client/src/App.jsx:124-126 | same length and order; entries with the id have `favorite` flipped and every other field kept; every other entry is unchanged |
| `HistoryList.ToggleFavoriteTwice` | client/src/App.jsx:124-126 | toggling the same id twice gives back the original list |
| `HistoryList.ToggleFavoriteOtherIds` | client/src/App.jsx:124-126 | toggling one id does not change whether any other id is a stored favourite |
| `HistoryList.ToggleFavoriteFlips` | client/src/App.jsx:124-126 | with unique ids, toggling an entry's id flips whether that id is a stored favourite |
| `App.ToggledTheme` | client/src/App.jsx:67-69 | the toggle yields light or dark, and dark exactly when the theme was light |
| `App.ToggleThemeTwice` | client/src/App.jsx:68 | toggling twice restores the theme exactly when it was light or dark (a saved theme of any other value does not come back) |
| `App.AppState.constructor` | client/src/App.jsx:13-65 | initial state; saved theme adopted when non-empty; the mount effects store the theme and an empty favourite list; what storage held at load is kept |
| `App.AppState.SetPrompt` | client/src/App.jsx:147 | the prompt box sets the prompt; storage stays in step |
| `App.AppState.SetLanguage` | client/src/App.jsx:142 | the language selector sets the language; storage stays in step |
| `App.AppState.ToggleTheme` | client/src/App.jsx:52-69 | the theme is toggled and the stored theme follows it |
| `App.AppState.LoadHistoryAsWritten` | client/src/App.jsx:22-45 | as written: on a reply the history becomes the merge with what storage holds after the mount effects ran (`SavedIds`: the stored list, `[]` when the key is unset); on failure it is unchanged |
| `App.AppState.LoadHistory` | client/src/App.jsx:22-45 | corrected: on a reply the history becomes the merge with the favourites saved at page load; on failure it is unchanged |
| `App.AppState.Generate` | client/src/App.jsx:71-105 | a blank prompt changes nothing; otherwise `isGenerating` ends false and the pane/history are as `GenerateShown` says; stored favourites are unchanged |
| `App.AppState.StartGenerate` | client/src/App.jsx:74-75 | before the request: busy and the pane cleared |
| `App.AppState.FinishGenerate` | client/src/App.jsx:77-104 | a reply with code shows it and prepends one entry; a reply without code leaves the pane empty and the history as it was; a failure shows the error placeholder and leaves the history; `isGenerating` ends false |
| `App.AppState.SelectHistory` | client/src/App.jsx:107-110 | the item's prompt, language and code become the editing state; nothing else changes |
| `App.AppState.DeleteHistory` | client/src/App.jsx:114-121 | an accepted delete removes the id from the history, a failed one changes nothing; the stored favourites follow |
| `App.AppState.ToggleFavorite` | client/src/App.jsx:123-127 | the history is toggled at the id and the stored favourites follow |
| `App.ReloadAsWritten` | client/src/App.jsx:22-65 | as written, after a reload no entry is a favourite, whatever was saved |
| `App.Reload` | client/src/App.jsx:22-65 | corrected: a reload that gets back the same entries from the server restores the history exactly, favourites included |
| `HistoryQuery.IntOr` | server/src/controllers/historyController.js:4-5 | `parseInt(x) \|\| d`: a parsed non-zero value is kept; absent, NaN, or 0 give the default; the result is never 0 |
| `HistoryQuery.PageOf` | server/src/controllers/historyController.js:4 | the page is never 0: it is the given value when that parses to a non-zero number, else 1 |
| `HistoryQuery.LimitOf` | server/src/controllers/historyController.js:5 | the limit is never 0: it is the given value when that parses to a non-zero number, else 10 |
| `HistoryQuery.Offset` | server/src/controllers/historyController.js:8 | for a positive limit, `(page - 1) * limit` is negative exactly when page < 1; page 1 starts at row 0 |
| `HistoryQuery.ClampLimit` | server/src/controllers/historyController.js:26 | `Math.min(limit, 100)`: at most the limit and at most 100, and equal to one of them |
| `HistoryQuery.CeilDivBounds` | server/src/controllers/historyController.js:46 | `Math.ceil(n / d)` is the least page count `c` with `(c - 1) * d < n <= c * d` |
| `HistoryQuery.Find` | server/src/controllers/historyController.js:14 | a Language lookup (`findOne` by key at :14, and the join by `languageId` at :22-25) returns a Language from the table that matches, or none when no Language matches |
| `HistoryQuery.LanguageFilter` | server/src/controllers/historyController.js:11-18 | a filter is set iff a non-empty key was given and some Language has it, and it is such a Language's id; an unknown key is silently ignored |
| `HistoryQuery.Matching` | server/src/controllers/historyController.js:20-21 | every selected row satisfies the where clause |
| `HistoryQuery.MatchingCounts` | server/src/controllers/historyController.js:20-21 | the where clause keeps every row it matches as often as the table holds it and no other; with no filter it keeps the whole table |
| `HistoryQuery.InsertByDate` | server/src/controllers/historyController.js:28 | inserting into a newest-first sequence keeps it newest first and adds exactly the one row |
| `HistoryQuery.SortNewestFirst` | server/src/controllers/historyController.js:28 | `ORDER BY createdAt DESC` yields a newest-first permutation of the rows |
| `HistoryQuery.Selected` | server/src/controllers/historyController.js:20-28 | the query's rows are newest first and a permutation of the matching rows: every matching row appears as often as in the table, and no other row |
| `HistoryQuery.SelectedFromTable` | server/src/controllers/historyController.js:20-29 | every row the query returns is a table row that satisfies the filter |
| `HistoryQuery.Window` | server/src/controllers/historyController.js:26-27 | `LIMIT`/`OFFSET`: at most `count` rows, none past the end, the rows from `offset` on in order |
| `HistoryQuery.FormatRows` | server/src/controllers/historyController.js:32-38 | formatting succeeds iff every row has its Language, and then maps each row to its item in order |
| `HistoryQuery.FormattedFields` | server/src/controllers/historyController.js:32-38 | a row formats exactly when a Language with its `languageId` exists; the item's `language` is that Language's key, and the item keeps the row's id, prompt, code and createdAt |
| `HistoryQuery.Reply.Status` | server/src/controllers/historyController.js:40-53 | a listing answers 200 and a failure 500 |
| `HistoryQuery.Respond` | server/src/controllers/historyController.js:20-53 | a 500 reply iff the limit or offset is negative or a row on the page lacks its Language; otherwise the page of formatted rows with the given meta |
| `HistoryQuery.GetHistory` | server/src/controllers/historyController.js:3-54 | negative page or limit gives a 500 reply; positive ones over a consistent table list; `meta` echoes the parsed, unclamped page and limit; `totalItems` counts every matching row; `totalPages` is ceil(totalItems / unclamped limit); exactly as many rows as the `LIMIT min(limit, 100) OFFSET (page - 1) * limit` window holds, so at most `min(limit, 100)` and none when offset >= totalItems; item `k` is matching row `(page - 1) * limit + k`, formatted |
| `HistoryQuery.ListedNewestFirst` | server/src/controllers/historyController.js:28 | every page, as written or with the clamped page size, is ordered by `createdAt` descending |
| `HistoryQuery.PageNewestFirst` | server/src/controllers/historyController.js:27-28 | a page cut from a newest-first sequence is newest first |
| `HistoryQuery.ListedHasRequestedKey` | server/src/controllers/historyController.js:13-18 | when the key names a Language (with unique Language ids), every returned item carries that key |
| `HistoryQuery.UnknownKeyIgnored` | server/src/controllers/historyController.js:13-18 | an absent, empty or unknown key filters nothing: `totalItems` is the size of the table |
| `HistoryQuery.DefaultQuery` | server/src/controllers/historyController.js:4-5 | a query with no parameters lists page 1: exactly the 10 newest rows, or every row when the table holds fewer, out of the whole table |
| `HistoryQuery.GetHistoryClamped` | server/src/controllers/historyController.js:8-46 | corrected listing: offset, `meta.limit` and `totalPages` use the clamped page size; the page holds the whole window of that size |
| `HistoryQuery.ClampedPagesCoverAll` | server/src/controllers/historyController.js:8-46 | corrected: position `j` of page `p` holds matching row `(p - 1) * size + j`, and that page is within `totalPages` |
| `HistoryQuery.OnPage` | server/src/controllers/historyController.js:8 | every row index `i` is position `i % size` of page `i / size + 1` |
| `HistoryQuery.PageWithinTotal` | server/src/controllers/historyController.js:46 | a page that holds a row is no later than `ceil(n / size)` |
| `HistoryQuery.AsWrittenSkipsRow` | server/src/controllers/historyController.js:8-27 | as written, with `limit=101` no page contains matching row 100 |
| `HistoryStore.WithoutId` | server/src/controllers/historyController.js:60-62 | no row with the id survives the delete |
| `HistoryStore.WithoutIdSpec` | server/src/controllers/historyController.js:60-62 | the delete removes every row with the id and no other, keeps the order, and removes something iff some row had the id |
| `HistoryStore.GenerationTable.Destroy` | server/src/controllers/historyController.js:60-62 | the rows become the rows without the id, and the returned count is the number removed, positive iff some row had the id |
| `HistoryStore.DeleteGeneration` | server/src/controllers/historyController.js:56-73 | the table loses the id's rows; the reply is `Deleted` (200) iff some row had the id, else `NotFound` (404) |
| `HistoryStore.DeleteReply.Status` | server/src/controllers/historyController.js:64-68 | status 200 exactly for a delete that removed rows, 404 exactly when nothing was removed |
| `HistoryStore.DeleteReply.Message` | server/src/controllers/historyController.js:64-68 | the reply text for each outcome |
| `HistoryStore.DeleteTwice` | server/src/controllers/historyController.js:56-73 | a second delete of the same id answers 404 |
| `HistoryStore.DeletedIdNotListed` | server/src/controllers/historyController.js:60-62 | after a delete, no listing shows the deleted id |
| `HistoryStore.PageAvoidsId` | server/src/controllers/historyController.js:32-38 | a page cut from the remaining rows has no item with the deleted id |

## Left out

- JSX rendering, CSS classes, the `dark` class on the document element, `showHistory` and the `window.innerWidth` check (client/src/App.jsx:19, 54-58, 111, 129-192): presentation only.
- axios and local storage: their results are parameters, and the writes are the `storedTheme`/`storedFavorites` fields. A stored favourite value that `JSON.parse` rejects is not modelled: only the application writes that key.
- `new Date(...).getTime()`: timestamps are abstract integers, and the entry's timestamp equals the item's `createdAt`. The spread at client/src/App.jsx:34 also copies `createdAt` into an entry. `Entry` does not have that field, because nothing in the component reads it.
- async interleavings: each handler runs to completion once its reply is given. A generate that completes before the initial fetch, whose result then replaces the history, is not modelled.
- Sequelize and SQL: the tables are sequences.
- The server's 500 replies when the database itself fails (server/src/controllers/historyController.js:50-53, 69-72) are not modelled. The listing's `StorageError` covers only two cases. First, MySQL (the dialect in server/src/config/config.cjs) rejects a negative LIMIT or OFFSET. Second, `row.Language.key` throws for a row whose Language is missing.
- HistoryQuery.GetHistory: page, limit and offset are exact unbounded integers. In the source they are JavaScript numbers from `parseInt`, exact only below 2^53, and MySQL takes LIMIT and OFFSET as unsigned 64-bit values. The model does not reply 500 to an offset beyond that range (for example page 10^20 with limit 10), and it echoes such a page exactly. The same holds for `HistoryQuery.GetHistoryClamped`, `HistoryQuery.IntOr` and `HistoryQuery.Offset`.
- HistoryQuery.LanguageFilter: the key lookup compares strings exactly. MySQL compares `key` under the column's collation, which by default ignores case and accents, so `?language=Python` would select the `python` rows. A different-case key counts as unknown in the model and filters nothing. The same holds for `HistoryQuery.UnknownKeyIgnored` and `HistoryQuery.ListedHasRequestedKey`.
- The `:id` route parameter is a string in the source and an integer here.
- HistoryQuery.SortNewestFirst: only the newest-first order and the permutation are proved. The source leaves the order of equal `createdAt` values to the database. The model keeps table order, but that is not stated as a contract.
- HistoryQuery.ClampedPagesCoverAll, HistoryQuery.AsWrittenSkipsRow, HistoryQuery.DefaultQuery and the positional clause of HistoryQuery.GetHistory (item `k` is matching row `offset + k`): these relate page contents to one fixed sorted sequence. Every request is cut from that same sequence, so ties in `createdAt` are broken the same way for all requests. `ORDER BY createdAt DESC` with LIMIT/OFFSET promises no tie order, and no shared order across requests. Of the source, these statements hold only when no two matching rows share a `createdAt`. When rows do share one, a row may appear on two pages or on none, even with the clamped page size.
- HistoryQuery.GetHistory: the contract gives the error cases and the success cases separately. The exact condition (a page row without a Language) is stated on `HistoryQuery.Respond`.
- server/test-models.js makes a manual network call to the AI provider. server/src/config/config.cjs is environment configuration. server/src/routes/history.js wires `GET /` and `DELETE /:id` to the two handlers. The generate endpoint's server side is not part of this model.

## Findings

| source | as written | input that shows it | evidently intended | confidence | as-written member | corrected member |
|---|---|---|---|---|---|---|
| client/src/App.jsx:29-30 | `fetchHistory` reads the favourite ids only after `await axios.get`. On mount, the favourites effect (:62-65) has already run on the empty history and written `[]` | saved favourites `[7]`, server list containing item 7: after reload entry 7 is not a favourite | merge with the favourites saved before the page loaded, so that a reload restores them | high; not executed | `App.ReloadAsWritten` (`App.AppState.LoadHistoryAsWritten`) | `App.Reload` (`App.AppState.LoadHistory`) |
| server/src/controllers/historyController.js:8 | the offset (:8) and `totalPages` (:46) use the requested limit, but at most 100 rows are returned (:26) | `limit=101` with at least 101 matching rows: page 1 shows rows 0-99, page 2 starts at row 101, row 100 is on no page | compute the offset and page count from the clamped page size | medium; not executed | `HistoryQuery.AsWrittenSkipsRow` (`HistoryQuery.GetHistory`) | `HistoryQuery.ClampedPagesCoverAll` (`HistoryQuery.GetHistoryClamped`) |

The corrected half of the second finding assumes that every request sees the same order among rows with equal `createdAt` (for example, all `createdAt` values distinct); see "## Left out".

`HistoryQuery.GetHistory` still models the handler as written, because its `meta` values are what clients of the API see. The lemmas about listings cover both versions: ordering, ids after a delete.
