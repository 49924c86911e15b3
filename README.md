# GPU inventory screen: resource store and list view, modelled in Dafny

The system is a CRUD screen for "resources" (GPU cards). Each resource has a name, a type, a description and an optional image. There are two halves:

- **Server** (`ResourceController`). It validates create and update requests against fixed Laravel rules and writes the `resources` table. It stores uploaded images on the public disk, and on update deletes the image it replaces. `destroy` deletes a record and keeps its image.
- **Client** (the `Index` page component). It receives every row. It filters them locally by a case-insensitive substring of name or description, cuts the result into pages of five, and drives a create/edit modal from a few `useState` fields.

Modules:

- `Records` (records.dfy): the row the page receives (`Resource`), `Option` and `Path`. The source's `type` column is the field `kind`, because `type` is a Dafny keyword.
- `Text` (text.dfy): ASCII `toLowerCase`, `String.prototype.includes`, and PHP's notion of a blank string.
- `Validation` (validation.dfy): the rule lists of `store` and `update`, and an interpreter for the Laravel rule semantics those lists use. It is proved equal to a direct characterization of an acceptable submission.
- `ResourceController` (resource_controller.dfy): class `Controller`. It holds the table as a `map` from id to record, the disk as a `set` of paths, and the next auto-increment id. `Store`, `Update` and `Destroy` are methods with `modifies this`. `Index` is a function. The object invariant `Valid()` (the predicate `Consistent` on the three fields) says:
  - every id is below the next id;
  - every record has a non-blank name and type, each at most 255 characters;
  - every image path is on the disk;
  - no two records share an image path.
- `ListView` (list_view.dfy): the derived view as functions: `Filter`, `TotalPages`, `JsSlice`/`Displayed`, and the Next/Previous updaters. The lemmas beside them state the filter, paging and clamping properties.
- `IndexPage` (index_page.dfy): class `Page`, whose fields are the component's `useState` variables and whose methods are its handlers. A handler that talks to the server returns the request it would hand to Inertia, as a `Request` value.

Three behaviours of the code are easy to miss, and the model keeps them:

- The current page is not kept within `[1, totalPages]`. On an empty list, Next moves page 1 to page 0. A narrower search leaves the page past the last one, and that page shows nothing.
- `update` overwrites the description only when the request carries a `description` key (`$request->only`). A request without the key keeps the old description. The client always sends the key.
- `required` rejects whitespace-only strings as well as empty ones, because Laravel trims before testing.

## Model

| member | source | states |
|---|---|---|
| Text.ContainsIffOccurs | resources/js/Pages/Resources/Index.jsx:58-59 | `includes` holds exactly when the query occurs at some position of the lower-cased field |
| Text.Contains | resources/js/Pages/Resources/Index.jsx:58-59 | every string includes the empty query; a query that is found is no longer than the string; between strings of equal length `includes` is equality |
| Text.LowerAt | resources/js/Pages/Resources/Index.jsx:58-59 | lower-casing maps each character on its own: ASCII `A`-`Z` to `a`-`z`, every other character unchanged |
| Text.Lower | resources/js/Pages/Resources/Index.jsx:58-59 | lower-casing keeps the length of the string |
| ListView.Filter | resources/js/Pages/Resources/Index.jsx:56-60 | every kept row is one of the server's rows and matches the query on name or description; the list never grows |
| ListView.Matches | resources/js/Pages/Resources/Index.jsx:57-59 | the empty query matches every row; a match needs a name, or a description, at least as long as the query |
| ListView.MatchesIffOccurs | resources/js/Pages/Resources/Index.jsx:57-59 | a row matches if and only if the lower-cased query occurs at some position of its lower-cased name or of its lower-cased description |
| ListView.Renderable | resources/js/Pages/Resources/Index.jsx:57-59 | the filter callback throws on no row: rows that all carry a description render under any query, and the empty query renders any rows |
| ListView.FilterSelects | resources/js/Pages/Resources/Index.jsx:56-60 | the filtered list is the server's list read at the strictly increasing positions `KeptIndices`: an order-preserving subsequence |
| ListView.KeptIndicesExact | resources/js/Pages/Resources/Index.jsx:57-59 | a position of the server's list is kept if and only if its row matches the query |
| ListView.FilterMembership | resources/js/Pages/Resources/Index.jsx:57-59 | a row is in the filtered list if and only if it is a server row whose lower-cased name or description contains the lower-cased query |
| ListView.FilterIdempotent | resources/js/Pages/Resources/Index.jsx:56-60 | filtering the filtered list again with the same query returns it unchanged |
| ListView.EmptyQueryKeepsAll | resources/js/Pages/Resources/Index.jsx:57-59 | the empty query keeps every row and never reaches a null description |
| ListView.FilterIgnoresQueryCase | resources/js/Pages/Resources/Index.jsx:58-59 | two queries that lower-case alike select the same rows |
| ListView.NvidiaKept | resources/js/Pages/Resources/Index.jsx:56-60 | the row "RTX 4090"/"NVIDIA" is kept by the search "nvidia" in any case |
| ListView.AmdDropped | resources/js/Pages/Resources/Index.jsx:56-60 | the row "RTX 4090"/"NVIDIA" is dropped by the search "amd" in any case |
| ListView.TotalPages | resources/js/Pages/Resources/Index.jsx:62 | the page count is the least number of five-row pages that holds all filtered rows (a ceiling) |
| ListView.NoPagesOnlyWhenEmpty | resources/js/Pages/Resources/Index.jsx:62 | the page count is 0 exactly when the filtered list is empty |
| ListView.JsSlice | resources/js/Pages/Resources/Index.jsx:63-66 | `slice` returns at most the whole list, only elements of it, `s[start..end]` for in-range non-negative bounds, and nothing when a non-negative end is not past the start |
| ListView.Displayed | resources/js/Pages/Resources/Index.jsx:63-66 | the current page shows at most five rows, each one of the filtered rows; page 0 shows none |
| ListView.DisplayedIsPageSlice | resources/js/Pages/Resources/Index.jsx:63-66 | page p >= 1 shows `filtered[min((p-1)*5, n) .. min(p*5, n)]`, at most five rows; page 0 shows none (JS `slice` with a negative start) |
| ListView.DisplayedOnExistingPage | resources/js/Pages/Resources/Index.jsx:63-66 | on a page from 1 to the page count the view is `filtered[(p-1)*5 .. min(p*5, n)]`, with one to five rows |
| ListView.DisplayedPastLastPage | resources/js/Pages/Resources/Index.jsx:63-66 | a page past the page count, left there by a narrower search, shows nothing |
| ListView.EveryRowHasAPage | resources/js/Pages/Resources/Index.jsx:62-66 | filtered row i is shown on the existing page i/5+1, in slot i%5 |
| ListView.NextPage | resources/js/Pages/Resources/Index.jsx:68-70 | Next never exceeds the page count, stays within `[1, total]` once inside it, advances by one below the last page, and from the last page or past it lands on the page count (`Math.min`) |
| ListView.PrevPage | resources/js/Pages/Resources/Index.jsx:72-74 | Previous never goes below 1, steps back by one above page 1, and from page 1 or below lands on 1 (`Math.max`) |
| ListView.PagerBoundaries | resources/js/Pages/Resources/Index.jsx:68-74 | Next is a no-op on the last page and Previous on page 1; on an empty list Next takes page 1 to page 0 |
| ListView.PagerKeepsPageNatural | resources/js/Pages/Resources/Index.jsx:68-74 | from any page >= 0 both updaters give a page >= 0 |
| ListView.TwelveRowsScenario | resources/js/Pages/Resources/Index.jsx:62-74 | twelve rows make three pages; Next stays on page 3 and Previous stays on page 1 |
| Validation.StoreRulesFlag | app/Http/Controllers/ResourceController.php:23-28 | a field is flagged exactly when it breaks its rule: a required name or type that is missing, null, blank, an empty array, any other non-string value, or longer than 255; a description that is an upload or a non-string JSON value; an image that is neither absent nor a jpeg/png/jpg/gif upload of at most 2048 KB |
| Validation.StoreRulesAccept | app/Http/Controllers/ResourceController.php:23-28 | validation passes if and only if the submission is acceptable by that characterization |
| Validation.FieldPasses | app/Http/Controllers/ResourceController.php:23-28 | an empty value fails a required field; a missing value passes exactly when the field is not required; a value that passes `string` is a string, missing, or null on a nullable field |
| Validation.Errors | app/Http/Controllers/ResourceController.php:23-28 | only the four validated fields are flagged; an empty name is flagged when the name is required; a name that passes `string` is a string, missing or null |
| Validation.UpdateRulesAreStoreRules | app/Http/Controllers/ResourceController.php:44-49 | `update` validates with exactly the rules of `store` |
| Validation.EmptyNameRejected | app/Http/Controllers/ResourceController.php:24 | an empty name with a valid type fails on the name field alone |
| ResourceController.Created | app/Http/Controllers/ResourceController.php:32-37 | the inserted record carries the path of the upload or none, and is well formed when the submission is acceptable |
| ResourceController.Updated | app/Http/Controllers/ResourceController.php:56-59 | the updated record carries the given image, and is well formed when the submission is acceptable |
| ResourceController.ListingExact | app/Http/Controllers/ResourceController.php:17 | the listing below k holds every stored id below k once, with its record, in increasing id order |
| ResourceController.Listing | app/Http/Controllers/ResourceController.php:17 | the listing below k has at most k rows, and none when the table has no id below k |
| ResourceController.InsertKeepsConsistent | app/Http/Controllers/ResourceController.php:30-37 | inserting a well-formed record under the next id, with its image newly on the disk, keeps the store invariant (ids below the next id, well-formed records, images on the disk and owned by one record) |
| ResourceController.RewriteKeepsConsistent | app/Http/Controllers/ResourceController.php:59 | rewriting a record's fields with its image kept keeps the store invariant |
| ResourceController.ReplaceImageKeepsConsistent | app/Http/Controllers/ResourceController.php:51-59 | deleting a record's old image, storing a fresh one and repointing the record keeps the store invariant: no other record loses its image |
| ResourceController.RemoveKeepsConsistent | app/Http/Controllers/ResourceController.php:66 | deleting a record keeps the store invariant |
| ResourceController.Controller.Index | app/Http/Controllers/ResourceController.php:14-18 | `index` returns every record of the table, unfiltered, each once, in primary-key order |
| ResourceController.Controller.Store | app/Http/Controllers/ResourceController.php:21-40 | invalid input changes neither table nor disk. Valid input inserts one record under a fresh id with the submitted fields. The upload adds exactly one new path; with no upload `images` is null and the disk is unchanged. Other records are untouched and the invariant holds |
| ResourceController.Controller.Update | app/Http/Controllers/ResourceController.php:42-62 | an unknown id or invalid input changes nothing. With an upload, the old image path leaves the disk, one new path arrives, and `images` points to it. Without one, `images` and the disk are unchanged. Name and type are always overwritten; no other record changes |
| ResourceController.Controller.Destroy | app/Http/Controllers/ResourceController.php:64-69 | an unknown id changes nothing; otherwise exactly that id leaves the table, the disk is unchanged, and the deleted record's image stays on it |
| IndexPage.EditThenSaveKeepsRecord | resources/js/Pages/Resources/Index.jsx:37-42 | the form `handleEdit` fills from a stored record passes the update rules, and saving it unchanged rewrites the record as it was |
| IndexPage.Body | resources/js/Pages/Resources/Index.jsx:18-28 | the body the page sends never fails on description or image; its name and type meet their rules exactly when non-blank and at most 255 characters, and a form without a `type` key never meets them |
| IndexPage.FormValidates | resources/js/Pages/Resources/Index.jsx:18-28 | the server accepts a page form if and only if its name and type are non-blank strings of at most 255 characters |
| IndexPage.Page.constructor | resources/js/Pages/Resources/Index.jsx:8-16 | the initial state: empty form, modal hidden, create mode, no id, no selection, empty query, page 1 |
| IndexPage.Page.FilteredResources | resources/js/Pages/Resources/Index.jsx:56-60 | the component's filtered rows are server rows that match the current query, no more than the server sent |
| IndexPage.Page.TotalPages | resources/js/Pages/Resources/Index.jsx:62 | the component's page count holds every filtered row, and is 0 exactly when no row is filtered in |
| IndexPage.Page.DisplayedResources | resources/js/Pages/Resources/Index.jsx:63-66 | the component shows at most five rows, each one of its filtered rows |
| IndexPage.Page.ResetForm | resources/js/Pages/Resources/Index.jsx:30-35 | the empty form, modal hidden, edit mode off, null id; query, page and selection unchanged |
| IndexPage.Page.HandleEdit | resources/js/Pages/Resources/Index.jsx:37-42 | the form holds the row's name, type and description, the id is the row's, edit mode and modal are on; query and page unchanged |
| IndexPage.Page.HandleOverlayClick | resources/js/Pages/Resources/Index.jsx:82-86 | the modal hides exactly when the click's target is the overlay; form, edit mode and id are untouched |
| IndexPage.Page.OpenModal | resources/js/Pages/Resources/Index.jsx:103 | "Add New Data" as written shows the modal and keeps form, edit mode and id as they were |
| IndexPage.Page.OpenCreate | resources/js/Pages/Resources/Index.jsx:103 | "Add New Data" as intended shows the modal with the empty form, in create mode, with no id |
| IndexPage.Page.Submit | resources/js/Pages/Resources/Index.jsx:112 | saving puts the form to the edited id in edit mode and posts it otherwise, then resets the form |
| IndexPage.Page.HandleCreate | resources/js/Pages/Resources/Index.jsx:18-22 | posts the current form, then resets it |
| IndexPage.Page.HandleUpdate | resources/js/Pages/Resources/Index.jsx:24-28 | puts the current form to the edited id, then resets it |
| IndexPage.Page.HandleDelete | resources/js/Pages/Resources/Index.jsx:44-46 | a delete request for the row's id and no state change |
| IndexPage.Page.HandleRowClick | resources/js/Pages/Resources/Index.jsx:48-50 | the detail panel shows the clicked row; nothing else changes |
| IndexPage.Page.CloseFullDescriptionModal | resources/js/Pages/Resources/Index.jsx:52-54 | the detail panel closes; nothing else changes |
| IndexPage.Page.SetSearchQuery | resources/js/Pages/Resources/Index.jsx:100 | the query changes and the page number is kept, not re-clamped |
| IndexPage.Page.NextPage | resources/js/Pages/Resources/Index.jsx:68-70 | the page becomes `min(p+1, totalPages)`; the filtered rows are unchanged |
| IndexPage.Page.PrevPage | resources/js/Pages/Resources/Index.jsx:72-74 | the page becomes `max(p-1, 1)`; the filtered rows are unchanged |
| IndexPage.AddAfterDismissedEdit | resources/js/Pages/Resources/Index.jsx:103-112 | edit, dismiss on the overlay, "Add New Data", save: the request puts the old row's form to the old row's id |
| IndexPage.AddAfterDismissedEditCorrected | resources/js/Pages/Resources/Index.jsx:103-112 | the same steps with the corrected button post the empty form |

## Left out

- Rendering, CSS, the authenticated layout and `Head`: UI only.
- `formatDate`: it depends on JS `Date` and on the locale.
- The Inertia calls and `route(...)`. A handler returns the request value. The reload after a mutation is a fresh `Page` built from the new rows.
- `created_at` and `updated_at`: Eloquent sets them from the clock, so "updated_at increases" is not modelled.
- Storage's generated file names. The callers of `Store` and `Update` pass the name as `newPath`, required to be absent from the disk.
- File I/O and every storage failure path, including an upload stored before a failed record write.
- Validator MIME sniffing. An upload is given as its guessed extension and its size in bytes. An upload that failed in transit (`isValid()` false) is not modelled.
- Validator error messages. A failure reports the set of failing fields.
- `max` on a non-string JSON value (an array's count, a number's digits): the model lets it pass, because `string`, which lists that field too, already flags it.
- Request middleware (`TrimStrings`, `ConvertEmptyStringsToNull`). Inputs reach validation as sent.
- Route-model binding: an unknown id is a `NotFound` response with no state change.
- Unicode case folding: `toLowerCase` is ASCII lower-casing.
- The client crash on a null description. `Renderable` is a precondition of the filter saying that for every row, the name matches or the description is non-null. JS `||` only reads the description when the name did not match, and only a null read throws.
- `stopPropagation` on the row buttons and the modal content. Only the overlay-target test of `handleOverlayClick` is modelled.
- The form inputs' `onChange` handlers and the browser's `required` checks.
- database/seeders/ResourcesSeeder.php: static sample data with no logic.
- Concurrent requests: each request is one atomic method call.
- ResourceController.Created: its own contract states only well-formedness and the image. The full record is pinned in `Controller.Store`'s postcondition.
- ResourceController.Updated: its own contract states only well-formedness and the image. The full record, including when the description is kept, is pinned in `Controller.Update`'s postcondition.

## Findings

| source | as written | input that shows it | evidently intended | confidence | as-written member | corrected member |
|---|---|---|---|---|---|---|
| resources/js/Pages/Resources/Index.jsx:103 | "Add New Data" only calls `setModalVisible(true)`. An edit modal closed by clicking its overlay leaves edit mode, the id and the form set, because `handleOverlayClick` does not reset. | Edit row r, click the overlay, click "Add New Data", click Save: the modal is titled "Edit Resource" and Save issues `Put(r.id, form of r)`. | "Add New Data" opens the empty create form; Save posts a new resource. | high; not executed | IndexPage.AddAfterDismissedEdit | IndexPage.AddAfterDismissedEditCorrected |
