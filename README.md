# Versioned collection store and admin form helpers

This project models the content store of a marketing site's admin panel, in Dafny.

Blog posts, events and news articles each live in one JSON document in a source-control repository. Three route handlers (`/api/blogs`, `/api/events`, `/api/news`) serve them:

- `GET` serves the list. It keeps a per-process cache with a 30-second freshness window, and a missing document reads as an empty list.
- `PUT` creates or updates one record. It validates the body, reads the document and its content hash (the "sha"), applies the action, and writes the whole list back. The write carries the hash that was read, so the repository rejects it if another writer committed in between. After a successful write the cache is cleared.

The three route files differ only in names, so the model states the logic once, parameterised by a `Collection` (list key, body key, document path). The admin page adds pure helpers, which are modelled too:

- slug derivation from a title;
- the form update on an input change;
- comma-separated tag and category parsing;
- the team-member list updaters;
- the body of a save request.

Modules:

- `Wrappers`: `Option` and the handlers' `Reply` (a value or an HTTP error status).
- `Json`: JSON values and records. JavaScript's `undefined` is `None`. `Truthy` is truthiness. `StrictEquals` is `===` on values that were parsed separately, so two arrays or objects are never identical. The lookup after an update also compares fields copied by reference, and there the result is the same either way.
- `Text`: the JavaScript `\s` whitespace class, `trim`, `split` and `join`.
- `Slug`: the slug derivation pipeline and its properties.
- `Collection`: the pure parts of the handlers:
  - environment check and body check;
  - the content repository's read answer and its compare-and-swap write rule;
  - matching, create and update.
- `Store`: the class `CollectionStore`. Its fields are the cache entry and the stored document. Its methods `Get` and `Put` are the two handlers, and `ReadDocument`/`WriteDocument` are the remote calls. The clock readings, the generated id, the hash the repository assigns and transport failures are all parameters.
- `AdminForms`: the admin page's pure transforms.

Two behaviours of the code worth noting:

- A write that the repository rejects (a stale hash) goes to the handler's generic error path and is answered with 500, not a 409 conflict.
- A body that is the JSON literal `null` fails when it is destructured, which also answers 500.

## Model

| member | source | states |
|---|---|---|
| Collection.MissingEnv | src/app/api/blogs/route.js:9-16 | a required variable is reported exactly when it is unset or empty; configuration is complete only when none is |
| Collection.CheckRequest | src/app/api/blogs/route.js:78-93 | a body is accepted exactly when it is an object with a truthy `action` and an object item whose `title`, `content` and `slug` are truthy; every other body is refused with 400, except `null`, which is refused with 500 |
| Collection.Fetch | src/app/api/blogs/route.js:99-110 | the read answers the stored list and its hash when the document exists, "not found" when it does not, and a failure on a transport fault |
| Collection.ShaToSend | src/app/api/blogs/route.js:149 | a hash is sent with the write exactly when a document was read and its hash is non-empty, and it is that hash |
| Collection.Commit | src/app/api/blogs/route.js:151-163 | a write succeeds exactly when there is no fault and the hash sent is the current one (or no hash is sent and no document exists); the new document then holds the written list under the new hash |
| Collection.FindIndex | src/app/api/blogs/route.js:129 | the result is the first position whose record has a strictly equal `id` or `slug`, or -1 exactly when no record matches |
| Collection.NewRecord | src/app/api/blogs/route.js:119-124 | a created record keeps every field of the item, keeps the item's id when it is truthy and takes the generated one otherwise, and is stamped with `createdAt` and `updatedAt` |
| Collection.Merge | src/app/api/blogs/route.js:136 | an updated record has the item's fields over the existing ones, keeps the existing fields the item lacks, and gets a new `updatedAt` |
| Collection.CreatePrepends | src/app/api/blogs/route.js:114-126 | create is refused with 409 exactly when the slug is taken; otherwise the new record comes first, the old list follows unchanged, and the new record is what is returned |
| Collection.Mutate | src/app/api/blogs/route.js:112-140 | the mutation refuses with 409 (create, slug taken), 404 (update, no match) or 400 (any other action), and with nothing else; otherwise create adds one record and update keeps the length, and the affected record is always present in the new list; `CreatePrepends` and `UpdateInPlace` give each branch in full |
| Collection.OtherActionRefused | src/app/api/blogs/route.js:138-140 | an action other than `create` or `update` is refused with 400 |
| Collection.MergeStillMatches | src/app/api/blogs/route.js:170 | the merged record still matches the request item by id or slug |
| Collection.UpdateInPlace | src/app/api/blogs/route.js:128-137 | update is refused with 404 exactly when nothing matches; otherwise only the first match changes, to the merged record, the length is kept, and the record found again for the response is that merged record |
| Collection.CreateKeepsSlugsUnique | src/app/api/blogs/route.js:115-117 | a list whose slugs are pairwise distinct stays so after a create |
| Collection.CreateTwiceConflicts | src/app/api/blogs/route.js:115-116 | a second create with the same primitive slug, on the list the first create produced, is refused with 409 |
| Collection.UpdateDuplicatesSlug | src/app/api/blogs/route.js:129-136 | whenever an update is located at one record and carries the primitive slug of another, the update goes through and leaves two records with the same slug: update does not keep slugs unique |
| Collection.UpdateCanDuplicateSlug | src/app/api/blogs/route.js:129-136 | on a two-record list with distinct slugs, an update located by the id of the first record and carrying the slug of the second goes through and leaves both with the same slug |
| Collection.SecondWriterRejected | src/app/api/blogs/route.js:104-106 | two writers that read the same state both send the hash they read; once the first write is accepted, the second is rejected |
| Store.CollectionStore.ReadDocument | src/app/api/blogs/route.js:99-102 | the read answers the content repository's reply for the current document and counts one remote read |
| Store.CollectionStore.WriteDocument | src/app/api/blogs/route.js:149-163 | the conditional write replaces the document exactly when the repository accepts it, and counts one remote write carrying the hash sent |
| Store.CollectionStore.Get | src/app/api/blogs/route.js:32-71 | missing configuration gives 500 with no effect; a fresh cache entry is served without a remote read; otherwise one read: failure gives 500, a missing document gives the empty list without caching, a found list is returned and cached with the later clock reading |
| Store.CollectionStore.Put | src/app/api/blogs/route.js:74-177 | configuration and body errors answer without any remote call; a failed read or a refused mutation answers without writing; otherwise one write sends the read hash exactly when a document existed; a rejected write gives 500 and keeps document and cache; an accepted write stores the new list, clears the cache and returns the affected record |
| Text.Trim | src/app/admin/page.jsx:246 | `trim` gives exactly the slice of the input between its leading whitespace and its trailing whitespace: everything before and after the slice is whitespace, and the slice neither starts nor ends with whitespace; trimmed text is left as it is |
| Text.Split | src/app/admin/page.jsx:246 | `split` gives at least one piece and no piece holds the separator |
| Text.JoinSplit | src/app/admin/page.jsx:246 | joining the pieces of a split with the separator gives back the original text |
| Text.SplitJoin | src/app/admin/page.jsx:246 | splitting the join of separator-free pieces gives back those pieces |
| Slug.Lower | src/app/admin/page.jsx:192 | lower-casing keeps the length, maps every ASCII capital to its small letter, and leaves no capital |
| Slug.StripOfLowered | src/app/admin/page.jsx:193 | after removing characters outside `[\w\s-]`, lower-cased text holds only slug characters and whitespace |
| Slug.StripOfKept | src/app/admin/page.jsx:193 | removing characters outside `[\w\s-]` leaves text made only of such characters as it is |
| Slug.SpacesCollapsed | src/app/admin/page.jsx:194 | replacing whitespace runs by `-` leaves only slug characters |
| Slug.HyphensCollapsed | src/app/admin/page.jsx:195 | collapsing runs of two or more `-` leaves no `--` |
| Slug.StripAppend | src/app/admin/page.jsx:193 | the global removal of characters outside `[\w\s-]` works piece by piece: stripping a concatenation is the concatenation of the stripped pieces |
| Slug.ReplaceRunsPlain | src/app/admin/page.jsx:194-195 | a piece with no whitespace (or no hyphen) passes through run collapsing unchanged, in front of the collapsed rest |
| Slug.ReplaceRunsRun | src/app/admin/page.jsx:194-195 | a whole run of whitespace (or of hyphens) followed by another character becomes exactly one `-` |
| Slug.Slugify | src/app/admin/page.jsx:192-196 | the slug pipeline: lower-case, strip, collapse whitespace runs to `-`, collapse hyphen runs, trim whitespace; its properties are carried by `SlugifyIsSlug`, `SlugOfSlug`, `SlugifyIdempotent` and `HyphensSurviveTrim` |
| Slug.SlugifyIsSlug | src/app/admin/page.jsx:192-196 | every derived slug holds only `[a-z0-9_-]` and never `--` |
| Slug.SlugOfSlug | src/app/admin/page.jsx:192-196 | every slug-shaped text is its own slug |
| Slug.SlugifyIdempotent | src/app/admin/page.jsx:192-196 | deriving the slug of a derived slug gives it back |
| Slug.HyphensSurviveTrim | src/app/admin/page.jsx:196 | `.trim('-')` trims whitespace only, so the slug of `-a-` keeps both hyphens |
| AdminForms.InputChange | src/app/admin/page.jsx:185-243 | the three input handlers: store the field, and on a title change also the derived slug; its effect is stated by `InputChangeEffect` and `TitleChangeSetsSlug` |
| AdminForms.InputChangeEffect | src/app/admin/page.jsx:204-222 | an input change stores the field (the checked state for a checkbox in the event and news forms, the text otherwise); no other field changes except the slug on a title change, and the slug changes only when the field is the title or the slug itself |
| AdminForms.TitleChangeSetsSlug | src/app/admin/page.jsx:185-202 | a title change stores next to it the slug derived from the new title, and that slug is well formed |
| AdminForms.ParseList | src/app/admin/page.jsx:246 | `split(',')`, trim each piece, drop the empty ones; its results are stated by `ParseListEntries`, `ParseJoined`, `ParseShown` and `ParseStable` |
| AdminForms.ParseListEntries | src/app/admin/page.jsx:246 | every parsed tag is non-empty, has no surrounding whitespace and holds no comma |
| AdminForms.ParseJoined | src/app/admin/page.jsx:254 | parsing the comma-joined form of well-formed entries gives back the same entries in the same order |
| AdminForms.ParseShown | src/app/admin/page.jsx:1053-1056 | parsing the text the tag input shows for a list of well-formed entries, `join(', ')`, gives back the same entries in the same order: the space after each comma is trimmed away |
| AdminForms.ParseStable | src/app/admin/page.jsx:1053-1056 | re-editing a parsed list as the `join(', ')` text the input shows, and parsing it again, gives the same list |
| AdminForms.AddMember | src/app/admin/page.jsx:672-677 | adding a member appends one blank member (empty name, no image, the clock as id) after the unchanged list |
| AdminForms.RemoveMember | src/app/admin/page.jsx:679-684 | the index filter of `removeTeamMember`; its effect is stated by `RemoveMemberEffect` and `RemoveAddedMember` |
| AdminForms.RemoveMemberEffect | src/app/admin/page.jsx:679-684 | removing deletes exactly the member at the index and keeps the others in order; an index out of range changes nothing |
| AdminForms.RemoveAddedMember | src/app/admin/page.jsx:672-684 | removing the member just added gives the list back |
| AdminForms.UpdateMember | src/app/admin/page.jsx:686-693 | the map of `updateTeamMember`; its effect is stated by `UpdateMemberEffect` |
| AdminForms.UpdateMemberEffect | src/app/admin/page.jsx:686-693 | updating changes only the given field of the member at the index, and keeps the length and every other member |
| AdminForms.SavePublished | src/app/admin/page.jsx:549-563 | the body `saveBlogPost` and `saveNewsArticle` send; its shape is stated by `SaveRequestShape` |
| AdminForms.SaveEvent | src/app/admin/page.jsx:591-605 | the body `saveEvent` sends; its shape is stated by `SaveEventShape` and `EventDateRoundTrip` |
| AdminForms.SaveRequestShape | src/app/admin/page.jsx:549-563 | a blog or news save is an update exactly when an editing id is set and then carries that id, otherwise a create with a clock id; a truthy `publishedAt` is kept and a falsy one is replaced by the current ISO time; other fields are sent as they are |
| AdminForms.SaveEventShape | src/app/admin/page.jsx:591-605 | an event save follows the same rule, sends the date joined with the time as a UTC timestamp (midnight without a time), and sends other fields as they are |
| AdminForms.EventDateRoundTrip | src/app/admin/page.jsx:594 | the event timestamp ends in `Z`, and its part before the first `T` is the date again |

## Left out

- Transport: HTTP, the base64 and JSON encoding of the document, the repository's request headers and the commit message text. The read reply carries the decoded list directly.
- The `|| []` fallback, for a document that lacks its list key, is not modelled: a stored document always holds a list of records.
- A list element that is not an object is not modelled: records are maps from names to JSON values.
- The error message strings are not modelled, only the statuses.
- Concurrency is modelled only as two writers reading the same state (`SecondWriterRejected`). Interleavings inside one process and the independent caches of several server instances are not modelled.
- The branch is not modelled: the model assumes that reads and writes address the same branch. The code does not guarantee this. The reads carry no ref, so they read the repository's default branch (src/app/api/blogs/route.js:42-48 and 99-102). The write targets `GITHUB_BRANCH`, or `main` when it is unset (route.js:146). When the two differ, the hash sent comes from another branch's file, and a document created on the write branch is never read back.
- Store.CollectionStore.Put: the hash the repository gives an accepted write is the parameter `newSha`, required only to be non-empty; a rewrite may keep the hash it had. That an accepted write changes the hash is assumed only by `Collection.SecondWriterRejected`.
- Slug.Lower: only ASCII letters are lower-cased; the non-ASCII mappings of `toLowerCase` are not modelled.
- Slug.SlugifyIsSlug: no concrete title with punctuation and repeated spaces is stated as a lemma with its slug. Such a title's slug follows from `StripAppend`, `StripOfKept`, `ReplaceRunsPlain`, `ReplaceRunsRun` and `TrimOfSlug` applied piece by piece.
- AdminForms.SaveEventShape: the date and time are taken as strings. The case where the form has no date, where JavaScript would concatenate `undefined`, is not modelled.
- JSON numbers are exact reals and strings are sequences of Unicode scalar values. JavaScript uses IEEE doubles and UTF-16 code units, so `===` and truthiness on `id` and `slug` can differ from the model for numbers that doubles cannot represent exactly, and for strings holding lone UTF-16 surrogates, which the model's characters cannot represent.
- The page's network calls, the alerts and the rest of the UI are not modelled. The clock is a parameter.
- The single-item route `src/app/api/blogs/[slug]/route.js` and the static-section content handlers are not part of this model.
