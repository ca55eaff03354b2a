# Blog authoring and reader feed, modelled in Dafny

This project models the two pages of a small React/Supabase blog that hold real logic.

**The admin dashboard** (`src/pages/Dashboard.tsx`) is where an operator:
- creates, edits, publishes, unpublishes and deletes posts;
- uploads a cover image to a storage bucket under a key derived from their user id, the current millisecond and the file's extension;
- filters the held posts by a case-insensitive title search;
- sees counts of published posts and drafts.

**The public feed** (`src/pages/Blog.tsx`):
- shows only published posts, newest first;
- shows them six to a page, with numbered page buttons;
- lets at most one post's share card be open at a time.

The Supabase `blogs` table and the storage bucket are in-memory objects:
- `Store.PostTable` holds a sequence of rows and an id counter.
- `Storage.Bucket` is a map from key to file.

Every database or storage call takes its outcome (succeeded or failed) as a boolean parameter. Clock readings (`Date.now()`, `new Date()`) are integer parameters. The operator's `confirm()` answer is a boolean parameter. The two pages' React state (`useState` fields) are the classes `Dashboard.DashboardState` and `Blog.BlogState`, and each event handler is a method on them.

Modules:
- `Wrappers`: `Option`.
- `Seqs`: an order-keeping `Filter` and subsequences.
- `Text`:
  - ASCII lower-casing;
  - `includes`;
  - `split(sep).pop()`;
  - decimal rendering of a number and its parse-back.
- `Store`:
  - the post record;
  - the query semantics of `select`/`eq`/`order`, `insert`, `update().eq` and `delete().eq`;
  - the table class.
- `Storage`: the image bucket.
- `Dashboard`: the authoring workflow.
- `Blog`: the reader feed.

## Model

| member | source | states |
|---|---|---|
| Seqs.Filter | src/pages/Dashboard.tsx:402-412 | `Array.prototype.filter`: the result keeps the input order. Its elements are exactly the inputs that pass the test, each with its original multiplicity. |
| Seqs.FilterKeepsAll | src/pages/Dashboard.tsx:411-412 | A filter that every element passes returns the list unchanged. |
| Seqs.FilterSplit | src/pages/Dashboard.tsx:402-406 | A filter and its complement partition the list, so their lengths add up to its length. |
| Text.ToLower | src/pages/Dashboard.tsx:412 | `toLowerCase` (ASCII): keeps the length, folds each character on its own, and leaves no upper-case letter. |
| Text.OccursShift | src/pages/Dashboard.tsx:412 | A match at position i+1 of a text is a match at position i of the text without its first character. |
| Text.Includes | src/pages/Dashboard.tsx:412 | `String.prototype.includes` is true exactly when the term occurs at some position of the text. |
| Text.IncludesEmpty | src/pages/Dashboard.tsx:412 | Every text includes the empty string. |
| Text.LastSegment | src/pages/Dashboard.tsx:94 | `split(sep).pop()` is a suffix of the name that contains no separator. When it is shorter than the name, the separator sits just before it. So it is the text after the last separator, or the whole name if there is none. |
| Text.DigitChar | src/pages/Dashboard.tsx:95 | A digit value below ten renders as a decimal digit character. |
| Text.DecimalString | src/pages/Dashboard.tsx:95 | `${Date.now()}` is a non-empty string of decimal digits with no leading zero, except for the number 0 itself. |
| Text.ParseDecimalString | src/pages/Dashboard.tsx:95 | Parsing the rendered timestamp gives back the number (round trip). |
| Text.DecimalStringInjective | src/pages/Dashboard.tsx:95 | Different timestamps render differently. |
| Text.SplitAtFirst | src/pages/Dashboard.tsx:95-96 | Two joins `a.b` and `c.d` with a dot-free left part are equal only if both parts are equal. |
| Store.ApplyPatch | src/pages/Dashboard.tsx:128-136 | An update keeps `id`, `author_id` and `created_at`, and sets `published` and `updated_at` from the patch. The toggle patch changes nothing else. The edit patch also sets the title, description, content, image and author. |
| Store.UpdateWhere | src/pages/Dashboard.tsx:126-137 | `update(...).eq('id', id)`: same number of rows. Each row is patched if its id matches and kept unchanged otherwise. |
| Store.DeleteWhere | src/pages/Dashboard.tsx:211 | `delete().eq('id', id)`: the remaining rows are a subsequence of the old ones, exactly the old rows whose id differs, and fewer by the number of rows carrying that id. So every other row stays, in order. |
| Store.DeleteWhereCounts | src/pages/Dashboard.tsx:211 | After a delete, every row with another id is held as often as before, and none with that id. |
| Store.IdCountUnique | src/pages/Dashboard.tsx:211 | With unique ids, an id is carried by exactly one row when it is found, and by none otherwise. |
| Store.DeleteMissingIsNoop | src/pages/Dashboard.tsx:211-212 | Deleting an id that no row carries leaves the table unchanged, and the call still reports success. |
| Store.Find | src/pages/Dashboard.tsx:16-26 | Looking a post up by id gives a held row with that id, or nothing exactly when no row has it. |
| Store.FindUnique | src/pages/Dashboard.tsx:16-26 | When ids are unique, looking up a held post's id finds that post. |
| Store.FindAfterUpdate | src/pages/Dashboard.tsx:137 | After an update, the updated id finds its patched row, and every other id finds what it found before. |
| Store.UpdateMissingIsNoop | src/pages/Dashboard.tsx:137-140 | An update whose id matches no row leaves the table unchanged, and the call still reports success. |
| Store.FindAfterDelete | src/pages/Dashboard.tsx:211 | After a delete, the deleted id finds nothing, and every other id finds what it found before. |
| Store.DeleteRemovesOne | src/pages/Dashboard.tsx:211 | With unique ids, deleting a held id removes exactly one row. Deleting a missing id removes nothing. |
| Store.FindAfterAppend | src/pages/Dashboard.tsx:142-152 | Inserting a row with a fresh id makes that id find it, and every other id finds what it found before. |
| Store.InsertByDate | src/pages/Dashboard.tsx:76 | Inserting a post into a newest-first list keeps it newest first and adds exactly that post. |
| Store.OrderByCreatedDesc | src/pages/Dashboard.tsx:76 | `order('created_at', { ascending: false })` gives a newest-first permutation of its input. |
| Store.ListAll | src/pages/Dashboard.tsx:73-76 | The dashboard's query returns a newest-first permutation of the rows: the same rows, each as often as the table holds it. |
| Store.ListPublished | src/pages/Blog.tsx:43-47 | The feed's query returns exactly the published rows, each with its multiplicity, newest first. |
| Store.PublishShows | src/pages/Dashboard.tsx:181-189 | Publishing a held post makes the feed's query list it. |
| Store.UnpublishHides | src/pages/Dashboard.tsx:181-189 | After unpublishing an id, the feed's query lists no post with that id. |
| Store.DeleteKeepsIds | src/pages/Dashboard.tsx:211 | A delete keeps ids unique and keeps them below the table's counter. |
| Store.PostTable.constructor | src/pages/Dashboard.tsx:16-26 | The table starts empty, with its id counter at zero. |
| Store.PostTable.Insert | src/pages/Dashboard.tsx:142-154 | A successful `insert` appends exactly one row under a fresh id, with `created_at` and `updated_at` set to now by the table's defaults. A failed insert changes nothing. |
| Store.PostTable.Update | src/pages/Dashboard.tsx:126-139 | A successful `update().eq` patches the matching rows. A failed one changes nothing. It succeeds even when no row matches. |
| Store.PostTable.Delete | src/pages/Dashboard.tsx:211-212 | A successful `delete().eq` removes the matching rows. A failed one changes nothing. |
| Storage.Bucket.constructor | src/pages/Dashboard.tsx:98-99 | The bucket starts empty under its public base URL. |
| Storage.Bucket.Upload | src/pages/Dashboard.tsx:98-102 | `upload` without upsert succeeds exactly when the service answers and the key is not already taken. Only on success is the file stored under the key. |
| Dashboard.DigitsHaveNoDot | src/pages/Dashboard.tsx:95 | The timestamp part of a stored name contains no '.'. |
| Dashboard.StorageKeysCollide | src/pages/Dashboard.tsx:94-96 | Two uploads by one owner get the same key exactly when they are in the same millisecond and their files have the same extension. |
| Dashboard.SearchResults | src/pages/Dashboard.tsx:411-412 | The cards shown are, in held order and with multiplicity, exactly the held posts whose lower-cased title includes the lower-cased term. |
| Dashboard.EmptySearchShowsAll | src/pages/Dashboard.tsx:411-412 | An empty search term shows every held post. |
| Dashboard.CountsAddUp | src/pages/Dashboard.tsx:398-406 | The "Published" and "Drafts" tiles add up to the "Total Posts" tile. |
| Dashboard.EditOnlyChangesTarget | src/pages/Dashboard.tsx:125-137 | Saving an edit sets the edited post's texts, flag and image from the form and stamps `updated_at`. Its id, author id and creation time stay. Every other id finds what it found before. |
| Dashboard.ToggleFromFreshListFlips | src/pages/Dashboard.tsx:181-189 | Toggling a post from a current list flips its stored flag and stamps `updated_at`. Every other id finds what it found before. |
| Dashboard.DashboardState.constructor | src/pages/Dashboard.tsx:29-51 | Initial state: no posts, loading, no submit in progress, dialog closed, nothing being edited, empty search, default form. |
| Dashboard.DashboardState.FetchBlogs | src/pages/Dashboard.tsx:71-86 | On success the held list becomes every row, newest first. On failure the old list is kept. Either way loading ends and nothing else changes. |
| Dashboard.DashboardState.SetSearchTerm | src/pages/Dashboard.tsx:389-390 | The search box sets the term and nothing else. |
| Dashboard.DashboardState.ChangeField | src/pages/Dashboard.tsx:291-343 | Each form control changes its own field of the form and nothing else. |
| Dashboard.DashboardState.OpenEdit | src/pages/Dashboard.tsx:480-490 | The Edit button remembers the post and seeds the form from it, with no pending image. Then it opens the dialog. |
| Dashboard.DashboardState.OnOpenChange | src/pages/Dashboard.tsx:254-266 | Opening the dialog changes nothing else. Closing it forgets the edited post and resets the form to its defaults. |
| Dashboard.DashboardState.Cancel | src/pages/Dashboard.tsx:351 | The Cancel button only closes the dialog. The form and the edited post are kept. |
| Dashboard.DashboardState.UploadImage | src/pages/Dashboard.tsx:92-110 | The image is stored under `<user id>/<ms>.<ext>` and its public URL is returned. If the upload fails, including on a taken key, the result is null and the bucket is unchanged. |
| Dashboard.DashboardState.HandleSubmit | src/pages/Dashboard.tsx:112-179 | With no user nothing happens. A failed pending upload aborts before any write. The image written is the new upload's URL, else the edited post's non-empty URL, else null. Then the edited post is updated, or exactly one post is inserted with the operator as author. Only success resets the form, forgets the edited post, closes the dialog and refetches. A failure leaves all of these untouched. |
| Dashboard.DashboardState.WritePost | src/pages/Dashboard.tsx:125-156 | The write phase updates the edited post from the form, or inserts one new post with the operator's id as author id. A failed write changes nothing. |
| Dashboard.DashboardState.FinishSave | src/pages/Dashboard.tsx:158-168 | After a save the form returns to its defaults, nothing is being edited, the dialog is closed, and the list is refetched. |
| Dashboard.DashboardState.SubmitForm | src/pages/Dashboard.tsx:285-326 | The browser blocks the submit, changing nothing, exactly when a required field is empty. Otherwise everything `HandleSubmit` promises holds: no user does nothing, the upload and image choice, the update or single insert, and the reset on success or untouched state on failure. A post saved through the form has non-empty title, author, description and content. |
| Dashboard.DashboardState.TogglePublish | src/pages/Dashboard.tsx:181-205 | Writes `published = !currentStatus` and a new `updated_at` to the given id only, and refetches on success. A failure changes nothing. |
| Dashboard.DashboardState.ClickToggle | src/pages/Dashboard.tsx:472 | A card's Publish/Unpublish button passes the shown post's own flag, so the stored flag of that id becomes its negation and no other row changes. On success the list is refetched; the form, dialog, edited post and search are kept. |
| Dashboard.DashboardState.DeleteBlog | src/pages/Dashboard.tsx:207-226 | When confirmation is declined nothing is called and nothing changes. When confirmed, only the rows with that id are removed and the list is refetched. A failure changes nothing. |
| Blog.SliceBound | src/pages/Blog.tsx:81 | `slice` clamps a non-negative bound to the length and counts a negative one from the end. |
| Blog.PageOf | src/pages/Blog.tsx:79-81 | A page never holds more than six posts. Page p ≥ 1 is the held posts from position (p-1)·6 to min(p·6, length). |
| Blog.TotalPages | src/pages/Blog.tsx:82 | `Math.ceil(n / 6)`: the fewest pages of six that hold all n posts. |
| Blog.PastLastPageIsEmpty | src/pages/Blog.tsx:79-82 | A page number above the page count shows an empty page, not an error. |
| Blog.PagesUpToPrefix | src/pages/Blog.tsx:79-81 | Pages 1..k put together are the first min(6k, n) held posts. |
| Blog.PagesReassemble | src/pages/Blog.tsx:79-82 | Pages 1..totalPages put together give back the held list exactly. |
| Blog.PostOnOnePage | src/pages/Blog.tsx:79-81 | The post at position i is card i mod 6 of page i/6+1. If it is held once, no other page from 1 on shows it. |
| Blog.PageButtons | src/pages/Blog.tsx:192-194 | The buttons are exactly the numbers 1..totalPages, in increasing order, and there are none unless there is more than one page. |
| Blog.ButtonsShowPosts | src/pages/Blog.tsx:192-197 | Every page button leads to a non-empty page. |
| Blog.ShareUrl | src/pages/Blog.tsx:84-85 | A share link is the origin, then `/blog/`, then the post's id. In the model the id is a number written in decimal, and the tail reads back as exactly that id. |
| Blog.ShareUrlsDistinct | src/pages/Blog.tsx:84-85 | Different posts get different share links (for the model's numeric ids; see Left out). |
| Blog.BlogState.constructor | src/pages/Blog.tsx:34-37 | Initial state: no posts, loading, page 1, no share card open. |
| Blog.BlogState.OnScreen | src/pages/Blog.tsx:79-83 | Every page button on screen leads to cards. A page number past the end, kept after a refetch shrank the list, shows no cards rather than failing. |
| Blog.BlogState.FetchBlogs | src/pages/Blog.tsx:40-57 | On success the list is replaced wholesale by the published posts, newest first. On failure it becomes empty. The page number and the open share card are kept. |
| Blog.BlogState.Paginate | src/pages/Blog.tsx:83 | Sets the page number and nothing else. |
| Blog.BlogState.ToggleShare | src/pages/Blog.tsx:172 | The share button closes that post's card if it is open, and otherwise opens it. Only one card can be open at a time. |
| Blog.BlogState.CloseShare | src/pages/Blog.tsx:185 | The share card's close button leaves no card open. |

## Left out

- Supabase I/O is not modelled. This covers the network, authentication, and row-level security. Each call's outcome is a boolean parameter. A failed call leaves the table and the bucket as they were.
- The realtime channel (`src/pages/Blog.tsx:59-77`) is not modelled. Each change event is a call to `Blog.BlogState.FetchBlogs`. Subscribe, unsubscribe and the coalescing of events are not modelled.
- The interleaving of overlapping asynchronous fetches and writes is not modelled. It is concurrency, and every method here runs to completion.
- `toLowerCase` is modelled as an ASCII case fold. Unicode case mapping is not modelled.
- Timestamps are integers, not ISO strings. `Date.now()` and `new Date()` are parameters.
- Database ids are natural numbers handed out by the table's counter, not UUIDs. `Store.ListAll` and `Store.ListPublished` fix the order of posts with equal `created_at` by a stable sort. The database promises no particular tie order. Only the newest-first order is stated.
- The database's `updated_at >= created_at` relationship is not enforced. An edit stamps the clock value it is given.
- A query answering with null `data` and no error is not modelled on either page. The dashboard's `data || []` (`src/pages/Dashboard.tsx:79`) would show an empty list, and the feed's `setBlogs(data)` (`src/pages/Blog.tsx:50`) would store null. Here a successful query always returns its rows.
- Sign-out, the redirect of a signed-out user to `/auth`, navigation to a post's page, toasts, console logging and all rendering are not modelled.
- The loading screens are not modelled, apart from the `loading` flag itself.
- `src/pages/BlogDetail.tsx` is not part of this model. It fetches one post and renders markdown with a foreign library.
- The presentation-only pages (`Index.tsx`, `Navbar.tsx`, `Footer.tsx`, `HeroBackground.tsx`, `DashboardPage.tsx`) are not part of this model.
- Blog.PageOf: only the page's size is stated for page numbers below 1. The feed never sets them, and for them `slice` counts from the end of the list.
- Updating or toggling an id that no longer exists writes nothing but still reports success (`Store.UpdateMissingIsNoop`). The code has no not-found error path, and the model follows the code.
- The insert sends neither `created_at` nor `updated_at`. `Store.Created` setting both to the insert's clock value models the table's column defaults, which are not part of this model.
- Post ids are natural numbers, so `Blog.ShareUrl` writes them in decimal. The page splices the UUID string in unchanged, so `Blog.ShareUrlsDistinct` is a statement about the model's encoding of ids, not about UUID text.
- Dashboard.DashboardState.SubmitForm: the required-field check stands for the browser's `required` attribute. Other browser validation is not modelled.
