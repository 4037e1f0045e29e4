# Tibb-e-Jilani book reader: a verified Dafny model of its content store and view rules

This project models the logic of a bilingual (English/Urdu) book-reading web app.

The centre of the app is an in-memory content store, `BookProvider` in `src/contexts/BookContext.tsx`. It holds four collections: chapters, bookmarks, notes and reader testimonials. It also holds the chapter currently open. Every store operation replaces one collection with a filtered, mapped, appended or sorted copy.

On top of the store sit the rules of the screens:

- the reader: per-language chapter list, default chapter, previous/next, bookmark toggle, adding a note;
- the administration portal: counts, per-language lists, the chapter form with image upload, testimonial moderation;
- the scroll-direction hook that hides the header;
- the bookmarks and notes lists, which skip entries whose chapter is gone;
- the public reviews page;
- the home page's featured reviews.

Module layout, one module per file:

| module | file | models |
|---|---|---|
| `Seqs` | seqs.dfy | `Array.prototype.filter` / `map` / `find` / `findIndex` / `some` as recursive functions on `seq`, with their laws |
| `Text` | text.dfy | `trim` (the ECMAScript white-space set), `toLowerCase` (ASCII letters) and `includes` |
| `Records` | records.dfy | the record types: `Chapter`, `Bookmark`, `Note`, `Testimonial`, the form inputs, and id uniqueness |
| `ChapterOrder` | chapter_order.dfy | the stable sort by `order` |
| `BookContext` | book_context.dfy | each store operation as a pure transition on one collection, the sample data, and the store's laws |
| `BookProvider` | book_provider.dfy | the store itself: a class with the four collections as `seq` fields, one method per operation |
| `Lookup` | lookup.dfy | chapter lookup by id, reader routes, and the join that skips dangling references |
| `ReaderPage` | reader_page.dfy | src/pages/ReaderPage.tsx |
| `AdminPortal` | admin_portal.dfy | src/pages/AdminPortal.tsx |
| `ScrollDirection` | scroll_direction.dfy | src/hooks/useScrollDirection.ts |
| `BookmarksPage`, `NotesPage` | bookmarks_page.dfy, notes_page.dfy | src/pages/BookmarksPage.tsx, src/pages/NotesPage.tsx |
| `TestimonialsPage` | testimonials_page.dfy | src/pages/TestimonialsPage.tsx |
| `HomePage` | home_page.dfy | src/pages/HomePage.tsx |

Conventions:

- Ids (`faker.string.uuid()`) and timestamps (`new Date()`, as milliseconds) are parameters of the operations that create records. Where a property needs fresh ids, a lemma requires them: `UniqueIds`, or an id absent from the list.
- Route parameters, `window.confirm` answers, the data URLs produced by `FileReader`, and `window.pageYOffset` are inputs.
- Navigation is a returned route string (`Option<string>`, `None` when nothing happens).
- Handlers that change the store are methods that take the `BookStore` object and call its methods. Each `ensures` states the new value of every store field.

The code and the declared types disagree on one point, and the model follows the code. The `Chapter` interface (src/contexts/BookContext.tsx:4-11) declares an optional `imageUrl`. The admin form and the reader read and write `images: string[]`, so `Chapter.images` is a `seq<string>`, possibly empty.

## Model

| member | source | states |
|---|---|---|
| BookProvider.BookStore.constructor | src/contexts/BookContext.tsx:106-110 | each collection is what storage held for its key, or its fallback (the sample chapters, no bookmarks, no notes, the sample testimonials) when nothing readable was stored; no current chapter |
| BookProvider.NothingStoredChapters | src/contexts/BookContext.tsx:63-108 | with nothing stored a session starts from the five sample chapters, with unique ids and not in order, and with no bookmarks or notes |
| BookProvider.NothingStoredTestimonials | src/contexts/BookContext.tsx:71-109 | with nothing stored a session starts from the three sample testimonials, with unique ids, the first and third approved and the second pending |
| BookProvider.BookStore.SearchChapters | src/contexts/BookContext.tsx:145-148 | reading the store: a blank query gives every chapter, otherwise exactly the chapters whose lowercased title or content contains the lowercased query, in store order |
| BookProvider.BookStore.SetCurrentChapter | src/contexts/BookContext.tsx:110 | sets the current chapter and nothing else |
| BookProvider.BookStore.AddBookmark | src/contexts/BookContext.tsx:118-121 | old bookmarks are an unchanged prefix and the one new record at the end carries the caller's chapter id, position, note and the fresh id; other collections unchanged |
| BookProvider.BookStore.RemoveBookmark | src/contexts/BookContext.tsx:123-125 | a bookmark remains iff it was there and its id differs; other collections unchanged |
| BookProvider.BookStore.AddNote | src/contexts/BookContext.tsx:127-130 | old notes are an unchanged prefix and the one new note at the end carries chapter id, position, text and the fresh id |
| BookProvider.BookStore.UpdateNote | src/contexts/BookContext.tsx:132-134 | the notes with other ids are exactly as before |
| BookProvider.BookStore.RemoveNote | src/contexts/BookContext.tsx:136-138 | a note remains iff it was there and its id differs |
| BookProvider.BookStore.AddTestimonial | src/contexts/BookContext.tsx:140-143 | the new last record is unapproved and the approved list is unchanged |
| BookProvider.BookStore.AddChapter | src/contexts/BookContext.tsx:151-154 | the chapter list is sorted by order and is the old list plus the new chapter as a multiset |
| BookProvider.BookStore.UpdateChapter | src/contexts/BookContext.tsx:156-158 | the list stays as long, is sorted, and every chapter with the id carries the new fields and the old id |
| BookProvider.BookStore.DeleteChapter | src/contexts/BookContext.tsx:160-162 | a chapter remains iff it was there and its id differs |
| BookProvider.BookStore.UpdateTestimonial | src/contexts/BookContext.tsx:164-166 | same length, and every record with another id is unchanged at its index |
| BookProvider.BookStore.RemoveTestimonial | src/contexts/BookContext.tsx:168-170 | a testimonial remains iff it was there and its id differs |
| BookContext.RemoveByIdSpec | src/contexts/BookContext.tsx:123-125 | removal by id: membership iff other id, an order-preserving sublist, a no-op exactly when the id is absent, idempotent (used for bookmarks, notes, chapters and testimonials, lines 136-138, 160-162, 168-170) |
| BookContext.RemoveUniqueAt | src/contexts/BookContext.tsx:123-125 | with unique ids, removing the id of the record at k removes exactly that record |
| BookContext.AddThenRemoveBookmark | src/contexts/BookContext.tsx:118-125 | adding a bookmark with a fresh id and removing that id gives back the old list |
| BookContext.AddThenRemoveNote | src/contexts/BookContext.tsx:127-138 | adding a note with a fresh id and removing that id gives back the old list |
| BookContext.UpdateNoteOnlyText | src/contexts/BookContext.tsx:132-134 | updateNote keeps length, order, and every id, chapter id, position and timestamp; only the text of matching notes changes, to the given text |
| BookContext.UpdateNoteFrame | src/contexts/BookContext.tsx:132-134 | the notes with other ids come out of updateNote as they went in |
| BookContext.AddTestimonialUnapproved | src/contexts/BookContext.tsx:140-143 | one record appended with id, name, text and rating copied and approved false; approved list unchanged, pending list one longer |
| BookContext.UpdateTestimonialSpec | src/contexts/BookContext.tsx:164-166 | each present patch field overrides the matching record's field, absent ones and the id are kept; other records unchanged |
| BookContext.ApprovePatchOnlyApproves | src/pages/AdminPortal.tsx:345-347 | the `{ approved: true }` patch changes only `approved` |
| BookContext.ApproveLeavesPending | src/contexts/BookContext.tsx:164-166 | approving by id removes exactly the records with that id from the pending list |
| BookContext.ApproveGrowsApproved | src/contexts/BookContext.tsx:164-166 | approving by id grows the approved list by the number of pending records with that id |
| BookContext.ApproveOne | src/contexts/BookContext.tsx:164-166 | with unique ids, approving a pending record moves it unchanged but approved into the approved list; counts change by one each way |
| BookContext.PendingApprovedPartition | src/pages/AdminPortal.tsx:355-356 | the pending and approved lists are disjoint, cover every testimonial, and their sizes add up to the total |
| BookContext.SearchChaptersSpec | src/contexts/BookContext.tsx:145-148 | a blank query returns the whole list; otherwise exactly the chapters whose lowercased title or content contains the lowercased query, as an order-preserving sublist |
| BookContext.PaddedQueryMatchedLiterally | src/contexts/BookContext.tsx:146-147 | only the emptiness test trims: a space-padded query does not match a chapter without spaces |
| BookContext.AddChapterSpec | src/contexts/BookContext.tsx:151-154 | addChapter: sorted, a permutation of old plus new, chapters of each order keep their relative order and the new one comes after those of its order |
| BookContext.UpdateChapterSpec | src/contexts/BookContext.tsx:156-158 | updateChapter: sorted, same length, matching entries carry the new fields with the old id, an existing id stays present, the other chapters are unchanged as a multiset |
| BookContext.UpdateUnknownChapter | src/contexts/BookContext.tsx:156-158 | an id no chapter has only re-sorts the list |
| BookContext.DeleteChapterKeepsSorted | src/contexts/BookContext.tsx:160-162 | deleteChapter does not sort but keeps a sorted list sorted |
| BookContext.MockChaptersUnsorted | src/contexts/BookContext.tsx:63-69 | the sample chapter list (orders 1, 2, 3, 1, 2) is not sorted, so sortedness is not a store invariant |
| ChapterOrder.SortByOrder | src/contexts/BookContext.tsx:153 | the sort's result is sorted by order, a permutation of its input, of the same length |
| ChapterOrder.SortStable | src/contexts/BookContext.tsx:153 | the sort is stable: the chapters of every order keep their relative order |
| ChapterOrder.SortSorted | src/contexts/BookContext.tsx:153 | sorting a sorted list changes nothing |
| ChapterOrder.SortKeepsUniqueIds | src/contexts/BookContext.tsx:153 | sorting keeps ids unique |
| Text.Trim | src/contexts/BookContext.tsx:146 | trim is empty iff the string is all white space; otherwise it is the slice between white-space ends and starts and ends with non-space |
| Text.IncludesIff | src/contexts/BookContext.tsx:147 | `includes` holds iff the needle occurs at some index |
| Lookup.FindChapter | src/pages/BookmarksPage.tsx:14-16 | `getChapterInfo`: the first chapter with the id, or nothing iff no chapter has it |
| Lookup.FindStoredChapter | src/pages/ReaderPage.tsx:30-32 | with unique ids, looking up a stored chapter's id finds that chapter |
| Lookup.ClickTarget | src/pages/BookmarksPage.tsx:14-23 | the route `/reader/{language}/{id}` in the language of the first chapter with the referenced id, as `find` returns it; no navigation iff no chapter has that id |
| Lookup.Resolve | src/pages/BookmarksPage.tsx:65-67 | each rendered item comes with the chapter found for its reference |
| Lookup.ResolveKeepsResolvable | src/pages/BookmarksPage.tsx:65-67 | the rendered items are exactly the items whose chapter exists, in item order |
| ReaderPage.FilteredChapters | src/pages/ReaderPage.tsx:25 | sorted by order and, as a multiset, exactly the chapters of the route language |
| ReaderPage.CurrentChapterId | src/pages/ReaderPage.tsx:28 | a non-empty route id wins; otherwise the first listed chapter's id, or none for an empty list |
| ReaderPage.CurrentChapter | src/pages/ReaderPage.tsx:30-32 | a chapter is shown iff the current id is truthy and some stored chapter has it; the shown chapter is the first stored chapter with the current id |
| ReaderPage.CurrentIndex | src/pages/ReaderPage.tsx:34 | -1 iff there is no current chapter or the list has no chapter with its id; otherwise the first list position holding its id |
| ReaderPage.NextTarget | src/pages/ReaderPage.tsx:47-52 | a route exists iff `hasNext`, and it is that of the next listed chapter |
| ReaderPage.PrevTarget | src/pages/ReaderPage.tsx:54-59 | a route exists iff `hasPrev`, and it is that of the previous listed chapter |
| ReaderPage.IsBookmarkedIff | src/pages/ReaderPage.tsx:38 | bookmarked iff there is a current chapter and some bookmark refers to its id |
| ReaderPage.ChapterNotes | src/pages/ReaderPage.tsx:39 | the order-preserving sublist of notes on the current chapter; empty without one |
| ReaderPage.DefaultChapter | src/pages/ReaderPage.tsx:28-32 | without a route id the first listed chapter is shown; an empty list shows the not-found view |
| ReaderPage.FilteredUniqueIds | src/pages/ReaderPage.tsx:25 | the language list has unique ids when the store does |
| ReaderPage.CrossLanguage | src/pages/ReaderPage.tsx:30-36 | the other language's chapter is shown for its id, with index -1 and neither navigation control enabled |
| ReaderPage.IndexOfListed | src/pages/ReaderPage.tsx:34 | with unique ids, the index of the i-th listed chapter is i |
| ReaderPage.NextThenPrev | src/pages/ReaderPage.tsx:34-59 | following next from position i shows the chapter at i+1, at index i+1, whose previous route leads back to position i |
| ReaderPage.ToggleAdds | src/pages/ReaderPage.tsx:61-70 | without a current chapter nothing changes; unbookmarked, one bookmark at position 0 without note is appended and the chapter becomes bookmarked |
| ReaderPage.ToggleRemovesFirst | src/pages/ReaderPage.tsx:61-70 | bookmarked, exactly the first bookmark of the chapter is removed |
| ReaderPage.ToggleWithDuplicateStaysBookmarked | src/pages/ReaderPage.tsx:61-70 | with two bookmarks on the chapter it stays bookmarked after one toggle |
| ReaderPage.ToggleSingleUnbookmarks | src/pages/ReaderPage.tsx:61-70 | with a single bookmark on the chapter one toggle un-bookmarks it |
| ReaderPage.AddNoteFromInputSpec | src/pages/ReaderPage.tsx:72-77 | non-blank input appends one note with the trimmed text at position 0, and the chapter's notes grow by exactly that note |
| ReaderPage.AddNoteFromInputGuard | src/pages/ReaderPage.tsx:73 | no current chapter or blank text: nothing is added |
| ReaderPage.NoteInput.constructor | src/pages/ReaderPage.tsx:22-23 | the note input starts empty and closed |
| ReaderPage.RouteShows | src/pages/ReaderPage.tsx:30-32 | with unique ids, the route of a stored chapter with a non-empty id shows that chapter |
| ReaderPage.SyncCurrentChapter | src/pages/ReaderPage.tsx:41-45 | a shown chapter becomes the store's current chapter; nothing else changes |
| ReaderPage.HandleBookmark | src/pages/ReaderPage.tsx:61-70 | the store's bookmarks become the toggled list; nothing else in the store changes |
| ReaderPage.HandleAddNote | src/pages/ReaderPage.tsx:72-77 | the store's notes become the guarded append; on success the input is cleared and closed, otherwise left alone |
| AdminPortal.DashboardStats | src/pages/AdminPortal.tsx:41-44 | English plus Urdu counts equal the chapter count; pending plus approved counts equal the testimonial count |
| AdminPortal.LanguagePartition | src/pages/AdminPortal.tsx:41-42 | the two language filters split the chapters as a multiset |
| AdminPortal.ManagementListsCover | src/pages/AdminPortal.tsx:154-155 | each language list is sorted, and together they hold every chapter exactly once |
| AdminPortal.IsFormValidIff | src/pages/AdminPortal.tsx:265 | valid iff the title is not blank and (the content is not blank or there is an image) |
| AdminPortal.InitialForm | src/pages/AdminPortal.tsx:210-220 | editing pre-fills every field of the chapter; a new chapter starts empty, English, with order = total chapters + 1, and is invalid |
| AdminPortal.WithoutIndexSpec | src/pages/AdminPortal.tsx:247-251 | an index in range removes exactly that image and keeps the rest in order, one shorter; another index changes nothing |
| AdminPortal.SubmitChaptersSpec | src/pages/AdminPortal.tsx:253-263 | invalid: unchanged; valid edit: sorted, same length, edited entry carries the form; valid new: sorted, old plus the new chapter |
| AdminPortal.ChapterFormState.constructor | src/pages/AdminPortal.tsx:206-207 | the form starts as an empty English chapter of order 1 with no images, and the previews show those images |
| AdminPortal.ChapterFormState.Open | src/pages/AdminPortal.tsx:210-220 | the form takes its initial contents and the previews mirror its images |
| AdminPortal.ChapterFormState.ImageChange | src/pages/AdminPortal.tsx:222-245 | no file list: unchanged; otherwise the images become the old images followed by the new data URLs in file order |
| AdminPortal.ChapterFormState.RemoveImage | src/pages/AdminPortal.tsx:247-251 | the images lose the given index; previews mirror them |
| AdminPortal.ChapterFormState.Submit | src/pages/AdminPortal.tsx:253-263 | the form closes iff valid; the store's chapters become the submitted list, with update for an edit and add otherwise |
| AdminPortal.DeleteChapterConfirmed | src/pages/AdminPortal.tsx:148-151 | the chapter is deleted only when confirmed |
| AdminPortal.Approve | src/pages/AdminPortal.tsx:345-347 | approve is the update with `{ approved: true }` |
| AdminPortal.DeleteTestimonialConfirmed | src/pages/AdminPortal.tsx:349-353 | the testimonial is deleted only when confirmed |
| ScrollDirection.Initial | src/hooks/useScrollDirection.ts:8-11 | the listener starts with no direction at the offset it was attached at |
| ScrollDirection.Step | src/hooks/useScrollDirection.ts:14-26 | a move closer than 10 changes nothing; a move of 10 or more reports down iff the offset grew and records the offset, or 0 for a negative one |
| ScrollDirection.RunKeepsReported | src/hooks/useScrollDirection.ts:22-25 | once a direction is reported the recorded offset is non-negative and a direction stays reported |
| ScrollDirection.DriftAccumulates | src/hooks/useScrollDirection.ts:17-25 | moves within the threshold of the recorded offset leave the state unchanged; the first move 10 away sets the direction |
| ScrollDirection.SmallMovesKeepState | src/hooks/useScrollDirection.ts:17-19 | sub-threshold moves leave the recorded offset and direction as they were |
| ScrollDirection.SlowScrollReportsDown | src/hooks/useScrollDirection.ts:17-25 | events at 4, 8, 12 from 0: the first two change nothing, the third reports down at 12 |
| ScrollDirection.ScrollTracker.constructor | src/hooks/useScrollDirection.ts:8-12 | the listener starts at the offset read when it is attached, with no direction |
| ScrollDirection.ScrollTracker.OnScroll | src/hooks/useScrollDirection.ts:14-26 | the listener's state after an event is the step of the old state |
| BookmarksPage.Entries | src/pages/BookmarksPage.tsx:65-67 | the rendered bookmarks are exactly those whose chapter exists, in order, each with the first chapter carrying its id |
| BookmarksPage.AllDanglingShowsNothing | src/pages/BookmarksPage.tsx:50-67 | a non-empty list of dangling bookmarks shows neither the empty state nor any entry |
| BookmarksPage.ResolvableIsShown | src/pages/BookmarksPage.tsx:65-67 | a bookmark whose chapter exists is rendered |
| BookmarksPage.ClickBookmark | src/pages/BookmarksPage.tsx:14-23 | navigates to the reader route in the language of the first chapter with the bookmark's chapter id; nothing iff no chapter has it |
| BookmarksPage.NoteCaption | src/pages/BookmarksPage.tsx:87 | the note is shown iff present and not empty |
| BookmarksPage.DeleteEntry | src/pages/BookmarksPage.tsx:98-101 | removes the bookmark with the entry's own id, which is then absent |
| NotesPage.Entries | src/pages/NotesPage.tsx:65-67 | the rendered notes are exactly those whose chapter exists, in order, each with the first chapter carrying its id |
| NotesPage.AllDanglingShowsNothing | src/pages/NotesPage.tsx:50-67 | a non-empty list of dangling notes shows neither the empty state nor any entry |
| NotesPage.ResolvableIsShown | src/pages/NotesPage.tsx:65-67 | a note whose chapter exists is rendered |
| NotesPage.ClickNote | src/pages/NotesPage.tsx:14-23 | navigates to the reader route in the language of the first chapter with the note's chapter id; nothing iff no chapter has it |
| NotesPage.DeleteEntry | src/pages/NotesPage.tsx:91-94 | removes the note with the entry's own id, which is then absent |
| TestimonialsPage.PublicReviews | src/pages/TestimonialsPage.tsx:18 | exactly the approved testimonials, as an order-preserving sublist |
| TestimonialsPage.NoReviewsIff | src/pages/TestimonialsPage.tsx:70 | "No Reviews Yet" iff no testimonial is approved |
| TestimonialsPage.SubmitReviewSpec | src/pages/TestimonialsPage.tsx:20-27 | a non-blank name and text store the untrimmed input unapproved, leaving the public list unchanged; a blank one stores nothing |
| TestimonialsPage.ReviewForm.constructor | src/pages/TestimonialsPage.tsx:12-16 | the form starts with empty name and text, rating 5, closed |
| TestimonialsPage.ReviewForm.PickRating | src/pages/TestimonialsPage.tsx:157-161 | a rating button sets the rating to its value in 1..5 and nothing else |
| TestimonialsPage.ReviewForm.Submit | src/pages/TestimonialsPage.tsx:20-27 | the store gets the guarded submission; on success the form resets to ('', '', 5) and closes, otherwise it is unchanged |
| HomePage.Featured | src/pages/HomePage.tsx:12 | at most 3, exactly 3 when 3 are approved, all approved, the prefix of the approved sublist, and a sublist of the store |
| HomePage.ShowsFeaturedIff | src/pages/HomePage.tsx:88 | the featured section appears iff some testimonial is approved |

## Left out

- Persistence in `localStorage` is left out: `getFromStorage`, `setToStorage`, the persisting effects, JSON (de)serialisation and its error handling (src/contexts/BookContext.tsx:78-116). The store's constructor takes, for each key, what reading it produced, `None` standing for a missing, empty or unreadable entry; the fallback rule of `getFromStorage` is modelled, the reading itself is not. Date re-hydration looks only at the first element of a stored array (line 85), and the model does not capture that.
- src/lib/supabase.ts is not part of this model. None of the modelled code calls it.
- Id generation (`faker.string.uuid()`) and clocks (`new Date()`) are left out. Both are parameters. Dates are integers, and their display formatting (`toLocaleDateString`) is left out.
- `navigate`, `window.confirm`, `FileReader` and the `uploading` flag are left out. Navigation is a returned route, confirmation is a boolean, and the upload is the list of data URLs in file order. The form's `uploading` flag is only observable while reads are pending.
- Asynchrony and concurrency are left out. `ChapterFormState.ImageChange` treats reading the files as completing before anything else happens. The source's handler appends to the `formData` captured when the event fired, so edits made while files are being read would be lost. The model does not capture that.
- The `loading` flag read by src/App.tsx, routing, the settings context, the header's own scroll rule, the search modal, and all layout and animation are presentation. They are left out.
- `Text.LowerChar`: `toLowerCase` is modelled for the ASCII letters only. Other scripts, including the Urdu text, are kept unchanged. Unicode case mapping is out of scope.
- Scroll offsets and chapter `order` are `int`. Fractional offsets and non-integer `Number(...)` results of the order input are out of scope.
- The sample chapter with id "2" carries an `imageUrl` in the source data (src/contexts/BookContext.tsx:65). The `Chapter` type of this model has only `images`, so that field is dropped and the sample chapters have no images. Likewise `chapter.images || []` (src/pages/AdminPortal.tsx:213) is modelled by a chapter whose image list is always present.
- Plain field setters are left out: the form inputs' `onChange` setters, `handleEdit`/`handleAdd` of the chapter list, and the show/hide toggles of dialogs. They only store the value they are given.
- `BookContext.UpdateChapterSpec` states that the chapters with other ids are unchanged as a multiset, not position by position, because the list is re-sorted.
- `ReaderPage.ToggleRemovesFirst`, `ReaderPage.ToggleWithDuplicateStaysBookmarked` and `ReaderPage.ToggleSingleUnbookmarks` assume unique bookmark ids, as generated UUIDs are. With duplicate ids, `removeBookmark` would remove every bookmark sharing the first one's id.
- `ReaderPage.DefaultChapter`, `ReaderPage.CrossLanguage`, `ReaderPage.NextThenPrev` and `ReaderPage.RouteShows` assume unique chapter ids. Lookup returns the first chapter with an id, so with duplicate ids the displayed chapter may differ from the listed one.
