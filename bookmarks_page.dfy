/** The bookmarks screen (src/pages/BookmarksPage.tsx): each bookmark is shown
    with its chapter, bookmarks whose chapter no longer exists are skipped, and
    an entry navigates to its chapter or deletes itself. */
module BookmarksPage {
  import opened Seqs
  import opened Records
  import opened Lookup
  import BC = BookContext
  import BookProvider

  function BookmarkChapterId(b: Bookmark): string { b.chapterId }

  /** The rendered entries: each bookmark whose chapter exists, with that chapter. */
  function Entries(bookmarks: seq<Bookmark>, chapters: seq<Chapter>): (r: seq<(Bookmark, Chapter)>)
    ensures forall e :: e in r ==> e.0 in bookmarks && FindChapter(chapters, e.0.chapterId) == Some(e.1)
    ensures Map(r, First) == Filter(bookmarks, HasChapter(chapters, BookmarkChapterId))
  {
    ResolveKeepsResolvable(bookmarks, BookmarkChapterId, chapters);
    Resolve(bookmarks, BookmarkChapterId, chapters)
  }

  /** The "No Bookmarks Yet" state. */
  predicate ShowsEmptyState(bookmarks: seq<Bookmark>) {
    |bookmarks| == 0
  }

  /** Bookmarks that all point at missing chapters show neither the empty state nor any entry. */
  lemma AllDanglingShowsNothing(bookmarks: seq<Bookmark>, chapters: seq<Chapter>)
    requires forall b, c :: b in bookmarks && c in chapters ==> c.id != b.chapterId
    ensures bookmarks != [] ==> !ShowsEmptyState(bookmarks)
    ensures Entries(bookmarks, chapters) == []
  {
    forall j | 0 <= j < |bookmarks| ensures !HasChapter(chapters, BookmarkChapterId)(bookmarks[j]) {
      assert bookmarks[j] in bookmarks;
      HasChapterIff(chapters, BookmarkChapterId, bookmarks[j]);
    }
    FilterKeepsNone(bookmarks, HasChapter(chapters, BookmarkChapterId));
    MapAt(Entries(bookmarks, chapters), First);
  }

  /** A bookmark with an existing chapter is rendered. */
  lemma ResolvableIsShown(bookmarks: seq<Bookmark>, chapters: seq<Chapter>, b: Bookmark)
    requires b in bookmarks && exists c :: c in chapters && c.id == b.chapterId
    ensures b in Map(Entries(bookmarks, chapters), First)
  {
    HasChapterIff(chapters, BookmarkChapterId, b);
    FilterMembers(bookmarks, HasChapter(chapters, BookmarkChapterId));
  }

  /** `handleBookmarkClick`: the chapter's reader route, or nothing when it is missing. */
  function ClickBookmark(chapters: seq<Chapter>, b: Bookmark): (r: Option<string>)
    ensures r.None? <==> forall c :: c in chapters ==> c.id != b.chapterId
    ensures r.Some? ==> exists i :: 0 <= i < |chapters| && chapters[i].id == b.chapterId &&
                                    (forall j :: 0 <= j < i ==> chapters[j].id != b.chapterId) &&
                                    r.value == ReaderPath(LanguageName(chapters[i].language), b.chapterId)
  {
    ClickTarget(chapters, b.chapterId)
  }

  /** `{bookmark.note && …}`: the note, when present and not empty. */
  function NoteCaption(b: Bookmark): (r: Option<string>)
    ensures r.Some? <==> Truthy(b.note)
    ensures r.Some? ==> r.value == b.note.value && r.value != ""
  {
    if Truthy(b.note) then b.note else None
  }

  /** The delete control of an entry removes the bookmark with that entry's own id. */
  method DeleteEntry(store: BookProvider.BookStore, b: Bookmark)
    modifies store
    ensures store.bookmarks == BC.RemoveBookmark(old(store.bookmarks), b.id)
    ensures b !in store.bookmarks
    ensures store.chapters == old(store.chapters) && store.notes == old(store.notes)
    ensures store.testimonials == old(store.testimonials) && store.currentChapter == old(store.currentChapter)
  {
    store.RemoveBookmark(b.id);
  }
}
