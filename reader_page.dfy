/** The reader screen (src/pages/ReaderPage.tsx): which chapters the route's
    language shows and in what order, which chapter is current, the
    previous/next navigation, and the bookmark and note handlers. The route's
    `language` and `chapterId` parameters are inputs; `chapterId` is `None`
    when the route has none. */
module ReaderPage {
  import opened Seqs
  import opened Text
  import opened Records
  import opened ChapterOrder
  import opened Lookup
  import BC = BookContext
  import BookProvider

  function LanguageIs(language: string): Chapter -> bool {
    (c: Chapter) => LanguageName(c.language) == language
  }

  /** `chapters.filter(c => c.language === language).sort((a, b) => a.order - b.order)`. */
  function FilteredChapters(chapters: seq<Chapter>, language: string): (r: seq<Chapter>)
    ensures Sorted(r)
    ensures forall c :: c in r <==> c in chapters && LanguageName(c.language) == language
    ensures forall c :: multiset(r)[c] == if LanguageName(c.language) == language then multiset(chapters)[c] else 0
  {
    var f := Filter(chapters, LanguageIs(language));
    FilterMembers(chapters, LanguageIs(language));
    FilterMultiset(chapters, LanguageIs(language));
    SameMembers(SortByOrder(f), f);
    SortByOrder(f)
  }

  /** `chapterId || (filteredChapters.length > 0 ? filteredChapters[0].id : undefined)`. */
  function CurrentChapterId(filtered: seq<Chapter>, routeId: Option<string>): (r: Option<string>)
    ensures Truthy(routeId) ==> r == routeId
    ensures !Truthy(routeId) && filtered != [] ==> r == Some(filtered[0].id)
    ensures !Truthy(routeId) && filtered == [] ==> r == None
  {
    if Truthy(routeId) then routeId
    else if |filtered| > 0 then Some(filtered[0].id)
    else None
  }

  /** The chapter shown: the current id looked up among all chapters, of either language. */
  function CurrentChapter(chapters: seq<Chapter>, language: string, routeId: Option<string>): (r: Option<Chapter>)
    ensures r.Some? ==> r.value in chapters
    ensures r.Some? ==> CurrentChapterId(FilteredChapters(chapters, language), routeId) == Some(r.value.id)
    ensures r.Some? ==> FindChapter(chapters, r.value.id) == Some(r.value)
    ensures var id := CurrentChapterId(FilteredChapters(chapters, language), routeId);
            r.Some? <==> Truthy(id) && exists c :: c in chapters && c.id == id.value
  {
    var id := CurrentChapterId(FilteredChapters(chapters, language), routeId);
    if Truthy(id) then FindChapter(chapters, id.value) else None
  }

  /** `filteredChapters.findIndex(c => c.id === currentChapter?.id)`; -1 without a current chapter. */
  function CurrentIndex(filtered: seq<Chapter>, current: Option<Chapter>): (r: int)
    ensures -1 <= r < |filtered|
    ensures r != -1 ==> current.Some? && filtered[r].id == current.value.id
    ensures r != -1 ==> forall j :: 0 <= j < r ==> filtered[j].id != current.value.id
    ensures r == -1 <==> current.None? || forall c :: c in filtered ==> c.id != current.value.id
  {
    if current.None? then -1 else FindIndex(filtered, IdIs(current.value.id))
  }

  predicate HasNext(filtered: seq<Chapter>, index: int) {
    index != -1 && index < |filtered| - 1
  }

  predicate HasPrev(index: int) {
    index > 0
  }

  /** `handleNext`: the route of the following chapter, only when there is one. */
  function NextTarget(language: string, filtered: seq<Chapter>, index: int): (r: Option<string>)
    requires -1 <= index
    ensures r.Some? <==> HasNext(filtered, index)
    ensures r.Some? ==> 0 <= index + 1 < |filtered| && r.value == ReaderPath(language, filtered[index + 1].id)
  {
    if HasNext(filtered, index) then Some(ReaderPath(language, filtered[index + 1].id)) else None
  }

  /** `handlePrev`: the route of the preceding chapter, only when there is one. */
  function PrevTarget(language: string, filtered: seq<Chapter>, index: int): (r: Option<string>)
    requires index < |filtered|
    ensures r.Some? <==> HasPrev(index)
    ensures r.Some? ==> 0 <= index - 1 < |filtered| && r.value == ReaderPath(language, filtered[index - 1].id)
  {
    if HasPrev(index) then Some(ReaderPath(language, filtered[index - 1].id)) else None
  }

  function BookmarkFor(chapterId: string): Bookmark -> bool {
    (b: Bookmark) => b.chapterId == chapterId
  }

  function NoteFor(chapterId: string): Note -> bool {
    (n: Note) => n.chapterId == chapterId
  }

  /** `currentChapter ? bookmarks.some(b => b.chapterId === currentChapter.id) : false`. */
  predicate IsBookmarked(bookmarks: seq<Bookmark>, current: Option<Chapter>) {
    current.Some? && Any(bookmarks, BookmarkFor(current.value.id))
  }

  lemma IsBookmarkedIff(bookmarks: seq<Bookmark>, current: Option<Chapter>)
    ensures IsBookmarked(bookmarks, current) <==>
            current.Some? && exists b :: b in bookmarks && b.chapterId == current.value.id
  {
    if current.Some? && Any(bookmarks, BookmarkFor(current.value.id)) {
      var i := FindIndex(bookmarks, BookmarkFor(current.value.id));
      assert bookmarks[i] in bookmarks;
    }
  }

  /** `currentChapter ? notes.filter(n => n.chapterId === currentChapter.id) : []`. */
  function ChapterNotes(notes: seq<Note>, current: Option<Chapter>): (r: seq<Note>)
    ensures current.None? ==> r == []
    ensures current.Some? ==> forall n :: n in r <==> n in notes && n.chapterId == current.value.id
    ensures IsSubsequence(r, notes)
  {
    if current.None? then
      PrefixIsSubsequence(notes, 0);
      []
    else
      FilterMembers(notes, NoteFor(current.value.id));
      FilterIsSubsequence(notes, NoteFor(current.value.id));
      Filter(notes, NoteFor(current.value.id))
  }

  /** The bookmark list after `handleBookmark`, given the id and time a new bookmark would get. */
  function ToggleBookmark(bookmarks: seq<Bookmark>, current: Option<Chapter>, id: string, createdAt: int): seq<Bookmark> {
    if current.None? then bookmarks
    else if IsBookmarked(bookmarks, current) then
      var k := FindIndex(bookmarks, BookmarkFor(current.value.id));
      BC.RemoveBookmark(bookmarks, bookmarks[k].id)
    else BC.AddBookmark(bookmarks, current.value.id, 0, None, id, createdAt)
  }

  /** The note list after `handleAddNote`: a note at position 0 with the trimmed text,
      unless there is no current chapter or the text is blank. */
  function AddNoteFromInput(notes: seq<Note>, current: Option<Chapter>, text: string, id: string, createdAt: int): seq<Note> {
    if current.None? || Trim(text) == [] then notes
    else BC.AddNote(notes, current.value.id, 0, Trim(text), id, createdAt)
  }

  /** Without a route id, the first chapter of the language is shown; none when the
      language has no chapters (the not-found view). */
  lemma DefaultChapter(chapters: seq<Chapter>, language: string, routeId: Option<string>)
    requires !Truthy(routeId) && UniqueIds(chapters, ChapterId)
    ensures var f := FilteredChapters(chapters, language);
            (f == [] ==> CurrentChapter(chapters, language, routeId) == None) &&
            (f != [] && f[0].id != "" ==> CurrentChapter(chapters, language, routeId) == Some(f[0]))
  {
    var f := FilteredChapters(chapters, language);
    if f != [] && f[0].id != "" {
      FindStoredChapter(chapters, f[0]);
    }
  }

  /** The language's list has unique ids when the store does. */
  lemma FilteredUniqueIds(chapters: seq<Chapter>, language: string)
    requires UniqueIds(chapters, ChapterId)
    ensures UniqueIds(FilteredChapters(chapters, language), ChapterId)
  {
    FilterKeepsUniqueIds(chapters, LanguageIs(language), ChapterId);
    SortKeepsUniqueIds(Filter(chapters, LanguageIs(language)));
  }

  /** A chapter of the other language is still shown when its id is in the route,
      but it has no place in the list and neither navigation control is enabled. */
  lemma CrossLanguage(chapters: seq<Chapter>, language: string, c: Chapter)
    requires c in chapters && LanguageName(c.language) != language && UniqueIds(chapters, ChapterId)
    ensures c.id != "" ==> CurrentChapter(chapters, language, Some(c.id)) == Some(c)
    ensures var f := FilteredChapters(chapters, language);
            CurrentIndex(f, Some(c)) == -1 && !HasNext(f, -1) && !HasPrev(-1) &&
            NextTarget(language, f, -1) == None && PrevTarget(language, f, -1) == None
  {
    var f := FilteredChapters(chapters, language);
    FindStoredChapter(chapters, c);
    forall d | d in f ensures d.id != c.id {
      var i :| 0 <= i < |chapters| && chapters[i] == c;
      var j :| 0 <= j < |chapters| && chapters[j] == d;
      assert i != j;
    }
  }

  /** With unique ids, the index of the `i`-th listed chapter is `i`. */
  lemma IndexOfListed(chapters: seq<Chapter>, language: string, i: nat)
    requires UniqueIds(chapters, ChapterId) && i < |FilteredChapters(chapters, language)|
    ensures CurrentIndex(FilteredChapters(chapters, language), Some(FilteredChapters(chapters, language)[i])) == i
  {
    var f := FilteredChapters(chapters, language);
    FilteredUniqueIds(chapters, language);
    var r := CurrentIndex(f, Some(f[i]));
    assert f[i] in f;
    assert ChapterId(f[r]) == ChapterId(f[i]);
  }

  /** Following "next" from the `i`-th chapter shows the `(i+1)`-th, whose "previous"
      leads back to the `i`-th. */
  lemma NextThenPrev(chapters: seq<Chapter>, language: string, i: nat)
    requires UniqueIds(chapters, ChapterId)
    requires i + 1 < |FilteredChapters(chapters, language)|
    requires FilteredChapters(chapters, language)[i + 1].id != ""
    ensures var f := FilteredChapters(chapters, language);
            var next := CurrentChapter(chapters, language, Some(f[i + 1].id));
            NextTarget(language, f, i) == Some(ReaderPath(language, f[i + 1].id)) &&
            next == Some(f[i + 1]) &&
            CurrentIndex(f, next) == i + 1 &&
            PrevTarget(language, f, i + 1) == Some(ReaderPath(language, f[i].id))
  {
    var f := FilteredChapters(chapters, language);
    assert f[i + 1] in chapters;
    RouteShows(chapters, language, f[i + 1]);
    IndexOfListed(chapters, language, i + 1);
  }

  /** With unique ids, the route of a stored chapter with a non-empty id shows that chapter. */
  lemma RouteShows(chapters: seq<Chapter>, language: string, c: Chapter)
    requires c in chapters && c.id != "" && UniqueIds(chapters, ChapterId)
    ensures CurrentChapter(chapters, language, Some(c.id)) == Some(c)
  {
    FindStoredChapter(chapters, c);
  }

  /** `handleBookmark` when the chapter is not bookmarked adds one bookmark for it at position 0,
      after which it is bookmarked; without a current chapter it changes nothing. */
  lemma ToggleAdds(bookmarks: seq<Bookmark>, current: Option<Chapter>, id: string, createdAt: int)
    requires !IsBookmarked(bookmarks, current)
    ensures current.None? ==> ToggleBookmark(bookmarks, current, id, createdAt) == bookmarks
    ensures current.Some? ==>
              ToggleBookmark(bookmarks, current, id, createdAt) ==
                bookmarks + [Bookmark(id, current.value.id, 0, None, createdAt)] &&
              IsBookmarked(ToggleBookmark(bookmarks, current, id, createdAt), current)
  {
    if current.Some? {
      var r := ToggleBookmark(bookmarks, current, id, createdAt);
      assert r[|bookmarks|] in r;
      IsBookmarkedIff(r, current);
    }
  }

  /** `handleBookmark` on a bookmarked chapter removes the first bookmark of the chapter
      and no other (bookmark ids being unique). */
  lemma ToggleRemovesFirst(bookmarks: seq<Bookmark>, c: Chapter, id: string, createdAt: int)
    requires IsBookmarked(bookmarks, Some(c)) && UniqueIds(bookmarks, BookmarkId)
    ensures var k := FindIndex(bookmarks, BookmarkFor(c.id));
            0 <= k < |bookmarks| && bookmarks[k].chapterId == c.id &&
            (forall j :: 0 <= j < k ==> bookmarks[j].chapterId != c.id) &&
            ToggleBookmark(bookmarks, Some(c), id, createdAt) == bookmarks[..k] + bookmarks[k + 1..]
  {
    var k := FindIndex(bookmarks, BookmarkFor(c.id));
    BC.RemoveUniqueAt(bookmarks, BookmarkId, k);
  }

  /** With two bookmarks on the chapter, one toggle leaves it bookmarked. */
  lemma ToggleWithDuplicateStaysBookmarked(bookmarks: seq<Bookmark>, c: Chapter, id: string, createdAt: int, i: nat, j: nat)
    requires UniqueIds(bookmarks, BookmarkId)
    requires i < j < |bookmarks| && bookmarks[i].chapterId == c.id && bookmarks[j].chapterId == c.id
    ensures IsBookmarked(ToggleBookmark(bookmarks, Some(c), id, createdAt), Some(c))
  {
    var k := FindIndex(bookmarks, BookmarkFor(c.id));
    ToggleRemovesFirst(bookmarks, c, id, createdAt);
    var r := ToggleBookmark(bookmarks, Some(c), id, createdAt);
    assert k <= i;
    assert bookmarks[j] == bookmarks[k + 1..][j - k - 1];
    assert bookmarks[j] in r;
    IsBookmarkedIff(r, Some(c));
  }

  /** With a single bookmark on the chapter, one toggle un-bookmarks it. */
  lemma ToggleSingleUnbookmarks(bookmarks: seq<Bookmark>, c: Chapter, id: string, createdAt: int, i: nat)
    requires UniqueIds(bookmarks, BookmarkId)
    requires i < |bookmarks| && bookmarks[i].chapterId == c.id
    requires forall j :: 0 <= j < |bookmarks| && j != i ==> bookmarks[j].chapterId != c.id
    ensures !IsBookmarked(ToggleBookmark(bookmarks, Some(c), id, createdAt), Some(c))
  {
    ToggleRemovesFirst(bookmarks, c, id, createdAt);
    var k := FindIndex(bookmarks, BookmarkFor(c.id));
    assert k == i;
    var r := ToggleBookmark(bookmarks, Some(c), id, createdAt);
    forall b | b in r ensures b.chapterId != c.id {
      var m :| 0 <= m < |r| && r[m] == b;
      if m < k {
        assert b == bookmarks[m];
      } else {
        assert b == bookmarks[m + 1];
      }
    }
    IsBookmarkedIff(r, Some(c));
  }

  /** `handleAddNote` with a current chapter and non-blank text appends one note whose
      text is the trimmed input; the chapter's notes grow by exactly that note. */
  lemma AddNoteFromInputSpec(notes: seq<Note>, c: Chapter, text: string, id: string, createdAt: int)
    requires !IsBlank(text)
    ensures var r := AddNoteFromInput(notes, Some(c), text, id, createdAt);
            r == notes + [Note(id, c.id, 0, Trim(text), createdAt)] &&
            Trim(text) != [] && !IsSpace(Trim(text)[0]) && !IsSpace(Trim(text)[|Trim(text)| - 1]) &&
            ChapterNotes(r, Some(c)) == ChapterNotes(notes, Some(c)) + [Note(id, c.id, 0, Trim(text), createdAt)]
  {
    var n := Note(id, c.id, 0, Trim(text), createdAt);
    FilterConcat(notes, [n], NoteFor(c.id));
  }

  /** `handleAddNote` does nothing without a current chapter or with blank text. */
  lemma AddNoteFromInputGuard(notes: seq<Note>, current: Option<Chapter>, text: string, id: string, createdAt: int)
    requires current.None? || IsBlank(text)
    ensures AddNoteFromInput(notes, current, text, id, createdAt) == notes
  {
  }

  /** The note editor's local state: `noteText` and `showNoteInput`. */
  class NoteInput {
    var text: string
    var open: bool

    constructor ()
      ensures text == "" && !open
    {
      text := "";
      open := false;
    }
  }

  /** The `useEffect` that publishes the shown chapter to the store. */
  method SyncCurrentChapter(store: BookProvider.BookStore, current: Option<Chapter>)
    modifies store
    ensures current.Some? ==> store.currentChapter == current
    ensures current.None? ==> store.currentChapter == old(store.currentChapter)
    ensures store.chapters == old(store.chapters) && store.bookmarks == old(store.bookmarks)
    ensures store.notes == old(store.notes) && store.testimonials == old(store.testimonials)
  {
    if current.Some? {
      store.SetCurrentChapter(current.value);
    }
  }

  /** `handleBookmark`, with the id and time a new bookmark would receive. */
  method HandleBookmark(store: BookProvider.BookStore, current: Option<Chapter>, id: string, createdAt: int)
    modifies store
    ensures store.bookmarks == ToggleBookmark(old(store.bookmarks), current, id, createdAt)
    ensures store.chapters == old(store.chapters) && store.notes == old(store.notes)
    ensures store.testimonials == old(store.testimonials) && store.currentChapter == old(store.currentChapter)
  {
    if current.None? {
      return;
    }
    if Any(store.bookmarks, BookmarkFor(current.value.id)) {
      var k := FindIndex(store.bookmarks, BookmarkFor(current.value.id));
      store.RemoveBookmark(store.bookmarks[k].id);
    } else {
      store.AddBookmark(current.value.id, 0, None, id, createdAt);
    }
  }

  /** `handleAddNote`: on a non-blank input, stores the trimmed note, clears the text
      and closes the editor; otherwise changes nothing. */
  method HandleAddNote(store: BookProvider.BookStore, input: NoteInput, current: Option<Chapter>, id: string, createdAt: int)
    modifies store, input
    ensures store.notes == AddNoteFromInput(old(store.notes), current, old(input.text), id, createdAt)
    ensures current.Some? && Trim(old(input.text)) != [] ==> input.text == "" && !input.open
    ensures current.None? || Trim(old(input.text)) == [] ==>
              input.text == old(input.text) && input.open == old(input.open)
    ensures store.chapters == old(store.chapters) && store.bookmarks == old(store.bookmarks)
    ensures store.testimonials == old(store.testimonials) && store.currentChapter == old(store.currentChapter)
  {
    if current.None? || Trim(input.text) == [] {
      return;
    }
    store.AddNote(current.value.id, 0, Trim(input.text), id, createdAt);
    input.text := "";
    input.open := false;
  }
}
