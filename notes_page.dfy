/** The notes screen (src/pages/NotesPage.tsx): each note is shown
    with its chapter, notes whose chapter no longer exists are skipped, and
    an entry navigates to its chapter or deletes itself. */
module NotesPage {
  import opened Seqs
  import opened Records
  import opened Lookup
  import BC = BookContext
  import BookProvider

  function NoteChapterId(n: Note): string { n.chapterId }

  /** The rendered entries: each note whose chapter exists, with that chapter. */
  function Entries(notes: seq<Note>, chapters: seq<Chapter>): (r: seq<(Note, Chapter)>)
    ensures forall e :: e in r ==> e.0 in notes && FindChapter(chapters, e.0.chapterId) == Some(e.1)
    ensures Map(r, First) == Filter(notes, HasChapter(chapters, NoteChapterId))
  {
    ResolveKeepsResolvable(notes, NoteChapterId, chapters);
    Resolve(notes, NoteChapterId, chapters)
  }

  /** The "No Notes Yet" state. */
  predicate ShowsEmptyState(notes: seq<Note>) {
    |notes| == 0
  }

  /** Notes that all point at missing chapters show neither the empty state nor any entry. */
  lemma AllDanglingShowsNothing(notes: seq<Note>, chapters: seq<Chapter>)
    requires forall n, c :: n in notes && c in chapters ==> c.id != n.chapterId
    ensures notes != [] ==> !ShowsEmptyState(notes)
    ensures Entries(notes, chapters) == []
  {
    forall j | 0 <= j < |notes| ensures !HasChapter(chapters, NoteChapterId)(notes[j]) {
      assert notes[j] in notes;
      HasChapterIff(chapters, NoteChapterId, notes[j]);
    }
    FilterKeepsNone(notes, HasChapter(chapters, NoteChapterId));
    MapAt(Entries(notes, chapters), First);
  }

  /** A note with an existing chapter is rendered. */
  lemma ResolvableIsShown(notes: seq<Note>, chapters: seq<Chapter>, n: Note)
    requires n in notes && exists c :: c in chapters && c.id == n.chapterId
    ensures n in Map(Entries(notes, chapters), First)
  {
    HasChapterIff(chapters, NoteChapterId, n);
    FilterMembers(notes, HasChapter(chapters, NoteChapterId));
  }

  /** `handleNoteClick`: the chapter's reader route, or nothing when it is missing. */
  function ClickNote(chapters: seq<Chapter>, n: Note): (r: Option<string>)
    ensures r.None? <==> forall c :: c in chapters ==> c.id != n.chapterId
    ensures r.Some? ==> exists i :: 0 <= i < |chapters| && chapters[i].id == n.chapterId &&
                                    (forall j :: 0 <= j < i ==> chapters[j].id != n.chapterId) &&
                                    r.value == ReaderPath(LanguageName(chapters[i].language), n.chapterId)
  {
    ClickTarget(chapters, n.chapterId)
  }

  /** The delete control of an entry removes the note with that entry's own id. */
  method DeleteEntry(store: BookProvider.BookStore, n: Note)
    modifies store
    ensures store.notes == BC.RemoveNote(old(store.notes), n.id)
    ensures n !in store.notes
    ensures store.chapters == old(store.chapters) && store.bookmarks == old(store.bookmarks)
    ensures store.testimonials == old(store.testimonials) && store.currentChapter == old(store.currentChapter)
  {
    store.RemoveNote(n.id);
  }
}
