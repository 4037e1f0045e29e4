/** `BookProvider` (src/contexts/BookContext.tsx:105-194): the store object that
    holds the four collections and the current chapter, and replaces one
    collection on every operation. Each method's new state is the matching
    transition of the BookContext module applied to the old state. */
module BookProvider {
  import opened Seqs
  import opened Text
  import opened Records
  import opened ChapterOrder
  import BC = BookContext

  /** `getFromStorage(key, fallback)` when reading succeeds: the stored value or the fallback. */
  function OrDefault<T>(stored: Option<T>, fallback: T): (r: T)
    ensures stored.Some? ==> r == stored.value
    ensures stored.None? ==> r == fallback
  {
    match stored
    case Some(v) => v
    case None => fallback
  }

  /** `getFromStorage('chapters', mockChapters)`, given what storage held. */
  function InitialChapters(stored: Option<seq<Chapter>>): seq<Chapter> {
    OrDefault(stored, BC.MockChapters())
  }

  /** `getFromStorage('testimonials', mockTestimonials)`, given what storage held. */
  function InitialTestimonials(stored: Option<seq<Testimonial>>): seq<Testimonial> {
    OrDefault(stored, BC.MockTestimonials())
  }

  /** With nothing stored, a session starts from the five sample chapters, whose
      ids are unique and which are not in order, and with no bookmarks or notes. */
  lemma NothingStoredChapters()
    ensures var cs := InitialChapters(None);
            |cs| == 5 && UniqueIds(cs, ChapterId) && !Sorted(cs)
    ensures OrDefault<seq<Bookmark>>(None, []) == [] && OrDefault<seq<Note>>(None, []) == []
  {
    var cs := BC.MockChapters();
    BC.MockChaptersUnsorted();
    assert forall i :: 0 <= i < |cs| ==> cs[i].id == [('1' as int + i) as char];
  }

  /** With nothing stored, a session starts from the three sample testimonials,
      with unique ids, of which the first and the third are approved. */
  lemma NothingStoredTestimonials()
    ensures var ts := InitialTestimonials(None);
            |ts| == 3 && UniqueIds(ts, TestimonialId) &&
            BC.Approved(ts) == [ts[0], ts[2]] && BC.Pending(ts) == [ts[1]]
  {
    var ts := BC.MockTestimonials();
    assert ts[0].approved && !ts[1].approved && ts[2].approved;
    assert ts[0].id == "1" && ts[1].id == "2" && ts[2].id == "3";
    ApprovedOfThree(ts);
  }

  /** Approval filtering of a three-element list whose middle element alone is pending. */
  lemma ApprovedOfThree(ts: seq<Testimonial>)
    requires |ts| == 3 && ts[0].approved && !ts[1].approved && ts[2].approved
    requires ts[0].id != ts[1].id && ts[0].id != ts[2].id && ts[1].id != ts[2].id
    ensures UniqueIds(ts, TestimonialId)
    ensures BC.Approved(ts) == [ts[0], ts[2]] && BC.Pending(ts) == [ts[1]]
  {
    var t1, t2 := ts[1..], ts[2..];
    assert ts == [ts[0]] + t1 && t1 == [ts[1]] + t2 && t2 == [ts[2]] + [];
    FilterCons(ts[0], t1, BC.IsApproved);
    FilterCons(ts[1], t2, BC.IsApproved);
    FilterCons(ts[2], [], BC.IsApproved);
    FilterCons(ts[0], t1, BC.IsPending);
    FilterCons(ts[1], t2, BC.IsPending);
    FilterCons(ts[2], [], BC.IsPending);
  }

  class BookStore {
    var chapters: seq<Chapter>
    var bookmarks: seq<Bookmark>
    var notes: seq<Note>
    var testimonials: seq<Testimonial>
    var currentChapter: Option<Chapter>

    /** The store as a session starts. Each `stored…` argument is what reading that
        key from storage produced: `None` when the key is missing, empty or unreadable. */
    constructor (storedChapters: Option<seq<Chapter>>, storedBookmarks: Option<seq<Bookmark>>,
                 storedNotes: Option<seq<Note>>, storedTestimonials: Option<seq<Testimonial>>)
      ensures chapters == InitialChapters(storedChapters)
      ensures bookmarks == OrDefault(storedBookmarks, [])
      ensures notes == OrDefault(storedNotes, [])
      ensures testimonials == InitialTestimonials(storedTestimonials)
      ensures currentChapter == None
    {
      chapters := InitialChapters(storedChapters);
      bookmarks := OrDefault(storedBookmarks, []);
      notes := OrDefault(storedNotes, []);
      testimonials := InitialTestimonials(storedTestimonials);
      currentChapter := None;
    }

    method SetCurrentChapter(c: Chapter)
      modifies this
      ensures currentChapter == Some(c)
      ensures chapters == old(chapters) && bookmarks == old(bookmarks)
      ensures notes == old(notes) && testimonials == old(testimonials)
    {
      currentChapter := Some(c);
    }

    method AddBookmark(chapterId: string, position: int, note: Option<string>, id: string, createdAt: int)
      modifies this
      ensures bookmarks == BC.AddBookmark(old(bookmarks), chapterId, position, note, id, createdAt)
      ensures bookmarks[..|old(bookmarks)|] == old(bookmarks)
      ensures bookmarks[|old(bookmarks)|] == Bookmark(id, chapterId, position, note, createdAt)
      ensures chapters == old(chapters) && notes == old(notes)
      ensures testimonials == old(testimonials) && currentChapter == old(currentChapter)
    {
      bookmarks := BC.AddBookmark(bookmarks, chapterId, position, note, id, createdAt);
    }

    method RemoveBookmark(id: string)
      modifies this
      ensures bookmarks == BC.RemoveBookmark(old(bookmarks), id)
      ensures forall b :: b in bookmarks <==> b in old(bookmarks) && b.id != id
      ensures chapters == old(chapters) && notes == old(notes)
      ensures testimonials == old(testimonials) && currentChapter == old(currentChapter)
    {
      BC.RemoveByIdSpec(bookmarks, BookmarkId, id);
      bookmarks := BC.RemoveBookmark(bookmarks, id);
    }

    method AddNote(chapterId: string, position: int, text: string, id: string, createdAt: int)
      modifies this
      ensures notes == BC.AddNote(old(notes), chapterId, position, text, id, createdAt)
      ensures notes[..|old(notes)|] == old(notes)
      ensures notes[|old(notes)|] == Note(id, chapterId, position, text, createdAt)
      ensures chapters == old(chapters) && bookmarks == old(bookmarks)
      ensures testimonials == old(testimonials) && currentChapter == old(currentChapter)
    {
      notes := BC.AddNote(notes, chapterId, position, text, id, createdAt);
    }

    method UpdateNote(id: string, text: string)
      modifies this
      ensures notes == BC.UpdateNote(old(notes), id, text)
      ensures BC.RemoveNote(notes, id) == BC.RemoveNote(old(notes), id)
      ensures chapters == old(chapters) && bookmarks == old(bookmarks)
      ensures testimonials == old(testimonials) && currentChapter == old(currentChapter)
    {
      BC.UpdateNoteFrame(notes, id, text);
      notes := BC.UpdateNote(notes, id, text);
    }

    method RemoveNote(id: string)
      modifies this
      ensures notes == BC.RemoveNote(old(notes), id)
      ensures forall n :: n in notes <==> n in old(notes) && n.id != id
      ensures chapters == old(chapters) && bookmarks == old(bookmarks)
      ensures testimonials == old(testimonials) && currentChapter == old(currentChapter)
    {
      BC.RemoveByIdSpec(notes, NoteId, id);
      notes := BC.RemoveNote(notes, id);
    }

    method AddTestimonial(input: TestimonialInput, id: string, createdAt: int)
      modifies this
      ensures testimonials == BC.AddTestimonial(old(testimonials), input, id, createdAt)
      ensures !testimonials[|testimonials| - 1].approved
      ensures BC.Approved(testimonials) == BC.Approved(old(testimonials))
      ensures chapters == old(chapters) && bookmarks == old(bookmarks)
      ensures notes == old(notes) && currentChapter == old(currentChapter)
    {
      BC.AddTestimonialUnapproved(testimonials, input, id, createdAt);
      testimonials := BC.AddTestimonial(testimonials, input, id, createdAt);
    }

    /** `searchChapters`: reads the store, changes nothing. A blank query gives every
        chapter; otherwise the chapters whose lowercased title or content contains the
        lowercased query, in store order. */
    function SearchChapters(q: string): (r: seq<Chapter>)
      reads this
      ensures IsBlank(q) ==> r == chapters
      ensures !IsBlank(q) ==> forall c :: c in r <==>
        c in chapters && ((exists i :: OccursAt(Lower(c.title), Lower(q), i)) ||
                          (exists i :: OccursAt(Lower(c.content), Lower(q), i)))
      ensures IsSubsequence(r, chapters)
    {
      BC.SearchChaptersSpec(chapters, q);
      BC.SearchChapters(chapters, q)
    }

    method AddChapter(data: ChapterData, id: string)
      modifies this
      ensures chapters == BC.AddChapter(old(chapters), data, id)
      ensures Sorted(chapters)
      ensures multiset(chapters) == multiset(old(chapters)) + multiset{WithId(data, id)}
      ensures bookmarks == old(bookmarks) && notes == old(notes)
      ensures testimonials == old(testimonials) && currentChapter == old(currentChapter)
    {
      BC.AddChapterSpec(chapters, data, id);
      chapters := BC.AddChapter(chapters, data, id);
    }

    method UpdateChapter(id: string, data: ChapterData)
      modifies this
      ensures chapters == BC.UpdateChapter(old(chapters), id, data)
      ensures Sorted(chapters) && |chapters| == |old(chapters)|
      ensures forall c :: c in chapters && c.id == id ==> c == WithId(data, id)
      ensures bookmarks == old(bookmarks) && notes == old(notes)
      ensures testimonials == old(testimonials) && currentChapter == old(currentChapter)
    {
      BC.UpdateChapterSpec(chapters, id, data);
      chapters := BC.UpdateChapter(chapters, id, data);
    }

    method DeleteChapter(id: string)
      modifies this
      ensures chapters == BC.DeleteChapter(old(chapters), id)
      ensures forall c :: c in chapters <==> c in old(chapters) && c.id != id
      ensures bookmarks == old(bookmarks) && notes == old(notes)
      ensures testimonials == old(testimonials) && currentChapter == old(currentChapter)
    {
      BC.RemoveByIdSpec(chapters, ChapterId, id);
      chapters := BC.DeleteChapter(chapters, id);
    }

    method UpdateTestimonial(id: string, patch: TestimonialPatch)
      modifies this
      ensures testimonials == BC.UpdateTestimonial(old(testimonials), id, patch)
      ensures |testimonials| == |old(testimonials)|
      ensures forall i :: 0 <= i < |testimonials| && old(testimonials)[i].id != id ==>
                testimonials[i] == old(testimonials)[i]
      ensures chapters == old(chapters) && bookmarks == old(bookmarks)
      ensures notes == old(notes) && currentChapter == old(currentChapter)
    {
      BC.UpdateTestimonialSpec(testimonials, id, patch);
      testimonials := BC.UpdateTestimonial(testimonials, id, patch);
    }

    method RemoveTestimonial(id: string)
      modifies this
      ensures testimonials == BC.RemoveTestimonial(old(testimonials), id)
      ensures forall t :: t in testimonials <==> t in old(testimonials) && t.id != id
      ensures chapters == old(chapters) && bookmarks == old(bookmarks)
      ensures notes == old(notes) && currentChapter == old(currentChapter)
    {
      BC.RemoveByIdSpec(testimonials, TestimonialId, id);
      testimonials := BC.RemoveTestimonial(testimonials, id);
    }
  }
}
