/** The administration screens (src/pages/AdminPortal.tsx): the dashboard
    counts, the per-language chapter lists, the chapter form (its validity,
    its initial contents, image upload and removal, and submission), and
    testimonial moderation. `window.confirm` answers and the data URLs produced
    by reading the chosen files are inputs. */
module AdminPortal {
  import opened Seqs
  import opened Text
  import opened Records
  import opened ChapterOrder
  import opened ReaderPage
  import BC = BookContext
  import BookProvider

  // ---------------------------------------------------------------------
  // Dashboard

  datatype Stats = Stats(english: nat, urdu: nat, pending: nat, approved: nat)

  /** The four dashboard figures: chapters per language and testimonials per approval state. */
  function DashboardStats(chapters: seq<Chapter>, testimonials: seq<Testimonial>): (r: Stats)
    ensures r.english + r.urdu == |chapters|
    ensures r.pending + r.approved == |testimonials|
    ensures r.english == |Filter(chapters, LanguageIs("english"))|
    ensures r.pending == |BC.Pending(testimonials)| && r.approved == |BC.Approved(testimonials)|
  {
    LanguagePartition(chapters);
    BC.PendingApprovedPartition(testimonials);
    Stats(|Filter(chapters, LanguageIs("english"))|, |Filter(chapters, LanguageIs("urdu"))|,
          |BC.Pending(testimonials)|, |BC.Approved(testimonials)|)
  }

  /** Every chapter is English or Urdu, so the two language filters split the list. */
  lemma LanguagePartition(chapters: seq<Chapter>)
    ensures multiset(Filter(chapters, LanguageIs("english"))) + multiset(Filter(chapters, LanguageIs("urdu")))
            == multiset(chapters)
    ensures |Filter(chapters, LanguageIs("english"))| + |Filter(chapters, LanguageIs("urdu"))| == |chapters|
  {
    FilterPartition(chapters, LanguageIs("english"), LanguageIs("urdu"));
  }

  // ---------------------------------------------------------------------
  // Chapter management lists

  /** The English list and the Urdu list are each sorted by order and together
      hold every chapter exactly once. */
  lemma ManagementListsCover(chapters: seq<Chapter>)
    ensures Sorted(FilteredChapters(chapters, "english")) && Sorted(FilteredChapters(chapters, "urdu"))
    ensures multiset(FilteredChapters(chapters, "english")) + multiset(FilteredChapters(chapters, "urdu"))
            == multiset(chapters)
  {
    var e, u := FilteredChapters(chapters, "english"), FilteredChapters(chapters, "urdu");
    forall c ensures (multiset(e) + multiset(u))[c] == multiset(chapters)[c] {
      assert c.language.English? || c.language.Urdu?;
    }
  }

  // ---------------------------------------------------------------------
  // Chapter form

  /** `isFormValid`: a non-blank title, and non-blank text or at least one image. */
  predicate IsFormValid(form: ChapterData) {
    Trim(form.title) != [] && (Trim(form.content) != [] || |form.images| > 0)
  }

  lemma IsFormValidIff(form: ChapterData)
    ensures IsFormValid(form) <==> !IsBlank(form.title) && (!IsBlank(form.content) || form.images != [])
  {
  }

  /** The form's contents when it opens: the edited chapter's fields, or an empty
      English chapter placed after all existing chapters of both languages. */
  function InitialForm(editing: Option<Chapter>, chapters: seq<Chapter>): (r: ChapterData)
    ensures editing.Some? ==> WithId(r, editing.value.id) == editing.value
    ensures editing.None? ==> r.title == "" && r.content == "" && r.language == English && r.images == []
    ensures editing.None? ==> r.order == |chapters| + 1
    ensures editing.None? ==> !IsFormValid(r)
  {
    match editing
    case Some(c) => DataOf(c)
    case None => ChapterData("", "", English, |chapters| + 1, [])
  }

  /** `formData.images.filter((_, i) => i !== index)`. */
  function WithoutIndex(s: seq<string>, index: int): (r: seq<string>)
    decreases |s|
  {
    if s == [] then []
    else (if index == 0 then [] else [s[0]]) + WithoutIndex(s[1..], index - 1)
  }

  /** Removing an index in range drops exactly that image and keeps the others in
      order; any other index changes nothing. */
  lemma {:induction false} WithoutIndexSpec(s: seq<string>, index: int)
    ensures 0 <= index < |s| ==> WithoutIndex(s, index) == s[..index] + s[index + 1..]
    ensures 0 <= index < |s| ==> |WithoutIndex(s, index)| == |s| - 1
    ensures !(0 <= index < |s|) ==> WithoutIndex(s, index) == s
  {
    if s != [] {
      var t := s[1..];
      WithoutIndexSpec(t, index - 1);
      assert WithoutIndex(s, index) == (if index == 0 then [] else [s[0]]) + WithoutIndex(t, index - 1);
      if index == 0 {
        assert WithoutIndex(s, index) == t;
      } else if 0 < index < |s| {
        assert WithoutIndex(t, index - 1) == t[..index - 1] + t[index..];
        assert s[..index] == [s[0]] + t[..index - 1];
        assert s[index + 1..] == t[index..];
      } else {
        assert WithoutIndex(s, index) == [s[0]] + t;
        assert [s[0]] + t == s;
      }
    }
  }

  /** The chapter list after `handleSubmit`: an invalid form changes nothing, an edit
      updates the edited chapter, a new chapter is added under the given id. */
  function SubmitChapters(chapters: seq<Chapter>, editing: Option<Chapter>, form: ChapterData, id: string): seq<Chapter> {
    if !IsFormValid(form) then chapters
    else if editing.Some? then BC.UpdateChapter(chapters, editing.value.id, form)
    else BC.AddChapter(chapters, form, id)
  }

  lemma SubmitChaptersSpec(chapters: seq<Chapter>, editing: Option<Chapter>, form: ChapterData, id: string)
    ensures var r := SubmitChapters(chapters, editing, form, id);
            (!IsFormValid(form) ==> r == chapters) &&
            (IsFormValid(form) ==> Sorted(r)) &&
            (IsFormValid(form) && editing.Some? ==>
               |r| == |chapters| &&
               forall c :: c in r && c.id == editing.value.id ==> c == WithId(form, editing.value.id)) &&
            (IsFormValid(form) && editing.None? ==>
               multiset(r) == multiset(chapters) + multiset{WithId(form, id)})
  {
    if IsFormValid(form) {
      if editing.Some? {
        BC.UpdateChapterSpec(chapters, editing.value.id, form);
      } else {
        BC.AddChapterSpec(chapters, form, id);
      }
    }
  }

  /** The chapter form's state: `formData` and `imagePreviews`. */
  class ChapterFormState {
    var form: ChapterData
    var previews: seq<string>

    /** The previews always show the form's images. */
    ghost predicate Valid()
      reads this
    {
      previews == form.images
    }

    constructor ()
      ensures Valid()
      ensures form == ChapterData("", "", English, 1, [])
    {
      form := ChapterData("", "", English, 1, []);
      previews := [];
    }

    /** The effect that runs when the form opens. */
    method Open(editing: Option<Chapter>, chapters: seq<Chapter>)
      modifies this
      ensures Valid()
      ensures form == InitialForm(editing, chapters)
    {
      form := InitialForm(editing, chapters);
      previews := form.images;
    }

    /** `handleImageChange`: with no file list nothing happens; otherwise the data URLs
        of the chosen files are appended, in file order, after the existing images. */
    method ImageChange(dataUrls: Option<seq<string>>)
      requires Valid()
      modifies this
      ensures Valid()
      ensures dataUrls.None? ==> form == old(form)
      ensures dataUrls.Some? ==> form == old(form).(images := old(form.images) + dataUrls.value)
    {
      if dataUrls.None? {
        return;
      }
      var files := dataUrls.value;
      var newImages: seq<string> := [];
      var i := 0;
      while i < |files|
        invariant 0 <= i <= |files|
        invariant newImages == files[..i]
      {
        newImages := newImages + [files[i]];
        i := i + 1;
      }
      assert files[..|files|] == files;
      var updated := form.images + newImages;
      form := form.(images := updated);
      previews := updated;
    }

    /** `handleRemoveImage(index)`. */
    method RemoveImage(index: int)
      requires Valid()
      modifies this
      ensures Valid()
      ensures form == old(form).(images := WithoutIndex(old(form.images), index))
    {
      var updated := WithoutIndex(form.images, index);
      form := form.(images := updated);
      previews := updated;
    }

    /** `handleSubmit`, with the id a new chapter would receive; `closed` says whether
        the form closes. */
    method Submit(store: BookProvider.BookStore, editing: Option<Chapter>, id: string) returns (closed: bool)
      modifies store
      ensures closed == IsFormValid(form)
      ensures store.chapters == SubmitChapters(old(store.chapters), editing, form, id)
      ensures store.bookmarks == old(store.bookmarks) && store.notes == old(store.notes)
      ensures store.testimonials == old(store.testimonials) && store.currentChapter == old(store.currentChapter)
    {
      if !IsFormValid(form) {
        return false;
      }
      if editing.Some? {
        store.UpdateChapter(editing.value.id, form);
      } else {
        store.AddChapter(form, id);
      }
      closed := true;
    }
  }

  // ---------------------------------------------------------------------
  // Deletion and moderation

  /** `handleDelete` of the chapter list: deletes only when confirmed. */
  method DeleteChapterConfirmed(store: BookProvider.BookStore, id: string, confirmed: bool)
    modifies store
    ensures confirmed ==> store.chapters == BC.DeleteChapter(old(store.chapters), id)
    ensures !confirmed ==> store.chapters == old(store.chapters)
    ensures store.bookmarks == old(store.bookmarks) && store.notes == old(store.notes)
    ensures store.testimonials == old(store.testimonials) && store.currentChapter == old(store.currentChapter)
  {
    if confirmed {
      store.DeleteChapter(id);
    }
  }

  /** `handleApprove`: the update with the patch `{ approved: true }`. */
  method Approve(store: BookProvider.BookStore, id: string)
    modifies store
    ensures store.testimonials == BC.UpdateTestimonial(old(store.testimonials), id, BC.ApprovePatch())
    ensures store.chapters == old(store.chapters) && store.bookmarks == old(store.bookmarks)
    ensures store.notes == old(store.notes) && store.currentChapter == old(store.currentChapter)
  {
    store.UpdateTestimonial(id, BC.ApprovePatch());
  }

  /** `handleDelete` of the testimonial list: deletes only when confirmed. */
  method DeleteTestimonialConfirmed(store: BookProvider.BookStore, id: string, confirmed: bool)
    modifies store
    ensures confirmed ==> store.testimonials == BC.RemoveTestimonial(old(store.testimonials), id)
    ensures !confirmed ==> store.testimonials == old(store.testimonials)
    ensures store.chapters == old(store.chapters) && store.bookmarks == old(store.bookmarks)
    ensures store.notes == old(store.notes) && store.currentChapter == old(store.currentChapter)
  {
    if confirmed {
      store.RemoveTestimonial(id);
    }
  }
}
