/** The public reviews screen (src/pages/TestimonialsPage.tsx): only approved
    reviews are listed, and the review form submits what the reader typed once
    both the name and the text are non-blank. */
module TestimonialsPage {
  import opened Seqs
  import opened Text
  import opened Records
  import BC = BookContext
  import BookProvider

  /** `testimonials.filter(t => t.approved)`, in store order. */
  function PublicReviews(ts: seq<Testimonial>): (r: seq<Testimonial>)
    ensures forall t :: t in r <==> t in ts && t.approved
    ensures IsSubsequence(r, ts)
  {
    FilterMembers(ts, BC.IsApproved);
    FilterIsSubsequence(ts, BC.IsApproved);
    BC.Approved(ts)
  }

  /** The "No Reviews Yet" state. */
  predicate ShowsNoReviews(ts: seq<Testimonial>) {
    |PublicReviews(ts)| == 0
  }

  /** "No Reviews Yet" is shown exactly when no review is approved, pending ones notwithstanding. */
  lemma NoReviewsIff(ts: seq<Testimonial>)
    ensures ShowsNoReviews(ts) <==> forall t :: t in ts ==> !t.approved
  {
    var r := PublicReviews(ts);
    if r != [] {
      assert r[0] in r;
    }
  }

  /** The rating buttons, `[1, 2, 3, 4, 5]`. */
  function RatingChoices(): seq<int> { [1, 2, 3, 4, 5] }

  /** The submit guard: a non-blank name and a non-blank text. */
  predicate CanSubmit(input: TestimonialInput) {
    Trim(input.name) != [] && Trim(input.text) != []
  }

  /** The testimonial list after `handleSubmit`: the untrimmed input is stored when the guard passes. */
  function SubmitReview(ts: seq<Testimonial>, input: TestimonialInput, id: string, createdAt: int): seq<Testimonial> {
    if CanSubmit(input) then BC.AddTestimonial(ts, input, id, createdAt) else ts
  }

  /** A submitted review is stored as typed, unapproved, and so does not join the public list;
      a blank name or text stores nothing. */
  lemma SubmitReviewSpec(ts: seq<Testimonial>, input: TestimonialInput, id: string, createdAt: int)
    ensures var r := SubmitReview(ts, input, id, createdAt);
            PublicReviews(r) == PublicReviews(ts) &&
            (CanSubmit(input) ==> r == ts + [Testimonial(id, input.name, input.text, input.rating, false, createdAt)]) &&
            (IsBlank(input.name) || IsBlank(input.text) ==> r == ts)
  {
    BC.AddTestimonialUnapproved(ts, input, id, createdAt);
  }

  /** The review form's state: `formData` and `showAddForm`. */
  class ReviewForm {
    var name: string
    var text: string
    var rating: int
    var open: bool

    /** The rating is always one the picker offers. */
    ghost predicate Valid()
      reads this
    {
      rating in RatingChoices()
    }

    function Input(): TestimonialInput
      reads this
    {
      TestimonialInput(name, text, rating)
    }

    constructor ()
      ensures Valid()
      ensures name == "" && text == "" && rating == 5 && !open
    {
      name, text, rating, open := "", "", 5, false;
    }

    /** A rating button. */
    method PickRating(choice: int)
      requires Valid() && choice in RatingChoices()
      modifies this
      ensures Valid() && 1 <= rating <= 5
      ensures rating == choice && name == old(name) && text == old(text) && open == old(open)
    {
      rating := choice;
    }

    /** `handleSubmit`, with the id and time the store gives a new review; on success
        the form is reset to an empty name and text with rating 5 and closed. */
    method Submit(store: BookProvider.BookStore, id: string, createdAt: int)
      requires Valid()
      modifies this, store
      ensures Valid()
      ensures store.testimonials == SubmitReview(old(store.testimonials), old(Input()), id, createdAt)
      ensures CanSubmit(old(Input())) ==> name == "" && text == "" && rating == 5 && !open
      ensures !CanSubmit(old(Input())) ==>
                name == old(name) && text == old(text) && rating == old(rating) && open == old(open)
      ensures store.chapters == old(store.chapters) && store.bookmarks == old(store.bookmarks)
      ensures store.notes == old(store.notes) && store.currentChapter == old(store.currentChapter)
    {
      if Trim(name) == [] || Trim(text) == [] {
        return;
      }
      store.AddTestimonial(TestimonialInput(name, text, rating), id, createdAt);
      name, text, rating, open := "", "", 5, false;
    }
  }
}
