/** The content store's transitions (src/contexts/BookContext.tsx): each
    operation replaces one collection by a filtered, mapped, appended or
    sorted copy of it. The class that holds the collections is in
    book_provider.dfy; here are the transitions as functions and what they
    guarantee. Fresh ids and timestamps are parameters. */
module BookContext {
  import opened Seqs
  import opened Text
  import opened Records
  import opened ChapterOrder

  // ---------------------------------------------------------------------
  // Removal by id, shared by removeBookmark, removeNote, removeTestimonial
  // and deleteChapter.

  function KeyIsNot<T>(key: T -> string, id: string): T -> bool {
    (x: T) => key(x) != id
  }

  /** `s.filter(x => x.id !== id)`. */
  function RemoveById<T>(s: seq<T>, key: T -> string, id: string): seq<T> {
    Filter(s, KeyIsNot(key, id))
  }

  /** Removal drops every record with the id, keeps all others in their order,
      is a no-op for an absent id, and a second removal changes nothing. */
  lemma RemoveByIdSpec<T>(s: seq<T>, key: T -> string, id: string)
    ensures forall x :: x in RemoveById(s, key, id) <==> x in s && key(x) != id
    ensures IsSubsequence(RemoveById(s, key, id), s)
    ensures (forall x :: x in s ==> key(x) != id) <==> RemoveById(s, key, id) == s
    ensures RemoveById(RemoveById(s, key, id), key, id) == RemoveById(s, key, id)
  {
    FilterMembers(s, KeyIsNot(key, id));
    FilterIsSubsequence(s, KeyIsNot(key, id));
    FilterKeepsAll(s, KeyIsNot(key, id));
    FilterIdempotent(s, KeyIsNot(key, id));
  }

  /** With unique ids, removing the id of the record at `k` removes exactly that record. */
  lemma RemoveUniqueAt<T>(s: seq<T>, key: T -> string, k: nat)
    requires k < |s| && UniqueIds(s, key)
    ensures RemoveById(s, key, key(s[k])) == s[..k] + s[k + 1..]
  {
    FilterDropsOne(s, KeyIsNot(key, key(s[k])), k);
  }

  // ---------------------------------------------------------------------
  // Bookmarks and notes

  /** `[...prev, { ...bookmark, id, createdAt }]`. */
  function AddBookmark(bs: seq<Bookmark>, chapterId: string, position: int, note: Option<string>,
                       id: string, createdAt: int): seq<Bookmark>
  {
    bs + [Bookmark(id, chapterId, position, note, createdAt)]
  }

  function RemoveBookmark(bs: seq<Bookmark>, id: string): seq<Bookmark> {
    RemoveById(bs, BookmarkId, id)
  }

  /** `[...prev, { ...note, id, createdAt }]`. */
  function AddNote(ns: seq<Note>, chapterId: string, position: int, text: string,
                   id: string, createdAt: int): seq<Note>
  {
    ns + [Note(id, chapterId, position, text, createdAt)]
  }

  function SetTextIf(id: string, text: string): Note -> Note {
    (n: Note) => if n.id == id then n.(text := text) else n
  }

  /** `prev.map(n => n.id === id ? { ...n, text } : n)`. */
  function UpdateNote(ns: seq<Note>, id: string, text: string): seq<Note> {
    Map(ns, SetTextIf(id, text))
  }

  function RemoveNote(ns: seq<Note>, id: string): seq<Note> {
    RemoveById(ns, NoteId, id)
  }

  /** Adding a record with a fresh id and then removing that id restores the list. */
  lemma {:induction false} AddThenRemoveBookmark(bs: seq<Bookmark>, chapterId: string, position: int,
                                                 note: Option<string>, id: string, createdAt: int)
    requires forall b :: b in bs ==> b.id != id
    ensures RemoveBookmark(AddBookmark(bs, chapterId, position, note, id, createdAt), id) == bs
  {
    var b := Bookmark(id, chapterId, position, note, createdAt);
    FilterConcat(bs, [b], KeyIsNot(BookmarkId, id));
    FilterCons(b, [], KeyIsNot(BookmarkId, id));
    assert [b] + [] == [b];
    FilterKeepsAll(bs, KeyIsNot(BookmarkId, id));
  }

  lemma {:induction false} AddThenRemoveNote(ns: seq<Note>, chapterId: string, position: int,
                                             text: string, id: string, createdAt: int)
    requires forall n :: n in ns ==> n.id != id
    ensures RemoveNote(AddNote(ns, chapterId, position, text, id, createdAt), id) == ns
  {
    var n := Note(id, chapterId, position, text, createdAt);
    FilterConcat(ns, [n], KeyIsNot(NoteId, id));
    FilterCons(n, [], KeyIsNot(NoteId, id));
    assert [n] + [] == [n];
    FilterKeepsAll(ns, KeyIsNot(NoteId, id));
  }

  /** updateNote changes the text of the notes with the id and nothing else:
      the length, every id, chapter id, position and timestamp, and the order
      stay as they were. */
  lemma UpdateNoteOnlyText(ns: seq<Note>, id: string, text: string)
    ensures |UpdateNote(ns, id, text)| == |ns|
    ensures forall i :: 0 <= i < |ns| ==>
      var (m, n) := (UpdateNote(ns, id, text)[i], ns[i]);
      m.id == n.id && m.chapterId == n.chapterId && m.position == n.position &&
      m.createdAt == n.createdAt && m.text == (if n.id == id then text else n.text)
  {
    MapAt(ns, SetTextIf(id, text));
  }

  /** The notes with other ids are untouched by updateNote. */
  lemma {:induction false} UpdateNoteFrame(ns: seq<Note>, id: string, text: string)
    ensures RemoveNote(UpdateNote(ns, id, text), id) == RemoveNote(ns, id)
  {
    if ns != [] {
      UpdateNoteFrame(ns[1..], id, text);
      assert ns == [ns[0]] + ns[1..];
      MapCons(ns[0], ns[1..], SetTextIf(id, text));
      FilterCons(SetTextIf(id, text)(ns[0]), UpdateNote(ns[1..], id, text), KeyIsNot(NoteId, id));
      FilterCons(ns[0], ns[1..], KeyIsNot(NoteId, id));
    }
  }

  // ---------------------------------------------------------------------
  // Testimonials

  function IsApproved(t: Testimonial): bool { t.approved }
  function IsPending(t: Testimonial): bool { !t.approved }

  /** `testimonials.filter(t => t.approved)`, as the public, home and admin pages compute it. */
  function Approved(ts: seq<Testimonial>): seq<Testimonial> { Filter(ts, IsApproved) }

  /** `testimonials.filter(t => !t.approved)`. */
  function Pending(ts: seq<Testimonial>): seq<Testimonial> { Filter(ts, IsPending) }

  /** The pending and approved lists are disjoint and together hold every testimonial once. */
  lemma PendingApprovedPartition(ts: seq<Testimonial>)
    ensures multiset(Pending(ts)) + multiset(Approved(ts)) == multiset(ts)
    ensures |Pending(ts)| + |Approved(ts)| == |ts|
    ensures forall t :: !(t in Pending(ts) && t in Approved(ts))
    ensures forall t :: t in ts ==> t in Pending(ts) || t in Approved(ts)
  {
    FilterPartition(ts, IsPending, IsApproved);
    FilterMembers(ts, IsPending);
    FilterMembers(ts, IsApproved);
  }

  /** `{ ...testimonial, id, approved: false, createdAt }`: the submitted approval is never kept. */
  function AddTestimonial(ts: seq<Testimonial>, input: TestimonialInput, id: string,
                          createdAt: int): seq<Testimonial>
  {
    ts + [Testimonial(id, input.name, input.text, input.rating, false, createdAt)]
  }

  /** addTestimonial stores one new, unapproved record at the end carrying the
      caller's name, text and rating, so the public list is not changed by it. */
  lemma {:induction false} AddTestimonialUnapproved(ts: seq<Testimonial>, input: TestimonialInput,
                                                    id: string, createdAt: int)
    ensures var r := AddTestimonial(ts, input, id, createdAt);
      |r| == |ts| + 1 && r[..|ts|] == ts &&
      r[|ts|].id == id && r[|ts|].name == input.name && r[|ts|].text == input.text &&
      r[|ts|].rating == input.rating && !r[|ts|].approved
    ensures Approved(AddTestimonial(ts, input, id, createdAt)) == Approved(ts)
    ensures |Pending(AddTestimonial(ts, input, id, createdAt))| == |Pending(ts)| + 1
  {
    var t := Testimonial(id, input.name, input.text, input.rating, false, createdAt);
    FilterConcat(ts, [t], IsApproved);
    FilterConcat(ts, [t], IsPending);
    assert AddTestimonial(ts, input, id, createdAt)[..|ts|] == ts;
  }

  /** `{ ...t, ...patch }`. */
  function ApplyPatch(t: Testimonial, p: TestimonialPatch): Testimonial {
    Testimonial(
      t.id,
      if p.name.Some? then p.name.value else t.name,
      if p.text.Some? then p.text.value else t.text,
      if p.rating.Some? then p.rating.value else t.rating,
      if p.approved.Some? then p.approved.value else t.approved,
      if p.createdAt.Some? then p.createdAt.value else t.createdAt)
  }

  function PatchIf(id: string, p: TestimonialPatch): Testimonial -> Testimonial {
    (t: Testimonial) => if t.id == id then ApplyPatch(t, p) else t
  }

  function UpdateTestimonial(ts: seq<Testimonial>, id: string, p: TestimonialPatch): seq<Testimonial> {
    Map(ts, PatchIf(id, p))
  }

  function RemoveTestimonial(ts: seq<Testimonial>, id: string): seq<Testimonial> {
    RemoveById(ts, TestimonialId, id)
  }

  /** The patch the admin's approve button sends: `{ approved: true }`. */
  function ApprovePatch(): TestimonialPatch {
    TestimonialPatch(None, None, None, Some(true), None)
  }

  /** updateTestimonial: the records with the id take the patched fields and
      keep their id and the other fields; every other record is unchanged. */
  lemma UpdateTestimonialSpec(ts: seq<Testimonial>, id: string, p: TestimonialPatch)
    ensures |UpdateTestimonial(ts, id, p)| == |ts|
    ensures forall i :: 0 <= i < |ts| && ts[i].id != id ==> UpdateTestimonial(ts, id, p)[i] == ts[i]
    ensures forall i :: 0 <= i < |ts| && ts[i].id == id ==>
      var u := UpdateTestimonial(ts, id, p)[i];
      u.id == id &&
      (p.name.None? ==> u.name == ts[i].name) && (p.name.Some? ==> u.name == p.name.value) &&
      (p.text.None? ==> u.text == ts[i].text) && (p.text.Some? ==> u.text == p.text.value) &&
      (p.rating.None? ==> u.rating == ts[i].rating) && (p.rating.Some? ==> u.rating == p.rating.value) &&
      (p.approved.None? ==> u.approved == ts[i].approved) &&
      (p.approved.Some? ==> u.approved == p.approved.value) &&
      (p.createdAt.None? ==> u.createdAt == ts[i].createdAt) &&
      (p.createdAt.Some? ==> u.createdAt == p.createdAt.value)
  {
    MapAt(ts, PatchIf(id, p));
  }

  function PendingWithId(id: string): Testimonial -> bool {
    (t: Testimonial) => !t.approved && t.id == id
  }

  /** The approve patch sets `approved` and changes no other field. */
  lemma ApprovePatchOnlyApproves(t: Testimonial)
    ensures ApplyPatch(t, ApprovePatch()) == t.(approved := true)
  {
  }

  /** Approving by id takes the pending records with that id out of the pending
      list, which otherwise stays as it was. */
  lemma {:induction false} ApproveLeavesPending(ts: seq<Testimonial>, id: string)
    ensures Pending(UpdateTestimonial(ts, id, ApprovePatch())) == RemoveById(Pending(ts), TestimonialId, id)
  {
    if ts != [] {
      var t, rest := ts[0], ts[1..];
      var f := PatchIf(id, ApprovePatch());
      ApproveLeavesPending(rest, id);
      assert ts == [t] + rest;
      MapCons(t, rest, f);
      ApprovePatchOnlyApproves(t);
      FilterCons(f(t), UpdateTestimonial(rest, id, ApprovePatch()), IsPending);
      FilterCons(t, rest, IsPending);
      if !t.approved {
        assert Pending(ts) == [t] + Pending(rest);
        FilterCons(t, Pending(rest), KeyIsNot(TestimonialId, id));
        if t.id == id {
          assert !IsPending(f(t));
        } else {
          assert f(t) == t;
        }
      } else {
        assert f(t).approved;
        assert Pending(ts) == Pending(rest);
        assert Pending(UpdateTestimonial(ts, id, ApprovePatch()))
            == Pending(UpdateTestimonial(rest, id, ApprovePatch()));
      }
    }
  }

  /** Approving by id adds to the approved list exactly as many records as
      were pending with that id. */
  lemma {:induction false} ApproveGrowsApproved(ts: seq<Testimonial>, id: string)
    ensures |Approved(UpdateTestimonial(ts, id, ApprovePatch()))|
         == |Approved(ts)| + |Filter(ts, PendingWithId(id))|
  {
    if ts != [] {
      var t, rest := ts[0], ts[1..];
      var f := PatchIf(id, ApprovePatch());
      ApproveGrowsApproved(rest, id);
      assert ts == [t] + rest;
      MapCons(t, rest, f);
      ApprovePatchOnlyApproves(t);
      FilterCons(f(t), UpdateTestimonial(rest, id, ApprovePatch()), IsApproved);
      FilterCons(t, rest, IsApproved);
      FilterCons(t, rest, PendingWithId(id));
    }
  }

  /** Scenario: approving the one pending record with a given id moves it, with
      no other field changed, from the pending to the approved list. */
  lemma ApproveOne(ts: seq<Testimonial>, i: nat)
    requires i < |ts| && !ts[i].approved
    requires UniqueIds(ts, TestimonialId)
    ensures var r := UpdateTestimonial(ts, ts[i].id, ApprovePatch());
      ts[i].(approved := true) in Approved(r) && ts[i] !in Pending(r) &&
      |Approved(r)| == |Approved(ts)| + 1 && |Pending(r)| == |Pending(ts)| - 1
  {
    var id := ts[i].id;
    var r := UpdateTestimonial(ts, id, ApprovePatch());
    UpdateTestimonialSpec(ts, id, ApprovePatch());
    ApproveLeavesPending(ts, id);
    ApproveGrowsApproved(ts, id);
    FilterMembers(r, IsApproved);
    RemoveByIdSpec(Pending(ts), TestimonialId, id);
    assert r[i] == ts[i].(approved := true);
    FilterUnique(ts, PendingWithId(id), i);
    PendingApprovedPartition(ts);
    PendingApprovedPartition(r);
  }

  // ---------------------------------------------------------------------
  // Search

  /** Case-insensitive substring match of the untrimmed query against title or content. */
  predicate MatchesQuery(c: Chapter, q: string) {
    Includes(Lower(c.title), Lower(q)) || Includes(Lower(c.content), Lower(q))
  }

  function QueryMatcher(q: string): Chapter -> bool {
    (c: Chapter) => MatchesQuery(c, q)
  }

  /** `searchChapters(query)`: only the emptiness test trims the query. */
  function SearchChapters(cs: seq<Chapter>, q: string): seq<Chapter> {
    if Trim(q) == [] then cs else Filter(cs, QueryMatcher(q))
  }

  /** Search returns every chapter for a blank query; otherwise exactly the
      chapters whose lowercased title or content has the lowercased query at
      some position, in their order in the store. */
  lemma SearchChaptersSpec(cs: seq<Chapter>, q: string)
    ensures IsBlank(q) ==> SearchChapters(cs, q) == cs
    ensures !IsBlank(q) ==> forall c :: c in SearchChapters(cs, q) <==>
      c in cs && ((exists i :: OccursAt(Lower(c.title), Lower(q), i)) ||
                  (exists i :: OccursAt(Lower(c.content), Lower(q), i)))
    ensures IsSubsequence(SearchChapters(cs, q), cs)
  {
    FilterMembers(cs, QueryMatcher(q));
    FilterIsSubsequence(cs, QueryMatcher(q));
    forall c | c in cs
      ensures MatchesQuery(c, q) <==>
        (exists i :: OccursAt(Lower(c.title), Lower(q), i)) ||
        (exists i :: OccursAt(Lower(c.content), Lower(q), i))
    {
      IncludesIff(Lower(c.title), Lower(q));
      IncludesIff(Lower(c.content), Lower(q));
    }
    if IsBlank(q) {
      SubsequenceReflexive(cs);
    }
  }

  lemma {:induction false} SubsequenceReflexive<T>(s: seq<T>)
    ensures IsSubsequence(s, s)
  {
    if s != [] {
      SubsequenceReflexive(s[1..]);
    }
  }

  /** A query is matched as typed: a chapter without any space in its title
      and content does not match a query padded with a space, although the
      padded query is not blank. */
  lemma PaddedQueryMatchedLiterally(c: Chapter, q: string)
    requires ' ' in q && !IsBlank(q)
    requires ' ' !in c.title && ' ' !in c.content
    ensures SearchChapters([c], q) == []
  {
    NoSpaceNoMatch(c.title, q);
    NoSpaceNoMatch(c.content, q);
  }

  lemma NoSpaceNoMatch(hay: string, q: string)
    requires ' ' in q && ' ' !in hay
    ensures !Includes(Lower(hay), Lower(q))
  {
    IncludesIff(Lower(hay), Lower(q));
    var k :| 0 <= k < |q| && q[k] == ' ';
    assert Lower(q)[k] == ' ';
    forall i | 0 <= i && i + |q| <= |hay| ensures !OccursAt(Lower(hay), Lower(q), i) {
      assert hay[i + k] != ' ';
      assert Lower(hay)[i..i + |q|][k] != Lower(q)[k];
    }
  }

  // ---------------------------------------------------------------------
  // Chapters

  /** `[...prev, { ...chapter, id }].sort(byOrder)`. */
  function AddChapter(cs: seq<Chapter>, data: ChapterData, id: string): seq<Chapter> {
    SortByOrder(cs + [WithId(data, id)])
  }

  function ReplaceIf(id: string, data: ChapterData): Chapter -> Chapter {
    (c: Chapter) => if c.id == id then WithId(data, id) else c
  }

  /** `prev.map(c => c.id === id ? { ...chapter, id } : c).sort(byOrder)`. */
  function UpdateChapter(cs: seq<Chapter>, id: string, data: ChapterData): seq<Chapter> {
    SortByOrder(Map(cs, ReplaceIf(id, data)))
  }

  /** `prev.filter(c => c.id !== id)`: no re-sort. */
  function DeleteChapter(cs: seq<Chapter>, id: string): seq<Chapter> {
    RemoveById(cs, ChapterId, id)
  }

  /** After addChapter the list is sorted by order and holds the old chapters
      and the new one; the new chapter comes after every old chapter of the
      same order, and chapters of equal order keep their relative order. */
  lemma AddChapterSpec(cs: seq<Chapter>, data: ChapterData, id: string)
    ensures Sorted(AddChapter(cs, data, id))
    ensures multiset(AddChapter(cs, data, id)) == multiset(cs) + multiset{WithId(data, id)}
    ensures Filter(AddChapter(cs, data, id), HasOrder(data.order))
         == Filter(cs, HasOrder(data.order)) + [WithId(data, id)]
    ensures forall k :: k != data.order ==>
      Filter(AddChapter(cs, data, id), HasOrder(k)) == Filter(cs, HasOrder(k))
  {
    var c := WithId(data, id);
    SortStable(cs + [c], data.order);
    FilterConcat(cs, [c], HasOrder(data.order));
    forall k | k != data.order
      ensures Filter(AddChapter(cs, data, id), HasOrder(k)) == Filter(cs, HasOrder(k))
    {
      SortStable(cs + [c], k);
      FilterConcat(cs, [c], HasOrder(k));
    }
  }

  /** After updateChapter(id, data) the list is sorted, as long as before, every
      chapter with the id carries `data` and keeps the id, an existing id is
      still present, and the chapters with other ids are the same as before. */
  lemma UpdateChapterSpec(cs: seq<Chapter>, id: string, data: ChapterData)
    ensures var r := UpdateChapter(cs, id, data);
      Sorted(r) && |r| == |cs| &&
      (forall c :: c in r && c.id == id ==> c == WithId(data, id)) &&
      ((exists c :: c in cs && c.id == id) ==> WithId(data, id) in r) &&
      multiset(RemoveById(r, ChapterId, id)) == multiset(RemoveById(cs, ChapterId, id))
  {
    var m := Map(cs, ReplaceIf(id, data));
    var r := UpdateChapter(cs, id, data);
    MapAt(cs, ReplaceIf(id, data));
    assert multiset(r) == multiset(m);
    forall c | c in r && c.id == id ensures c == WithId(data, id) {
      assert c in multiset(m);
      var i :| 0 <= i < |m| && m[i] == c;
    }
    if exists c :: c in cs && c.id == id {
      var c :| c in cs && c.id == id;
      var i :| 0 <= i < |cs| && cs[i] == c;
      assert m[i] == WithId(data, id);
      assert WithId(data, id) in multiset(r);
    }
    FilterPermutation(r, m, KeyIsNot(ChapterId, id));
    ReplaceFrame(cs, id, data);
  }

  lemma {:induction false} ReplaceFrame(cs: seq<Chapter>, id: string, data: ChapterData)
    ensures RemoveById(Map(cs, ReplaceIf(id, data)), ChapterId, id) == RemoveById(cs, ChapterId, id)
  {
    if cs != [] {
      ReplaceFrame(cs[1..], id, data);
      assert cs == [cs[0]] + cs[1..];
      MapCons(cs[0], cs[1..], ReplaceIf(id, data));
      FilterCons(ReplaceIf(id, data)(cs[0]), Map(cs[1..], ReplaceIf(id, data)), KeyIsNot(ChapterId, id));
      FilterCons(cs[0], cs[1..], KeyIsNot(ChapterId, id));
    }
  }

  /** With an id no chapter has, updateChapter only re-sorts. */
  lemma {:induction false} UpdateUnknownChapter(cs: seq<Chapter>, id: string, data: ChapterData)
    requires forall c :: c in cs ==> c.id != id
    ensures Map(cs, ReplaceIf(id, data)) == cs
    ensures UpdateChapter(cs, id, data) == SortByOrder(cs)
  {
    if cs != [] {
      UpdateUnknownChapter(cs[1..], id, data);
    }
  }

  /** deleteChapter keeps a sorted list sorted (it does not sort an unsorted one). */
  lemma DeleteChapterKeepsSorted(cs: seq<Chapter>, id: string)
    requires Sorted(cs)
    ensures Sorted(DeleteChapter(cs, id))
  {
    FilterSorted(cs, KeyIsNot(ChapterId, id));
  }

  // ---------------------------------------------------------------------
  // Initial data
  //
  // Long texts are written as concatenations of short literals: the verifier
  // reasons about a long literal one character at a time.

  function MockChapters(): seq<Chapter> {
    [ Chapter("1", "Introduction to " + "Islamic Healthcare " + "Philosophy",
              "In the name of " + "Allah, the Most " + "Gracious, the Most " +
              "Merciful...", English, 1, []),
      Chapter("2", "The Sacred Trust of " + "the Body",
              "The human body is " + "described in the " + "Quran as an " +
              "Amanah...", English, 2, []),
      Chapter("3", "Spiritual " + "Dimensions of " + "Medical " + "Decision-Making",
              "The intersection of " + "spirituality and " + "healthcare...", English, 3, []),
      Chapter("4", "اسلامی صحت کی فلسفہ " + "کا تعارف", "بسم اللہ الرحمن " + "الرحیم...", Urdu, 1, []),
      Chapter("5", "جسم کی مقدس امانت", "قرآن مجید میں " + "انسانی جسم کو اللہ " + "کی طرف سے امانت...", Urdu, 2, []) ]
  }

  /** Sample testimonials; `createdAt` is in milliseconds since the epoch. */
  function MockTestimonials(): seq<Testimonial> {
    [ Testimonial("1", "Dr. Ahmed Hassan",
                  "This book " + "beautifully bridges " + "the gap between " +
                  "modern medical " + "ethics and Islamic " + "principles. A " +
                  "must-read for " + "healthcare " + "professionals.",
                  5, true, 1705276800000),
      Testimonial("2", "Sister Fatima",
                  "The wisdom shared " + "in this book helped " + "me make difficult " +
                  "healthcare " + "decisions for my " + "elderly mother. " +
                  "Truly enlightening.",
                  5, false, 1705708800000),
      Testimonial("3", "Professor Mahmoud",
                  "An excellent " + "resource that " + "combines spiritual " +
                  "insight with " + "practical guidance. " + "The Sufi " +
                  "perspective adds " + "depth to medical " + "decision-making.",
                  4, true, 1706745600000) ]
  }

  /** The initial chapter list is not sorted by order, so sortedness holds
      after an add or an update, not as an invariant of the store. */
  lemma MockChaptersUnsorted()
    ensures !Sorted(MockChapters())
  {
    assert MockChapters()[2].order > MockChapters()[3].order;
  }
}
