/** The four kinds of record the content store holds, and the inputs its
    operations take. Ids are strings, timestamps are caller-supplied integers. */
module Records {
  import opened Seqs

  datatype Language = English | Urdu

  /** The string a chapter's language is stored and routed as. */
  function LanguageName(l: Language): string {
    match l
    case English => "english"
    case Urdu => "urdu"
  }

  /** A chapter; `images` is the ordered list of image references (possibly empty). */
  datatype Chapter = Chapter(
    id: string,
    title: string,
    content: string,
    language: Language,
    order: int,
    images: seq<string>)

  /** A chapter without its id: what the admin form edits and submits. */
  datatype ChapterData = ChapterData(
    title: string,
    content: string,
    language: Language,
    order: int,
    images: seq<string>)

  /** `{ ...data, id }`. */
  function WithId(data: ChapterData, id: string): (c: Chapter)
    ensures c.id == id && DataOf(c) == data
  {
    Chapter(id, data.title, data.content, data.language, data.order, data.images)
  }

  /** The fields of a chapter other than its id. */
  function DataOf(c: Chapter): ChapterData {
    ChapterData(c.title, c.content, c.language, c.order, c.images)
  }

  datatype Bookmark = Bookmark(
    id: string,
    chapterId: string,
    position: int,
    note: Option<string>,
    createdAt: int)

  datatype Note = Note(
    id: string,
    chapterId: string,
    position: int,
    text: string,
    createdAt: int)

  datatype Testimonial = Testimonial(
    id: string,
    name: string,
    text: string,
    rating: int,
    approved: bool,
    createdAt: int)

  /** What a reader submits: a testimonial without id, timestamp and approval. */
  datatype TestimonialInput = TestimonialInput(name: string, text: string, rating: int)

  /** `Partial<Omit<Testimonial, 'id'>>`: each present field overrides the record's. */
  datatype TestimonialPatch = TestimonialPatch(
    name: Option<string>,
    text: Option<string>,
    rating: Option<int>,
    approved: Option<bool>,
    createdAt: Option<int>)

  function ChapterId(c: Chapter): string { c.id }
  function BookmarkId(b: Bookmark): string { b.id }
  function NoteId(n: Note): string { n.id }
  function TestimonialId(t: Testimonial): string { t.id }

  /** No two records of `s` share an id (true of generated UUIDs). */
  ghost predicate UniqueIds<T>(s: seq<T>, key: T -> string) {
    forall i, j :: 0 <= i < |s| && 0 <= j < |s| && key(s[i]) == key(s[j]) ==> i == j
  }

  /** No record of `s` has the id `k`. */
  ghost predicate IdFree<T>(s: seq<T>, key: T -> string, k: string) {
    forall y :: y in s ==> key(y) != k
  }

  lemma UniqueCons<T>(x: T, s: seq<T>, key: T -> string)
    ensures UniqueIds([x] + s, key) <==> UniqueIds(s, key) && IdFree(s, key, key(x))
  {
    var t := [x] + s;
    if UniqueIds(t, key) {
      forall y | y in s ensures key(y) != key(x) {
        var j :| 0 <= j < |s| && s[j] == y;
        assert t[j + 1] == y && t[0] == x;
      }
      forall i, j | 0 <= i < |s| && 0 <= j < |s| && key(s[i]) == key(s[j]) ensures i == j {
        assert t[i + 1] == s[i] && t[j + 1] == s[j];
      }
    }
    if UniqueIds(s, key) && IdFree(s, key, key(x)) {
      forall i, j | 0 <= i < |t| && 0 <= j < |t| && key(t[i]) == key(t[j]) ensures i == j {
        if i > 0 { assert t[i] == s[i - 1]; }
        if j > 0 { assert t[j] == s[j - 1]; }
      }
    }
  }

  lemma UniqueSnoc<T>(s: seq<T>, x: T, key: T -> string)
    ensures UniqueIds(s + [x], key) <==> UniqueIds(s, key) && IdFree(s, key, key(x))
  {
    var t := s + [x];
    if UniqueIds(t, key) {
      forall y | y in s ensures key(y) != key(x) {
        var j :| 0 <= j < |s| && s[j] == y;
        assert t[j] == y && t[|s|] == x;
      }
      forall i, j | 0 <= i < |s| && 0 <= j < |s| && key(s[i]) == key(s[j]) ensures i == j {
        assert t[i] == s[i] && t[j] == s[j];
      }
    }
    if UniqueIds(s, key) && IdFree(s, key, key(x)) {
      forall i, j | 0 <= i < |t| && 0 <= j < |t| && key(t[i]) == key(t[j]) ensures i == j {
        if i < |s| { assert t[i] == s[i]; }
        if j < |s| { assert t[j] == s[j]; }
      }
    }
  }

  /** A sublist of records with unique ids has unique ids. */
  lemma {:induction false} FilterKeepsUniqueIds<T>(s: seq<T>, p: T -> bool, key: T -> string)
    requires UniqueIds(s, key)
    ensures UniqueIds(Filter(s, p), key)
  {
    if s != [] {
      assert s == [s[0]] + s[1..];
      UniqueCons(s[0], s[1..], key);
      FilterKeepsUniqueIds(s[1..], p, key);
      if p(s[0]) {
        UniqueCons(s[0], Filter(s[1..], p), key);
      }
    }
  }

}
