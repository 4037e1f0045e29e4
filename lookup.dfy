/** What the reader, bookmarks and notes pages share: looking a chapter up by
    id (`chapters.find(c => c.id === id)`), the reader route of a chapter, and
    the join of bookmarks or notes with their chapters that skips dangling
    references. */
module Lookup {
  import opened Seqs
  import opened Records

  /** JavaScript truthiness of an optional string: present and not empty. */
  predicate Truthy(s: Option<string>) {
    s.Some? && s.value != ""
  }

  function IdIs(id: string): Chapter -> bool {
    (c: Chapter) => c.id == id
  }

  /** The first chapter with the id, or nothing when no chapter has it. */
  function FindChapter(chapters: seq<Chapter>, id: string): (r: Option<Chapter>)
    ensures r.None? <==> forall c :: c in chapters ==> c.id != id
    ensures r.Some? ==> exists i :: 0 <= i < |chapters| && chapters[i] == r.value && r.value.id == id &&
                                    forall j :: 0 <= j < i ==> chapters[j].id != id
  {
    Find(chapters, IdIs(id))
  }

  /** With unique ids, the chapter found for the id of a stored chapter is that chapter. */
  lemma FindStoredChapter(chapters: seq<Chapter>, c: Chapter)
    requires c in chapters && UniqueIds(chapters, ChapterId)
    ensures FindChapter(chapters, c.id) == Some(c)
  {
    var k :| 0 <= k < |chapters| && chapters[k] == c;
    var r := FindChapter(chapters, c.id);
    var i :| 0 <= i < |chapters| && chapters[i] == r.value && r.value.id == c.id &&
             forall j :: 0 <= j < i ==> chapters[j].id != c.id;
    assert ChapterId(chapters[i]) == ChapterId(chapters[k]);
  }

  /** `/reader/${language}/${id}`. */
  function ReaderPath(language: string, id: string): string {
    "/reader/" + language + "/" + id
  }

  /** Where clicking a bookmark or note of the chapter `chapterId` navigates: the
      reader route in the language of the first chapter with that id, or nowhere
      when no chapter has it. */
  function ClickTarget(chapters: seq<Chapter>, chapterId: string): (r: Option<string>)
    ensures r.None? <==> forall c :: c in chapters ==> c.id != chapterId
    ensures r.Some? ==> exists i :: 0 <= i < |chapters| && chapters[i].id == chapterId &&
                                    (forall j :: 0 <= j < i ==> chapters[j].id != chapterId) &&
                                    r.value == ReaderPath(LanguageName(chapters[i].language), chapterId)
  {
    match FindChapter(chapters, chapterId)
    case Some(c) => Some(ReaderPath(LanguageName(c.language), c.id))
    case None => None
  }

  function HasChapter<T>(chapters: seq<Chapter>, chapterOf: T -> string): T -> bool {
    (x: T) => FindChapter(chapters, chapterOf(x)).Some?
  }

  lemma HasChapterIff<T>(chapters: seq<Chapter>, chapterOf: T -> string, x: T)
    ensures HasChapter(chapters, chapterOf)(x) <==> exists c :: c in chapters && c.id == chapterOf(x)
  {
  }

  /** `items.map(x => { const chapter = getChapterInfo(x.chapterId); if (!chapter) return null; ... })`:
      each item whose chapter exists, paired with that chapter, in item order. */
  function Resolve<T>(items: seq<T>, chapterOf: T -> string, chapters: seq<Chapter>): (r: seq<(T, Chapter)>)
    ensures |r| <= |items|
    ensures forall e :: e in r ==> e.0 in items && FindChapter(chapters, chapterOf(e.0)) == Some(e.1)
  {
    if items == [] then []
    else
      match FindChapter(chapters, chapterOf(items[0]))
      case Some(c) => [(items[0], c)] + Resolve(items[1..], chapterOf, chapters)
      case None => Resolve(items[1..], chapterOf, chapters)
  }

  function First<T>(e: (T, Chapter)): T { e.0 }

  /** The rendered items are exactly the items whose chapter exists, in their order. */
  lemma {:induction false} ResolveKeepsResolvable<T>(items: seq<T>, chapterOf: T -> string, chapters: seq<Chapter>)
    ensures Map(Resolve(items, chapterOf, chapters), First) == Filter(items, HasChapter(chapters, chapterOf))
  {
    if items != [] {
      ResolveKeepsResolvable(items[1..], chapterOf, chapters);
      var rest := Resolve(items[1..], chapterOf, chapters);
      match FindChapter(chapters, chapterOf(items[0]))
      case Some(c) =>
        MapCons((items[0], c), rest, First);
      case None =>
    }
  }
}
