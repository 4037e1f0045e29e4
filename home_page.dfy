/** The landing screen (src/pages/HomePage.tsx): it features the first three
    approved testimonials. */
module HomePage {
  import opened Seqs
  import opened Records
  import BC = BookContext

  function Min(a: int, b: int): int { if a < b then a else b }

  /** `testimonials.filter(t => t.approved).slice(0, 3)`. */
  function Featured(ts: seq<Testimonial>): (r: seq<Testimonial>)
    ensures |r| <= 3
    ensures |BC.Approved(ts)| >= 3 ==> |r| == 3
    ensures |BC.Approved(ts)| < 3 ==> r == BC.Approved(ts)
    ensures forall t :: t in r ==> t in ts && t.approved
    ensures r == BC.Approved(ts)[..|r|]
    ensures IsSubsequence(r, ts)
  {
    var a := BC.Approved(ts);
    var r := a[..Min(3, |a|)];
    forall t | t in r ensures t in a {
      var i :| 0 <= i < |r| && r[i] == t;
      assert a[i] == t;
    }
    PrefixIsSubsequence(a, Min(3, |a|));
    FilterIsSubsequence(ts, BC.IsApproved);
    SubsequenceTransitive(r, a, ts);
    r
  }

  /** The "What Our Readers Say" section. */
  predicate ShowsFeatured(ts: seq<Testimonial>) {
    |Featured(ts)| > 0
  }

  /** The section appears exactly when some testimonial is approved. */
  lemma ShowsFeaturedIff(ts: seq<Testimonial>)
    ensures ShowsFeatured(ts) <==> exists t :: t in ts && t.approved
  {
    var a := BC.Approved(ts);
    FilterMembers(ts, BC.IsApproved);
    if exists t :: t in ts && t.approved {
      var t :| t in ts && t.approved;
      assert t in a;
    }
    if |Featured(ts)| > 0 {
      assert Featured(ts)[0] in Featured(ts);
    }
  }
}
