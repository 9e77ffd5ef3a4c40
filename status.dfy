/**
 * The review categories of reviewer-matrix.py: the ordered categorical dtype
 * `review_state_dtype` (REQUESTED < COMMENTED < REQUEST_CHANGES < APPROVED < AUTHOR),
 * the cast of a raw state string into it, and the glyph table `emoji_map`.
 */
module ReviewStatus {
  import opened Wrappers

  datatype Status = Requested | Commented | RequestChanges | Approved | Author

  /** Position of a category in the ordered dtype. */
  function Rank(s: Status): nat
  {
    match s
    case Requested => 0
    case Commented => 1
    case RequestChanges => 2
    case Approved => 3
    case Author => 4
  }

  /** The category label as it appears in the dtype. */
  function Name(s: Status): string
  {
    match s
    case Requested => "REQUESTED"
    case Commented => "COMMENTED"
    case RequestChanges => "REQUEST_CHANGES"
    case Approved => "APPROVED"
    case Author => "AUTHOR"
  }

  /** The larger of two categories under the dtype order (what `groupby(...).max()` keeps). */
  function Max(a: Status, b: Status): (m: Status)
    ensures m == a || m == b
    ensures Rank(a) <= Rank(m) && Rank(b) <= Rank(m)
  {
    if Rank(a) <= Rank(b) then b else a
  }

  /**
   * `astype(review_state_dtype)` on one raw state: a label of one of the five
   * categories becomes that category, anything else becomes missing.
   */
  function ParseState(state: string): (r: Option<Status>)
    ensures r.Some? ==> Name(r.value) == state
  {
    if state == "REQUESTED" then Some(Requested)
    else if state == "COMMENTED" then Some(Commented)
    else if state == "REQUEST_CHANGES" then Some(RequestChanges)
    else if state == "APPROVED" then Some(Approved)
    else if state == "AUTHOR" then Some(Author)
    else None
  }

  /** Every category label is recognised by the cast. */
  lemma ParseName(s: Status)
    ensures ParseState(Name(s)) == Some(s)
  {
  }

  /** GitHub's own label for a change request is not one of the categories, so the cast drops it. */
  lemma ChangesRequestedIsDropped()
    ensures ParseState("CHANGES_REQUESTED") == None
  {
  }

  /** The rank is a total order: two categories with the same rank are equal. */
  lemma RankInjective(a: Status, b: Status)
    requires Rank(a) == Rank(b)
    ensures a == b
  {
  }

  /** AUTHOR is the greatest category: a maximum that has seen AUTHOR is AUTHOR. */
  lemma AuthorIsGreatest(s: Status)
    ensures Rank(s) <= Rank(Author)
    ensures Rank(Author) <= Rank(s) ==> s == Author
  {
  }

  const ApprovedGlyph: string := "\U{2705}"

  /** `emoji_map`: the display glyph of each category. */
  function Glyph(s: Status): (g: string)
    ensures g != ""
  {
    match s
    case Requested => "?"
    case Commented => "\U{1F4AC}"
    case RequestChanges => "\U{274C}"
    case Approved => ApprovedGlyph
    case Author => "\U{270F}\U{FE0F}"
  }

  /** Distinct categories are shown with distinct glyphs. */
  lemma GlyphInjective(a: Status, b: Status)
    requires Glyph(a) == Glyph(b)
    ensures a == b
  {
  }

  /**
   * The five glyphs in ascending code-point order, which is the column order
   * `unstack` gives the per-glyph summary columns.
   */
  const AllGlyphs: seq<string> :=
    [Glyph(Requested), Glyph(Approved), Glyph(Author), Glyph(RequestChanges), Glyph(Commented)]

  lemma AllGlyphsAreTheGlyphs(g: string)
    ensures g in AllGlyphs <==> exists s :: Glyph(s) == g
  {
    if g in AllGlyphs {
      var k :| 0 <= k < |AllGlyphs| && AllGlyphs[k] == g;
      if k == 0 { assert Glyph(Requested) == g; }
      else if k == 1 { assert Glyph(Approved) == g; }
      else if k == 2 { assert Glyph(Author) == g; }
      else if k == 3 { assert Glyph(RequestChanges) == g; }
      else { assert Glyph(Commented) == g; }
    } else {
      forall s ensures Glyph(s) != g {
        assert Glyph(s) in AllGlyphs;
      }
    }
  }
}
