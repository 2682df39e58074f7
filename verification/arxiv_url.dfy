/**
  The URL rewrite at the start of the paper-to-video download step: an arXiv
  abstract-page link is turned into the matching PDF link before the
  download is attempted.
 */
module ArxivUrl {
  import opened Strings

  const AbsMarker: string := "arxiv.org/abs/"
  const PdfMarker: string := "arxiv.org/pdf/"
  const PdfSuffix: string := ".pdf"

  /** Abstract-page links become PDF links; every other URL is left alone. */
  function Normalize(url: string): (r: string)
    ensures !Contains(url, AbsMarker) ==> r == url
    ensures Contains(url, AbsMarker) ==> EndsWith(r, PdfSuffix)
    ensures Contains(url, AbsMarker) ==> !Contains(r, AbsMarker)
  {
    if Contains(url, AbsMarker) then
      var replaced := ReplaceAll(url, AbsMarker, PdfMarker);
      MarkersCannotOverlap();
      NoOccurrenceAfterReplace(url, AbsMarker, PdfMarker);
      if EndsWith(replaced, PdfSuffix) then
        replaced
      else
        NoOccurrenceAfterAppend(replaced, AbsMarker, PdfSuffix);
        replaced + PdfSuffix
    else
      url
  }

  /**
    In the rewrite branch, the URL keeps its length when the replaced text
    already ends in ".pdf" and grows by exactly the four characters of
    ".pdf" otherwise; the replaced text is always a prefix of the result.
   */
  lemma NormalizeLength(url: string)
    requires Contains(url, AbsMarker)
    ensures var replaced := ReplaceAll(url, AbsMarker, PdfMarker);
            && |replaced| == |url|
            && Normalize(url)[..|url|] == replaced
            && (|Normalize(url)| == |url| <==> EndsWith(replaced, PdfSuffix))
            && (|Normalize(url)| == |url| + 4 <==> !EndsWith(replaced, PdfSuffix))
  {
  }

  /** Rewriting an already rewritten URL changes nothing. */
  lemma NormalizeIdempotent(url: string)
    ensures Normalize(Normalize(url)) == Normalize(url)
  {
  }

  /** A character of the rewritten URL differs from the input only inside an abstract marker. */
  lemma NormalizeChangesOnlyMarkers(url: string, i: int)
    requires Contains(url, AbsMarker)
    requires 0 <= i < |url|
    ensures Normalize(url)[i] != url[i] ==>
              exists k :: k <= i < k + |AbsMarker| && OccursAt(url, AbsMarker, k)
  {
    NormalizeKeepsReplaced(url, i);
    ReplaceAllChangesOnlyOccurrences(url, AbsMarker, PdfMarker, i);
  }

  /** Every abstract marker of the input reads as the PDF marker after the rewrite. */
  lemma NormalizeRewritesEveryMarker(url: string, i: int)
    requires OccursAt(url, AbsMarker, i)
    ensures Normalize(url)[i..i + |PdfMarker|] == PdfMarker
  {
    assert Contains(url, AbsMarker);
    NormalizeLength(url);
    MarkerReplaced(url, i);
    SliceOfPrefix(Normalize(url), ReplaceAll(url, AbsMarker, PdfMarker), i, i + |PdfMarker|);
  }

  /** A slice inside a prefix of `r` is the same slice of that prefix. */
  lemma SliceOfPrefix(r: string, p: string, i: int, j: int)
    requires |p| <= |r| && r[..|p|] == p
    requires 0 <= i <= j <= |p|
    ensures r[i..j] == p[i..j]
  {
    forall k | i <= k < j
      ensures r[k] == p[k]
    {
      assert r[k] == r[..|p|][k];
    }
  }

  /** The replacement step alone writes the PDF marker over each abstract marker. */
  lemma MarkerReplaced(url: string, i: int)
    requires OccursAt(url, AbsMarker, i)
    ensures |ReplaceAll(url, AbsMarker, PdfMarker)| == |url|
    ensures ReplaceAll(url, AbsMarker, PdfMarker)[i..i + |PdfMarker|] == PdfMarker
  {
    MarkersCannotOverlap();
    EveryOccurrenceReplaced(url, AbsMarker, PdfMarker, i);
  }

  /** Position `i` of the rewritten URL is position `i` of the replaced text. */
  lemma NormalizeKeepsReplaced(url: string, i: int)
    requires Contains(url, AbsMarker)
    requires 0 <= i < |url|
    ensures i < |Normalize(url)|
    ensures Normalize(url)[i] == ReplaceAll(url, AbsMarker, PdfMarker)[i]
  {
    NormalizeLength(url);
    assert Normalize(url)[i] == Normalize(url)[..|url|][i];
  }

  /**
    The abstract marker cannot overlap a copy of itself, and the PDF marker
    cannot overlap an abstract marker from either side: the only 'a' in
    either marker is its first character, except for the "abs" of the
    abstract marker, which the PDF marker's "ar" does not match.
   */
  lemma MarkersCannotOverlap()
    ensures NoBorder(AbsMarker)
    ensures Unoverlappable(AbsMarker, PdfMarker)
  {
    var n := |AbsMarker|;
    assert PdfMarker[10] != AbsMarker[10];
    forall m | 1 <= m < n
      ensures ClearAt(AbsMarker, AbsMarker, m)
      ensures ClearAt(PdfMarker, AbsMarker, m) && ClearAt(AbsMarker, PdfMarker, m)
    {
      assert PdfMarker[m..][0] != AbsMarker[..n - m][0];
      if m == 10 {
        assert AbsMarker[m..][1] != AbsMarker[..n - m][1];
        assert AbsMarker[m..][1] != PdfMarker[..n - m][1];
      } else {
        assert AbsMarker[m..][0] != AbsMarker[..n - m][0];
        assert AbsMarker[m..][0] != PdfMarker[..n - m][0];
      }
    }
  }
}
