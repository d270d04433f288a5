/**
 * The MIME part classifier of Papercut's message helper: given the leaf parts
 * of a parsed message in document order, pick the main body, the images and
 * the attachments. Everything here is a total, pure function over a sequence.
 *
 * The functions carry only quantifier-free contracts, so that code calling
 * them is not burdened with facts it does not use; what they select is stated
 * by the lemmas beside them.
 */
module MessageHelper {
  import opened Wrappers

  /** A Content-Type header: media type and subtype (section 5.1 of RFC 2045). */
  datatype ContentType = ContentType(mediaType: string, subtype: string)

  /**
   * A leaf MIME part as the parser hands it over. `id` stands for the
   * object's identity; `isAttachment` is the parser's own verdict.
   */
  datatype Part =
    | TextPart(id: nat, contentType: ContentType, isAttachment: bool, text: string)
    | OtherPart(id: nat, contentType: ContentType, isAttachment: bool)

  /** Every part is a distinct object: no two positions share an identity. */
  predicate DistinctIds(parts: seq<Part>) {
    forall i, j :: 0 <= i < j < |parts| ==> parts[i].id != parts[j].id
  }

  /** `ContentType.Matches(mediaType, subtype)`, where `*` matches anything. */
  predicate Matches(ct: ContentType, mediaType: string, subtype: string) {
    (mediaType == "*" || ct.mediaType == mediaType) && (subtype == "*" || ct.subtype == subtype)
  }

  /** `IsContentHtml`: whether a text part is `text/html`. */
  function IsContentHtml(p: Part): (r: bool)
    requires p.TextPart?
    ensures r <==> p.contentType.mediaType == "text" && p.contentType.subtype == "html"
  {
    Matches(p.contentType, "text", "html")
  }

  // ---------------------------------------------------------------------------
  // The two LINQ operators the classifier is built from.

  /** `Where`: the elements of `s` that satisfy `keep`, in their original order. */
  function Where(s: seq<Part>, keep: Part -> bool): (r: seq<Part>)
    ensures |r| <= |s|
    decreases |s|
  {
    if s == [] then []
    else Where(s[..|s| - 1], keep) + (if keep(s[|s| - 1]) then [s[|s| - 1]] else [])
  }

  /** The positions of `s` whose element satisfies `keep`. */
  ghost function IndicesWhere(s: seq<Part>, keep: Part -> bool): set<nat> {
    set i: nat | i < |s| && keep(s[i])
  }

  /** `FirstOrDefault(pred)`: the element at the lowest position satisfying `pred`, if any. */
  function FirstOrDefault(s: seq<Part>, pred: Part -> bool): (r: Option<Part>)
    ensures r.Some? ==> r.value in s && pred(r.value)
  {
    if s == [] then None
    else if pred(s[0]) then Some(s[0])
    else FirstOrDefault(s[1..], pred)
  }

  /** `Where` keeps exactly the elements that satisfy the filter. */
  lemma {:induction false} WhereMembers(s: seq<Part>, keep: Part -> bool)
    ensures forall p :: p in Where(s, keep) <==> p in s && keep(p)
  {
    if s != [] {
      var n := |s| - 1;
      WhereMembers(s[..n], keep);
      assert s == s[..n] + [s[n]];
    }
  }

  /** The matching positions of `s` are those of all but its last element, plus perhaps the last. */
  lemma IndicesWhereSnoc(s: seq<Part>, keep: Part -> bool)
    requires s != []
    ensures var n := |s| - 1;
            IndicesWhere(s, keep) == IndicesWhere(s[..n], keep) + (if keep(s[n]) then {n} else {})
  {
  }

  /** `Where` keeps exactly as many elements as there are positions satisfying the filter. */
  lemma {:induction false} WhereCount(s: seq<Part>, keep: Part -> bool)
    ensures |Where(s, keep)| == |IndicesWhere(s, keep)|
  {
    if s == [] {
      assert IndicesWhere(s, keep) == {};
    } else {
      var n := |s| - 1;
      WhereCount(s[..n], keep);
      IndicesWhereSnoc(s, keep);
      assert n !in IndicesWhere(s[..n], keep);
    }
  }

  /** `Where` preserves order: filtering a concatenation concatenates the filtered halves. */
  lemma {:induction false} WhereAppend(a: seq<Part>, b: seq<Part>, keep: Part -> bool)
    ensures Where(a + b, keep) == Where(a, keep) + Where(b, keep)
    decreases |b|
  {
    if b == [] {
      assert a + b == a;
    } else {
      var m := |b| - 1;
      assert (a + b)[..|a + b| - 1] == a + b[..m];
      assert (a + b)[|a + b| - 1] == b[m];
      WhereAppend(a, b[..m], keep);
    }
  }

  /** A search fails exactly when no element satisfies the predicate. */
  lemma {:induction false} FirstOrDefaultNone(s: seq<Part>, pred: Part -> bool)
    ensures FirstOrDefault(s, pred).None? <==> forall p :: p in s ==> !pred(p)
  {
    if s != [] && !pred(s[0]) {
      FirstOrDefaultNone(s[1..], pred);
      assert s == [s[0]] + s[1..];
    }
  }

  /** A search returns the element at the lowest position satisfying the predicate. */
  lemma {:induction false} FirstOrDefaultFirst(s: seq<Part>, pred: Part -> bool, k: nat)
    requires k < |s| && pred(s[k])
    requires forall j :: 0 <= j < k ==> !pred(s[j])
    ensures FirstOrDefault(s, pred) == Some(s[k])
  {
    if k > 0 {
      FirstOrDefaultFirst(s[1..], pred, k - 1);
    }
  }

  /** Appending elements does not change a search that already succeeds. */
  lemma {:induction false} FirstOrDefaultPrefix(a: seq<Part>, b: seq<Part>, pred: Part -> bool)
    requires FirstOrDefault(a, pred).Some?
    ensures FirstOrDefault(a + b, pred) == FirstOrDefault(a, pred)
  {
    assert (a + b)[0] == a[0];
    if !pred(a[0]) {
      assert (a + b)[1..] == a[1..] + b;
      FirstOrDefaultPrefix(a[1..], b, pred);
    }
  }

  /** A search skips a prefix in which nothing satisfies the predicate. */
  lemma FirstOrDefaultAfter(before: seq<Part>, x: Part, after: seq<Part>, pred: Part -> bool)
    requires pred(x) && forall p :: p in before ==> !pred(p)
    ensures FirstOrDefault(before + [x] + after, pred) == Some(x)
  {
    var w := before + [x] + after;
    assert w[|before|] == x;
    forall j | 0 <= j < |before| ensures !pred(w[j]) {
      assert w[j] == before[j];
    }
    FirstOrDefaultFirst(w, pred, |before|);
  }

  /**
   * Searching a filtered sequence finds the first position that passes both
   * the filter and the search predicate.
   */
  lemma {:induction false} FirstOfWhere(s: seq<Part>, keep: Part -> bool, pred: Part -> bool, i: nat)
    requires i < |s| && keep(s[i]) && pred(s[i])
    requires forall j :: 0 <= j < i ==> !(keep(s[j]) && pred(s[j]))
    ensures FirstOrDefault(Where(s, keep), pred) == Some(s[i])
  {
    var n := |s| - 1;
    var init := s[..n];
    var before := Where(init, keep);
    var last := if keep(s[n]) then [s[n]] else [];
    assert Where(s, keep) == before + last;
    if i < n {
      assert init[i] == s[i];
      forall j | 0 <= j < i ensures !(keep(init[j]) && pred(init[j])) {
        assert init[j] == s[j];
      }
      FirstOfWhere(init, keep, pred, i);
      FirstOrDefaultPrefix(before, last, pred);
    } else {
      WhereMembers(init, keep);
      forall p | p in before ensures !pred(p) {
        var k :| 0 <= k < n && init[k] == p;
        assert s[k] == p;
      }
      assert before + last == before + [s[n]] + [];
      FirstOrDefaultAfter(before, s[n], [], pred);
    }
  }

  /** A search over a filtered sequence fails exactly when no element passes both tests. */
  lemma FirstOfWhereNone(s: seq<Part>, keep: Part -> bool, pred: Part -> bool)
    ensures FirstOrDefault(Where(s, keep), pred).None? <==> forall p :: p in s ==> !(keep(p) && pred(p))
  {
    WhereMembers(s, keep);
    FirstOrDefaultNone(Where(s, keep), pred);
  }

  // ---------------------------------------------------------------------------
  // The classifier.

  /** A part eligible as the main body: a text part that is not an attachment. */
  predicate IsBodyCandidate(p: Part) {
    p.TextPart? && !p.isAttachment
  }

  /** A text part whose content type is HTML. */
  predicate IsHtmlText(p: Part) {
    p.TextPart? && IsContentHtml(p)
  }

  /** A main-body candidate that is HTML. */
  predicate IsHtmlBody(p: Part) {
    IsBodyCandidate(p) && IsHtmlText(p)
  }

  /** An image part: media type `image`, any subtype. */
  predicate IsImage(p: Part) {
    Matches(p.contentType, "image", "*")
  }

  /** A part the parser flagged as an attachment. */
  predicate IsAttached(p: Part) {
    p.isAttachment
  }

  /** Accepts every part (LINQ's `FirstOrDefault()` without a predicate). */
  predicate AnyPart(p: Part) {
    true
  }

  /**
   * `GetMainBodyTextPart`: among non-attachment text parts, the first HTML one,
   * else the first one, else none.
   */
  function GetMainBodyTextPart(parts: seq<Part>): (r: Option<Part>)
    ensures r.Some? ==> r.value in parts && IsBodyCandidate(r.value)
  {
    var mimeParts := Where(parts, IsBodyCandidate);
    WhereMembers(parts, IsBodyCandidate);
    var html := FirstOrDefault(mimeParts, IsHtmlText);
    if html.Some? then html else FirstOrDefault(mimeParts, AnyPart)
  }

  /** There is no main body exactly when there is no non-attachment text part. */
  lemma MainBodyNone(parts: seq<Part>)
    ensures GetMainBodyTextPart(parts).None? <==> forall p :: p in parts ==> !IsBodyCandidate(p)
  {
    FirstOfWhereNone(parts, IsBodyCandidate, AnyPart);
    FirstOfWhereNone(parts, IsBodyCandidate, IsHtmlText);
  }

  /** The main body is HTML exactly when some non-attachment text part is HTML. */
  lemma MainBodyIsHtml(parts: seq<Part>)
    ensures (exists p :: p in parts && IsHtmlBody(p))
            <==> GetMainBodyTextPart(parts).Some? && IsHtmlText(GetMainBodyTextPart(parts).value)
  {
    FirstOfWhereNone(parts, IsBodyCandidate, IsHtmlText);
    if GetMainBodyTextPart(parts).Some? && IsHtmlText(GetMainBodyTextPart(parts).value) {
      assert IsHtmlBody(GetMainBodyTextPart(parts).value);
    }
  }

  /** The first non-attachment HTML text part is the main body, wherever it stands. */
  lemma MainBodyPrefersFirstHtml(parts: seq<Part>, i: nat)
    requires i < |parts| && IsHtmlBody(parts[i])
    requires forall j :: 0 <= j < i ==> !IsHtmlBody(parts[j])
    ensures GetMainBodyTextPart(parts) == Some(parts[i])
  {
    FirstOfWhere(parts, IsBodyCandidate, IsHtmlText, i);
  }

  /** Without any HTML candidate, the first non-attachment text part is the main body. */
  lemma MainBodyFallsBackToFirstText(parts: seq<Part>, i: nat)
    requires forall j :: 0 <= j < |parts| ==> !IsHtmlBody(parts[j])
    requires i < |parts| && IsBodyCandidate(parts[i])
    requires forall j :: 0 <= j < i ==> !IsBodyCandidate(parts[j])
    ensures GetMainBodyTextPart(parts) == Some(parts[i])
  {
    FirstOfWhereNone(parts, IsBodyCandidate, IsHtmlText);
    FirstOfWhere(parts, IsBodyCandidate, AnyPart, i);
  }

  /**
   * HTML wins regardless of position: any number of plain-text or other parts
   * before the first HTML candidate do not change the choice.
   */
  lemma HtmlWinsRegardlessOfPosition(before: seq<Part>, html: Part, after: seq<Part>)
    requires IsHtmlBody(html)
    requires forall p :: p in before ==> !IsHtmlBody(p)
    ensures GetMainBodyTextPart(before + [html] + after) == Some(html)
  {
    var parts := before + [html] + after;
    assert parts[|before|] == html;
    forall j | 0 <= j < |before| ensures !IsHtmlBody(parts[j]) {
      assert parts[j] == before[j];
    }
    MainBodyPrefersFirstHtml(parts, |before|);
  }

  /** `GetImages`: the image parts, whatever their attachment flag; null is rejected. */
  function GetImages(prefilteredMimeParts: Option<seq<Part>>): (r: Result<seq<Part>>)
    ensures prefilteredMimeParts.None? ==> r == Failure(ArgumentNullException("prefilteredMimeParts"))
    ensures prefilteredMimeParts.Some? ==> r.Success? && |r.value| <= |prefilteredMimeParts.value|
  {
    match prefilteredMimeParts
    case None => Failure(ArgumentNullException("prefilteredMimeParts"))
    case Some(parts) => Success(Where(parts, IsImage))
  }

  /** `GetAttachments`: the flagged parts, whatever their media type; null is rejected. */
  function GetAttachments(prefilteredMimeParts: Option<seq<Part>>): (r: Result<seq<Part>>)
    ensures prefilteredMimeParts.None? ==> r == Failure(ArgumentNullException("prefilteredMimeParts"))
    ensures prefilteredMimeParts.Some? ==> r.Success? && |r.value| <= |prefilteredMimeParts.value|
  {
    match prefilteredMimeParts
    case None => Failure(ArgumentNullException("prefilteredMimeParts"))
    case Some(parts) => Success(Where(parts, IsAttached))
  }

  /**
   * The images are exactly the parts of media type `image`, one per such
   * position, whatever their subtype and attachment flag.
   */
  lemma ImagesExactly(parts: seq<Part>)
    ensures forall p :: p in GetImages(Some(parts)).value <==> p in parts && p.contentType.mediaType == "image"
    ensures |GetImages(Some(parts)).value| == |set i | 0 <= i < |parts| && parts[i].contentType.mediaType == "image"|
  {
    WhereMembers(parts, IsImage);
    WhereCount(parts, IsImage);
    assert IndicesWhere(parts, IsImage) == set i | 0 <= i < |parts| && parts[i].contentType.mediaType == "image";
  }

  /**
   * The attachments are exactly the flagged parts, one per flagged position,
   * whatever their media type.
   */
  lemma AttachmentsExactly(parts: seq<Part>)
    ensures forall p :: p in GetAttachments(Some(parts)).value <==> p in parts && p.isAttachment
    ensures |GetAttachments(Some(parts)).value| == |set i | 0 <= i < |parts| && parts[i].isAttachment|
  {
    WhereMembers(parts, IsAttached);
    WhereCount(parts, IsAttached);
    assert IndicesWhere(parts, IsAttached) == set i | 0 <= i < |parts| && parts[i].isAttachment;
  }

  /** Images keep document order: the images of `a + b` are those of `a`, then those of `b`. */
  lemma ImagesInDocumentOrder(a: seq<Part>, b: seq<Part>)
    ensures GetImages(Some(a + b)).value == GetImages(Some(a)).value + GetImages(Some(b)).value
  {
    WhereAppend(a, b, IsImage);
  }

  /** Attachments keep document order, in the same sense. */
  lemma AttachmentsInDocumentOrder(a: seq<Part>, b: seq<Part>)
    ensures GetAttachments(Some(a + b)).value == GetAttachments(Some(a)).value + GetAttachments(Some(b)).value
  {
    WhereAppend(a, b, IsAttached);
  }

  /**
   * Images and attachments are not a partition: a part that is both an image
   * and flagged is returned by both selections.
   */
  lemma ImageMayAlsoBeAttachment(parts: seq<Part>, i: nat)
    requires i < |parts| && parts[i].contentType.mediaType == "image" && parts[i].isAttachment
    ensures parts[i] in GetImages(Some(parts)).value && parts[i] in GetAttachments(Some(parts)).value
  {
    ImagesExactly(parts);
    AttachmentsExactly(parts);
  }
}
