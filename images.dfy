/** The image classifier and the per-record image list
    (`_is_profile_picture`, `_is_small_image`, `_extract_images`). */
module Images {
  import opened Seqs
  import opened Strings

  /** A width or height attribute as `int(img.get_attribute(...) or 0)` sees it:
      absent (or empty, which Python treats the same), parsed, or rejected by `int()`. */
  datatype Attr = Missing | Parsed(n: int) | Bad

  /** One `<img>` element of a post, as the browser reports its attributes. */
  datatype ImageCandidate = ImageCandidate(src: Option<string>, alt: Option<string>, width: Attr, height: Attr)

  /** Substrings that mark an image as profile chrome. */
  const ProfileIndicators: seq<string> :=
    ["profile_pic", "profile-pic", "avatar", "profile", "/p/", "_pp_", "profile_image"]

  /** The query `img:not([alt='Profile picture'])` drops images with exactly this alt text. */
  const ExcludedAlt: string := "Profile picture"

  /** A positive dimension below this makes an image an icon. */
  const SmallLimit: int := 50

  /** `_is_profile_picture(src, alt, indicators)`; the caller passes `alt` already lower-cased. */
  function IsProfilePicture(src: string, alt: string, indicators: seq<string>): bool {
    ContainsAny(Lower(src), indicators) || ContainsAny(alt, indicators) ||
    Contains(alt, "profile") || alt == "avatar"
  }

  /** Any indicator found in the lower-cased src or in alt makes a profile picture. The two
      extra tests on `alt` ("profile" substring, "avatar" equality) add nothing over the
      fixed indicator list: with that list, the verdict is exactly "some indicator occurs
      in the lower-cased src or in alt". */
  lemma IsProfilePictureIff(src: string, alt: string, indicators: seq<string>)
    ensures (exists i :: 0 <= i < |indicators| &&
               (Contains(Lower(src), indicators[i]) || Contains(alt, indicators[i]))) ==>
            IsProfilePicture(src, alt, indicators)
    ensures indicators == ProfileIndicators ==>
              (IsProfilePicture(src, alt, indicators) <==>
               exists i :: 0 <= i < |ProfileIndicators| &&
                 (Contains(Lower(src), ProfileIndicators[i]) || Contains(alt, ProfileIndicators[i])))
  {
    ContainsAnyIff(Lower(src), indicators);
    ContainsAnyIff(alt, indicators);
    ContainsSelf("avatar");
    assert ProfileIndicators[2] == "avatar" && ProfileIndicators[3] == "profile";
  }

  /** `int(attr or 0)`: a missing attribute reads as 0, a malformed one fails. */
  function ParseDimension(a: Attr): Option<int> {
    match a
    case Missing => Some(0)
    case Parsed(n) => Some(n)
    case Bad => None
  }

  /** `_is_small_image`: both dimensions are parsed first, so a failure in either
      makes the image "not small"; otherwise a positive dimension below 50 makes it small. */
  function IsSmallImage(width: Attr, height: Attr): bool {
    match (ParseDimension(width), ParseDimension(height))
    case (Some(w), Some(h)) => (0 < w < SmallLimit) || (0 < h < SmallLimit)
    case _ => false
  }

  /** A malformed dimension never makes an image small; absent, non-positive or large
      dimensions neither; a dimension in 1..49 does, provided the other one parses. */
  lemma SmallImageRule(width: Attr, height: Attr)
    ensures width.Bad? || height.Bad? ==> !IsSmallImage(width, height)
    ensures ((width.Missing? || (width.Parsed? && (width.n <= 0 || width.n >= SmallLimit))) &&
             (height.Missing? || (height.Parsed? && (height.n <= 0 || height.n >= SmallLimit)))) ==>
            !IsSmallImage(width, height)
    ensures width.Parsed? && 0 < width.n < SmallLimit && !height.Bad? ==> IsSmallImage(width, height)
    ensures height.Parsed? && 0 < height.n < SmallLimit && !width.Bad? ==> IsSmallImage(width, height)
  {
  }

  /** The loop body of `_extract_images` keeps a candidate when its src is non-empty and
      it is neither a profile picture nor small. */
  function Accepts(c: ImageCandidate): bool {
    match c.src
    case None => false
    case Some(src) =>
      src != "" &&
      !IsProfilePicture(src, Lower(c.alt.GetOr("")), ProfileIndicators) &&
      !IsSmallImage(c.width, c.height)
  }

  /** A candidate is kept exactly when its src is non-empty, no indicator occurs in its
      lower-cased src or lower-cased alt, and it is not small: whether an indicator
      matches is independent of the dimensions. */
  lemma AcceptsIff(c: ImageCandidate)
    ensures Accepts(c) <==>
              c.src.Some? && c.src.value != "" &&
              (forall i :: 0 <= i < |ProfileIndicators| ==>
                 !Contains(Lower(c.src.value), ProfileIndicators[i]) &&
                 !Contains(Lower(c.alt.GetOr("")), ProfileIndicators[i])) &&
              !IsSmallImage(c.width, c.height)
  {
    if c.src.Some? {
      IsProfilePictureIff(c.src.value, Lower(c.alt.GetOr("")), ProfileIndicators);
    }
  }

  /** The browser query `img:not([alt='Profile picture'])` over all images of a post. */
  function SelectImages(imgs: seq<ImageCandidate>): (r: seq<ImageCandidate>)
    decreases |imgs|
  {
    if imgs == [] then []
    else
      var rest := SelectImages(imgs[..|imgs| - 1]);
      var c := imgs[|imgs| - 1];
      if c.alt == Some(ExcludedAlt) then rest else rest + [c]
  }

  /** Every src value that is present, in document order. */
  function Sources(imgs: seq<ImageCandidate>): seq<string>
    decreases |imgs|
  {
    if imgs == [] then []
    else
      var rest := Sources(imgs[..|imgs| - 1]);
      var c := imgs[|imgs| - 1];
      if c.src.Some? then rest + [c.src.value] else rest
  }

  /** The src of every accepted candidate, in order, repeats included. */
  function AcceptedSources(imgs: seq<ImageCandidate>): seq<string>
    decreases |imgs|
  {
    if imgs == [] then []
    else
      var rest := AcceptedSources(imgs[..|imgs| - 1]);
      var c := imgs[|imgs| - 1];
      if Accepts(c) then rest + [c.src.value] else rest
  }

  /** What `_extract_images` returns for a post whose images are `imgs`: the images the
      query keeps, in order, each accepted src appended unless already listed. */
  function ImageUrls(imgs: seq<ImageCandidate>): seq<string>
    decreases |imgs|
  {
    if imgs == [] then []
    else
      var rest := ImageUrls(imgs[..|imgs| - 1]);
      var c := imgs[|imgs| - 1];
      if c.alt != Some(ExcludedAlt) && Accepts(c) && c.src.value !in rest then rest + [c.src.value] else rest
  }

  /** A candidate the query drops would have been rejected anyway:
      its lower-cased alt "profile picture" contains the indicator "profile". */
  lemma ExcludedAltIsProfile(c: ImageCandidate)
    requires c.alt == Some(ExcludedAlt)
    ensures !Accepts(c)
  {
    var alt := Lower(ExcludedAlt);
    assert alt[..|"profile"|] == "profile";
    assert Contains(alt, ProfileIndicators[3]);
  }

  /** The browser-side filter does not change which URLs are kept. */
  lemma {:induction false} SelectImagesIrrelevant(imgs: seq<ImageCandidate>)
    ensures AcceptedSources(SelectImages(imgs)) == AcceptedSources(imgs)
    decreases |imgs|
  {
    if imgs != [] {
      var p, c := imgs[..|imgs| - 1], imgs[|imgs| - 1];
      SelectImagesIrrelevant(p);
      if c.alt == Some(ExcludedAlt) {
        ExcludedAltIsProfile(c);
      } else {
        var sp := SelectImages(p);
        assert (sp + [c])[..|sp|] == sp;
      }
    }
  }

  /** The image list is the first-seen de-duplication of the accepted sources. */
  lemma {:induction false} ImageUrlsIsDedup(imgs: seq<ImageCandidate>)
    ensures ImageUrls(imgs) == Dedup(AcceptedSources(imgs))
    decreases |imgs|
  {
    if imgs != [] {
      var p, c := imgs[..|imgs| - 1], imgs[|imgs| - 1];
      ImageUrlsIsDedup(p);
      if c.alt == Some(ExcludedAlt) {
        ExcludedAltIsProfile(c);
      }
      if Accepts(c) {
        var a := AcceptedSources(imgs);
        assert a[..|a| - 1] == AcceptedSources(p);
      }
    }
  }

  /** A URL is accepted exactly when some candidate with that src is accepted. */
  lemma {:induction false} AcceptedSourcesMembers(imgs: seq<ImageCandidate>)
    ensures forall u :: u in AcceptedSources(imgs) <==>
              exists i :: 0 <= i < |imgs| && Accepts(imgs[i]) && imgs[i].src == Some(u)
    decreases |imgs|
  {
    if imgs != [] {
      var p, c := imgs[..|imgs| - 1], imgs[|imgs| - 1];
      AcceptedSourcesMembers(p);
      var a, ap := AcceptedSources(imgs), AcceptedSources(p);
      assert a == if Accepts(c) then ap + [c.src.value] else ap;
      forall u ensures u in a <==> exists i :: 0 <= i < |imgs| && Accepts(imgs[i]) && imgs[i].src == Some(u)
      {
        if u in a {
          if u in ap {
            var i :| 0 <= i < |p| && Accepts(p[i]) && p[i].src == Some(u);
            assert imgs[i] == p[i];
          } else {
            assert Accepts(imgs[|imgs| - 1]) && imgs[|imgs| - 1].src == Some(u);
          }
        }
        if i :| 0 <= i < |imgs| && Accepts(imgs[i]) && imgs[i].src == Some(u) {
          if i < |p| {
            assert p[i] == imgs[i];
            assert u in ap;
          }
        }
      }
    }
  }

  /** The accepted URLs keep document order among all present src values. */
  lemma {:induction false} AcceptedSourcesSubsequence(imgs: seq<ImageCandidate>)
    ensures IsSubsequence(AcceptedSources(imgs), Sources(imgs))
    decreases |imgs|
  {
    if imgs != [] {
      var p, c := imgs[..|imgs| - 1], imgs[|imgs| - 1];
      AcceptedSourcesSubsequence(p);
      if c.src.Some? {
        SubsequenceExtend(AcceptedSources(p), Sources(p), c.src.value);
      }
    }
  }

  /** `_extract_images`: walks the images the query returns, skips a candidate with no
      src, a profile picture or a small image, and appends each remaining src that is
      not in the list yet. */
  method ExtractImages(imgs: seq<ImageCandidate>) returns (urls: seq<string>)
    ensures urls == ImageUrls(imgs)
    ensures NoDuplicates(urls)
    ensures forall u :: u in urls <==>
              exists i :: 0 <= i < |imgs| && Accepts(imgs[i]) && imgs[i].src == Some(u)
    ensures IsSubsequence(urls, Sources(imgs))
    ensures FirstSeenOrder(urls, AcceptedSources(imgs))
  {
    var images := SelectImages(imgs);
    urls := [];
    var k := 0;
    while k < |images|
      invariant 0 <= k <= |images|
      invariant urls == Dedup(AcceptedSources(images[..k]))
    {
      var img := images[k];
      DedupAcceptedStep(images, k);
      match img.src {
        case None =>
        case Some(src) =>
          var alt := Lower(img.alt.GetOr(""));
          if src != "" && !IsProfilePicture(src, alt, ProfileIndicators) && !IsSmallImage(img.width, img.height) {
            if src !in urls {
              urls := urls + [src];
            }
          }
      }
      k := k + 1;
    }
    assert images[..k] == images;
    SelectImagesIrrelevant(imgs);
    ImageUrlsIsDedup(imgs);
    ImageUrlsFacts(imgs);
  }

  /** One more candidate: its src joins the deduplicated accepted list when it is
      accepted and not yet listed. */
  lemma DedupAcceptedStep(images: seq<ImageCandidate>, k: nat)
    requires k < |images|
    ensures Dedup(AcceptedSources(images[..k + 1])) ==
            var d := Dedup(AcceptedSources(images[..k]));
            if Accepts(images[k]) && images[k].src.value !in d then d + [images[k].src.value] else d
  {
    assert images[..k + 1][..k] == images[..k];
  }

  /** The image list has no repeats, holds exactly the accepted URLs, keeps document
      order among the present src values, and lists each URL at its first acceptance. */
  lemma ImageUrlsFacts(imgs: seq<ImageCandidate>)
    ensures NoDuplicates(ImageUrls(imgs))
    ensures forall u :: u in ImageUrls(imgs) <==>
              exists i :: 0 <= i < |imgs| && Accepts(imgs[i]) && imgs[i].src == Some(u)
    ensures IsSubsequence(ImageUrls(imgs), Sources(imgs))
    ensures FirstSeenOrder(ImageUrls(imgs), AcceptedSources(imgs))
  {
    ImageUrlsIsDedup(imgs);
    var accepted := AcceptedSources(imgs);
    DedupNoDuplicates(accepted);
    DedupElements(accepted);
    DedupSubsequence(accepted);
    DedupFirstSeen(accepted);
    assert forall u :: u in ImageUrls(imgs) <==> u in accepted;
    AcceptedSourcesMembers(imgs);
    AcceptedSourcesSubsequence(imgs);
    SubsequenceTransitive(ImageUrls(imgs), accepted, Sources(imgs));
  }

  /** An image that is only absent in one dimension and at least 50 in the other is
      not small, so such an image is kept unless its src or alt marks it as chrome. */
  lemma AbsentDimensionNotSmall(c: ImageCandidate)
    requires (c.width.Missing? && c.height.Parsed? && c.height.n >= SmallLimit) ||
             (c.height.Missing? && c.width.Parsed? && c.width.n >= SmallLimit)
    requires c.src.Some? && c.src.value != ""
    requires !IsProfilePicture(c.src.value, Lower(c.alt.GetOr("")), ProfileIndicators)
    ensures Accepts(c)
  {
    SmallImageRule(c.width, c.height);
  }
}
