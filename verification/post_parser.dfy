/**
 * PostParser: listing thumbnails (`span.thumb`) to `Post` records. `ParseThumb` is also the thumbnail
 * routine of the profile parser.
 */
module PostParser {
  import opened Wrappers
  import opened Text
  import opened Scan
  import opened Seqs
  import opened Models
  import opened Dom

  /** The base URL the parsers resolve relative links against when none is given. */
  const DefaultBaseUrl: string := "https://rule34.xxx"

  // ---------------------------------------------------------------- score and rating

  /** `score:(\d+)` matching at position `p`. */
  function ScoreAt(title: string, p: nat): (digits: Option<string>)
    ensures digits.Some? <==> StartsAt(title, p, "score:") && p + 6 < |title| && IsDigit(title[p + 6])
    ensures digits.Some? ==> digits.value != [] && StartsAt(title, p + 6, digits.value)
                             && (forall k :: 0 <= k < |digits.value| ==> IsDigit(digits.value[k]))
                             && (p + 6 + |digits.value| == |title| || !IsDigit(title[p + 6 + |digits.value|]))
  {
    PrefixedRunAt(title, p, "score:", IsDigit)
  }

  /** `rating:(\w+)` matching at position `p`. */
  function RatingAt(title: string, p: nat): (word: Option<string>)
    ensures word.Some? <==> StartsAt(title, p, "rating:") && p + 7 < |title| && IsWordChar(title[p + 7])
    ensures word.Some? ==> word.value != [] && StartsAt(title, p + 7, word.value)
                           && (forall k :: 0 <= k < |word.value| ==> IsWordChar(word.value[k]))
                           && (p + 7 + |word.value| == |title| || !IsWordChar(title[p + 7 + |word.value|]))
  {
    PrefixedRunAt(title, p, "rating:", IsWordChar)
  }

  /** `p` is where `re.search` finds `score:(\d+)`. */
  predicate FirstScoreAt(title: string, p: nat)
  {
    p <= |title| && ScoreAt(title, p).Some? && forall q :: 0 <= q < p ==> ScoreAt(title, q).None?
  }

  /** `p` is where `re.search` finds `rating:(\w+)`. */
  predicate FirstRatingAt(title: string, p: nat)
  {
    p <= |title| && RatingAt(title, p).Some? && forall q :: 0 <= q < p ==> RatingAt(title, q).None?
  }

  /** The digits after the first `score:` that is followed by a digit, or 0. */
  function ExtractScore(title: string): (score: nat)
    ensures (forall p: nat :: p <= |title| ==> ScoreAt(title, p).None?) ==> score == 0
    ensures forall p :: FirstScoreAt(title, p) ==> score == DecimalValue(ScoreAt(title, p).value)
  {
    var at := (p: nat) => ScoreAt(title, p);
    var m := Search(title, at);
    assert forall p | FirstScoreAt(title, p) :: m == ScoreAt(title, p) by {
      forall p | FirstScoreAt(title, p) ensures m == ScoreAt(title, p) { SearchFindsFirst(title, at, p); }
    }
    if m.None? then
      assert forall p: nat | p <= |title| :: ScoreAt(title, p).None? by {
        forall p: nat | p <= |title| ensures ScoreAt(title, p).None? { SearchFindsNothing(title, at, p); }
      }
      0
    else DecimalValue(m.value)
  }

  /** The word after the first `rating:` that is followed by a word character, or `"unknown"`. */
  function ExtractRating(title: string): (rating: string)
    ensures (forall p: nat :: p <= |title| ==> RatingAt(title, p).None?) ==> rating == "unknown"
    ensures forall p :: FirstRatingAt(title, p) ==> rating == RatingAt(title, p).value
  {
    var at := (p: nat) => RatingAt(title, p);
    var m := Search(title, at);
    assert forall p | FirstRatingAt(title, p) :: m == RatingAt(title, p) by {
      forall p | FirstRatingAt(title, p) ensures m == RatingAt(title, p) { SearchFindsFirst(title, at, p); }
    }
    if m.None? then
      assert forall p: nat | p <= |title| :: RatingAt(title, p).None? by {
        forall p: nat | p <= |title| ensures RatingAt(title, p).None? { SearchFindsNothing(title, at, p); }
      }
      "unknown"
    else m.value
  }

  /** A title whose first `score:` is followed by the digits of `n` yields `n`. */
  lemma ScoreOfTitle(pre: string, n: nat, post: string)
    requires 's' !in pre
    requires post == [] || !IsDigit(post[0])
    ensures ExtractScore(pre + "score:" + NatToString(n) + post) == n
  {
    var t := pre + "score:" + NatToString(n) + post;
    PrefixedRunOf(pre, "score:", NatToString(n), post, IsDigit);
    assert forall q :: 0 <= q < |pre| ==> t[q] == pre[q];
    PrefixedRunAbsent(t, |pre|, "score:", IsDigit);
    assert FirstScoreAt(t, |pre|);
  }

  /** A title whose first `rating:` is followed by the word `w` yields `w`. */
  lemma RatingOfTitle(pre: string, w: string, post: string)
    requires 'r' !in pre
    requires w != [] && forall k :: 0 <= k < |w| ==> IsWordChar(w[k])
    requires post == [] || !IsWordChar(post[0])
    ensures ExtractRating(pre + "rating:" + w + post) == w
  {
    var t := pre + "rating:" + w + post;
    PrefixedRunOf(pre, "rating:", w, post, IsWordChar);
    assert forall q :: 0 <= q < |pre| ==> t[q] == pre[q];
    PrefixedRunAbsent(t, |pre|, "rating:", IsWordChar);
    assert FirstRatingAt(t, |pre|);
  }

  /** Without any `s` there is no `score:`, so the score is 0. */
  lemma ScoreDefault(title: string)
    requires 's' !in title
    ensures ExtractScore(title) == 0
  {
    PrefixedRunAbsent(title, |title|, "score:", IsDigit);
  }

  /** Without any `r` there is no `rating:`, so the rating is `"unknown"`. */
  lemma RatingDefault(title: string)
    requires 'r' !in title
    ensures ExtractRating(title) == "unknown"
  {
    PrefixedRunAbsent(title, |title|, "rating:", IsWordChar);
  }

  // ---------------------------------------------------------------- id and detail URL

  predicate IsP(c: char) { c == 'p' }

  predicate IsSlash(c: char) { c == '/' }

  /** `int(raw_id.lstrip("p"))` when what is left is a non-empty digit string, else 0. */
  function PostId(rawId: string): (id: nat)
    ensures id != 0 ==> exists k :: 0 <= k < |rawId| && IdDigitsFrom(rawId, k) && id == DecimalValue(rawId[k..])
    ensures forall k :: 0 <= k < |rawId| && IdDigitsFrom(rawId, k) ==> id == DecimalValue(rawId[k..])
  {
    var rest := TrimLeft(rawId, IsP);
    forall k | 0 <= k < |rawId| && IdDigitsFrom(rawId, k) ensures rest == rawId[k..] {
      TrimmedToDigits(rawId, k);
    }
    if rawId != [] && rest != [] && AllDigits(rest) then
      assert IdDigitsFrom(rawId, |rawId| - |rest|);
      DecimalValue(rest)
    else 0
  }

  /** When `p`s are followed by digits up to the end, `lstrip("p")` leaves exactly the digits. */
  lemma TrimmedToDigits(raw: string, k: nat)
    requires k < |raw| && IdDigitsFrom(raw, k)
    ensures TrimLeft(raw, IsP) == raw[k..]
  {
    var rest := TrimLeft(raw, IsP);
    var j := |raw| - |rest|;
    assert IsDigit(raw[k..][0]);
  }

  /** Leading zeros after the `p` are read as `int()` reads them: `"p007"` is post 7. */
  lemma PostIdLeadingZeros()
    ensures PostId("p007") == 7
  {
    var raw := "p007";
    assert raw[0] == 'p' && raw[1..] == "007";
    assert IdDigitsFrom(raw, 1);
    ZeroPaddedSeven();
  }

  lemma ZeroPaddedSeven()
    ensures DecimalValue("007") == 7
  {
    assert "007"[1..] == "07" && "07"[1..] == "7";
    assert "7"[..0] == [];
  }

  /** `raw[..k]` is all `p` and `raw[k..]` is all digits. */
  predicate IdDigitsFrom(raw: string, k: nat)
    requires k <= |raw|
  {
    (forall i :: 0 <= i < k ==> raw[i] == 'p') && AllDigits(raw[k..])
  }

  function Repeat(c: char, n: nat): (s: string)
    ensures |s| == n && forall i :: 0 <= i < n ==> s[i] == c
  {
    if n == 0 then [] else [c] + Repeat(c, n - 1)
  }

  /** Every leading `p` is stripped, not just one: `"p" * k + str(n)` reads back as `n`. */
  lemma {:induction false} PostIdOfPrefixedNumber(k: nat, n: nat)
    ensures PostId(Repeat('p', k) + NatToString(n)) == n
    decreases k
  {
    var digits := NatToString(n);
    var raw := Repeat('p', k) + digits;
    if k == 0 {
      assert raw == digits;
      assert !IsP(digits[0]);
    } else {
      assert raw[1..] == Repeat('p', k - 1) + digits;
      PostIdOfPrefixedNumber(k - 1, n);
    }
  }

  /** Ids that are not `p...p` followed by digits give 0. */
  lemma PostIdExamples()
    ensures PostId("") == 0
    ensures PostId("p") == 0
    ensures PostId("p12x") == 0
  {
    var r := TrimLeft("p12x", IsP);
    assert r[|r| - 1] == 'x';
  }

  /** An absolute `http...` href is kept; otherwise it is joined to the base with one `/`. */
  function DetailUrl(href: string, baseUrl: string): (url: string)
    ensures StartsWith(href, "http") ==> url == href
    ensures !StartsWith(href, "http") ==>
              url == TrimRight(baseUrl, IsSlash) + "/" + TrimLeft(href, IsSlash)
  {
    if StartsWith(href, "http") then href
    else TrimRight(baseUrl, IsSlash) + "/" + TrimLeft(href, IsSlash)
  }

  /** Stripping leading slashes removes exactly the leading run of slashes. */
  lemma TrimLeftSlashes(s: string, k: nat)
    requires k <= |s| && (forall i :: 0 <= i < k ==> s[i] == '/') && (k == |s| || s[k] != '/')
    ensures TrimLeft(s, IsSlash) == s[k..]
  {
    var r := TrimLeft(s, IsSlash);
    assert |s| - |r| <= k;
    assert |s| - |r| >= k;
  }

  /** Stripping trailing slashes removes exactly the trailing run of slashes. */
  lemma TrimRightSlashes(s: string, k: nat)
    requires k <= |s| && (forall i :: k <= i < |s| ==> s[i] == '/') && (k == 0 || s[k - 1] != '/')
    ensures TrimRight(s, IsSlash) == s[..k]
  {
  }

  lemma StripLeadingSlashes(m: nat, href: string)
    requires href == [] || href[0] != '/'
    ensures TrimLeft(Repeat('/', m) + href, IsSlash) == href
  {
    var h := Repeat('/', m) + href;
    assert forall i :: 0 <= i < m ==> h[i] == '/';
    assert m == |h| || h[m] != '/';
    TrimLeftSlashes(h, m);
    assert h[m..] == href;
  }

  lemma StripTrailingSlashes(baseUrl: string, k: nat)
    requires baseUrl == [] || baseUrl[|baseUrl| - 1] != '/'
    ensures TrimRight(baseUrl + Repeat('/', k), IsSlash) == baseUrl
  {
    var b := baseUrl + Repeat('/', k);
    assert forall i :: |baseUrl| <= i < |b| ==> b[i] == '/';
    TrimRightSlashes(b, |baseUrl|);
    assert b[..|baseUrl|] == baseUrl;
  }

  /** However many slashes end the base and start a relative href, the join has exactly one. */
  lemma DetailUrlOneSlash(baseUrl: string, k: nat, href: string, m: nat)
    requires baseUrl == [] || baseUrl[|baseUrl| - 1] != '/'
    requires href == [] || href[0] != '/'
    requires !StartsWith(href, "http")
    ensures DetailUrl(Repeat('/', m) + href, baseUrl + Repeat('/', k)) == baseUrl + "/" + href
  {
    var h := Repeat('/', m) + href;
    assert !StartsWith(h, "http") by {
      if m == 0 {
        assert h == href;
      } else {
        assert h[0] == '/';
      }
    }
    StripLeadingSlashes(m, href);
    StripTrailingSlashes(baseUrl, k);
  }

  // ---------------------------------------------------------------- one thumbnail

  /** A thumbnail without its `a` or its `a > img` yields nothing; otherwise a post read from their attributes. */
  function ParseThumb(thumb: Thumb, baseUrl: string := DefaultBaseUrl): (r: Option<Post>)
    ensures r.None? <==> thumb.anchor.None? || thumb.img.None?
  {
    if thumb.anchor.None? || thumb.img.None? then None
    else
      var anchor, img := thumb.anchor.value, thumb.img.value;
      var alt := img.Attr("alt", "");
      var title := img.Attr("title", "");
      Some(Post(
        id := PostId(anchor.Attr("id", "")),
        previewUrl := img.Attr("src", ""),
        tags := if alt != [] then Words(alt) else [],
        score := ExtractScore(title),
        rating := ExtractRating(title),
        detailUrl := DetailUrl(anchor.Attr("href", ""), baseUrl),
        isVideo := Contains(img.Attr("class", ""), "webm-thumb")))
  }

  /** What a parsed thumbnail promises: the id from the link's `id`, score and rating from the image
      title, the detail URL from the link's `href`, a video flag that is set exactly when the image class
      mentions `webm-thumb`, and tags that are the whitespace-separated words of `alt`. */
  lemma ParsedThumbFields(thumb: Thumb, baseUrl: string)
    requires thumb.anchor.Some? && thumb.img.Some?
    ensures var post := ParseThumb(thumb, baseUrl).value;
            var img, anchor := thumb.img.value, thumb.anchor.value;
            && post.id == PostId(anchor.Attr("id", "")) && post.id >= 0
            && post.score == ExtractScore(img.Attr("title", "")) && post.score >= 0
            && post.rating == ExtractRating(img.Attr("title", ""))
            && post.detailUrl == DetailUrl(anchor.Attr("href", ""), baseUrl)
            && post.isVideo == Contains(img.Attr("class", ""), "webm-thumb")
            && post.previewUrl == img.Attr("src", "")
            && (forall k :: 0 <= k < |post.tags| ==> IsWord(post.tags[k]))
            && Concat(post.tags) == RemoveSpaces(img.Attr("alt", ""))
  {
    var alt := thumb.img.value.Attr("alt", "");
    WordsConcat(alt);
    if alt == [] {
      assert RemoveSpaces(alt) == [];
    }
  }

  /** `ParseThumb` with the base URL fixed, as the element function of a filtered list. */
  function ThumbParser(baseUrl: string): Thumb -> Option<Post>
  {
    t => ParseThumb(t, baseUrl)
  }

  /** The posts of the complete thumbnails, in document order. */
  function Posts(thumbs: seq<Thumb>, baseUrl: string): (posts: seq<Post>)
    ensures |posts| <= |thumbs|
  {
    FilterMap(ThumbParser(baseUrl), thumbs)
  }

  // ---------------------------------------------------------------- the listing page

  /** `parse_html`: one post per complete `span.thumb`, appended in document order. */
  method ParseHtml(doc: Document, baseUrl: string := DefaultBaseUrl) returns (posts: seq<Post>)
    ensures posts == Posts(doc.thumbs, baseUrl)
  {
    var f := ThumbParser(baseUrl);
    posts := [];
    var i := 0;
    while i < |doc.thumbs|
      invariant 0 <= i <= |doc.thumbs|
      invariant posts == FilterMap(f, doc.thumbs[..i])
    {
      var post := ParseThumb(doc.thumbs[i], baseUrl);
      assert f(doc.thumbs[i]) == post;
      FilterMapStep(f, doc.thumbs, i);
      if post.Some? {
        posts := posts + [post.value];
      }
      i := i + 1;
    }
    assert doc.thumbs[..i] == doc.thumbs;
  }

  /** A thumbnail missing its link or image can be removed without changing the result. */
  lemma PostsSkipIncomplete(a: seq<Thumb>, t: Thumb, b: seq<Thumb>, baseUrl: string)
    requires t.anchor.None? || t.img.None?
    ensures Posts(a + [t] + b, baseUrl) == Posts(a + b, baseUrl)
  {
    var f := ThumbParser(baseUrl);
    assert f(t).None?;
    FilterMapSkip(f, a, t, b);
  }

  /** Posts of two consecutive runs of thumbnails come out one run after the other. */
  lemma PostsInDocumentOrder(a: seq<Thumb>, b: seq<Thumb>, baseUrl: string)
    ensures Posts(a + b, baseUrl) == Posts(a, baseUrl) + Posts(b, baseUrl)
  {
    FilterMapAppend(ThumbParser(baseUrl), a, b);
  }
}
