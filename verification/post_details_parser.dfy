/** PostDetailsParser: a post's own page to a `PostDetails` record. */
module PostDetailsParser {
  import opened Wrappers
  import opened Text
  import opened Scan
  import opened Models
  import opened Dom
  import SidebarParser
  import CommentParser

  // ---- image size: `image\s*=\s*(\{[^}]+\})`, then `['"]?width['"]?\s*:\s*(\d+)` inside it ----

  predicate NotCloseBrace(c: char) { c != '}' }

  /** The `{...}` group of an `image = {...}` match at `p`: from `{` to the first `}`, with at least
      one character between them. */
  function ImageObjectAt(s: string, p: nat): (r: Option<string>)
    ensures r.Some? ==> && |r.value| >= 3 && r.value[0] == '{' && r.value[|r.value| - 1] == '}'
                        && (forall k :: 1 <= k < |r.value| - 1 ==> r.value[k] != '}')
                        && StartsAt(s, p, "image")
  {
    if !StartsAt(s, p, "image") then None
    else
      var j := SkipSpaces(s, p + 5);
      if j < |s| && s[j] == '=' then
        var k := SkipSpaces(s, j + 1);
        if k + 1 < |s| && s[k] == '{' && s[k + 1] != '}' then
          var e := k + 1 + RunLength(s, k + 1, NotCloseBrace);
          if e < |s| then Some(s[k..e + 1]) else None
        else None
      else None
  }

  predicate IsQuote(c: char) { c == '\'' || c == '"' }

  /** The digits of a `['"]?key['"]?\s*:\s*(\d+)` match at `p`. A quote is only consumed where one is
      present; the digits are the whole run. */
  function KeyNumberAt(s: string, p: nat, key: string): (r: Option<string>)
    ensures r.Some? ==> r.value != [] && AllDigits(r.value)
    ensures r.Some? ==> StartsAt(s, p, key) || (p < |s| && IsQuote(s[p]) && StartsAt(s, p + 1, key))
  {
    var w :=
      if p < |s| && IsQuote(s[p]) && StartsAt(s, p + 1, key) then Some(p + 1 + |key|)
      else if StartsAt(s, p, key) then Some(p + |key|)
      else None;
    if w.None? then None
    else
      var afterKey := if w.value < |s| && IsQuote(s[w.value]) then w.value + 1 else w.value;
      var j := SkipSpaces(s, afterKey);
      if j < |s| && s[j] == ':' then RunAt(s, SkipSpaces(s, j + 1), IsDigit) else None
  }

  predicate FirstKeyNumberAt(s: string, p: nat, key: string)
  {
    p <= |s| && KeyNumberAt(s, p, key).Some? && forall q :: 0 <= q < p ==> KeyNumberAt(s, q, key).None?
  }

  /** The number after the leftmost `key:` in `obj`, or 0 when there is none. */
  function KeyNumber(obj: string, key: string): (n: nat)
    ensures (forall p: nat :: p <= |obj| ==> KeyNumberAt(obj, p, key).None?) ==> n == 0
    ensures forall p :: FirstKeyNumberAt(obj, p, key) ==> n == DecimalValue(KeyNumberAt(obj, p, key).value)
  {
    var at := (p: nat) => KeyNumberAt(obj, p, key);
    var m := Search(obj, at);
    assert forall p | FirstKeyNumberAt(obj, p, key) :: m == KeyNumberAt(obj, p, key) by {
      forall p | FirstKeyNumberAt(obj, p, key) ensures m == KeyNumberAt(obj, p, key) {
        SearchFindsFirst(obj, at, p);
      }
    }
    if m.None? then
      assert forall p: nat | p <= |obj| :: KeyNumberAt(obj, p, key).None? by {
        forall p: nat | p <= |obj| ensures KeyNumberAt(obj, p, key).None? {
          SearchFindsNothing(obj, at, p);
        }
      }
      0
    else DecimalValue(m.value)
  }

  /** At a quoted key followed by `: `, the pattern matches with the digit run after the blank. */
  lemma KeyNumberAtQuotedKey(s: string, p: nat, key: string)
    requires p + |key| + 4 <= |s|
    requires s[p] == '\'' && StartsAt(s, p + 1, key)
    requires s[p + 1 + |key|] == '\'' && s[p + 2 + |key|] == ':' && s[p + 3 + |key|] == ' '
    requires p + |key| + 4 < |s| && IsDigit(s[p + |key| + 4])
    ensures KeyNumberAt(s, p, key) == RunAt(s, p + |key| + 4, IsDigit)
  {
    var w := p + 1 + |key|;
    assert IsQuote(s[p]) && IsQuote(s[w]);
    assert !IsSpace(s[w + 1]) && IsSpace(s[w + 2]) && !IsSpace(s[w + 3]);
    var j := SkipSpaces(s, w + 1);
    assert j == w + 1;
    var d := SkipSpaces(s, w + 2);
    assert d == w + 3;
  }

  /** `s[p..]` is `'key': ` followed by the digits of `n`, and no further digit. */
  predicate QuotedKeyNumber(s: string, p: nat, key: string, n: nat)
  {
    var w := p + 1 + |key|;
    && w + 3 <= |s| && s[p] == '\'' && StartsAt(s, p + 1, key)
    && s[w] == '\'' && s[w + 1] == ':' && s[w + 2] == ' '
    && StartsAt(s, w + 3, NatToString(n))
    && (w + 3 + |NatToString(n)| == |s| || !IsDigit(s[w + 3 + |NatToString(n)|]))
  }

  /** At `'key': n` the pattern matches with the digits of `n`. */
  lemma KeyNumberAtOf(s: string, p: nat, key: string, n: nat)
    requires QuotedKeyNumber(s, p, key, n)
    ensures KeyNumberAt(s, p, key) == Some(NatToString(n))
  {
    var digits := NatToString(n);
    var w := p + 1 + |key|;
    assert s[w + 3] == digits[0];
    RunAtOf(s, w + 3, digits, IsDigit);
    KeyNumberAtQuotedKey(s, p, key);
  }

  /** No match starts before a quote when no earlier character is the key's first one. */
  lemma KeyNumberAbsentBefore(s: string, p: nat, key: string)
    requires p < |s| && IsQuote(s[p])
    requires key != [] && !IsQuote(key[0]) && forall q :: 0 <= q < p ==> s[q] != key[0]
    ensures forall q :: 0 <= q < p ==> KeyNumberAt(s, q, key).None?
  {
    forall q | 0 <= q < p ensures KeyNumberAt(s, q, key).None? {
      assert s[q + 1] != key[0];
    }
  }

  /** A quoted key followed by `: ` and a number is read as that number, provided nothing before it
      could start a match. */
  lemma KeyNumberOf(s: string, p: nat, key: string, n: nat)
    requires QuotedKeyNumber(s, p, key, n)
    requires key != [] && !IsQuote(key[0]) && forall q :: 0 <= q < p ==> s[q] != key[0]
    ensures KeyNumber(s, key) == n
  {
    KeyNumberAtOf(s, p, key, n);
    KeyNumberAbsentBefore(s, p, key);
    assert FirstKeyNumberAt(s, p, key);
  }

  predicate FirstImageObjectAt(s: string, p: nat)
  {
    p <= |s| && ImageObjectAt(s, p).Some? && forall q :: 0 <= q < p ==> ImageObjectAt(s, q).None?
  }

  /** The first `image = {...}` object of the page, if any. */
  function ImageObject(html: string): (r: Option<string>)
    ensures r.None? <==> forall p: nat :: p <= |html| ==> ImageObjectAt(html, p).None?
    ensures forall p :: FirstImageObjectAt(html, p) ==> r == ImageObjectAt(html, p)
  {
    var at := (p: nat) => ImageObjectAt(html, p);
    var m := Search(html, at);
    assert forall p | FirstImageObjectAt(html, p) :: m == ImageObjectAt(html, p) by {
      forall p | FirstImageObjectAt(html, p) ensures m == ImageObjectAt(html, p) {
        SearchFindsFirst(html, at, p);
      }
    }
    assert m.None? ==> forall p: nat :: p <= |html| ==> ImageObjectAt(html, p).None? by {
      if m.None? {
        forall p: nat | p <= |html| ensures ImageObjectAt(html, p).None? {
          SearchFindsNothing(html, at, p);
        }
      }
    }
    m
  }

  /** `_parse_image_js`: width and height from the first `image = {...}` object, each 0 when its key is
      missing there; `(0, 0)` without such an object. Keys outside the object are not looked at. */
  function ImageSize(html: string): (size: (nat, nat))
    ensures ImageObject(html).None? ==> size == (0, 0)
    ensures ImageObject(html).Some? ==>
              size == (KeyNumber(ImageObject(html).value, "width"), KeyNumber(ImageObject(html).value, "height"))
  {
    match ImageObject(html)
    case None => (0, 0)
    case Some(obj) => (KeyNumber(obj, "width"), KeyNumber(obj, "height"))
  }

  // ---- the `#stats` list ----

  /** The digits of an `Id:\s*(\d+)` match at `p`. */
  function IdAt(s: string, p: nat): (r: Option<string>)
    ensures r.Some? ==> StartsAt(s, p, "Id:") && r.value != [] && AllDigits(r.value)
  {
    if StartsAt(s, p, "Id:") then RunAt(s, SkipSpaces(s, p + 3), IsDigit) else None
  }

  predicate FirstIdAt(s: string, p: nat)
  {
    p <= |s| && IdAt(s, p).Some? && forall q :: 0 <= q < p ==> IdAt(s, q).None?
  }

  /** The id of an `Id:` item: the number after the leftmost `Id:`, or 0. */
  function IdValue(text: string): (id: nat)
    ensures (forall p: nat :: p <= |text| ==> IdAt(text, p).None?) ==> id == 0
    ensures forall p :: FirstIdAt(text, p) ==> id == DecimalValue(IdAt(text, p).value)
  {
    var at := (p: nat) => IdAt(text, p);
    var m := Search(text, at);
    assert forall p | FirstIdAt(text, p) :: m == IdAt(text, p) by {
      forall p | FirstIdAt(text, p) ensures m == IdAt(text, p) { SearchFindsFirst(text, at, p); }
    }
    if m.None? then
      assert forall p: nat | p <= |text| :: IdAt(text, p).None? by {
        forall p: nat | p <= |text| ensures IdAt(text, p).None? { SearchFindsNothing(text, at, p); }
      }
      0
    else DecimalValue(m.value)
  }

  predicate NotNewline(c: char) { c != '\n' }

  /** `e` can end the lazy group: the whitespace run from `e` is followed by `by`. */
  predicate ByAfter(s: string, e: nat)
    requires e <= |s|
  {
    StartsAt(s, e + RunLength(s, e, IsSpace), "by")
  }

  /** The first end of the lazy group in `[from, limit]`, the shortest group being tried first. */
  function LazyEnd(s: string, from: nat, limit: nat): (r: Option<nat>)
    requires limit <= |s|
    ensures r.None? ==> forall q :: from <= q <= limit ==> !ByAfter(s, q)
    ensures r.Some? ==> && from <= r.value <= limit && ByAfter(s, r.value)
                        && forall q :: from <= q < r.value ==> !ByAfter(s, q)
    decreases if from <= limit then limit - from + 1 else 0
  {
    if from > limit then None
    else if ByAfter(s, from) then Some(from)
    else LazyEnd(s, from + 1, limit)
  }

  /** The first end the lazy group can take never follows a blank: one step earlier would do too. */
  lemma LazyEndAfterNonBlank(s: string, j: nat, e: nat)
    requires j < e <= |s| && ByAfter(s, e)
    requires forall q :: j <= q < e ==> !ByAfter(s, q)
    ensures !IsSpace(s[e - 1])
  {
    assert !ByAfter(s, e - 1);
  }

  /** The lazy group from a non-blank `j` to its first end within the line holds no newline and
      neither starts nor ends with whitespace. */
  lemma LazyGroupShape(s: string, j: nat, e: nat)
    requires j <= |s| && j <= e <= j + RunLength(s, j, NotNewline)
    requires j == |s| || !IsSpace(s[j])
    requires ByAfter(s, e) && forall q :: j <= q < e ==> !ByAfter(s, q)
    ensures forall k :: 0 <= k < e - j ==> s[j..e][k] != '\n'
    ensures s[j..e] == [] || (!IsSpace(s[j..e][0]) && !IsSpace(s[j..e][e - j - 1]))
  {
    if j < e {
      LazyEndAfterNonBlank(s, j, e);
    }
  }

  /** The group of a `Posted:\s*(.*?)\s*by` match at `p`. The leading `\s*` takes every blank (giving
      any back cannot help), and the lazy group, which cannot cross a newline, ends at the first
      position from which blanks and then `by` follow. The group therefore never starts or ends with
      whitespace. */
  function PostedAt(s: string, p: nat): (r: Option<string>)
    ensures r.Some? ==> StartsAt(s, p, "Posted:") && forall k :: 0 <= k < |r.value| ==> r.value[k] != '\n'
    ensures r.Some? ==> r.value == [] || (!IsSpace(r.value[0]) && !IsSpace(r.value[|r.value| - 1]))
  {
    if !StartsAt(s, p, "Posted:") then None
    else
      var j := SkipSpaces(s, p + 7);
      var limit := j + RunLength(s, j, NotNewline);
      match LazyEnd(s, j, limit)
      case None => None
      case Some(e) =>
        LazyGroupShape(s, j, e);
        Some(s[j..e])
  }

  /** The `strip()` applied to the group changes nothing. */
  lemma PostedGroupTrimmed(s: string, p: nat)
    requires PostedAt(s, p).Some?
    ensures Strip(PostedAt(s, p).value) == PostedAt(s, p).value
  {
    StripUnchanged(PostedAt(s, p).value);
  }

  predicate FirstPostedAt(s: string, p: nat)
  {
    p <= |s| && PostedAt(s, p).Some? && forall q :: 0 <= q < p ==> PostedAt(s, q).None?
  }

  /** The `posted_at` of a `Posted:` item: the stripped group of the leftmost match, or `""`. */
  function PostedValue(text: string): (posted: string)
    ensures (forall p: nat :: p <= |text| ==> PostedAt(text, p).None?) ==> posted == ""
    ensures forall p :: FirstPostedAt(text, p) ==> posted == PostedAt(text, p).value
  {
    var at := (p: nat) => PostedAt(text, p);
    var m := Search(text, at);
    assert forall p | FirstPostedAt(text, p) :: m == PostedAt(text, p) by {
      forall p | FirstPostedAt(text, p) ensures m == PostedAt(text, p) { SearchFindsFirst(text, at, p); }
    }
    assert forall p | FirstPostedAt(text, p) :: Strip(PostedAt(text, p).value) == PostedAt(text, p).value by {
      forall p | FirstPostedAt(text, p) ensures Strip(PostedAt(text, p).value) == PostedAt(text, p).value {
        PostedGroupTrimmed(text, p);
      }
    }
    if m.None? then
      assert forall p: nat | p <= |text| :: PostedAt(text, p).None? by {
        forall p: nat | p <= |text| ensures PostedAt(text, p).None? { SearchFindsNothing(text, at, p); }
      }
      ""
    else Strip(m.value)
  }

  /** Which branch of the `if`/`elif` chain a stats item takes; the markers are tried in this order. */
  datatype StatKind = IdStat | RatingStat | ScoreStat | PostedStat | SourceStat | OtherStat

  function KindOf(text: string): (k: StatKind)
    ensures k == IdStat <==> Contains(text, "Id:")
    ensures k == RatingStat <==> !Contains(text, "Id:") && Contains(text, "Rating:")
    ensures k == ScoreStat <==> !Contains(text, "Id:") && !Contains(text, "Rating:") && Contains(text, "Score:")
    ensures k == PostedStat <==> !Contains(text, "Id:") && !Contains(text, "Rating:") && !Contains(text, "Score:")
                                 && Contains(text, "Posted:")
    ensures k == SourceStat <==> !Contains(text, "Id:") && !Contains(text, "Rating:") && !Contains(text, "Score:")
                                 && !Contains(text, "Posted:") && Contains(text, "Source:")
    ensures k == OtherStat <==> !Contains(text, "Id:") && !Contains(text, "Rating:") && !Contains(text, "Score:")
                                && !Contains(text, "Posted:") && !Contains(text, "Source:")
  {
    if Contains(text, "Id:") then IdStat
    else if Contains(text, "Rating:") then RatingStat
    else if Contains(text, "Score:") then ScoreStat
    else if Contains(text, "Posted:") then PostedStat
    else if Contains(text, "Source:") then SourceStat
    else OtherStat
  }

  /** The fields the stats loop fills in. */
  datatype Stats = Stats(id: int, rating: string, score: int, uploader: string, postedAt: string,
                         sourceUrl: Option<string>)

  /** The values before the loop: what a page without `#stats` ends up with. */
  const DefaultStats: Stats := Stats(0, "unknown", 0, "", "", None)

  /** The rating of a `Rating:` item: every `Rating:` removed, stripped and lower-cased. */
  function RatingValue(text: string): (rating: string)
    ensures |rating| <= |text|
    ensures !Contains(text, "Rating:") ==> rating == Lower(Strip(text))
  {
    Lower(Strip(ReplaceAll(text, "Rating:", "")))
  }

  /** An item reading `pre Rating: post`, with no other `Rating:` in it, is rated by the text around
      the marker: `Rating: Explicit` gives `explicit`. */
  lemma RatingOfItem(pre: string, post: string)
    requires forall i :: 0 <= i < |pre| ==> !StartsAt(pre + "Rating:", i, "Rating:")
    requires !Contains(post, "Rating:")
    ensures RatingValue(pre + "Rating:" + post) == Lower(Strip(pre + post))
  {
    RemoveOnlyOccurrence(pre, "Rating:", post);
  }

  /** One iteration of the stats loop: only the field(s) of the item's kind can change. */
  function ApplyStat(st: Stats, li: StatsItem): (r: Stats)
    ensures KindOf(li.text) == OtherStat ==> r == st
    ensures KindOf(li.text) == IdStat ==> r == st.(id := IdValue(li.text))
    ensures KindOf(li.text) == RatingStat ==> r == st.(rating := RatingValue(li.text))
    ensures KindOf(li.text) == ScoreStat && li.span.Some? ==>
              r == st.(score := ParseInt(li.span.value.text).GetOr(0))
    ensures KindOf(li.text) == PostedStat && li.anchor.Some? ==>
              r == st.(postedAt := PostedValue(li.text), uploader := li.anchor.value.text)
    ensures KindOf(li.text) == PostedStat && li.anchor.None? ==> r == st.(postedAt := PostedValue(li.text))
    ensures KindOf(li.text) == SourceStat && li.anchor.Some? ==> r == st.(sourceUrl := li.anchor.value.AttrOpt("href"))
    ensures (KindOf(li.text) == ScoreStat && li.span.None?) || (KindOf(li.text) == SourceStat && li.anchor.None?) ==>
              r == st
    ensures r.id != st.id ==> KindOf(li.text) == IdStat
    ensures r.rating != st.rating ==> KindOf(li.text) == RatingStat
    ensures r.score != st.score ==> KindOf(li.text) == ScoreStat && li.span.Some?
    ensures r.uploader != st.uploader ==> KindOf(li.text) == PostedStat && li.anchor.Some?
    ensures r.postedAt != st.postedAt ==> KindOf(li.text) == PostedStat
    ensures r.sourceUrl != st.sourceUrl ==> KindOf(li.text) == SourceStat && li.anchor.Some?
  {
    match KindOf(li.text)
    case IdStat => st.(id := IdValue(li.text))
    case RatingStat => st.(rating := RatingValue(li.text))
    case ScoreStat =>
      if li.span.Some? then st.(score := ParseInt(li.span.value.text).GetOr(0)) else st
    case PostedStat =>
      var st' := st.(postedAt := PostedValue(li.text));
      if li.anchor.Some? then st'.(uploader := li.anchor.value.text) else st'
    case SourceStat =>
      if li.anchor.Some? then st.(sourceUrl := li.anchor.value.AttrOpt("href")) else st
    case OtherStat => st
  }

  /** The stats loop as a left fold over the items, in document order. */
  function StatsOf(items: seq<StatsItem>): (st: Stats)
    ensures items == [] ==> st == DefaultStats
  {
    if items == [] then DefaultStats else ApplyStat(StatsOf(items[..|items| - 1]), items[|items| - 1])
  }

  /** The id comes from the last `Id:` item; later items of other kinds leave it alone. */
  lemma {:induction false} IdFromLastIdItem(items: seq<StatsItem>, i: nat)
    requires i < |items| && KindOf(items[i].text) == IdStat
    requires forall k :: i < k < |items| ==> KindOf(items[k].text) != IdStat
    ensures StatsOf(items).id == IdValue(items[i].text)
    decreases |items|
  {
    if i < |items| - 1 {
      var front := items[..|items| - 1];
      assert forall k :: i < k < |front| ==> front[k] == items[k];
      assert StatsOf(items) == ApplyStat(StatsOf(front), items[|items| - 1]);
      IdFromLastIdItem(front, i);
    }
  }

  /** Without any `Id:` item the id stays 0. */
  lemma {:induction false} IdWithoutIdItem(items: seq<StatsItem>)
    requires forall k :: 0 <= k < |items| ==> KindOf(items[k].text) != IdStat
    ensures StatsOf(items).id == 0
    decreases |items|
  {
    if items != [] {
      var front := items[..|items| - 1];
      assert forall k :: 0 <= k < |front| ==> front[k] == items[k];
      assert StatsOf(items) == ApplyStat(StatsOf(front), items[|items| - 1]);
      IdWithoutIdItem(front);
    }
  }

  /** The rating comes from the last `Rating:` item (one that mentions no `Id:`). */
  lemma {:induction false} RatingFromLastRatingItem(items: seq<StatsItem>, i: nat)
    requires i < |items| && KindOf(items[i].text) == RatingStat
    requires forall k :: i < k < |items| ==> KindOf(items[k].text) != RatingStat
    ensures StatsOf(items).rating == RatingValue(items[i].text)
    decreases |items|
  {
    if i < |items| - 1 {
      var front := items[..|items| - 1];
      assert forall k :: i < k < |front| ==> front[k] == items[k];
      assert StatsOf(items) == ApplyStat(StatsOf(front), items[|items| - 1]);
      RatingFromLastRatingItem(front, i);
    }
  }

  /** The score comes from the last `Score:` item that has a `span`. */
  lemma {:induction false} ScoreFromLastScoreItem(items: seq<StatsItem>, i: nat)
    requires i < |items| && KindOf(items[i].text) == ScoreStat && items[i].span.Some?
    requires forall k :: i < k < |items| ==> KindOf(items[k].text) != ScoreStat || items[k].span.None?
    ensures StatsOf(items).score == ParseInt(items[i].span.value.text).GetOr(0)
    decreases |items|
  {
    if i < |items| - 1 {
      var front := items[..|items| - 1];
      assert forall k :: i < k < |front| ==> front[k] == items[k];
      assert StatsOf(items) == ApplyStat(StatsOf(front), items[|items| - 1]);
      ScoreFromLastScoreItem(front, i);
    }
  }

  /** The posting time comes from the last `Posted:` item, whether or not it links an uploader. */
  lemma {:induction false} PostedFromLastPostedItem(items: seq<StatsItem>, i: nat)
    requires i < |items| && KindOf(items[i].text) == PostedStat
    requires forall k :: i < k < |items| ==> KindOf(items[k].text) != PostedStat
    ensures StatsOf(items).postedAt == PostedValue(items[i].text)
    decreases |items|
  {
    if i < |items| - 1 {
      var front := items[..|items| - 1];
      assert forall k :: i < k < |front| ==> front[k] == items[k];
      assert StatsOf(items) == ApplyStat(StatsOf(front), items[|items| - 1]);
      PostedFromLastPostedItem(front, i);
    }
  }

  /** Items that mention none of the five markers change nothing. */
  lemma {:induction false} OtherItemsIgnored(items: seq<StatsItem>, other: StatsItem)
    requires KindOf(other.text) == OtherStat
    ensures StatsOf(items + [other]) == StatsOf(items)
  {
    assert (items + [other])[..|items|] == items;
  }

  // ---- the page ----

  /** `img#image`'s `src`, or `""`: the sample URL, and the image URL unless that is empty. */
  function SampleUrl(doc: Document): (url: string)
    ensures doc.mainImage.None? ==> url == ""
    ensures doc.mainImage.Some? && "src" in doc.mainImage.value.attrs ==> url == doc.mainImage.value.attrs["src"]
    ensures doc.mainImage.Some? && "src" !in doc.mainImage.value.attrs ==> url == ""
  {
    if doc.mainImage.Some? then doc.mainImage.value.Attr("src", "") else ""
  }

  /** The image URL: the sample URL, or, when that is empty, the `href` of the first link to `images`. */
  function ImageUrl(doc: Document): (url: string)
    ensures SampleUrl(doc) != "" ==> url == SampleUrl(doc)
    ensures SampleUrl(doc) == "" && doc.originalLink.None? ==> url == ""
    ensures SampleUrl(doc) == "" && doc.originalLink.Some? ==> url == doc.originalLink.value.Attr("href", "")
  {
    var sample := SampleUrl(doc);
    if sample == "" && doc.originalLink.Some? then doc.originalLink.value.Attr("href", "") else sample
  }

  /** The stats items of the page; none without `#stats`. */
  function StatsItems(doc: Document): seq<StatsItem>
  {
    if doc.stats.Some? then doc.stats.value else []
  }

  /** `parse_html` as a value. */
  function DetailsOf(doc: Document): (d: PostDetails)
    ensures (d.width, d.height) == ImageSize(doc.html)
    ensures d.sampleUrl == SampleUrl(doc) && d.imageUrl == ImageUrl(doc)
    ensures var st := StatsOf(StatsItems(doc));
            && d.id == st.id && d.rating == st.rating && d.score == st.score
            && d.uploader == st.uploader && d.postedAt == st.postedAt && d.sourceUrl == st.sourceUrl
    ensures doc.stats.None? ==> && d.id == 0 && d.rating == "unknown" && d.score == 0
                                && d.uploader == "" && d.postedAt == "" && d.sourceUrl == None
    ensures d.tags == SidebarParser.SidebarTags(doc.tagSidebar)
    ensures d.comments == CommentParser.Comments(doc.commentList)
  {
    var size := ImageSize(doc.html);
    var st := StatsOf(StatsItems(doc));
    PostDetails(
      id := st.id, imageUrl := ImageUrl(doc), sampleUrl := SampleUrl(doc),
      width := size.0, height := size.1, rating := st.rating, score := st.score,
      uploader := st.uploader, postedAt := st.postedAt, sourceUrl := st.sourceUrl,
      tags := SidebarParser.SidebarTags(doc.tagSidebar), comments := CommentParser.Comments(doc.commentList))
  }

  /** The stats loop of `parse_html`: each item updates the fields its kind names. */
  method ParseStats(items: seq<StatsItem>) returns (st: Stats)
    ensures st == StatsOf(items)
  {
    st := DefaultStats;
    var i := 0;
    while i < |items|
      invariant 0 <= i <= |items|
      invariant st == StatsOf(items[..i])
    {
      assert items[..i + 1][..i] == items[..i];
      st := ApplyStat(st, items[i]);
      i := i + 1;
    }
    assert items[..i] == items;
  }

  /** `parse_html`: the declared `Optional` result is never `None`. */
  method ParseHtml(doc: Document) returns (details: Option<PostDetails>)
    ensures details == Some(DetailsOf(doc))
  {
    var size := ImageSize(doc.html);
    var imageUrl := if doc.mainImage.Some? then doc.mainImage.value.Attr("src", "") else "";
    var sampleUrl := imageUrl;
    if imageUrl == "" && doc.originalLink.Some? {
      imageUrl := doc.originalLink.value.Attr("href", "");
    }
    var st := DefaultStats;
    if doc.stats.Some? {
      st := ParseStats(doc.stats.value);
    }
    var tags := SidebarParser.ParseHtml(doc);
    var comments := CommentParser.ParseHtml(doc);
    details := Some(PostDetails(
      id := st.id, imageUrl := imageUrl, sampleUrl := sampleUrl,
      width := size.0, height := size.1, rating := st.rating, score := st.score,
      uploader := st.uploader, postedAt := st.postedAt, sourceUrl := st.sourceUrl,
      tags := tags, comments := comments));
  }
}
