/** CommentParser: the `div`s of `#comment-list` to `PostComment` records. */
module CommentParser {
  import opened Wrappers
  import opened Text
  import opened Scan
  import opened Seqs
  import opened Models
  import opened Dom

  // ---- comment ids: `^c(\d+)$` ----

  /** The digits of an id matched by `^c(\d+)$`. As in Python, `$` also matches just before a final
      newline, so `"c12\n"` matches with the digits `"12"`. */
  function CommentIdDigits(rawId: string): (r: Option<string>)
    ensures r.Some? ==> && |rawId| >= 2 && rawId[0] == 'c' && r.value != [] && AllDigits(r.value)
                        && (rawId == "c" + r.value || rawId == "c" + r.value + "\n")
    ensures (|rawId| >= 2 && rawId[0] == 'c' && AllDigits(rawId[1..])) ==> r == Some(rawId[1..])
  {
    if |rawId| < 2 || rawId[0] != 'c' then None
    else
      var body := rawId[1..];
      var digits := if body[|body| - 1] == '\n' then body[..|body| - 1] else body;
      assert rawId == "c" + body;
      if digits != [] && AllDigits(digits) then Some(digits) else None
  }

  /** The comment id named by `c<n>` is `n`; a trailing newline is accepted. */
  lemma CommentIdOfNumber(n: nat)
    ensures CommentIdDigits("c" + NatToString(n)) == Some(NatToString(n))
    ensures CommentIdDigits("c" + NatToString(n) + "\n") == Some(NatToString(n))
  {
    var d := NatToString(n);
    assert ("c" + d)[1..] == d;
    var s := "c" + d + "\n";
    assert s[1..] == d + "\n";
    assert s[1..][..|s[1..]| - 1] == d;
  }

  /** Ids that do not start with `c`, or have no digits after it, do not match. */
  lemma CommentIdRejects()
    ensures CommentIdDigits("") == None
    ensures CommentIdDigits("c") == None
    ensures CommentIdDigits("c\n") == None
    ensures CommentIdDigits("x12") == None
    ensures CommentIdDigits("c12a") == None
  {
    assert !AllDigits("12a") by { assert !IsDigit("12a"[2]); }
  }

  // ---- timestamps: `Posted on (\d{4}-\d{2}-\d{2} \d{2}:\d{2}:\d{2})` ----

  const PostedOn: string := "Posted on "

  /** `t` has the shape `dddd-dd-dd dd:dd:dd`. */
  predicate TimestampShape(t: string)
  {
    && |t| == 19
    && (forall k :: 0 <= k < 19 && k !in {4, 7, 10, 13, 16} ==> IsDigit(t[k]))
    && t[4] == '-' && t[7] == '-' && t[10] == ' ' && t[13] == ':' && t[16] == ':'
  }

  /** The timestamp group of a match starting at `p`, if the pattern matches there. */
  function TimestampAt(s: string, p: nat): (r: Option<string>)
    ensures r.Some? ==> StartsAt(s, p, PostedOn + r.value) && TimestampShape(r.value)
  {
    if StartsAt(s, p, PostedOn) && p + 29 <= |s| && TimestampShape(s[p + 10..p + 29]) then
      assert s[p..p + 29] == s[p..p + 10] + s[p + 10..p + 29];
      Some(s[p + 10..p + 29])
    else None
  }

  predicate FirstTimestampAt(s: string, p: nat)
  {
    p <= |s| && TimestampAt(s, p).Some? && forall q :: 0 <= q < p ==> TimestampAt(s, q).None?
  }

  /** The timestamp of the leftmost match in the header text, or `""` when there is none. */
  function Timestamp(text: string): (ts: string)
    ensures (forall p: nat :: p <= |text| ==> TimestampAt(text, p).None?) ==> ts == ""
    ensures forall p :: FirstTimestampAt(text, p) ==> ts == TimestampAt(text, p).value
    ensures ts == "" || (TimestampShape(ts) && Contains(text, PostedOn + ts))
  {
    var at := (p: nat) => TimestampAt(text, p);
    var m := Search(text, at);
    assert forall p | FirstTimestampAt(text, p) :: m == TimestampAt(text, p) by {
      forall p | FirstTimestampAt(text, p) ensures m == TimestampAt(text, p) {
        SearchFindsFirst(text, at, p);
      }
    }
    if m.None? then
      assert forall p: nat | p <= |text| :: TimestampAt(text, p).None? by {
        forall p: nat | p <= |text| ensures TimestampAt(text, p).None? {
          SearchFindsNothing(text, at, p);
        }
      }
      ""
    else
      var p: nat :| p <= |text| && at(p) == m;
      assert StartsAt(text, p, PostedOn + m.value);
      m.value
  }

  // ---- comment bodies: `<br\s*/?>` to a newline, then `<[^>]+>` removed, then strip ----

  // The length of a `<br\s*/?>` match at the start of `t` (case-sensitive, as the pattern is).
  function BreakLen(t: string): (n: Option<nat>)
    ensures n.Some? ==> 4 <= n.value <= |t| && StartsWith(t, "<br") && t[n.value - 1] == '>'
  {
    if !StartsWith(t, "<br") then None
    else
      var j := SkipSpaces(t, 3);
      if j < |t| && t[j] == '>' then Some(j + 1)
      else if j + 1 < |t| && t[j] == '/' && t[j + 1] == '>' then Some(j + 2)
      else None
  }

  /** No break starts in `t` before position `n`. */
  predicate BreakFreeBefore(t: string, n: nat)
  {
    forall i :: 0 <= i < n && i <= |t| ==> BreakLen(t[i..]).None?
  }

  // `re.sub(r"<br\s*/?>", "\n", t)`: matches taken left to right, without overlap.
  function ReplaceBreaks(t: string): (r: string)
    ensures '<' !in t ==> r == t
    decreases |t|
  {
    if t == [] then []
    else match BreakLen(t)
      case Some(n) => "\n" + ReplaceBreaks(t[n..])
      case None => [t[0]] + ReplaceBreaks(t[1..])
  }

  /** Text in which no break starts is left as it is, whatever other markup it holds. */
  lemma {:induction false} ReplaceBreaksOfBreakFree(t: string)
    requires BreakFreeBefore(t, |t|)
    ensures ReplaceBreaks(t) == t
    decreases |t|
  {
    if t != [] {
      assert t[0..] == t;
      forall i | 0 <= i < |t| - 1 ensures BreakLen(t[1..][i..]).None? {
        assert t[1..][i..] == t[i + 1..];
      }
      ReplaceBreaksOfBreakFree(t[1..]);
      assert [t[0]] + t[1..] == t;
    }
  }

  /** Text up to the first break is copied, whatever markup it holds; the break becomes a newline. */
  lemma {:induction false} ReplaceBreaksStep(x: string, y: string)
    requires BreakFreeBefore(x + y, |x|) && BreakLen(y).Some?
    ensures ReplaceBreaks(x + y) == x + "\n" + ReplaceBreaks(y[BreakLen(y).value..])
    decreases |x|
  {
    var rest := ReplaceBreaks(y[BreakLen(y).value..]);
    if x == [] {
      ReplaceBreaksAtBreak(y);
    } else {
      BreakFreeTail(x, y);
      ReplaceBreaksHead(x, y);
      ReplaceBreaksStep(x[1..], y);
      ConsConcat(x, "\n", rest);
    }
  }

  /** A break at the front becomes a newline; the second form is the one `ReplaceBreaksStep` starts from. */
  lemma ReplaceBreaksAtBreak(y: string)
    requires BreakLen(y).Some?
    ensures ReplaceBreaks(y) == "\n" + ReplaceBreaks(y[BreakLen(y).value..])
    ensures ReplaceBreaks([] + y) == [] + "\n" + ReplaceBreaks(y[BreakLen(y).value..])
  {
    assert [] + y == y;
    assert [] + "\n" == "\n";
  }

  /** No break at the front of `x + y`, and none in the rest of `x`. */
  lemma BreakFreeTail(x: string, y: string)
    requires x != [] && BreakFreeBefore(x + y, |x|)
    ensures BreakLen(x + y).None? && BreakFreeBefore(x[1..] + y, |x| - 1)
  {
    var t := x + y;
    assert t[0..] == t;
    DropFirstOfAppend(x, y);
    forall i | 0 <= i < |x| - 1 && i <= |x[1..] + y| ensures BreakLen((x[1..] + y)[i..]).None? {
      assert (x[1..] + y)[i..] == t[i + 1..];
    }
  }

  /** No break starts at a `<`-free position, so text without `<` is free of breaks. */
  lemma BreakFreeOfNoLt(x: string, y: string)
    requires '<' !in x
    ensures BreakFreeBefore(x + y, |x|)
  {
    forall i | 0 <= i < |x| ensures BreakLen((x + y)[i..]).None? {
      var u := (x + y)[i..];
      assert u[0] == x[i];
      assert |u| >= 3 ==> u[..3][0] == u[0];
    }
  }

  /** Without a break at the front, the first character is copied. */
  lemma ReplaceBreaksHead(x: string, y: string)
    requires x != [] && BreakLen(x + y).None?
    ensures ReplaceBreaks(x + y) == [x[0]] + ReplaceBreaks(x[1..] + y)
  {
    assert (x + y)[0] == x[0];
    DropFirstOfAppend(x, y);
  }

  predicate NotGt(c: char) { c != '>' }

  /** The length of a `<[^>]+>` match at the start of `t`: up to and including the first `>`,
      provided at least one character sits between the brackets. */
  function TagLen(t: string): (n: Option<nat>)
    ensures n.Some? ==> 3 <= n.value <= |t| && t[0] == '<' && t[n.value - 1] == '>'
                        && forall k :: 1 <= k < n.value - 1 ==> t[k] != '>'
    ensures n.None? ==> || t == [] || t[0] != '<'
                        || (|t| >= 2 && t[1] == '>')
                        || (forall k :: 1 <= k < |t| ==> t[k] != '>')
  {
    if t == [] || t[0] != '<' || |t| < 2 || t[1] == '>' then None
    else
      var k := 1 + RunLength(t, 1, NotGt);
      if k < |t| then Some(k + 1) else None
  }

  /** No tag-shaped run starts anywhere in `s`. */
  predicate TagFree(s: string) { forall q :: 0 <= q < |s| ==> TagLen(s[q..]).None? }

  /** `re.sub(r"<[^>]+>", "", t)`: every tag-shaped run removed, left to right. */
  function StripTags(t: string): (r: string)
    ensures |r| <= |t|
    ensures '<' !in t ==> r == t
    ensures '>' !in t ==> '>' !in r
    decreases |t|
  {
    if t == [] then []
    else match TagLen(t)
      case Some(n) => StripTags(t[n..])
      case None => [t[0]] + StripTags(t[1..])
  }

  /** No tag starts in `t` before position `n`. */
  predicate TagFreeBefore(t: string, n: nat)
  {
    forall i :: 0 <= i < n && i <= |t| ==> TagLen(t[i..]).None?
  }

  /** Text in which no tag starts is left as it is, stray `<` and `>` included. */
  lemma {:induction false} StripTagsOfTagFree(t: string)
    requires TagFree(t)
    ensures StripTags(t) == t
    decreases |t|
  {
    if t != [] {
      assert t[0..] == t;
      forall i | 0 <= i < |t| - 1 ensures TagLen(t[1..][i..]).None? {
        assert t[1..][i..] == t[i + 1..];
      }
      StripTagsOfTagFree(t[1..]);
      assert [t[0]] + t[1..] == t;
    }
  }

  /** Text up to the first tag is copied, stray `<` included; the tag is dropped. */
  lemma {:induction false} StripTagsStep(x: string, y: string)
    requires TagFreeBefore(x + y, |x|) && TagLen(y).Some?
    ensures StripTags(x + y) == x + StripTags(y[TagLen(y).value..])
    decreases |x|
  {
    var rest := StripTags(y[TagLen(y).value..]);
    if x == [] {
      StripTagsAtTag(y);
    } else {
      TagFreeTail(x, y);
      StripTagsHead(x, y);
      StripTagsStep(x[1..], y);
      ConsAppend(x, rest);
    }
  }

  /** A tag at the front is dropped; the second form is the one `StripTagsStep` starts from. */
  lemma StripTagsAtTag(y: string)
    requires TagLen(y).Some?
    ensures StripTags(y) == StripTags(y[TagLen(y).value..])
    ensures StripTags([] + y) == [] + StripTags(y[TagLen(y).value..])
  {
    assert [] + y == y;
  }

  /** No tag at the front of `x + y`, and none in the rest of `x`. */
  lemma TagFreeTail(x: string, y: string)
    requires x != [] && TagFreeBefore(x + y, |x|)
    ensures TagLen(x + y).None? && TagFreeBefore(x[1..] + y, |x| - 1)
  {
    var t := x + y;
    assert t[0..] == t;
    DropFirstOfAppend(x, y);
    forall i | 0 <= i < |x| - 1 && i <= |x[1..] + y| ensures TagLen((x[1..] + y)[i..]).None? {
      assert (x[1..] + y)[i..] == t[i + 1..];
    }
  }

  /** No tag starts at a `<`-free position. */
  lemma TagFreeOfNoLt(x: string, y: string)
    requires '<' !in x
    ensures TagFreeBefore(x + y, |x|)
  {
    forall i | 0 <= i < |x| ensures TagLen((x + y)[i..]).None? {
      assert (x + y)[i..][0] == x[i];
    }
  }

  /** Without a tag at the front, the first character is copied. */
  lemma StripTagsHead(x: string, y: string)
    requires x != [] && TagLen(x + y).None?
    ensures StripTags(x + y) == [x[0]] + StripTags(x[1..] + y)
  {
    assert (x + y)[0] == x[0];
    DropFirstOfAppend(x, y);
  }

  /** A tag match inside a prefix is a tag match of the whole string. */
  lemma TagLenPrefix(t: string, u: string)
    requires TagLen(t).Some?
    ensures TagLen(t + u) == TagLen(t)
  {
    var n := TagLen(t).value;
    var k := 1 + RunLength(t + u, 1, NotGt);
    assert (t + u)[n - 1] == '>';
    assert forall j :: 1 <= j < n - 1 ==> (t + u)[j] != '>';
  }

  /** No tag-shaped run is left in the output of `StripTags`. */
  lemma {:induction false} StripTagsLeavesNoTag(t: string)
    ensures TagFree(StripTags(t))
    decreases |t|
  {
    if t != [] {
      match TagLen(t)
      case Some(n) =>
        StripTagsLeavesNoTag(t[n..]);
      case None =>
        var rest := StripTags(t[1..]);
        StripTagsLeavesNoTag(t[1..]);
        var r := [t[0]] + rest;
        assert TagFree(r) by {
          forall q | 0 <= q < |r| ensures TagLen(r[q..]).None? {
            if q > 0 {
              assert r[q..] == rest[q - 1..];
            } else if t[0] == '<' {
              if |t| >= 2 && t[1] == '>' {
                StripTagsKeepsGt(t[1..]);
              } else {
                assert '>' !in t[1..];
                assert '>' !in rest;
                assert forall k :: 1 <= k < |r| ==> r[k] == rest[k - 1];
              }
            }
          }
        }
    }
  }

  /** A leading `>` survives `StripTags`: no match starts with it. */
  lemma StripTagsKeepsGt(t: string)
    requires t != [] && t[0] == '>'
    ensures StripTags(t) != [] && StripTags(t)[0] == '>'
  {
  }

  /** No tag-shaped run is left inside any piece of the output of `StripTags`. */
  lemma NoTagInPiece(out: string, i: nat, j: nat)
    requires i <= j <= |out|
    requires TagFree(out)
    ensures TagFree(out[i..j])
  {
    forall q | 0 <= q < j - i ensures TagLen(out[i..j][q..]).None? {
      var piece, after := out[i..j][q..], out[j..];
      assert piece + after == out[i + q..];
      if TagLen(piece).Some? {
        TagLenPrefix(piece, after);
      }
    }
  }

  /** Stripping whitespace cannot create a tag-shaped run. */
  lemma StripKeepsNoTag(s: string)
    requires TagFree(s)
    ensures TagFree(Strip(s))
  {
    var text := Strip(s);
    var i := SpacesStart(s);
    var j := i + |text|;
    NoTagInPiece(s, i, j);
    assert TagFree(s[i..j]);
    assert text == s[i..j];
  }

  /** The text of a `.col2` element: line breaks become newlines, tags go, whitespace is stripped. */
  function CommentText(html: string): (text: string)
    ensures TagFree(text)
    ensures text == [] || (!IsSpace(text[0]) && !IsSpace(text[|text| - 1]))
  {
    var stripped := StripTags(ReplaceBreaks(html));
    StripTagsLeavesNoTag(ReplaceBreaks(html));
    StripKeepsNoTag(stripped);
    Strip(stripped)
  }

  /** A plain `<br>` becomes a newline. */
  lemma BreakExample()
    ensures ReplaceBreaks("a<br>b") == "a\nb"
  {
    assert BreakLen("a<br>b").None?;
    assert "a<br>b"[1..] == "<br>b";
    assert BreakLen("<br>b") == Some(4);
    assert "<br>b"[4..] == "b";
    assert BreakLen("b").None?;
    assert "b"[1..] == [];
  }

  /** `<br/>` and `<br />` match too; the pattern is case-sensitive, so `<BR>` does not. */
  lemma SelfClosingBreaks()
    ensures BreakLen("<br/>") == Some(5)
    ensures BreakLen("<br />") == Some(6)
    ensures BreakLen("<BR>") == None
  {
    assert SkipSpaces("<br />", 3) == 4;
    assert "<BR>"[1] == 'B';
  }

  /** Markup around text is removed. */
  lemma TagsExample()
    ensures StripTags("<b>hi</b>") == "hi"
  {
    assert TagLen("<b>hi</b>") == Some(3);
    assert "<b>hi</b>"[3..] == "hi</b>";
    assert TagLen("hi</b>").None?;
    assert "hi</b>"[1..] == "i</b>";
    assert TagLen("i</b>").None?;
    assert "i</b>"[1..] == "</b>";
    assert TagLen("</b>") == Some(4);
    assert "</b>"[4..] == [];
  }

  /** A comment body without markup is only stripped of surrounding whitespace. */
  lemma PlainCommentText(html: string)
    requires '<' !in html
    ensures CommentText(html) == Strip(html)
  {
  }

  /** Two lines of plain text joined by `<br>` come out on two lines. */
  lemma CommentLines(a: string, b: string)
    requires '<' !in a && '<' !in b
    requires a != [] && !IsSpace(a[0]) && b != [] && !IsSpace(b[|b| - 1])
    ensures CommentText(a + "<br>" + b) == a + "\n" + b
  {
    var y := "<br>" + b;
    assert StartsWith(y, "<br") && y[3] == '>';
    assert BreakLen(y) == Some(4);
    assert a + "<br>" + b == a + y;
    BreakFreeOfNoLt(a, y);
    ReplaceBreaksStep(a, y);
    assert y[4..] == b;
    var joined := a + "\n" + b;
    assert ReplaceBreaks(a + y) == joined;
    assert '<' !in joined;
    assert joined[0] == a[0] && joined[|joined| - 1] == b[|b| - 1];
    StripUnchanged(joined);
  }

  /** `line1<br>line2` comes out as `line1`, a newline and `line2`. */
  lemma CommentTextExample()
    ensures CommentText("line1" + "<br>" + "line2") == "line1" + "\n" + "line2"
  {
    var a, b := "line1", "line2";
    assert !IsSpace(a[0]) && !IsSpace(b[|b| - 1]);
    CommentLines(a, b);
  }

  /** No break starts at `i` when one of the three characters a `<br` needs is missing there. */
  lemma NoBreakAt(t: string, i: nat)
    requires i < |t|
    requires t[i] != '<' || (i + 1 < |t| && t[i + 1] != 'b') || (i + 2 < |t| && t[i + 2] != 'r')
    ensures BreakLen(t[i..]).None?
  {
    var u := t[i..];
    assert |u| >= 3 ==> u[..3][0] == t[i] && u[..3][1] == t[i + 1] && u[..3][2] == t[i + 2];
  }

  /** No break starts inside `<b>a</b>` for plain text `a`: neither tag is a `<br`. */
  lemma BreakFreeOfBold(a: string, y: string)
    requires '<' !in a
    ensures BreakFreeBefore("<b>" + a + "</b>" + y, |a| + 7)
  {
    var t := "<b>" + a + "</b>" + y;
    var m := |a| + 3;
    assert t[0] == '<' && t[1] == 'b' && t[2] == '>';
    assert forall k :: 3 <= k < m ==> t[k] == a[k - 3] && a[k - 3] in a;
    assert t[m] == '<' && t[m + 1] == '/' && t[m + 2] == 'b' && t[m + 3] == '>';
    forall i | 0 <= i < |a| + 7 ensures BreakLen(t[i..]).None? {
      NoBreakAt(t, i);
    }
  }

  /** In `<b>a</b><br>c` only the `<br>` is a break. */
  lemma BoldLineBreaks(a: string, c: string)
    requires '<' !in a && '<' !in c
    ensures ReplaceBreaks("<b>" + a + "</b>" + "<br>" + c) == "<b>" + a + "</b>" + "\n" + c
  {
    var x, y := "<b>" + a + "</b>", "<br>" + c;
    assert StartsWith(y, "<br") && y[3] == '>';
    assert BreakLen(y) == Some(4);
    DropPrefix("<br>", c);
    AppendAssoc(x, "<br>", c);
    BreakFreeOfBold(a, y);
    ReplaceBreaksStep(x, y);
  }

  /** `<b>` is a three-character tag. */
  lemma OpenBoldTag(rest: string)
    ensures TagLen("<b>" + rest) == Some(3) && ("<b>" + rest)[3..] == rest
  {
    var w := "<b>" + rest;
    assert w[0] == '<' && w[1] == 'b' && w[2] == '>';
  }

  /** `</b>` is a four-character tag. */
  lemma CloseBoldTag(rest: string)
    ensures TagLen("</b>" + rest) == Some(4) && ("</b>" + rest)[4..] == rest
  {
    var z := "</b>" + rest;
    assert z[0] == '<' && z[1] == '/' && z[2] == 'b' && z[3] == '>';
  }

  /** From `<b>a</b>` and a newline, the tags go and the text and the newline stay. */
  lemma BoldLineTags(a: string, c: string)
    requires '<' !in a && '<' !in c
    ensures StripTags("<b>" + a + "</b>" + "\n" + c) == a + "\n" + c
  {
    var nc := "\n" + c;
    var z := "</b>" + nc;
    var w := "<b>" + (a + z);
    Regroup("<b>", a, "</b>", "\n", c);
    AppendAssoc("</b>", "\n", c);
    OpenBoldTag(a + z);
    StripTagsAtTag(w);
    CloseBoldTag(nc);
    TagFreeOfNoLt(a, z);
    StripTagsStep(a, z);
    assert '<' !in nc;
    AppendAssoc(a, "\n", c);
  }

  /** A bold line followed by a break and a second line: the break is turned into a newline before
      the tags are removed, so the newline survives while `<b>` and `</b>` go (`BreakIsATag` shows
      that removing tags first would have dropped the `<br>` with them). */
  lemma BoldLineThenBreak(a: string, c: string)
    requires '<' !in a && '<' !in c
    requires a != [] && !IsSpace(a[0]) && c != [] && !IsSpace(c[|c| - 1])
    ensures CommentText("<b>" + a + "</b>" + "<br>" + c) == a + "\n" + c
  {
    BoldLineBreaks(a, c);
    BoldLineTags(a, c);
    var joined := a + "\n" + c;
    assert joined[0] == a[0] && joined[|joined| - 1] == c[|c| - 1];
    StripUnchanged(joined);
  }

  /** `<b>a</b><br>c` comes out as `a`, a newline and `c`. */
  lemma BoldLineExample()
    ensures CommentText("<b>" + "a" + "</b>" + "<br>" + "c") == "a" + "\n" + "c"
  {
    var a, c := "a", "c";
    assert !IsSpace(a[0]) && !IsSpace(c[|c| - 1]);
    BoldLineThenBreak(a, c);
  }

  /** `<br>` is itself tag-shaped: tag removal alone deletes it without a trace. */
  lemma BreakIsATag(c: string)
    requires '<' !in c
    ensures StripTags("<br>" + c) == c
  {
    var y := "<br>" + c;
    assert TagLen(y) == Some(4) by { assert y[1] == 'b' && y[2] == 'r' && y[3] == '>'; }
    DropPrefix("<br>", c);
    StripTagsAtTag(y);
  }

  // ---- comments ----

  /** `_parse_comment`: the id (0 when it does not match), then `.col1` and `.col2` when present. */
  function ParseComment(div: CommentDiv): (c: PostComment)
    ensures c.id >= 0
    ensures CommentIdDigits(Get(div.attrs, "id", "")).None? ==> c.id == 0
    ensures CommentIdDigits(Get(div.attrs, "id", "")).Some? ==>
              c.id == DecimalValue(CommentIdDigits(Get(div.attrs, "id", "")).value)
    ensures div.col1.None? ==> c.username == "" && c.timestamp == "" && c.score == 0
    ensures div.col1.Some? && div.col1.value.userLink.None? ==> c.username == ""
    ensures div.col1.Some? && div.col1.value.userLink.Some? ==> c.username == div.col1.value.userLink.value.text
    ensures div.col1.Some? ==> c.timestamp == Timestamp(div.col1.value.text)
    ensures div.col1.Some? && div.col1.value.scoreLink.None? ==> c.score == 0
    ensures div.col1.Some? && div.col1.value.scoreLink.Some? ==>
              c.score == ParseInt(div.col1.value.scoreLink.value.text).GetOr(0)
    ensures div.col2.None? ==> c.text == ""
    ensures div.col2.Some? ==> c.text == CommentText(div.col2.value.html)
  {
    var digits := CommentIdDigits(Get(div.attrs, "id", ""));
    var id := if digits.Some? then DecimalValue(digits.value) else 0;
    var username := if div.col1.Some? && div.col1.value.userLink.Some? then div.col1.value.userLink.value.text else "";
    var timestamp := if div.col1.Some? then Timestamp(div.col1.value.text) else "";
    var score := if div.col1.Some? && div.col1.value.scoreLink.Some?
                 then ParseInt(div.col1.value.scoreLink.value.text).GetOr(0) else 0;
    var text := if div.col2.Some? then CommentText(div.col2.value.html) else "";
    PostComment(id := id, username := username, text := text, score := score, timestamp := timestamp)
  }

  /** The comment a `div` contributes to `parse_html`: none unless its id matches `^c(\d+)$`. */
  function CommentOf(div: CommentDiv): (r: Option<PostComment>)
    ensures r.None? <==> CommentIdDigits(Get(div.attrs, "id", "")).None?
    ensures r.Some? ==> r.value == ParseComment(div)
  {
    if CommentIdDigits(Get(div.attrs, "id", "")).None? then None else Some(ParseComment(div))
  }

  /** The comments of the page, in document order; none without `#comment-list`. */
  function Comments(commentList: Option<seq<CommentDiv>>): (comments: seq<PostComment>)
    ensures commentList.None? ==> comments == []
    ensures commentList.Some? ==> |comments| <= |commentList.value|
  {
    match commentList
    case None => []
    case Some(divs) => FilterMap(CommentOf, divs)
  }

  /** `parse_html`: divs whose id does not match are skipped; the others are parsed and appended. */
  method ParseHtml(doc: Document) returns (comments: seq<PostComment>)
    ensures comments == Comments(doc.commentList)
  {
    comments := [];
    if doc.commentList.None? {
      return;
    }
    var divs := doc.commentList.value;
    var i := 0;
    while i < |divs|
      invariant 0 <= i <= |divs|
      invariant comments == FilterMap(CommentOf, divs[..i])
    {
      var div := divs[i];
      FilterMapStep(CommentOf, divs, i);
      i := i + 1;
      var parsed := CommentOf(div);
      if parsed.None? {
        continue;
      }
      comments := comments + [parsed.value];
    }
    assert divs[..i] == divs;
  }

  /** Every comment `parse_html` returns carries the number from its div's `c<n>` id. */
  lemma CommentIdsFromDivs(divs: seq<CommentDiv>, c: PostComment)
    requires c in Comments(Some(divs))
    ensures exists i :: 0 <= i < |divs| && CommentIdDigits(Get(divs[i].attrs, "id", "")).Some?
                        && c.id == DecimalValue(CommentIdDigits(Get(divs[i].attrs, "id", "")).value)
  {
    FilterMapMember(CommentOf, divs, c);
  }
}
