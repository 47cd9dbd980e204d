/** SidebarParser: the `li` items of `#tag-sidebar` to `Tag` records. */
module SidebarParser {
  import opened Wrappers
  import opened Text
  import opened Seqs
  import opened Models
  import opened Dom

  const TagTypePrefix: string := "tag-type-"

  /** `i` is the first class token that starts with `tag-type-`. */
  predicate FirstTypeClass(classes: seq<string>, i: nat)
  {
    i < |classes| && StartsWith(classes[i], TagTypePrefix)
    && forall j :: 0 <= j < i ==> !StartsWith(classes[j], TagTypePrefix)
  }

  /** The index of the first class token that starts with `tag-type-`, scanning from `from`. */
  function FindTypeClass(classes: seq<string>, from: nat): (r: Option<nat>)
    requires from <= |classes|
    ensures r.None? ==> forall j :: from <= j < |classes| ==> !StartsWith(classes[j], TagTypePrefix)
    ensures r.Some? ==> from <= r.value < |classes| && StartsWith(classes[r.value], TagTypePrefix)
                        && forall j :: from <= j < r.value ==> !StartsWith(classes[j], TagTypePrefix)
    decreases |classes| - from
  {
    if from == |classes| then None
    else if StartsWith(classes[from], TagTypePrefix) then Some(from)
    else FindTypeClass(classes, from + 1)
  }

  /** The tag type named by the class tokens of an item: the first `tag-type-...` token with every
      `tag-type-` removed from it, or `"general"` when no token starts that way. */
  function TagType(classes: seq<string>): (t: string)
    ensures (forall j :: 0 <= j < |classes| ==> !StartsWith(classes[j], TagTypePrefix)) ==> t == "general"
    ensures forall i: nat :: FirstTypeClass(classes, i) ==> t == ReplaceAll(classes[i], TagTypePrefix, "")
  {
    match FindTypeClass(classes, 0)
    case None => "general"
    case Some(i) => ReplaceAll(classes[i], TagTypePrefix, "")
  }

  /** A token `tag-type-X` where `X` itself does not mention `tag-type-` names the type `X`. */
  lemma TagTypeStripsPrefix(classes: seq<string>, i: nat)
    requires FirstTypeClass(classes, i)
    requires !Contains(classes[i][|TagTypePrefix|..], TagTypePrefix)
    ensures TagType(classes) == classes[i][|TagTypePrefix|..]
  {
    ReplaceLeadingOnly(classes[i], TagTypePrefix);
  }

  /** The whitespace-separated tokens of an item's `class` attribute. */
  function ClassTokens(li: TagItem): seq<string>
  {
    if "class" in li.attrs then Words(li.attrs["class"]) else []
  }

  /** The tag type of a sidebar item, from its class tokens. */
  function ItemType(li: TagItem): string
  {
    TagType(ClassTokens(li))
  }

  /** `int` of the `span.tag-count` text with every non-digit deleted; 0 without the span or digits. */
  function TagCount(countSpan: Option<Element>): (count: nat)
    ensures countSpan.None? ==> count == 0
    ensures countSpan.Some? ==> count == DigitsValue(countSpan.value.text)
    ensures countSpan.Some? && AllDigits(countSpan.value.text) && countSpan.value.text != [] ==>
              count == DecimalValue(countSpan.value.text)
  {
    match countSpan
    case None => 0
    case Some(span) => DigitsValue(span.text)
  }

  /** Counts such as `12,345` are read without their separator. */
  lemma TagCountWithSeparator(span: Element, a: string, sep: char, b: string)
    requires span.text == a + [sep] + b
    requires AllDigits(a) && AllDigits(b) && !IsDigit(sep) && a + b != []
    ensures TagCount(Some(span)) == DecimalValue(a + b)
  {
    DigitsValueSkipsSeparator(a, sep, b);
  }

  /** `_parse_tag_item` as a value: no tag link, no tag; otherwise its text, count and type. */
  function TagOf(li: TagItem): (r: Option<Tag>)
    ensures r.None? <==> li.tagLink.None?
    ensures r.Some? ==> && li.tagLink.Some?
                        && r.value.name == li.tagLink.value.text
                        && r.value.count == TagCount(li.countSpan) >= 0
                        && r.value.tagType == ItemType(li)
  {
    if li.tagLink.None? then None
    else Some(Tag(li.tagLink.value.text, TagCount(li.countSpan), ItemType(li)))
  }

  /** `_parse_tag_item`: the class scan stops at the first `tag-type-` token. */
  method ParseTagItem(li: TagItem) returns (tag: Option<Tag>)
    ensures tag == TagOf(li)
  {
    var classes := ClassTokens(li);
    var tagType := "general";
    var i := 0;
    while i < |classes|
      invariant 0 <= i <= |classes|
      invariant forall j :: 0 <= j < i ==> !StartsWith(classes[j], TagTypePrefix)
      invariant tagType == "general"
    {
      if StartsWith(classes[i], TagTypePrefix) {
        tagType := ReplaceAll(classes[i], TagTypePrefix, "");
        assert FirstTypeClass(classes, i);
        break;
      }
      i := i + 1;
    }
    if li.tagLink.None? {
      return None;
    }
    var name := li.tagLink.value.text;
    var count := 0;
    if li.countSpan.Some? {
      var countText := KeepDigits(li.countSpan.value.text);
      count := if countText != [] then DecimalValue(countText) else 0;
    }
    tag := Some(Tag(name := name, count := count, tagType := tagType));
  }

  /** The tags of the sidebar items that have a tag link, in document order; none without a sidebar. */
  function SidebarTags(sidebar: Option<seq<TagItem>>): (tags: seq<Tag>)
    ensures sidebar.None? ==> tags == []
    ensures sidebar.Some? ==> |tags| <= |sidebar.value|
  {
    match sidebar
    case None => []
    case Some(items) => FilterMap(TagOf, items)
  }

  /** `parse_html`: one tag per `li` of `#tag-sidebar` that has a tag link, appended in order. */
  method ParseHtml(doc: Document) returns (tags: seq<Tag>)
    ensures tags == SidebarTags(doc.tagSidebar)
  {
    tags := [];
    if doc.tagSidebar.None? {
      return;
    }
    var items := doc.tagSidebar.value;
    var i := 0;
    while i < |items|
      invariant 0 <= i <= |items|
      invariant tags == FilterMap(TagOf, items[..i])
    {
      var tag := ParseTagItem(items[i]);
      FilterMapStep(TagOf, items, i);
      if tag.Some? {
        tags := tags + [tag.value];
      }
      i := i + 1;
    }
    assert items[..i] == items;
  }

  /** Every sidebar tag comes from an item with a tag link and has a count of at least 0. */
  lemma SidebarTagsWellFormed(items: seq<TagItem>, t: Tag)
    requires t in SidebarTags(Some(items))
    ensures t.count >= 0
    ensures exists i :: 0 <= i < |items| && items[i].tagLink.Some? && t.name == items[i].tagLink.value.text
  {
    FilterMapMember(TagOf, items, t);
  }
}
