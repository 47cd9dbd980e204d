/** UserProfileParser: a user's account page to a `UserProfile` record. */
module UserProfileParser {
  import opened Wrappers
  import opened Text
  import opened Scan
  import opened Seqs
  import opened Models
  import opened Dom
  import PostParser

  // ---- the user id: `id=(\d+)` in the favorites link ----

  /** The digits of an `id=(\d+)` match at `p`. */
  function UserIdAt(href: string, p: nat): (digits: Option<string>)
    ensures digits.Some? <==> StartsAt(href, p, "id=") && p + 3 < |href| && IsDigit(href[p + 3])
    ensures digits.Some? ==> digits.value != [] && StartsAt(href, p + 3, digits.value)
                             && (forall k :: 0 <= k < |digits.value| ==> IsDigit(digits.value[k]))
                             && (p + 3 + |digits.value| == |href| || !IsDigit(href[p + 3 + |digits.value|]))
  {
    PrefixedRunAt(href, p, "id=", IsDigit)
  }

  predicate FirstUserIdAt(href: string, p: nat)
  {
    p <= |href| && UserIdAt(href, p).Some? && forall q :: 0 <= q < p ==> UserIdAt(href, q).None?
  }

  /** The number after the leftmost `id=` of the link, or 0. */
  function UserIdOf(href: string): (id: nat)
    ensures (forall p: nat :: p <= |href| ==> UserIdAt(href, p).None?) ==> id == 0
    ensures forall p :: FirstUserIdAt(href, p) ==> id == DecimalValue(UserIdAt(href, p).value)
  {
    var at := (p: nat) => UserIdAt(href, p);
    var m := Search(href, at);
    assert forall p | FirstUserIdAt(href, p) :: m == UserIdAt(href, p) by {
      forall p | FirstUserIdAt(href, p) ensures m == UserIdAt(href, p) { SearchFindsFirst(href, at, p); }
    }
    if m.None? then
      assert forall p: nat | p <= |href| :: UserIdAt(href, p).None? by {
        forall p: nat | p <= |href| ensures UserIdAt(href, p).None? { SearchFindsNothing(href, at, p); }
      }
      0
    else DecimalValue(m.value)
  }

  /** A link whose first `i` is that of `id=` followed by the digits of `n` names the user `n`. */
  lemma UserIdOfLink(pre: string, n: nat, post: string)
    requires 'i' !in pre
    requires post == [] || !IsDigit(post[0])
    ensures UserIdOf(pre + "id=" + NatToString(n) + post) == n
  {
    var href := pre + "id=" + NatToString(n) + post;
    PrefixedRunOf(pre, "id=", NatToString(n), post, IsDigit);
    assert forall q :: 0 <= q < |pre| ==> href[q] == pre[q];
    PrefixedRunAbsent(href, |pre|, "id=", IsDigit);
    assert FirstUserIdAt(href, |pre|);
  }

  // ---- the account table ----

  /** Which branch of the `if`/`elif` chain a row takes, from its lower-cased label. */
  datatype RowKind = JoinDateRow | LevelRow | DeletedRow | PostsRow | FavoritesRow | OtherRow

  function KindOf(caption: string): (k: RowKind)
    ensures k == JoinDateRow <==> Contains(caption, "join date")
    ensures k == LevelRow <==> !Contains(caption, "join date") && Contains(caption, "level")
    ensures k == DeletedRow <==> !Contains(caption, "join date") && !Contains(caption, "level") && Contains(caption, "deleted")
    ensures k == PostsRow <==> !Contains(caption, "join date") && !Contains(caption, "level") && !Contains(caption, "deleted")
                               && Contains(caption, "posts")
    ensures k == FavoritesRow <==> !Contains(caption, "join date") && !Contains(caption, "level")
                                   && !Contains(caption, "deleted") && !Contains(caption, "posts")
                                   && Contains(caption, "favorites")
  {
    if Contains(caption, "join date") then JoinDateRow
    else if Contains(caption, "level") then LevelRow
    else if Contains(caption, "deleted") then DeletedRow
    else if Contains(caption, "posts") then PostsRow
    else if Contains(caption, "favorites") then FavoritesRow
    else OtherRow
  }

  /** The fields the table loop fills in. */
  datatype Account = Account(joinDate: string, level: string, postCount: nat, deletedPostCount: nat,
                             favoriteCount: nat)

  const DefaultAccount: Account := Account("", "", 0, 0, 0)

  /** The count in a link's text: its digits, or 0 when it has none. */
  function LinkCount(link: Element): (n: nat)
    ensures n == DigitsValue(link.text)
    ensures AllDigits(link.text) && link.text != [] ==> n == DecimalValue(link.text)
  {
    DigitsValue(link.text)
  }

  /** A thousands separator in the count is skipped: `1,234` counts 1234. */
  lemma LinkCountWithSeparator(link: Element, a: string, sep: char, b: string)
    requires link.text == a + [sep] + b
    requires AllDigits(a) && AllDigits(b) && !IsDigit(sep) && a + b != []
    ensures LinkCount(link) == DecimalValue(a + b)
  {
    DigitsValueSkipsSeparator(a, sep, b);
  }

  /** One iteration of the table loop. Rows with fewer than two cells change nothing; otherwise only
      the field named by the label changes, and the counts of posts and favorites need a link. */
  function ApplyRow(acc: Account, cells: seq<Cell>): (r: Account)
    ensures |cells| < 2 ==> r == acc
    ensures |cells| >= 2 && KindOf(Lower(cells[0].text)) == OtherRow ==> r == acc
    ensures |cells| >= 2 && KindOf(Lower(cells[0].text)) == JoinDateRow ==> r == acc.(joinDate := cells[1].text)
    ensures |cells| >= 2 && KindOf(Lower(cells[0].text)) == LevelRow ==> r == acc.(level := cells[1].text)
    ensures |cells| >= 2 && KindOf(Lower(cells[0].text)) == DeletedRow ==>
              r == acc.(deletedPostCount := DigitsValue(cells[1].text))
    ensures |cells| >= 2 && KindOf(Lower(cells[0].text)) == PostsRow && cells[1].anchor.Some? ==>
              r == acc.(postCount := LinkCount(cells[1].anchor.value))
    ensures |cells| >= 2 && KindOf(Lower(cells[0].text)) == FavoritesRow && cells[1].anchor.Some? ==>
              r == acc.(favoriteCount := LinkCount(cells[1].anchor.value))
    ensures |cells| >= 2 && KindOf(Lower(cells[0].text)) in {PostsRow, FavoritesRow} && cells[1].anchor.None? ==>
              r == acc
    ensures r.joinDate != acc.joinDate ==> |cells| >= 2 && KindOf(Lower(cells[0].text)) == JoinDateRow
    ensures r.level != acc.level ==> |cells| >= 2 && KindOf(Lower(cells[0].text)) == LevelRow
    ensures r.deletedPostCount != acc.deletedPostCount ==> |cells| >= 2 && KindOf(Lower(cells[0].text)) == DeletedRow
    ensures r.postCount != acc.postCount ==>
              |cells| >= 2 && KindOf(Lower(cells[0].text)) == PostsRow && cells[1].anchor.Some?
    ensures r.favoriteCount != acc.favoriteCount ==>
              |cells| >= 2 && KindOf(Lower(cells[0].text)) == FavoritesRow && cells[1].anchor.Some?
  {
    if |cells| < 2 then acc
    else
      var value := cells[1];
      match KindOf(Lower(cells[0].text))
      case JoinDateRow => acc.(joinDate := value.text)
      case LevelRow => acc.(level := value.text)
      case DeletedRow => acc.(deletedPostCount := DigitsValue(value.text))
      case PostsRow => if value.anchor.Some? then acc.(postCount := LinkCount(value.anchor.value)) else acc
      case FavoritesRow => if value.anchor.Some? then acc.(favoriteCount := LinkCount(value.anchor.value)) else acc
      case OtherRow => acc
  }

  /** The table loop as a left fold over the rows, in document order. */
  function AccountOf(rows: seq<seq<Cell>>): (acc: Account)
    ensures rows == [] ==> acc == DefaultAccount
  {
    if rows == [] then DefaultAccount else ApplyRow(AccountOf(rows[..|rows| - 1]), rows[|rows| - 1])
  }

  /** A `join date` row sets the join date to its value cell's text. */
  predicate IsJoinDateRow(cells: seq<Cell>)
  {
    |cells| >= 2 && KindOf(Lower(cells[0].text)) == JoinDateRow
  }

  /** The join date is the value of the last `join date` row. */
  lemma {:induction false} JoinDateFromLastRow(rows: seq<seq<Cell>>, i: nat)
    requires i < |rows| && IsJoinDateRow(rows[i])
    requires forall k :: i < k < |rows| ==> !IsJoinDateRow(rows[k])
    ensures AccountOf(rows).joinDate == rows[i][1].text
    decreases |rows|
  {
    if i < |rows| - 1 {
      var front := rows[..|rows| - 1];
      assert forall k :: i < k < |front| ==> front[k] == rows[k];
      JoinDateFromLastRow(front, i);
    }
  }

  /** Rows with fewer than two cells can be dropped without changing anything. */
  lemma {:induction false} ShortRowsIgnored(rows: seq<seq<Cell>>, short: seq<Cell>)
    requires |short| < 2
    ensures AccountOf(rows + [short]) == AccountOf(rows)
  {
    assert (rows + [short])[..|rows|] == rows;
  }

  // ---- the page ----

  /** `_parse_image_list`: the posts of a list's complete thumbnails, in order. */
  method ParseImageList(thumbs: seq<Thumb>, baseUrl: string) returns (posts: seq<Post>)
    ensures posts == PostParser.Posts(thumbs, baseUrl)
  {
    var f := PostParser.ThumbParser(baseUrl);
    posts := [];
    var i := 0;
    while i < |thumbs|
      invariant 0 <= i <= |thumbs|
      invariant posts == FilterMap(f, thumbs[..i])
    {
      var post := PostParser.ParseThumb(thumbs[i], baseUrl);
      assert f(thumbs[i]) == post;
      FilterMapStep(f, thumbs, i);
      if post.Some? {
        posts := posts + [post.value];
      }
      i := i + 1;
    }
    assert thumbs[..i] == thumbs;
  }

  /** The user id: from the favorites link's `href` (`""` when it has none), 0 without the link. */
  function UserId(doc: Document): (id: nat)
    ensures doc.favoritesLink.None? ==> id == 0
    ensures doc.favoritesLink.Some? ==> id == UserIdOf(doc.favoritesLink.value.Attr("href", ""))
  {
    if doc.favoritesLink.Some? then UserIdOf(doc.favoritesLink.value.Attr("href", "")) else 0
  }

  /** `parse_html` as a value: the first image list is the recent favorites, the second the recent
      uploads, and any further list is ignored. */
  function ProfileOf(doc: Document, baseUrl: string): (p: UserProfile)
    ensures doc.heading.None? ==> p.username == ""
    ensures doc.heading.Some? ==> p.username == doc.heading.value.text
    ensures p.id == UserId(doc)
    ensures |doc.imageLists| == 0 ==> p.recentFavorites == [] && p.recentUploads == []
    ensures |doc.imageLists| >= 1 ==> p.recentFavorites == PostParser.Posts(doc.imageLists[0], baseUrl)
    ensures |doc.imageLists| < 2 ==> p.recentUploads == []
    ensures |doc.imageLists| >= 2 ==> p.recentUploads == PostParser.Posts(doc.imageLists[1], baseUrl)
    ensures var acc := AccountOf(doc.tableRows);
            && p.joinDate == acc.joinDate && p.level == acc.level && p.postCount == acc.postCount
            && p.deletedPostCount == acc.deletedPostCount && p.favoriteCount == acc.favoriteCount
    ensures doc.tableRows == [] ==> p.joinDate == "" && p.level == "" && p.postCount == 0
                                    && p.deletedPostCount == 0 && p.favoriteCount == 0
  {
    var acc := AccountOf(doc.tableRows);
    UserProfile(
      username := if doc.heading.Some? then doc.heading.value.text else "",
      id := UserId(doc),
      joinDate := acc.joinDate, level := acc.level, postCount := acc.postCount,
      deletedPostCount := acc.deletedPostCount, favoriteCount := acc.favoriteCount,
      recentUploads := if |doc.imageLists| >= 2 then PostParser.Posts(doc.imageLists[1], baseUrl) else [],
      recentFavorites := if |doc.imageLists| >= 1 then PostParser.Posts(doc.imageLists[0], baseUrl) else [])
  }

  /** Only the first two image lists matter. */
  lemma ExtraImageListsIgnored(doc: Document, baseUrl: string, extra: seq<seq<Thumb>>)
    requires |doc.imageLists| >= 2
    ensures ProfileOf(doc.(imageLists := doc.imageLists + extra), baseUrl) == ProfileOf(doc, baseUrl)
  {
    var doc' := doc.(imageLists := doc.imageLists + extra);
    assert doc'.imageLists[0] == doc.imageLists[0] && doc'.imageLists[1] == doc.imageLists[1];
  }

  /** The table loop of `parse_html`: rows with fewer than two cells are skipped. */
  method ParseTable(rows: seq<seq<Cell>>) returns (acc: Account)
    ensures acc == AccountOf(rows)
  {
    acc := DefaultAccount;
    var i := 0;
    while i < |rows|
      invariant 0 <= i <= |rows|
      invariant acc == AccountOf(rows[..i])
    {
      var cells := rows[i];
      assert rows[..i + 1][..i] == rows[..i];
      assert AccountOf(rows[..i + 1]) == ApplyRow(acc, cells);
      i := i + 1;
      if |cells| < 2 {
        continue;
      }
      acc := ApplyRow(acc, cells);
    }
    assert rows[..i] == rows;
  }

  /** `parse_html`: the declared `Optional` result is never `None`. */
  method ParseHtml(doc: Document, baseUrl: string := PostParser.DefaultBaseUrl) returns (profile: Option<UserProfile>)
    ensures profile == Some(ProfileOf(doc, baseUrl))
  {
    var username := if doc.heading.Some? then doc.heading.value.text else "";
    var userId := 0;
    if doc.favoritesLink.Some? {
      userId := UserIdOf(doc.favoritesLink.value.Attr("href", ""));
    }
    var acc := ParseTable(doc.tableRows);
    var favorites: seq<Post> := [];
    var uploads: seq<Post> := [];
    if |doc.imageLists| >= 1 {
      favorites := ParseImageList(doc.imageLists[0], baseUrl);
    }
    if |doc.imageLists| >= 2 {
      uploads := ParseImageList(doc.imageLists[1], baseUrl);
    }
    profile := Some(UserProfile(
      username := username, id := userId,
      joinDate := acc.joinDate, level := acc.level, postCount := acc.postCount,
      deletedPostCount := acc.deletedPostCount, favoriteCount := acc.favoriteCount,
      recentUploads := uploads, recentFavorites := favorites));
  }
}
