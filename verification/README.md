# rule34scraper parsers and client, modelled in Dafny

`rule34scraper` scrapes a booru-style image board. Its client (`R34Client`) fetches listing, post and
account pages. Five parsers turn those pages into records:

- `PostParser` reads the listing thumbnails into `Post`s.
- `SidebarParser` reads the tag sidebar into `Tag`s.
- `PostDetailsParser` reads a post's own page into `PostDetails`.
- `CommentParser` reads the comment list into `PostComment`s.
- `UserProfileParser` reads an account page into a `UserProfile`.

This project models those five parsers and the deterministic part of the client, and proves what
they promise.

Layout, one module per file:

- `models.dfy` holds the records.
- `dom.dfy` holds `Document`. It stands in for the HTML library: for each CSS selector a parser uses,
  it records what the selector returns, in document order.
- `text.dfy` holds the Python string built-ins the parsers call: `split`, `strip`, `lstrip`, `rstrip`,
  `lower`, `replace`, `int`, `str` and the `re.sub` that deletes non-digits.
- `scan.dfy` models `re.search`. It returns the leftmost position where a hand-written matcher succeeds.
- `seqs.dfy` models the recurring loop `for x in xs: y = f(x); if y: out.append(y)`.
- The rest mirror the source: `post_parser.dfy`, `sidebar_parser.dfy`, `post_details_parser.dfy`,
  `comment_parser.dfy`, `user_profile_parser.dfy` and `client.dfy`.

Each regular expression of the parsers is a matcher `XAt(s, p)`. It says whether the pattern matches
at position `p` and what its group captures. `Scan.Search` takes the leftmost match. Each extraction
function then states two things: the value it returns at the leftmost match, and the default it
returns when the pattern matches nowhere.

The loops of the source are methods with loop invariants, and each is proved equal to a
specification function:

- `FilterMap` for the parse loops that append, as in `parse_html` and `_parse_image_list`;
- a left fold (`StatsOf`, `AccountOf`) for the loops over `#stats` items and account-table rows.

Lemmas then state what those functions guarantee. For example, a field comes from the last item of
its kind, and an incomplete thumbnail can be removed without changing the result.

The client is a class whose only mutable state is the lazily created HTTP handle. The network is a
parameter, `fetch: Request -> Document`. It comes before the parameters that have defaults, which keep
the source's defaults. Requests are values: the base URL and the query parameters.
`download_post` is modelled up to the download it would perform. That is the URL, the file
`<id>.<ext>` in the given directory, and the headers.

Where the code and the project's own description of it differ, the model follows the code:

- `PostDetailsParser.parse_html` and `UserProfileParser.parse_html` are typed `Optional`, but they
  never return `None`. A page without `#stats` or without a heading yields a record of defaults.
  `Client.R34Client.NeverNotFound` draws the consequence: the `ValueError` of `download_post` cannot
  be raised.
- A rating is whatever word follows `rating:`. It is not restricted to `safe`, `questionable`,
  `explicit` and `unknown`.
- A tag's name is the link text, which may be empty.
- A comment id matches `^c(\d+)$` also when it ends in a newline, because `$` matches before a final
  newline.
- A later `Source:` item whose link has no `href` resets `source_url` to `None`.
- `detail_url` is absolute only when the base URL is. With the client's default base
  `https://rule34.xxx/index.php`, a relative `index.php?...` link becomes
  `https://rule34.xxx/index.php/index.php?...` (`Client.DefaultBaseDetailUrl`).

## Model

| member | source | states |
|---|---|---|
| Seqs.FilterMap | rule34scraper/parser.py:19-22 | the list built by the append loop is never longer than its input |
| Seqs.FilterMapStep | rule34scraper/parser.py:19-22 | one more iteration appends exactly what the current element yields |
| Seqs.FilterMapAppend | rule34scraper/parser.py:19-22 | the output of two consecutive runs is the first run's output followed by the second's (document order) |
| Seqs.FilterMapSkip | rule34scraper/parser.py:19-22 | an element the routine rejects can be removed without changing the output |
| Seqs.FilterMapMember | rule34scraper/parser.py:19-22 | a value is in the output if and only if some input element produced it |
| Seqs.FilterMapAllKept | rule34scraper/parser.py:19-22 | when every element is accepted, nothing is dropped |
| Seqs.FilterMapNoneKept | rule34scraper/parser.py:19-22 | when every element is rejected, the output is empty |
| Scan.Search | rule34scraper/parser.py:70-71 | `re.search` finds nothing if and only if the pattern matches at no position; otherwise it returns the match at the leftmost position |
| Scan.SearchFindsFirst | rule34scraper/parser.py:70-71 | the search returns the capture at the leftmost position where the pattern matches |
| Scan.SearchFindsNothing | rule34scraper/parser.py:70-71 | a failed search means the pattern matches at no position |
| Scan.SkipSpaces | rule34scraper/parser.py:125 | `\s*` consumes exactly the run of whitespace and stops at a non-space or the end |
| Scan.RunAt | rule34scraper/parser.py:11 | a greedy group `(c+)` is non-empty, made of class characters and maximal; it fails if and only if no class character is there |
| Scan.PrefixedRunOf | rule34scraper/parser.py:11-12 | a marker followed by a maximal run matches there, with that run as the group |
| Scan.PrefixedRunAbsent | rule34scraper/parser.py:11-12 | the marker cannot match before the first occurrence of its first character |
| Text.Words | rule34scraper/parser.py:43 | `split()` yields non-empty words without whitespace |
| Text.WordLengthOf | rule34scraper/parser.py:43 | a word runs exactly up to the first whitespace character after it |
| Text.WordsOfWord | rule34scraper/parser.py:43 | a non-empty string without whitespace splits into itself alone |
| Text.WordsSplit | rule34scraper/parser.py:43 | splitting at any whitespace character gives the words before it followed by the words after it; with `WordsOfWord` this pins `split()` down on every string, maximal runs included |
| Text.WordsConcat | rule34scraper/parser.py:43 | the words glued together are the input without its whitespace: splitting loses nothing else |
| Text.Strip | rule34scraper/parser.py:276 | `strip()` returns a result that neither starts nor ends with whitespace, found in the input at the end of its leading whitespace with only whitespace around it |
| Text.StripUnchanged | rule34scraper/parser.py:175 | a string without surrounding whitespace is its own `strip()` |
| Text.TrimLeft | rule34scraper/parser.py:38 | `lstrip(c)` removes exactly the leading characters in the set and leaves a suffix that does not start with one |
| Text.TrimRight | rule34scraper/parser.py:53 | `rstrip(c)` removes exactly the trailing characters in the set and leaves a prefix that does not end with one |
| Text.Lower | rule34scraper/parser.py:163 | `lower()` keeps the length and lower-cases each character |
| Text.ReplaceAll | rule34scraper/parser.py:106 | `replace` leaves a string without the target unchanged and, with a shorter replacement, never lengthens it |
| Text.ReplaceAllStep | rule34scraper/parser.py:163 | the leftmost occurrence is replaced first: the text before it is kept, the occurrence replaced, and replacement resumes after it |
| Text.RemoveOnlyOccurrence | rule34scraper/parser.py:163 | deleting a target that occurs exactly once leaves the text before and after it, joined |
| Text.ReplaceLeadingOnly | rule34scraper/parser.py:106 | removing a prefix that occurs nowhere else leaves exactly the rest |
| Text.KeepDigits | rule34scraper/parser.py:118 | deleting non-digits leaves only digits; a digit string is unchanged and a digit-free one becomes empty |
| Text.DecimalValue | rule34scraper/parser.py:38 | the value of a digit string, with leading zeros not counting: `007` reads as `07` and as `7` |
| Text.KeepDigitsAppend | rule34scraper/parser.py:118 | deleting non-digits works piece by piece: the result for `a + b` is the result for `a` followed by that for `b` |
| Text.KeepDigitsChar | rule34scraper/parser.py:118 | a single character is kept exactly when it is a digit; with `KeepDigitsAppend` this pins the deletion down on every string |
| Text.DigitsValue | rule34scraper/parser.py:118-119 | `int(text) if text else 0` after deleting non-digits: the decimal value of an all-digit text, 0 for a digit-free one |
| Text.DigitsValueSkipsSeparator | rule34scraper/parser.py:118-119 | a non-digit between two digit runs is dropped: `a,b` counts as the number written `ab` |
| Text.DigitsValueExample | rule34scraper/parser.py:118-119 | `1,234` counts 1234 |
| Text.ParseInt | rule34scraper/parser.py:166-171 | `int()` succeeds exactly when the text, stripped of surrounding whitespace, is a non-empty digit run with at most one leading `+` or `-`; its value is that of the digits, negated after `-` |
| Text.ParseIntAccepts | rule34scraper/parser.py:166-171 | `+5` and ` 5 ` both read as 5 |
| Text.ParseIntRefuses | rule34scraper/parser.py:166-171 | `1 2`, `1-2` and `--5` are refused, so such a score reads as 0 |
| Text.ParseIntRejects | rule34scraper/parser.py:166-171 | a character other than a digit, whitespace or a sign anywhere in the text makes `int()` fail, so `12abc` gives `ValueError` |
| Text.ParseIntNeedsDigit | rule34scraper/parser.py:166-171 | `int()` succeeds only on text containing a digit, so the `ValueError` branch covers every digit-free span |
| Text.ParseNegative | rule34scraper/parser.py:267-269 | a minus sign followed by digits reads as the negated value |
| Text.NatToString | rule34scraper/client.py:158 | `str(n)` is a non-empty digit string whose decimal value is `n`, without a leading zero unless it is `0` |
| Text.IntToString | rule34scraper/client.py:158 | `int(str(i)) == i` for every integer; `str(i)` is digits without a leading zero, preceded by `-` exactly when `i` is negative |
| PostParser.ScoreAt | rule34scraper/parser.py:11 | `score:(\d+)` matches at a position exactly when `score:` starts there and a digit follows it; the group is the maximal digit run after the marker |
| PostParser.RatingAt | rule34scraper/parser.py:12 | `rating:(\w+)` matches at a position exactly when `rating:` starts there and a word character follows it; the group is the maximal word run after the marker |
| PostParser.ExtractScore | rule34scraper/parser.py:69-71 | the number after the leftmost `score:<digits>`, or 0 when the pattern matches nowhere |
| PostParser.ExtractRating | rule34scraper/parser.py:74-76 | the word after the leftmost `rating:<word>`, or `"unknown"` when the pattern matches nowhere |
| PostParser.ScoreOfTitle | rule34scraper/parser.py:69-71 | a title whose first `score:` carries the digits of `n` yields `n`, whatever follows |
| PostParser.RatingOfTitle | rule34scraper/parser.py:74-76 | a title whose first `rating:` carries the word `w` yields `w`, whatever follows |
| PostParser.ScoreDefault | rule34scraper/parser.py:71 | a title without `score:` scores 0 |
| PostParser.RatingDefault | rule34scraper/parser.py:76 | a title without `rating:` is rated `"unknown"` |
| PostParser.PostId | rule34scraper/parser.py:37-38 | an id that is some `p`s followed by digits gives the value of those digits, and a non-zero id comes from no other form |
| PostParser.TrimmedToDigits | rule34scraper/parser.py:38 | `lstrip("p")` on `p`s followed by digits leaves exactly the digits |
| PostParser.PostIdLeadingZeros | rule34scraper/parser.py:38 | `p007` is post 7 |
| PostParser.PostIdOfPrefixedNumber | rule34scraper/parser.py:38 | every leading `p` is stripped: `"p" * k + str(n)` reads back as `n` |
| PostParser.PostIdExamples | rule34scraper/parser.py:38 | an empty id, a bare `p` and trailing non-digits all give 0 |
| PostParser.Repeat | rule34scraper/parser.py:38 | `c * n` has length `n` and every character `c` |
| PostParser.DetailUrl | rule34scraper/parser.py:49-53 | an `http...` href is kept as it is; any other href is joined to the base with trailing and leading slashes removed |
| PostParser.TrimLeftSlashes | rule34scraper/parser.py:53 | `lstrip('/')` removes exactly the leading run of slashes |
| PostParser.TrimRightSlashes | rule34scraper/parser.py:53 | `rstrip('/')` removes exactly the trailing run of slashes |
| PostParser.StripLeadingSlashes | rule34scraper/parser.py:53 | any number of leading slashes before an href are dropped |
| PostParser.StripTrailingSlashes | rule34scraper/parser.py:53 | any number of trailing slashes after the base are dropped |
| PostParser.DetailUrlOneSlash | rule34scraper/parser.py:53 | however many slashes end the base and start a relative href, the joined URL has exactly one between them |
| PostParser.ParseThumb | rule34scraper/parser.py:27-66 | a thumbnail yields no post if and only if its link or its image is missing |
| PostParser.ParsedThumbFields | rule34scraper/parser.py:37-56 | a parsed post has the id read from the link's `id`, the score and rating read from the image title, the detail URL built from the link's `href`, `is_video` exactly when the image class contains `webm-thumb`, the image `src` as preview, and tags that are the words of `alt`, together holding every non-space character of it |
| PostParser.Posts | rule34scraper/parser.py:19-22 | at most one post per thumbnail |
| PostParser.ParseHtml | rule34scraper/parser.py:15-24 | the loop returns exactly the posts of the complete thumbnails, in document order |
| PostParser.PostsSkipIncomplete | rule34scraper/parser.py:28-32 | a thumbnail missing its link or image can be removed without changing the result |
| PostParser.PostsInDocumentOrder | rule34scraper/parser.py:19-22 | the posts of consecutive thumbnail runs come out run after run |
| SidebarParser.FindTypeClass | rule34scraper/parser.py:104-107 | finds the first class token starting with `tag-type-`, and none is found only when no token starts that way |
| SidebarParser.TagType | rule34scraper/parser.py:102-107 | `"general"` without a `tag-type-` token; otherwise the first such token with every `tag-type-` removed |
| SidebarParser.TagTypeStripsPrefix | rule34scraper/parser.py:106 | for a token `tag-type-X` where `X` does not repeat the prefix, the type is `X` |
| SidebarParser.TagCount | rule34scraper/parser.py:114-119 | 0 without a count span; otherwise the value of the span text with its non-digits deleted, which for an all-digit text is its value |
| SidebarParser.TagCountWithSeparator | rule34scraper/parser.py:114-119 | a count such as `12,345` is read without its separator |
| SidebarParser.TagOf | rule34scraper/parser.py:109-121 | an item yields no tag if and only if it has no tag link; otherwise its name, a count of at least 0 and its type |
| SidebarParser.ParseTagItem | rule34scraper/parser.py:99-121 | the class loop stops at the first `tag-type-` token, and the result is `TagOf` the item |
| SidebarParser.SidebarTags | rule34scraper/parser.py:87-96 | no tags without a sidebar; otherwise at most one tag per item |
| SidebarParser.ParseHtml | rule34scraper/parser.py:83-96 | the loop returns exactly the tags of the items with a tag link, in document order |
| SidebarParser.SidebarTagsWellFormed | rule34scraper/parser.py:91-121 | every returned tag has a count of at least 0 and the text of some item's tag link as its name |
| PostDetailsParser.ImageObjectAt | rule34scraper/parser.py:127 | the `{...}` group runs from `{` to the first `}` with at least one character between them |
| PostDetailsParser.ImageObject | rule34scraper/parser.py:205-207 | there is no object if and only if the pattern matches nowhere; otherwise the object is the leftmost match |
| PostDetailsParser.KeyNumberAt | rule34scraper/parser.py:128-129 | a match is the key, optionally quoted, then `:` and a non-empty run of digits |
| PostDetailsParser.KeyNumber | rule34scraper/parser.py:210-214 | the number after the leftmost `key:` match, or 0 when there is none |
| PostDetailsParser.KeyNumberAtQuotedKey | rule34scraper/parser.py:128-129 | at `'key': ` the match is the digit run after the blank |
| PostDetailsParser.KeyNumberAtOf | rule34scraper/parser.py:128-129 | at `'key': n` the match is the digits of `n` |
| PostDetailsParser.KeyNumberAbsentBefore | rule34scraper/parser.py:128-129 | no match starts before a quote when no earlier character is the key's first |
| PostDetailsParser.KeyNumberOf | rule34scraper/parser.py:210-214 | `{'width': n, ...}` gives the width `n` |
| PostDetailsParser.ImageSize | rule34scraper/parser.py:204-216 | `(0, 0)` without an `image = {...}` object; otherwise width and height are looked up in that object only |
| PostDetailsParser.IdAt | rule34scraper/parser.py:125 | an `Id:\s*(\d+)` match starts with `Id:` and captures a non-empty digit string |
| PostDetailsParser.IdValue | rule34scraper/parser.py:159-160 | the number after the leftmost `Id:` match, or 0 |
| PostDetailsParser.LazyEnd | rule34scraper/parser.py:126 | the lazy group ends at the first position from which blanks and then `by` follow |
| PostDetailsParser.LazyEndAfterNonBlank | rule34scraper/parser.py:126 | the lazy group never ends just after a blank |
| PostDetailsParser.LazyGroupShape | rule34scraper/parser.py:126 | the group holds no newline and neither starts nor ends with whitespace |
| PostDetailsParser.PostedAt | rule34scraper/parser.py:126 | a `Posted:\s*(.*?)\s*by` match starts with `Posted:`; its group holds no newline and has no surrounding whitespace |
| PostDetailsParser.PostedGroupTrimmed | rule34scraper/parser.py:175 | the `strip()` applied to the group changes nothing |
| PostDetailsParser.PostedValue | rule34scraper/parser.py:174-175 | the group of the leftmost `Posted:` match, or `""` |
| PostDetailsParser.KindOf | rule34scraper/parser.py:158-183 | the markers are tried in the order `Id:`, `Rating:`, `Score:`, `Posted:`, `Source:`: an item is of a kind if and only if it mentions that marker and none tried before it; it is ignored if and only if it mentions none |
| PostDetailsParser.RatingValue | rule34scraper/parser.py:163 | the rating is no longer than the item text, and is the stripped, lower-cased text when `Rating:` is absent |
| PostDetailsParser.RatingOfItem | rule34scraper/parser.py:163 | an item `pre Rating: post` with a single `Rating:` is rated by `pre + post`, stripped and lower-cased, so `Rating: Explicit` gives `explicit` |
| PostDetailsParser.ApplyStat | rule34scraper/parser.py:155-183 | each kind sets its own field: id from `Id:`, rating from `Rating:`, score from the span of a `Score:` item (0 when it is not a number), the posting time and, with a link, the uploader from `Posted:`, and the link's `href` from `Source:`; without the span or link nothing changes, and no other field ever changes |
| PostDetailsParser.StatsOf | rule34scraper/parser.py:146-155 | with no items every field keeps its default |
| PostDetailsParser.IdFromLastIdItem | rule34scraper/parser.py:158-160 | the id is read from the last `Id:` item |
| PostDetailsParser.IdWithoutIdItem | rule34scraper/parser.py:146-160 | without an `Id:` item the id stays 0 |
| PostDetailsParser.RatingFromLastRatingItem | rule34scraper/parser.py:162-163 | the rating is read from the last `Rating:` item |
| PostDetailsParser.ScoreFromLastScoreItem | rule34scraper/parser.py:165-171 | the score is read from the last `Score:` item that has a span |
| PostDetailsParser.PostedFromLastPostedItem | rule34scraper/parser.py:173-175 | the posting time is read from the last `Posted:` item |
| PostDetailsParser.OtherItemsIgnored | rule34scraper/parser.py:155-183 | an item with none of the markers changes nothing |
| PostDetailsParser.SampleUrl | rule34scraper/parser.py:137-139 | the `src` of `img#image`, and `""` without that image or without a `src` |
| PostDetailsParser.ImageUrl | rule34scraper/parser.py:137-144 | the image URL is the `img#image` source, and the first `images` link's `href` only when that source is empty |
| PostDetailsParser.DetailsOf | rule34scraper/parser.py:132-201 | size from the image object; sample and image URLs as above; id, rating, score, uploader, posting time and source are those the stats fold `StatsOf` computes over the `#stats` items, all at their defaults without `#stats`; the sidebar tags and the comments of the same page |
| PostDetailsParser.ParseStats | rule34scraper/parser.py:153-183 | the stats loop computes the fold `StatsOf` |
| PostDetailsParser.ParseHtml | rule34scraper/parser.py:132-201 | always returns a record, and that record is `DetailsOf` the page |
| CommentParser.CommentIdDigits | rule34scraper/parser.py:221 | a match is `c` and a non-empty digit string, optionally followed by a newline; every `c<digits>` matches |
| CommentParser.CommentIdOfNumber | rule34scraper/parser.py:221 | `c<n>` and `c<n>\n` both name the comment `n` |
| CommentParser.CommentIdRejects | rule34scraper/parser.py:221 | ids without digits after `c`, without the `c`, or with trailing non-digits do not match |
| CommentParser.TimestampAt | rule34scraper/parser.py:220 | a match is `Posted on ` followed by a `dddd-dd-dd dd:dd:dd` group |
| CommentParser.Timestamp | rule34scraper/parser.py:260-262 | the group of the leftmost match, or `""`; a non-empty timestamp has the date-time shape and occurs after `Posted on ` in the header |
| CommentParser.BreakLen | rule34scraper/parser.py:275 | a `<br\s*/?>` match starts with `<br` and ends with `>` |
| CommentParser.ReplaceBreaks | rule34scraper/parser.py:275 | text without `<` is unchanged |
| CommentParser.ReplaceBreaksOfBreakFree | rule34scraper/parser.py:275 | text in which no break starts is unchanged, whatever other tags it holds |
| CommentParser.ReplaceBreaksStep | rule34scraper/parser.py:275 | the text before the first break is kept as it is, other tags included, the break becomes a newline, and the substitution resumes after it; with `ReplaceBreaksOfBreakFree` this fixes the result on every text |
| CommentParser.BreakExample | rule34scraper/parser.py:275 | `a<br>b` becomes `a`, newline, `b` |
| CommentParser.SelfClosingBreaks | rule34scraper/parser.py:275 | `<br/>` and `<br />` match; upper-case `<BR>` does not |
| CommentParser.TagLen | rule34scraper/parser.py:276 | a `<[^>]+>` match runs from `<` to the first `>` with at least one character between; no match means one of the reasons the pattern fails |
| CommentParser.StripTags | rule34scraper/parser.py:276 | removing tags never lengthens the text, leaves text without `<` unchanged and adds no `>` |
| CommentParser.StripTagsOfTagFree | rule34scraper/parser.py:276 | text in which no tag starts is unchanged, stray `<` and `>` included |
| CommentParser.StripTagsStep | rule34scraper/parser.py:276 | the text before the first tag is kept, stray `<` included, the tag is dropped, and the substitution resumes after it; with `StripTagsOfTagFree` this fixes the result on every text |
| CommentParser.TagLenPrefix | rule34scraper/parser.py:276 | a tag at the start of a string is still the same tag when more text follows |
| CommentParser.StripTagsLeavesNoTag | rule34scraper/parser.py:276 | after the substitution no tag-shaped run is left anywhere |
| CommentParser.StripTagsKeepsGt | rule34scraper/parser.py:276 | a leading `>` survives the substitution |
| CommentParser.NoTagInPiece | rule34scraper/parser.py:276 | a piece of tag-free text is tag-free |
| CommentParser.StripKeepsNoTag | rule34scraper/parser.py:276 | stripping whitespace cannot create a tag |
| CommentParser.CommentText | rule34scraper/parser.py:271-276 | a comment body holds no tag and has no surrounding whitespace |
| CommentParser.TagsExample | rule34scraper/parser.py:276 | `<b>hi</b>` becomes `hi` |
| CommentParser.PlainCommentText | rule34scraper/parser.py:271-276 | a body without markup is only stripped |
| CommentParser.CommentLines | rule34scraper/parser.py:271-276 | two lines of plain text joined by `<br>` come out joined by a newline |
| CommentParser.CommentTextExample | rule34scraper/parser.py:271-276 | `line1<br>line2` comes out as `line1`, a newline, `line2` |
| CommentParser.BoldLineThenBreak | rule34scraper/parser.py:275-276 | in `<b>a</b><br>c` the break becomes a newline before the tags go, so the body is `a`, a newline, `c` |
| CommentParser.BoldLineExample | rule34scraper/parser.py:275-276 | `<b>a</b><br>c` comes out as `a`, a newline, `c` |
| CommentParser.BreakIsATag | rule34scraper/parser.py:276 | `<br>` is itself tag-shaped, so removing tags first would have lost the line break |
| CommentParser.ParseComment | rule34scraper/parser.py:243-284 | the id is the number of a matching id, and 0 otherwise; username, timestamp and score come from `.col1`: the user link's text or `""`, the header's timestamp, and the score link read by `int()` with 0 on failure or without the link; all three at their defaults without `.col1`; the text comes from `.col2`, or `""` |
| CommentParser.CommentOf | rule34scraper/parser.py:232-238 | a div yields a comment if and only if its id matches |
| CommentParser.Comments | rule34scraper/parser.py:228-238 | no comments without `#comment-list`; otherwise at most one per div |
| CommentParser.ParseHtml | rule34scraper/parser.py:224-240 | the loop returns exactly the comments of the matching divs, in document order |
| CommentParser.CommentIdsFromDivs | rule34scraper/parser.py:232-248 | every returned comment carries the number of some div's `c<n>` id |
| UserProfileParser.UserIdAt | rule34scraper/parser.py:288 | `id=(\d+)` matches at a position exactly when `id=` starts there and a digit follows it; the group is the maximal digit run after the marker |
| UserProfileParser.UserIdOf | rule34scraper/parser.py:302-303 | the number after the leftmost `id=<digits>`, or 0 |
| UserProfileParser.UserIdOfLink | rule34scraper/parser.py:302-303 | a link whose first `id=` carries the digits of `n` names the user `n` |
| UserProfileParser.UserId | rule34scraper/parser.py:298-303 | the id read from the favorites link's `href` (an empty one when it has none), and 0 without the link |
| UserProfileParser.KindOf | rule34scraper/parser.py:319-338 | the labels are tried in the order `join date`, `level`, `deleted`, `posts`, `favorites`: a row is of a kind if and only if its label contains that word and none tried before it |
| UserProfileParser.LinkCount | rule34scraper/parser.py:329-338 | the count is the link text with its non-digits deleted, read as a number or 0; for an all-digit text, its value |
| UserProfileParser.LinkCountWithSeparator | rule34scraper/parser.py:329-338 | a count such as `1,234` is read without its separator |
| UserProfileParser.ApplyRow | rule34scraper/parser.py:311-338 | a row with fewer than two cells, or an unknown label, changes nothing; otherwise the field its label names is set: join date and level to the value cell's text, the deleted count to its digits, the post and favorite counts to their link's count, and without that link nothing changes |
| UserProfileParser.AccountOf | rule34scraper/parser.py:305-309 | with no rows every field keeps its default |
| UserProfileParser.JoinDateFromLastRow | rule34scraper/parser.py:319-320 | the join date is the value of the last `join date` row |
| UserProfileParser.ShortRowsIgnored | rule34scraper/parser.py:313-314 | a row with fewer than two cells can be dropped |
| UserProfileParser.ParseTable | rule34scraper/parser.py:311-338 | the row loop computes the fold `AccountOf` |
| UserProfileParser.ParseImageList | rule34scraper/parser.py:362-368 | an image list yields the posts of its complete thumbnails, in order |
| UserProfileParser.ProfileOf | rule34scraper/parser.py:292-359 | username from the heading or `""`; the account fields are those the table fold `AccountOf` computes, all at their defaults without rows; the first image list gives the recent favorites, the second the recent uploads, and further lists are ignored |
| UserProfileParser.ExtraImageListsIgnored | rule34scraper/parser.py:344-347 | lists after the second change nothing |
| UserProfileParser.ParseHtml | rule34scraper/parser.py:292-359 | always returns a record, and that record is `ProfileOf` the page |
| Client.Merge | rule34scraper/client.py:42 | `{**a, **b}` has the keys of both, and the values of `b` win |
| Client.ClientHeaders | rule34scraper/client.py:42 | every default header is present; a custom header overrides the default of the same name; the other defaults are kept |
| Client.DownloadHeaders | rule34scraper/client.py:120-124 | the client's headers, with `Accept` set to the image types and `Referer` to the base URL, and everything else kept |
| Client.ListingOffset | rule34scraper/client.py:74 | page 1 starts at offset 0; pages below 1 give a negative offset (unchecked); pages from 1 up give offsets of at least 0 |
| Client.OffsetsAdvanceByPage | rule34scraper/client.py:74 | consecutive pages start `posts_per_page` posts apart |
| Client.ListingParams | rule34scraper/client.py:75 | exactly the keys `page`, `s`, `tags`, `pid`, with `page=post`, `s=list`, the tags as given and `pid` reading back as the offset |
| Client.DetailsParams | rule34scraper/client.py:98 | exactly the keys `page`, `s`, `id`, with `page=post`, `s=view` and `id` reading back as the post id |
| Client.ProfileParams | rule34scraper/client.py:105 | exactly the keys `page`, `s`, `uname`, with `page=account`, `s=profile` and the user name as given |
| Client.DefaultBaseDetailUrl | rule34scraper/client.py:11 | with the default base, a relative href is appended after `index.php`, so the script name appears twice |
| Client.Resolve | rule34scraper/client.py:141-155 | a `PostDetails` is used as it is; an id fails with `NotFound` exactly when its lookup yields nothing and otherwise uses the looked-up record and its id; a `Post` is looked up by its id, keeps its own id, and fails the same way |
| Client.ResolveByPostUsesOnlyId | rule34scraper/client.py:150-155 | a `Post` is resolved through its id alone |
| Client.ResolveByIdIsByDetails | rule34scraper/client.py:141-149 | resolving an id is resolving the details it yields |
| Client.BeforeQuery | rule34scraper/client.py:157 | `split("?")[0]` is the prefix before the first `?` and holds no `?` |
| Client.AfterLastDot | rule34scraper/client.py:157 | `split(".")[-1]` is the suffix after the last `.` and holds no `.` |
| Client.ChosenUrl | rule34scraper/client.py:148 | the sample URL when the sample is asked for, the image URL otherwise |
| Client.ChosenUrlOfPage | rule34scraper/client.py:148 | on a parsed page whose `img#image` has a non-empty `src` the choice makes no difference; without `img#image` the sample URL is empty, while the image URL is the `href` of the link to the original when there is one |
| Client.Extension | rule34scraper/client.py:157 | the extension holds neither `.` nor `?` |
| Client.AfterLastDotOf | rule34scraper/client.py:157 | the part after a `.` with no later `.` is what `split(".")[-1]` returns |
| Client.FileName | rule34scraper/client.py:158 | the name is `str(post_id)`, then its first `.`, then the extension |
| Client.FileNameParts | rule34scraper/client.py:158 | `<id>.<ext>` splits back at its first `.` into text reading as the id and the extension |
| Client.ExtensionOfFileName | rule34scraper/client.py:157-158 | taking the extension of a file name built from a dot-free extension gives that extension back |
| Client.HttpSession.constructor | rule34scraper/client.py:49 | a new handle is open and carries the headers it was given |
| Client.HttpSession.Close | rule34scraper/client.py:55 | a closed handle is no longer open |
| Client.R34Client.constructor | rule34scraper/client.py:24-43 | the base URL without trailing slashes, the page size as given, the merged headers, and no handle yet; by default the base URL is `https://rule34.xxx/index.php` and the page size 42 |
| Client.R34Client.Client | rule34scraper/client.py:45-50 | opens a handle only when there is none, and otherwise returns the existing one |
| Client.R34Client.Close | rule34scraper/client.py:52-56 | closes the handle if there is one and leaves none |
| Client.R34Client.Enter | rule34scraper/client.py:58-59 | returns the client itself |
| Client.R34Client.Exit | rule34scraper/client.py:61-62 | closes the handle if there is one and leaves none |
| Client.R34Client.ListingRequest | rule34scraper/client.py:74-77 | the request goes to the base URL, with the tags and the offset of the page |
| Client.R34Client.DetailsRequest | rule34scraper/client.py:98-99 | the request goes to the base URL, with the post id |
| Client.R34Client.ProfileRequest | rule34scraper/client.py:105-106 | the request goes to the base URL, with the user name |
| Client.R34Client.GetPosts | rule34scraper/client.py:64-84 | opens the handle if there is none and otherwise keeps the same one, then returns the parsed posts, resolved against the client's base URL, and the sidebar tags of the fetched listing page; the tags default to `""` and the page to 1 |
| Client.R34Client.Search | rule34scraper/client.py:86-89 | the posts of `get_posts` for the tags and the page (1 by default); the handle is open afterwards, and an existing one is kept |
| Client.R34Client.GetSidebarTags | rule34scraper/client.py:91-94 | the sidebar tags of the first listing page for the tags (`""` by default); the handle is open afterwards, and an existing one is kept |
| Client.R34Client.GetPostDetails | rule34scraper/client.py:96-101 | the details of the fetched post page, never `None`; the handle is open afterwards, and an existing one is kept |
| Client.R34Client.Lookup | rule34scraper/client.py:96-101 | every id is found: the lookup yields the details parsed from the fetched post page, never nothing |
| Client.R34Client.GetUserProfile | rule34scraper/client.py:103-108 | the profile of the fetched account page, never `None`; the handle is open afterwards, and an existing one is kept |
| Client.R34Client.DownloadOf | rule34scraper/client.py:110-132 | a download of the given URL to the given path, with the download headers |
| Client.R34Client.DownloadPost | rule34scraper/client.py:134-161 | fails exactly as `Resolve` fails; otherwise downloads the resolved URL to `<id>.<ext>` in the directory (`.` by default, with the image rather than the sample by default), with the extension of that URL; a `PostDetails` leaves the handle as it was, while an id or a `Post` leaves it open, keeping an existing one |
| Client.R34Client.NeverNotFound | rule34scraper/client.py:141-155 | since the details parser never yields `None`, `download_post` never raises `ValueError` |

## Left out

- HTML parsing and CSS selection (selectolax/Lexbor) are not part of this model. A `Document` records
  what each selector returns. An element's `text(strip=True)` and `html` are taken as given.
- Transport is left out: HTTP requests, `raise_for_status`, redirects, timeouts, streaming the
  response into a file, and `mkdir`. The network is the parameter `fetch`. `download` stops at the
  request it would make.
- `httpx` treats header names case-insensitively and URL-encodes query parameters. The model keeps
  headers and parameters as plain maps of strings.
- `Path(directory) / filename` is modelled as the pair `FilePath(directory, name)`.
- `AsyncR34Client` is not modelled. It builds the same requests with `await`.
- The client's `timeout` is not modelled. It only configures the transport.
- Character classes are ASCII: `\d`, `\w`, `\s`, `isdigit`, `isspace`, `strip`, `split` and `lower`
  ignore the rest of Unicode.
- Text.ParseInt: does not model the underscores between digits or the non-ASCII digits that Python's
  `int()` accepts.
- Text.Strip: strips only the ASCII whitespace characters, where Python's `str.strip()` also strips
  Unicode spaces.
- CommentParser.ParseComment: `col2.html` being `None` is not modelled. An element always has markup,
  so `or ""` only matters through a present `.col2`.
- Attributes without a value, which selectolax reports as `None`, are not modelled. An attribute is
  either present with a string value or absent.
- `models.py` supplies only the record types, which are the datatypes of `models.dfy`. It has no
  behaviour to model.
- The package's `__init__` re-exports, the example script, the tests and the separate
  `rule34wrapper` package are not part of this model.
