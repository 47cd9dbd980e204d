/**
 * The deterministic parts of `R34Client`: its configuration, the lazily opened HTTP handle, the
 * requests it builds, and how `download_post` picks a URL and a file name. The network is a
 * parameter: `fetch` gives the parsed page the server returns for a request.
 */
module Client {
  import opened Wrappers
  import opened Text
  import opened Models
  import opened Dom
  import PostParser
  import SidebarParser
  import PostDetailsParser
  import UserProfileParser

  const DefaultBaseUrl: string := "https://rule34.xxx/index.php"
  const DefaultPostsPerPage: int := 42

  const UserAgent: string :=
    "Mozilla/5.0 (Windows NT 10.0; Win64; x64) AppleWebKit/537.36 (KHTML, like Gecko) Chrome/120.0.0.0 Safari/537.36"
  const PageAccept: string := "text/html,application/xhtml+xml,application/xml;q=0.9,image/webp,*/*;q=0.8"
  const AcceptLanguage: string := "en-US,en;q=0.5"
  const ImageAccept: string := "image/webp,image/apng,image/*,*/*;q=0.8"

  const DefaultHeaders: map<string, string> :=
    map["User-Agent" := UserAgent, "Accept" := PageAccept, "Accept-Language" := AcceptLanguage]

  // ---- headers ----

  /** Python's `{**base, **overrides}`: every key of either; a key in `overrides` takes its value. */
  function Merge(base: map<string, string>, overrides: map<string, string>): (m: map<string, string>)
    ensures m.Keys == base.Keys + overrides.Keys
    ensures forall k :: k in overrides ==> m[k] == overrides[k]
    ensures forall k :: k in base && k !in overrides ==> m[k] == base[k]
  {
    base + overrides
  }

  /** The client's headers: the defaults, overridden key by key by the custom ones. */
  function ClientHeaders(custom: Option<map<string, string>>): (h: map<string, string>)
    ensures DefaultHeaders.Keys <= h.Keys
    ensures custom.None? ==> h == DefaultHeaders
    ensures custom.Some? ==> custom.value.Keys <= h.Keys && forall k :: k in custom.value ==> h[k] == custom.value[k]
    ensures forall k :: k in DefaultHeaders && (custom.None? || k !in custom.value) ==> h[k] == DefaultHeaders[k]
  {
    Merge(DefaultHeaders, custom.GetOr(map[]))
  }

  /** The headers of a download: the client's, with `Accept` replaced and `Referer` set to the base URL. */
  function DownloadHeaders(headers: map<string, string>, baseUrl: string): (h: map<string, string>)
    ensures h.Keys == headers.Keys + {"Accept", "Referer"}
    ensures h["Accept"] == ImageAccept && h["Referer"] == baseUrl
    ensures forall k :: k in headers && k != "Accept" && k != "Referer" ==> h[k] == headers[k]
  {
    Merge(headers, map["Accept" := ImageAccept, "Referer" := baseUrl])
  }

  // ---- requests ----

  /** What is sent for a page: the base URL and the query parameters, as `httpx` renders them. */
  datatype Request = Request(url: string, params: map<string, string>)

  /** The `pid` of a listing page: `(page - 1) * posts_per_page`, unchecked, so a page below 1 gives a
      negative offset. */
  function ListingOffset(page: int, postsPerPage: int): (offset: int)
    ensures page == 1 ==> offset == 0
    ensures postsPerPage > 0 && page < 1 ==> offset < 0
    ensures postsPerPage >= 0 && page >= 1 ==> offset >= 0
  {
    (page - 1) * postsPerPage
  }

  /** Consecutive pages start `postsPerPage` posts apart. */
  lemma OffsetsAdvanceByPage(page: int, postsPerPage: int)
    ensures ListingOffset(page + 1, postsPerPage) == ListingOffset(page, postsPerPage) + postsPerPage
  {
  }

  function ListingParams(tags: string, offset: int): (params: map<string, string>)
    ensures params.Keys == {"page", "s", "tags", "pid"}
    ensures params["page"] == "post" && params["s"] == "list" && params["tags"] == tags
    ensures ParseInt(params["pid"]) == Some(offset)
  {
    map["page" := "post", "s" := "list", "tags" := tags, "pid" := IntToString(offset)]
  }

  function DetailsParams(postId: int): (params: map<string, string>)
    ensures params.Keys == {"page", "s", "id"}
    ensures params["page"] == "post" && params["s"] == "view"
    ensures ParseInt(params["id"]) == Some(postId)
  {
    map["page" := "post", "s" := "view", "id" := IntToString(postId)]
  }

  function ProfileParams(username: string): (params: map<string, string>)
    ensures params.Keys == {"page", "s", "uname"} && params["uname"] == username
    ensures params["page"] == "account" && params["s"] == "profile"
  {
    map["page" := "account", "s" := "profile", "uname" := username]
  }

  /** With the default base URL, which ends in `index.php`, a relative thumbnail link such as
      `index.php?page=post&s=view&id=1` is appended after it, so the script name appears twice. */
  lemma DefaultBaseDetailUrl(href: string)
    requires href == [] || href[0] != '/'
    requires !StartsWith(href, "http")
    ensures PostParser.DetailUrl(href, DefaultBaseUrl) == DefaultBaseUrl + "/" + href
  {
    assert PostParser.Repeat('/', 0) == [];
    assert DefaultBaseUrl[|DefaultBaseUrl| - 1] == 'p';
    PostParser.DetailUrlOneSlash(DefaultBaseUrl, 0, href, 0);
    assert DefaultBaseUrl + [] == DefaultBaseUrl && [] + href == href;
  }

  // ---- downloads ----

  /** What `download_post` may be given. */
  datatype PostRef = ById(id: int) | ByPost(post: Post) | ByDetails(details: PostDetails)

  /** The `ValueError` raised when the details of a post cannot be had. */
  datatype DownloadError = NotFound(id: int)

  /** The URL and the id that `download_post` settles on. */
  datatype Target = Target(postId: int, url: string)

  /** `post.sample_url if use_sample else post.image_url`. */
  function ChosenUrl(d: PostDetails, useSample: bool): (url: string)
    ensures useSample ==> url == d.sampleUrl
    ensures !useSample ==> url == d.imageUrl
  {
    if useSample then d.sampleUrl else d.imageUrl
  }

  /** On a parsed page the choice matters only without `img#image`: then the sample URL is empty,
      while the image URL may still come from the link to the original. */
  lemma ChosenUrlOfPage(doc: Document, useSample: bool)
    ensures PostDetailsParser.SampleUrl(doc) != "" ==>
              ChosenUrl(PostDetailsParser.DetailsOf(doc), useSample) == PostDetailsParser.SampleUrl(doc)
    ensures doc.mainImage.None? && useSample ==> ChosenUrl(PostDetailsParser.DetailsOf(doc), useSample) == ""
    ensures doc.mainImage.None? && !useSample ==>
              ChosenUrl(PostDetailsParser.DetailsOf(doc), useSample) == PostDetailsParser.ImageUrl(doc)
  {
  }

  /** `download_post` before the download: an id is looked up and its details used; a `Post` is
      always looked up again by its id, but keeps that id; a `PostDetails` is used as it is. A lookup
      that yields nothing is `NotFound`. */
  function Resolve(ref: PostRef, useSample: bool, lookup: int -> Option<PostDetails>): (r: Result<Target, DownloadError>)
    ensures ref.ByDetails? ==> r == Success(Target(ref.details.id, ChosenUrl(ref.details, useSample)))
    ensures ref.ById? ==> (r.Failure? <==> lookup(ref.id).None?)
    ensures ref.ById? && r.Failure? ==> r.error == NotFound(ref.id)
    ensures ref.ById? && r.Success? ==>
              r.value == Target(lookup(ref.id).value.id, ChosenUrl(lookup(ref.id).value, useSample))
    ensures ref.ByPost? ==> (r.Failure? <==> lookup(ref.post.id).None?)
    ensures ref.ByPost? && r.Failure? ==> r.error == NotFound(ref.post.id)
    ensures ref.ByPost? && r.Success? ==>
              r.value == Target(ref.post.id, ChosenUrl(lookup(ref.post.id).value, useSample))
  {
    match ref
    case ById(id) =>
      (match lookup(id)
       case None => Failure(NotFound(id))
       case Some(d) => Success(Target(d.id, ChosenUrl(d, useSample))))
    case ByPost(p) =>
      (match lookup(p.id)
       case None => Failure(NotFound(p.id))
       case Some(d) => Success(Target(p.id, ChosenUrl(d, useSample))))
    case ByDetails(d) => Success(Target(d.id, ChosenUrl(d, useSample)))
  }

  /** A `Post` is resolved through its id alone: its other fields make no difference. */
  lemma ResolveByPostUsesOnlyId(p: Post, q: Post, useSample: bool, lookup: int -> Option<PostDetails>)
    requires p.id == q.id
    ensures Resolve(ByPost(p), useSample, lookup) == Resolve(ByPost(q), useSample, lookup)
  {
  }

  /** Resolving an id is resolving the details it yields. */
  lemma ResolveByIdIsByDetails(id: int, useSample: bool, lookup: int -> Option<PostDetails>)
    requires lookup(id).Some?
    ensures Resolve(ById(id), useSample, lookup) == Resolve(ByDetails(lookup(id).value), useSample, lookup)
  {
  }

  predicate NotQuestion(c: char) { c != '?' }
  predicate NotDot(c: char) { c != '.' }

  /** `url.split("?")[0]`: everything before the first `?`. */
  function BeforeQuery(url: string): (part: string)
    ensures '?' !in part
    ensures |part| <= |url| && part == url[..|part|]
    ensures |part| < |url| ==> url[|part|] == '?'
  {
    var n := RunLength(url, 0, NotQuestion);
    assert forall k :: 0 <= k < n ==> url[..n][k] == url[k];
    url[..n]
  }

  /** `part.split(".")[-1]`: everything after the last `.` (all of `part` when it has none). */
  function AfterLastDot(part: string): (ext: string)
    ensures '.' !in ext
    ensures |ext| <= |part| && ext == part[|part| - |ext|..]
    ensures |ext| < |part| ==> part[|part| - |ext| - 1] == '.'
    decreases |part|
  {
    if part == [] || part[|part| - 1] == '.' then []
    else AfterLastDot(part[..|part| - 1]) + [part[|part| - 1]]
  }

  /** The extension of a download: after the last `.` of the URL before its first `?`; it holds
      neither `.` nor `?`. */
  function Extension(url: string): (ext: string)
    ensures '.' !in ext && '?' !in ext
  {
    var part := BeforeQuery(url);
    var ext := AfterLastDot(part);
    assert '?' !in ext by {
      forall k | 0 <= k < |ext| ensures ext[k] != '?' {
        var j := |part| - |ext| + k;
        assert ext[k] == part[j] && part[j] in part;
      }
    }
    ext
  }

  /** `f"{post_id}.{ext}"`. */
  function FileName(postId: int, ext: string): (name: string)
    ensures var n := |IntToString(postId)|;
            && n < |name| && name[n] == '.' && name[n + 1..] == ext
            && forall k :: 0 <= k < n ==> name[k] != '.'
  {
    var stem := IntToString(postId);
    DottedParts(stem, ext);
    DottedChars(stem, ext);
    StemHasNoDot(postId);
    stem + "." + ext
  }

  /** The decimal text of an id has no `.`. */
  lemma StemHasNoDot(postId: int)
    ensures forall k :: 0 <= k < |IntToString(postId)| ==> IntToString(postId)[k] != '.'
  {
    var stem := IntToString(postId);
    forall k | 0 <= k < |stem| ensures stem[k] != '.' {
      if postId < 0 && k > 0 {
        assert stem[k] == stem[1..][k - 1];
      }
    }
  }

  /** A file name splits back at its first `.` into the post id and the extension. */
  lemma FileNameParts(postId: int, ext: string)
    ensures var name, n := FileName(postId, ext), |IntToString(postId)|;
            n < |name| && ParseInt(name[..n]) == Some(postId) && name[n] == '.' && name[n + 1..] == ext
  {
    DottedParts(IntToString(postId), ext);
  }

  /** `stem.ext` splits back into the stem, the `.` and the extension. */
  lemma DottedParts(stem: string, ext: string)
    ensures var name := stem + "." + ext;
            |stem| < |name| && name[..|stem|] == stem && name[|stem|] == '.' && name[|stem| + 1..] == ext
  {
    var name := stem + "." + ext;
    assert name[..|stem|] == stem;
    assert name[|stem| + 1..] == ext;
  }

  /** The characters of `stem.ext`: the stem, the `.`, then the extension. */
  lemma DottedChars(stem: string, ext: string)
    ensures var name := stem + "." + ext;
            && |name| == |stem| + 1 + |ext| && name[|stem|] == '.'
            && (forall k :: 0 <= k < |stem| ==> name[k] == stem[k])
            && (forall k :: |stem| < k < |name| ==> name[k] == ext[k - |stem| - 1])
  {
  }

  /** `stem.ext` without a `?` in either part has no query part to cut off. */
  lemma DottedHasNoQuery(stem: string, ext: string)
    requires '?' !in stem && '?' !in ext
    ensures BeforeQuery(stem + "." + ext) == stem + "." + ext
  {
    var name := stem + "." + ext;
    DottedChars(stem, ext);
    forall k | 0 <= k < |name| ensures name[k] != '?' {
      if k < |stem| {
        assert name[k] == stem[k] && stem[k] in stem;
      } else if k > |stem| {
        assert name[k] == ext[k - |stem| - 1] && ext[k - |stem| - 1] in ext;
      }
    }
    var part := BeforeQuery(name);
    assert |part| == |name|;
  }

  /** The extension of `stem.ext`, for a dot-free extension and a stem without `?`, is the extension. */
  lemma DottedExtension(stem: string, ext: string)
    requires '.' !in ext && '?' !in ext && '?' !in stem
    ensures Extension(stem + "." + ext) == ext
  {
    var name := stem + "." + ext;
    DottedChars(stem, ext);
    DottedHasNoQuery(stem, ext);
    assert forall k :: |stem| < k < |name| ==> name[k] != '.';
    AfterLastDotOf(name, |stem|);
    assert name[|stem| + 1..] == ext;
  }

  /** The extension of a file name built from an extension is that extension again. */
  lemma ExtensionOfFileName(postId: int, ext: string)
    requires '.' !in ext && '?' !in ext
    ensures Extension(FileName(postId, ext)) == ext
  {
    StemHasNoQuery(postId);
    DottedExtension(IntToString(postId), ext);
  }

  /** The decimal text of an id has no `?`. */
  lemma StemHasNoQuery(postId: int)
    ensures '?' !in IntToString(postId)
  {
    var stem := IntToString(postId);
    forall k | 0 <= k < |stem| ensures stem[k] != '?' {
      if postId < 0 && k > 0 {
        assert stem[k] == stem[1..][k - 1];
      }
    }
  }

  /** What follows the last `.` of `part` is what `AfterLastDot` returns. */
  lemma AfterLastDotOf(part: string, i: nat)
    requires i < |part| && part[i] == '.'
    requires forall k :: i < k < |part| ==> part[k] != '.'
    ensures AfterLastDot(part) == part[i + 1..]
  {
    var ext := AfterLastDot(part);
    assert forall j :: |part| - |ext| <= j < |part| ==> part[j] in ext;
  }

  /** The file a download writes: the directory and the name within it. */
  datatype FilePath = FilePath(directory: string, name: string)

  /** A download ready to be performed: where from, where to, and with which headers. */
  datatype Download = Download(url: string, path: FilePath, headers: map<string, string>)

  // ---- the client ----

  /** The HTTP handle (`httpx.Client`): open until closed, with the headers it was created with. */
  class HttpSession {
    var isOpen: bool
    const headers: map<string, string>

    constructor(headers: map<string, string>)
      ensures isOpen && this.headers == headers
    {
      this.headers := headers;
      isOpen := true;
    }

    method Close()
      modifies this
      ensures !isOpen
    {
      isOpen := false;
    }
  }

  class R34Client {
    const baseUrl: string
    const postsPerPage: int
    const headers: map<string, string>
    var session: HttpSession?

    /** An open handle is the only state: when there is one it is open and carries the client's headers. */
    predicate Valid()
      reads this, session
    {
      session != null ==> session.isOpen && session.headers == headers
    }

    /** `__init__`: trailing slashes dropped from the base URL, headers merged, no handle yet. */
    constructor(baseUrl: string := DefaultBaseUrl, postsPerPage: int := DefaultPostsPerPage,
                custom: Option<map<string, string>> := None)
      ensures Valid() && session == null
      ensures this.baseUrl == TrimRight(baseUrl, PostParser.IsSlash)
      ensures this.postsPerPage == postsPerPage
      ensures this.headers == ClientHeaders(custom)
    {
      this.baseUrl := TrimRight(baseUrl, PostParser.IsSlash);
      this.postsPerPage := postsPerPage;
      this.headers := ClientHeaders(custom);
      session := null;
    }

    /** The `client` property: opens a handle only when there is none, and otherwise returns the
        same one. */
    method Client() returns (s: HttpSession)
      requires Valid()
      modifies this
      ensures Valid() && session == s && s.isOpen
      ensures old(session) != null ==> s == old(session)
      ensures old(session) == null ==> fresh(s)
    {
      if session == null {
        session := new HttpSession(headers);
      }
      s := session;
    }

    /** `close`: releases the handle if there is one; with none it does nothing. */
    method Close()
      requires Valid()
      modifies this, session
      ensures Valid() && session == null
      ensures old(session) != null ==> !old(session).isOpen
    {
      if session != null {
        session.Close();
        session := null;
      }
    }

    /** `__enter__`: the client itself. */
    method Enter() returns (c: R34Client)
      ensures c == this
    {
      c := this;
    }

    /** `__exit__`: `close`. */
    method Exit()
      requires Valid()
      modifies this, session
      ensures Valid() && session == null
      ensures old(session) != null ==> !old(session).isOpen
    {
      Close();
    }

    /** The request for a page of the listing. */
    function ListingRequest(tags: string, page: int): (req: Request)
      ensures req.url == baseUrl && "pid" in req.params && "tags" in req.params
      ensures ParseInt(req.params["pid"]) == Some(ListingOffset(page, postsPerPage))
      ensures req.params["tags"] == tags
    {
      Request(baseUrl, ListingParams(tags, ListingOffset(page, postsPerPage)))
    }

    function DetailsRequest(postId: int): (req: Request)
      ensures req.url == baseUrl && "id" in req.params && ParseInt(req.params["id"]) == Some(postId)
    {
      Request(baseUrl, DetailsParams(postId))
    }

    function ProfileRequest(username: string): (req: Request)
      ensures req.url == baseUrl && "uname" in req.params && req.params["uname"] == username
    {
      Request(baseUrl, ProfileParams(username))
    }

    /** `get_posts`: the listing page's posts, with detail URLs built on the client's base URL,
        and its sidebar tags. */
    method GetPosts(fetch: Request -> Document, tags: string := "", page: int := 1) returns (posts: seq<Post>, sidebar: seq<Tag>)
      requires Valid()
      modifies this
      ensures Valid() && session != null
      ensures old(session) != null ==> session == old(session)
      ensures posts == PostParser.Posts(fetch(ListingRequest(tags, page)).thumbs, baseUrl)
      ensures sidebar == SidebarParser.SidebarTags(fetch(ListingRequest(tags, page)).tagSidebar)
    {
      var handle := Client();
      var doc := fetch(ListingRequest(tags, page));
      posts := PostParser.ParseHtml(doc, baseUrl);
      sidebar := SidebarParser.ParseHtml(doc);
    }

    /** `search`: the posts of `get_posts`. */
    method Search(fetch: Request -> Document, tags: string, page: int := 1) returns (posts: seq<Post>)
      requires Valid()
      modifies this
      ensures Valid() && session != null
      ensures old(session) != null ==> session == old(session)
      ensures posts == PostParser.Posts(fetch(ListingRequest(tags, page)).thumbs, baseUrl)
    {
      var sidebar;
      posts, sidebar := GetPosts(fetch, tags, page);
    }

    /** `get_sidebar_tags`: the sidebar of the first listing page. */
    method GetSidebarTags(fetch: Request -> Document, tags: string := "") returns (sidebar: seq<Tag>)
      requires Valid()
      modifies this
      ensures Valid() && session != null
      ensures old(session) != null ==> session == old(session)
      ensures sidebar == SidebarParser.SidebarTags(fetch(ListingRequest(tags, 1)).tagSidebar)
    {
      var posts;
      posts, sidebar := GetPosts(fetch, tags, 1);
    }

    /** `get_post_details`: never `None`, since the parser never is. */
    method GetPostDetails(postId: int, fetch: Request -> Document) returns (details: Option<PostDetails>)
      requires Valid()
      modifies this
      ensures Valid() && session != null
      ensures old(session) != null ==> session == old(session)
      ensures details == Some(PostDetailsParser.DetailsOf(fetch(DetailsRequest(postId))))
    {
      var handle := Client();
      details := PostDetailsParser.ParseHtml(fetch(DetailsRequest(postId)));
    }

    /** `get_user_profile`: never `None`, since the parser never is. */
    method GetUserProfile(username: string, fetch: Request -> Document) returns (profile: Option<UserProfile>)
      requires Valid()
      modifies this
      ensures Valid() && session != null
      ensures old(session) != null ==> session == old(session)
      ensures profile == Some(UserProfileParser.ProfileOf(fetch(ProfileRequest(username)), baseUrl))
    {
      var handle := Client();
      profile := UserProfileParser.ParseHtml(fetch(ProfileRequest(username)), baseUrl);
    }

    /** What `get_post_details` yields for each id. */
    function Lookup(fetch: Request -> Document): (lookup: int -> Option<PostDetails>)
      ensures forall id :: lookup(id) == Some(PostDetailsParser.DetailsOf(fetch(DetailsRequest(id))))
    {
      id => Some(PostDetailsParser.DetailsOf(fetch(DetailsRequest(id))))
    }

    /** `download`, short of the transfer: the request it would stream to the file. */
    function DownloadOf(url: string, path: FilePath): (d: Download)
      ensures d.url == url && d.path == path
      ensures d.headers == DownloadHeaders(headers, baseUrl)
    {
      Download(url, path, DownloadHeaders(headers, baseUrl))
    }

    /** `download_post`: the URL is settled as `Resolve` says, the file is named `<id>.<ext>` in
        `directory`, and the download is made with the download headers. */
    method DownloadPost(ref: PostRef, fetch: Request -> Document, directory: string := ".", useSample: bool := false)
      returns (r: Result<Download, DownloadError>)
      requires Valid()
      modifies this
      ensures Valid()
      ensures ref.ByDetails? ==> session == old(session)
      ensures !ref.ByDetails? ==> session != null && (old(session) != null ==> session == old(session))
      ensures Resolve(ref, useSample, Lookup(fetch)).Failure? ==> r == Failure(Resolve(ref, useSample, Lookup(fetch)).error)
      ensures Resolve(ref, useSample, Lookup(fetch)).Success? ==>
                var t := Resolve(ref, useSample, Lookup(fetch)).value;
                r == Success(DownloadOf(t.url, FilePath(directory, FileName(t.postId, Extension(t.url)))))
    {
      var postId: int;
      var url: string;
      match ref {
        case ById(id) =>
          var details := GetPostDetails(id, fetch);
          if details.None? {
            return Failure(NotFound(id));
          }
          postId, url := details.value.id, ChosenUrl(details.value, useSample);
        case ByPost(p) =>
          var details := GetPostDetails(p.id, fetch);
          if details.None? {
            return Failure(NotFound(p.id));
          }
          postId, url := p.id, ChosenUrl(details.value, useSample);
        case ByDetails(d) =>
          postId, url := d.id, ChosenUrl(d, useSample);
      }
      var path := FilePath(directory, FileName(postId, Extension(url)));
      r := Success(DownloadOf(url, path));
    }

    /** Since `get_post_details` never yields `None`, `download_post` never raises `ValueError`. */
    lemma NeverNotFound(ref: PostRef, useSample: bool, fetch: Request -> Document)
      ensures Resolve(ref, useSample, Lookup(fetch)).Success?
    {
    }
  }
}
