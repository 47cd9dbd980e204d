/** The records the parsers produce (the dataclasses of rule34scraper/models.py). */
module Models {
  import opened Wrappers

  /** A listing thumbnail. */
  datatype Post = Post(
    id: int,
    previewUrl: string,
    tags: seq<string>,
    score: int,
    rating: string,
    detailUrl: string,
    isVideo: bool)

  /** A sidebar tag; `tagType` is the dataclass field `type`. */
  datatype Tag = Tag(name: string, count: int, tagType: string)

  datatype PostComment = PostComment(id: int, username: string, text: string, score: int, timestamp: string)

  datatype PostDetails = PostDetails(
    id: int,
    imageUrl: string,
    sampleUrl: string,
    width: int,
    height: int,
    rating: string,
    score: int,
    uploader: string,
    postedAt: string,
    sourceUrl: Option<string>,
    tags: seq<Tag>,
    comments: seq<PostComment>)

  datatype UserProfile = UserProfile(
    username: string,
    id: int,
    joinDate: string,
    level: string,
    postCount: int,
    deletedPostCount: int,
    favoriteCount: int,
    recentUploads: seq<Post>,
    recentFavorites: seq<Post>)
}
