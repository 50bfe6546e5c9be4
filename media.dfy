/**
 * Media selection in src/enhanced-downloader.ts (and the same
 * `getPlatform`/`getBestQualityMedia` in dist/index.mjs): which platform an
 * address belongs to, which item of a post is downloaded, and the photo and
 * video lists of `downloadAllPhotos` and `downloadAllMedia`.
 */
module Media {
  import opened Wrappers
  import opened Text
  import opened Ranking
  import Utils

  // ---------------------------------------------------------------------------
  // Data

  /**
   * A media item. A missing `url`, `type`, `thumbnail`, `duration`, `title`,
   * `author` or `description` is the empty string and a missing `quality` is 0: the code only reads them
   * through `||` and `===`, where the two behave alike.
   */
  datatype Item = Item(url: string, kind: string, quality: int, thumbnail: string, duration: string, title: string,
                       author: string, description: string)

  /** The post `snapsave` returns: its own fields and its media list. */
  datatype Post = Post(title: string, description: string, duration: string, author: string, thumbnail: string,
                       preview: string, media: seq<Item>)

  // ---------------------------------------------------------------------------
  // getPlatform

  datatype Platform = TikTok | TwitterX | Facebook | Instagram | Unknown

  /** The tests of `getPlatform`, in order. */
  function PlatformOf(url: string): Platform
  {
    if Contains(url, "tiktok") then TikTok
    else if Contains(url, "twitter") || Contains(url, "x.com") then TwitterX
    else if Contains(url, "facebook") then Facebook
    else if Contains(url, "instagram") then Instagram
    else Unknown
  }

  /** The name src/enhanced-downloader.ts gives. */
  function PlatformName(p: Platform): string
  {
    match p
    case TikTok => "Tiktok"
    case TwitterX => "Twitter/X"
    case Facebook => "Facebook"
    case Instagram => "Instagram"
    case Unknown => "Unknown"
  }

  /** The name dist/index.mjs gives: the same except for the capital T of TikTok. */
  function DistPlatformName(p: Platform): string
  {
    if p == TikTok then "TikTok" else PlatformName(p)
  }

  /**
   * Each platform is chosen exactly when its words occur and the words of
   * every platform tested before it do not.
   */
  lemma PlatformPriority(url: string)
    ensures PlatformOf(url) == TikTok <==> Contains(url, "tiktok")
    ensures PlatformOf(url) == TwitterX <==> !Contains(url, "tiktok") && (Contains(url, "twitter") || Contains(url, "x.com"))
    ensures PlatformOf(url) == Facebook <==> !Contains(url, "tiktok") && !Contains(url, "twitter") && !Contains(url, "x.com") && Contains(url, "facebook")
    ensures PlatformOf(url) == Instagram <==> !Contains(url, "tiktok") && !Contains(url, "twitter") && !Contains(url, "x.com") && !Contains(url, "facebook") && Contains(url, "instagram")
  {
  }

  /** The two builds name every platform alike but TikTok. */
  lemma PlatformNamesAgree(p: Platform)
    ensures DistPlatformName(p) == PlatformName(p) <==> p != TikTok
  {
  }

  // ---------------------------------------------------------------------------
  // getBestQualityMedia and the highest-quality reduce

  /** `item.quality || 0`. */
  function QualityKey(m: Item): int
  {
    m.quality
  }

  predicate IsVideo(m: Item)
  {
    m.kind == "video"
  }

  /** `getBestQualityMedia(media)`: sort by quality, largest first; the first video, else the head. */
  function BestQualityMedia(media: seq<Item>): Option<Item>
  {
    if media == [] then None
    else
      var sorted := SortDesc(media, QualityKey);
      match Find(IsVideo, sorted)
      case Some(v) => Some(v)
      case None => Some(sorted[0])
  }

  /**
   * Nothing exactly for an empty list; otherwise the earliest video of the
   * largest quality when there is a video, and the earliest item of the
   * largest quality when there is none.
   */
  lemma BestQualityMediaIs(media: seq<Item>)
    ensures BestQualityMedia(media).None? <==> media == []
    ensures media != [] && Filter(IsVideo, media) != [] ==> BestQualityMedia(media) == Some(FirstMax(Filter(IsVideo, media), QualityKey))
    ensures media != [] && Filter(IsVideo, media) == [] ==> BestQualityMedia(media) == Some(FirstMax(media, QualityKey))
  {
    if media != [] {
      FindSorted(IsVideo, media, QualityKey);
      SortHead(media, QualityKey);
    }
  }

  /** The pick is a video of the list whenever the list holds one, and its quality is the largest among videos. */
  lemma BestVideoQuality(media: seq<Item>)
    requires Filter(IsVideo, media) != []
    ensures BestQualityMedia(media).Some? && IsVideo(BestQualityMedia(media).value)
    ensures forall j :: 0 <= j < |Filter(IsVideo, media)| ==> Filter(IsVideo, media)[j].quality <= BestQualityMedia(media).value.quality
  {
    BestQualityMediaIs(media);
    FilterSatisfies(IsVideo, media);
    var vs := Filter(IsVideo, media);
    assert IsFirstMax(vs, FirstMaxIndex(vs, QualityKey), QualityKey);
  }

  /** `allMedia.reduce((best, current) => (current.quality || 0) > (best.quality || 0) ? current : best, bestMedia)`. */
  function HighestQuality(best: Item, all: seq<Item>): Item
  {
    ReduceBest(best, all, QualityKey)
  }

  /**
   * The reduce gives an item whose quality is at least every item's; it is
   * the starting item unless some item has a strictly larger quality, and
   * then the earliest item of the largest quality.
   */
  lemma HighestQualityIs(best: Item, all: seq<Item>)
    ensures forall j :: 0 <= j < |all| ==> all[j].quality <= HighestQuality(best, all).quality
    ensures best.quality <= HighestQuality(best, all).quality
    ensures (forall j :: 0 <= j < |all| ==> all[j].quality <= best.quality) ==> HighestQuality(best, all) == best
    ensures HighestQuality(best, all) == FirstMax([best] + all, QualityKey)
  {
    ReduceBestFirstMax(best, all, QualityKey);
    var s := [best] + all;
    var i := FirstMaxIndex(s, QualityKey);
    assert forall j :: 0 <= j < |all| ==> all[j] == s[j + 1];
    assert s[0] == best;
  }

  /** The `data` of `enhancedDownload`'s answer. */
  datatype Download = Download(title: string, description: string, duration: string, author: string,
                               thumbnail: string, preview: string, downloadUrl: string, kind: string,
                               quality: int, filename: string, platform: string)

  /**
   * `enhancedDownload` once `snapsave` has returned the post: `None` is the
   * "No download links found" failure. The link is the best item's, while
   * the file type comes from the highest-quality item.
   */
  function EnhancedDownload(url: string, post: Post, iso: string): Option<Download>
  {
    match BestQualityMedia(post.media)
    case None => None
    case Some(best) =>
      if best.url == "" then None
      else
        var highest := HighestQuality(best, post.media);
        var platform := PlatformName(PlatformOf(url));
        Some(Download(OrElse(post.title, OrElse(best.title, platform + " Media")),
          OrElse(post.description, best.description), OrElse(post.duration, best.duration),
          OrElse(post.author, best.author), OrElse(post.thumbnail, OrElse(best.thumbnail, post.preview)),
          post.preview, best.url, OrElse(best.kind, "video"), best.quality,
          Utils.CleanFilename(OrElse(post.title, OrElse(best.title, OrElse(highest.title, "video"))),
            OrElse(highest.kind, OrElse(best.kind, "video")), "", iso),
          platform))
  }

  /**
   * It fails exactly when the post has no media or the best item has no
   * address. Otherwise it links to the best item and names the platform;
   * each text field is the post's own, else the best item's, else a
   * default; and the file is named after the title and the type of the
   * earliest item of largest quality among the best item and the media.
   */
  lemma EnhancedDownloadIs(url: string, post: Post, iso: string)
    ensures EnhancedDownload(url, post, iso).None? <==> post.media == [] || BestQualityMedia(post.media).value.url == ""
    ensures EnhancedDownload(url, post, iso).Some? ==>
      EnhancedDownload(url, post, iso).value.downloadUrl == BestQualityMedia(post.media).value.url != ""
      && EnhancedDownload(url, post, iso).value.quality == BestQualityMedia(post.media).value.quality
      && EnhancedDownload(url, post, iso).value.platform == PlatformName(PlatformOf(url))
    ensures EnhancedDownload(url, post, iso).Some? ==>
      var d := EnhancedDownload(url, post, iso).value;
      var best := BestQualityMedia(post.media).value;
      var top := FirstMax([best] + post.media, QualityKey);
      d.kind == (if best.kind != "" then best.kind else "video")
      && d.title == (if post.title != "" then post.title else if best.title != "" then best.title else d.platform + " Media")
      && d.description == (if post.description != "" then post.description else best.description)
      && d.duration == (if post.duration != "" then post.duration else best.duration)
      && d.author == (if post.author != "" then post.author else best.author)
      && d.thumbnail == (if post.thumbnail != "" then post.thumbnail else if best.thumbnail != "" then best.thumbnail else post.preview)
      && d.preview == post.preview
      && d.filename == Utils.CleanFilename(OrElse(post.title, OrElse(best.title, OrElse(top.title, "video"))),
           OrElse(top.kind, OrElse(best.kind, "video")), "", iso)
  {
    BestQualityMediaIs(post.media);
    if post.media != [] {
      HighestQualityIs(BestQualityMedia(post.media).value, post.media);
    }
  }

  // ---------------------------------------------------------------------------
  // The photo and video lists

  predicate IsPhoto(m: Item)
  {
    m.kind == "image" || m.kind == "photo"
  }

  /** `item.quality || 500`. */
  function QualityOr500(q: int): (r: int)
    ensures r != 0
  {
    if q == 0 then 500 else q
  }

  /** `items.map((item, index) => entry(item, index + 1))`: positions count from 1. */
  function Numbered<T>(items: seq<Item>, entry: (Item, nat) -> T): (r: seq<T>)
    ensures |r| == |items|
  {
    seq(|items|, i requires 0 <= i < |items| => entry(items[i], i + 1))
  }

  /** Filtering a numbered list keeps elements that come from it. */
  lemma NumberedSource<T>(items: seq<Item>, entry: (Item, nat) -> T, keep: T -> bool, i: nat)
    requires i < |Filter(keep, Numbered(items, entry))|
    ensures exists k: nat :: k < |items| && Filter(keep, Numbered(items, entry))[i] == entry(items[k], k + 1)
  {
    FilterFrom(keep, Numbered(items, entry), i);
  }

  /**
   * When every entry carries its own position and satisfies `good`, filtering
   * the numbered list keeps entries that satisfy `keep` and `good`, whose
   * positions lie in 1..|items| and strictly increase.
   */
  lemma NumberedKept<T>(items: seq<Item>, entry: (Item, nat) -> T, keep: T -> bool, position: T -> int, good: T -> bool)
    requires forall m, n :: position(entry(m, n)) == n && good(entry(m, n))
    ensures var kept := Filter(keep, Numbered(items, entry));
      forall i :: 0 <= i < |kept| ==> 1 <= position(kept[i]) <= |items| && keep(kept[i]) && good(kept[i])
    ensures var kept := Filter(keep, Numbered(items, entry));
      forall i, j :: 0 <= i < j < |kept| ==> position(kept[i]) < position(kept[j])
  {
    var numbered := Numbered(items, entry);
    var kept := Filter(keep, numbered);
    forall i | 0 <= i < |kept|
      ensures 1 <= position(kept[i]) <= |items| && good(kept[i])
    {
      FilterFrom(keep, numbered, i);
      var k :| 0 <= k < |numbered| && numbered[k] == kept[i];
      assert position(numbered[k]) == k + 1 && good(numbered[k]);
    }
    FilterSatisfies(keep, numbered);
    FilterIncreasing(keep, numbered, position);
  }

  /** The entry made for the photo at 1-based position `index` among the photos. */
  function PhotoEntry(post: Post, m: Item, index: nat, iso: string): Utils.Photo
  {
    Utils.Photo(m.url,
      Utils.CleanFilename(OrElse(post.title, "photo") + "_" + DecimalString(index), "image", "jpg", iso),
      index, QualityOr500(m.quality), OrElse(m.thumbnail, OrElse(post.thumbnail, post.preview)))
  }

  function PhotoEntries(post: Post, iso: string): (Item, nat) -> Utils.Photo
  {
    (m: Item, n: nat) => PhotoEntry(post, m, n, iso)
  }

  /** `.filter(photo => photo.url && photo.url.startsWith('http'))`. */
  predicate KeepPhoto(p: Utils.Photo)
  {
    p.url != "" && StartsWith(p.url, "http")
  }

  function PhotoIndex(p: Utils.Photo): int
  {
    p.index
  }

  /** The photo list of `downloadAllPhotos` and `downloadAllMedia`. */
  function Photos(post: Post, iso: string): seq<Utils.Photo>
  {
    Filter(KeepPhoto, Numbered(Filter(IsPhoto, post.media), PhotoEntries(post, iso)))
  }

  predicate PhotoHasQuality(p: Utils.Photo)
  {
    p.quality != 0
  }

  /**
   * Photos are numbered 1..k over all image items before the address test:
   * the numbers of the kept photos strictly increase, every kept address
   * starts with `http`, and no kept photo has quality 0 (500 stands in for a
   * missing one).
   */
  lemma PhotoNumbering(post: Post, iso: string)
    ensures var photos := Photos(post, iso);
      forall i :: 0 <= i < |photos| ==>
        1 <= photos[i].index <= |Filter(IsPhoto, post.media)| && StartsWith(photos[i].url, "http") && photos[i].quality != 0
    ensures var photos := Photos(post, iso);
      forall i, j :: 0 <= i < j < |photos| ==> photos[i].index < photos[j].index
  {
    var items := Filter(IsPhoto, post.media);
    var entry := PhotoEntries(post, iso);
    forall m: Item, n: nat ensures PhotoIndex(entry(m, n)) == n && PhotoHasQuality(entry(m, n)) {
      assert entry(m, n) == PhotoEntry(post, m, n, iso);
    }
    NumberedKept(items, entry, KeepPhoto, PhotoIndex, PhotoHasQuality);
    var photos := Photos(post, iso);
    assert photos == Filter(KeepPhoto, Numbered(items, entry));
    forall i | 0 <= i < |photos|
      ensures 1 <= photos[i].index <= |items| && StartsWith(photos[i].url, "http") && photos[i].quality != 0
    {
      assert PhotoIndex(photos[i]) == photos[i].index && KeepPhoto(photos[i]) && PhotoHasQuality(photos[i]);
    }
    forall i, j | 0 <= i < j < |photos| ensures photos[i].index < photos[j].index {
      assert PhotoIndex(photos[i]) < PhotoIndex(photos[j]);
    }
  }

  /** Each kept photo is the entry made for the image item at its number. */
  lemma PhotoSource(post: Post, iso: string, i: nat)
    requires i < |Photos(post, iso)|
    ensures var images := Filter(IsPhoto, post.media); var p := Photos(post, iso)[i];
      1 <= p.index <= |images| && p == PhotoEntry(post, images[p.index - 1], p.index, iso)
  {
    var images := Filter(IsPhoto, post.media);
    NumberedSource(images, PhotoEntries(post, iso), KeepPhoto, i);
    var k: nat :| k < |images| && Photos(post, iso)[i] == PhotoEntries(post, iso)(images[k], k + 1);
    assert PhotoEntries(post, iso)(images[k], k + 1) == PhotoEntry(post, images[k], k + 1, iso);
  }

  /** A video entry of `downloadAllMedia`. */
  datatype Video = Video(url: string, filename: string, index: nat, quality: int, thumbnail: string, duration: string)

  function VideoEntry(post: Post, m: Item, index: nat, iso: string): Video
  {
    Video(m.url,
      Utils.CleanFilename(OrElse(post.title, "video") + "_" + DecimalString(index), "video", "mp4", iso),
      index, QualityOr500(m.quality), OrElse(m.thumbnail, OrElse(post.thumbnail, post.preview)), m.duration)
  }

  function VideoEntries(post: Post, iso: string): (Item, nat) -> Video
  {
    (m: Item, n: nat) => VideoEntry(post, m, n, iso)
  }

  predicate KeepVideo(v: Video)
  {
    v.url != "" && StartsWith(v.url, "http")
  }

  function VideoIndex(v: Video): int
  {
    v.index
  }

  /** The video list of `downloadAllMedia`. */
  function Videos(post: Post, iso: string): seq<Video>
  {
    Filter(KeepVideo, Numbered(Filter(IsVideo, post.media), VideoEntries(post, iso)))
  }

  predicate VideoHasQuality(v: Video)
  {
    v.quality != 0
  }

  /** Videos are numbered like photos, over the items of type `video`. */
  lemma VideoNumbering(post: Post, iso: string)
    ensures var videos := Videos(post, iso);
      forall i :: 0 <= i < |videos| ==>
        1 <= videos[i].index <= |Filter(IsVideo, post.media)| && StartsWith(videos[i].url, "http") && videos[i].quality != 0
    ensures var videos := Videos(post, iso);
      forall i, j :: 0 <= i < j < |videos| ==> videos[i].index < videos[j].index
  {
    var items := Filter(IsVideo, post.media);
    var entry := VideoEntries(post, iso);
    forall m: Item, n: nat ensures VideoIndex(entry(m, n)) == n && VideoHasQuality(entry(m, n)) {
      assert entry(m, n) == VideoEntry(post, m, n, iso);
    }
    NumberedKept(items, entry, KeepVideo, VideoIndex, VideoHasQuality);
    var videos := Videos(post, iso);
    assert videos == Filter(KeepVideo, Numbered(items, entry));
    forall i | 0 <= i < |videos|
      ensures 1 <= videos[i].index <= |items| && StartsWith(videos[i].url, "http") && videos[i].quality != 0
    {
      assert VideoIndex(videos[i]) == videos[i].index && KeepVideo(videos[i]) && VideoHasQuality(videos[i]);
    }
    forall i, j | 0 <= i < j < |videos| ensures videos[i].index < videos[j].index {
      assert VideoIndex(videos[i]) < VideoIndex(videos[j]);
    }
  }

  /** Each kept video is the entry made for the video item at its number. */
  lemma VideoSource(post: Post, iso: string, i: nat)
    requires i < |Videos(post, iso)|
    ensures var items := Filter(IsVideo, post.media); var v := Videos(post, iso)[i];
      1 <= v.index <= |items| && v == VideoEntry(post, items[v.index - 1], v.index, iso)
  {
    var items := Filter(IsVideo, post.media);
    NumberedSource(items, VideoEntries(post, iso), KeepVideo, i);
    var k: nat :| k < |items| && Videos(post, iso)[i] == VideoEntries(post, iso)(items[k], k + 1);
    assert VideoEntries(post, iso)(items[k], k + 1) == VideoEntry(post, items[k], k + 1, iso);
  }

  // ---------------------------------------------------------------------------
  // downloadAllPhotos and downloadAllMedia

  datatype PhotosResult =
    | PhotosFailed(message: string)
    | PhotoCollection(title: string, description: string, author: string, totalPhotos: nat,
                      photos: seq<Utils.Photo>, zipFilename: string)

  /** `downloadAllPhotos` once `snapsave` has returned the post. */
  function DownloadAllPhotos(post: Post, iso: string): PhotosResult
  {
    var photos := Photos(post, iso);
    if |photos| == 0 then PhotosFailed("No photos found. This might be a video-only post.")
    else PhotoCollection(OrElse(post.title, "Photo Collection"), post.description, post.author, |photos|, photos,
      Utils.CleanFilename(OrElse(post.title, "photos") + "_" + DecimalString(|photos|) + "_photos", "zip", "", iso))
  }

  /** It fails exactly when no photo is kept, and otherwise reports the kept photos and their number. */
  lemma DownloadAllPhotosResult(post: Post, iso: string)
    ensures DownloadAllPhotos(post, iso).PhotosFailed? <==> Photos(post, iso) == []
    ensures DownloadAllPhotos(post, iso).PhotoCollection? ==>
      DownloadAllPhotos(post, iso).photos == Photos(post, iso) && DownloadAllPhotos(post, iso).totalPhotos == |Photos(post, iso)|
  {
  }

  datatype MediaResult =
    | MediaFailed(message: string)
    | MediaCollection(title: string, description: string, author: string, totalItems: nat,
                      photos: seq<Utils.Photo>, videos: seq<Video>, zipFilename: string)

  /** `downloadAllMedia` once `snapsave` has returned the post. */
  function DownloadAllMedia(post: Post, iso: string): MediaResult
  {
    var photos := Photos(post, iso);
    var videos := Videos(post, iso);
    if |photos| == 0 && |videos| == 0 then MediaFailed("No media found to download.")
    else MediaCollection(OrElse(post.title, "Media Collection"), post.description, post.author,
      |photos| + |videos|, photos, videos,
      Utils.CleanFilename(OrElse(post.title, "media") + "_" + DecimalString(|photos| + |videos|) + "_items", "zip", "", iso))
  }

  /** It fails exactly when neither list keeps anything, and otherwise counts both lists. */
  lemma DownloadAllMediaResult(post: Post, iso: string)
    ensures DownloadAllMedia(post, iso).MediaFailed? <==> Photos(post, iso) == [] && Videos(post, iso) == []
    ensures DownloadAllMedia(post, iso).MediaCollection? ==>
      DownloadAllMedia(post, iso).totalItems == |Photos(post, iso)| + |Videos(post, iso)|
      && DownloadAllMedia(post, iso).photos == Photos(post, iso) && DownloadAllMedia(post, iso).videos == Videos(post, iso)
  {
  }

  /** The photo list of `downloadAllMedia` is the one `downloadAllPhotos` reports. */
  lemma SamePhotoLists(post: Post, iso: string)
    requires Photos(post, iso) != []
    ensures DownloadAllMedia(post, iso).photos == DownloadAllPhotos(post, iso).photos
  {
  }
}
