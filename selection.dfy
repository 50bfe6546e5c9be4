/**
 * The rules `snapsave` (src/index.ts) applies to what it scrapes: the
 * duration found in a text, the ranking of TikTok download links, and the
 * media list built from the rows of a result table or from result cards.
 * The page itself is an input: the anchors, rows and cards are what the
 * DOM queries would have returned.
 */
module Selection {
  import opened Wrappers
  import opened Text
  import opened Ranking
  import Quality
  import Urls

  // ---------------------------------------------------------------------------
  // extractDuration

  /** `m:ss` or `mm:ss`: one or two digits, a colon, two digits. */
  predicate IsDuration(d: string)
  {
    (|d| == 4 || |d| == 5) && d[|d| - 3] == ':' && AllDigits(d[..|d| - 3]) && AllDigits(d[|d| - 2..])
  }

  /** `/(\d{1,2}):(\d{2})/` tried at the start of `s`: the matched text, two digits tried before one. */
  function DurationAt(s: string): (r: Option<string>)
    ensures r.Some? ==> IsDuration(r.value) && StartsWith(s, r.value)
  {
    if |s| >= 5 && IsDigit(s[0]) && IsDigit(s[1]) && s[2] == ':' && IsDigit(s[3]) && IsDigit(s[4]) then Some(s[..5])
    else if |s| >= 4 && IsDigit(s[0]) && s[1] == ':' && IsDigit(s[2]) && IsDigit(s[3]) then Some(s[..4])
    else None
  }

  /** Where the leftmost match starts. */
  function DurationPosition(s: string): (r: Option<nat>)
    ensures r.Some? ==> r.value <= |s| && DurationAt(s[r.value..]).Some?
    decreases |s|
  {
    if DurationAt(s).Some? then Some(0)
    else if s == [] then None
    else match DurationPosition(s[1..])
      case None => None
      case Some(k) =>
        assert s[k + 1..] == s[1..][k..];
        Some(k + 1)
  }

  /** `extractDuration(text)`: the text of the leftmost match, `m1 + ":" + m2`, or "". */
  function ExtractDuration(text: string): string
  {
    match DurationPosition(text)
    case None => ""
    case Some(i) => DurationAt(text[i..]).value
  }

  lemma {:induction false} DurationPositionLeftmost(s: string)
    ensures DurationPosition(s).Some? ==> forall j :: 0 <= j < DurationPosition(s).value ==> DurationAt(s[j..]).None?
    ensures DurationPosition(s).None? ==> forall j :: 0 <= j <= |s| ==> DurationAt(s[j..]).None?
    decreases |s|
  {
    if DurationAt(s).None? && s != [] {
      DurationPositionLeftmost(s[1..]);
      forall j | 1 <= j <= |s| ensures s[j..] == s[1..][j - 1..] { }
    }
  }

  /**
   * The result is "" exactly when no position matches; otherwise it is a
   * well-formed duration occurring in the text, matched at the leftmost
   * position where the pattern matches.
   */
  lemma ExtractDurationIs(text: string)
    ensures ExtractDuration(text) == "" <==> forall j :: 0 <= j <= |text| ==> DurationAt(text[j..]).None?
    ensures ExtractDuration(text) != "" ==>
      var i := DurationPosition(text).value;
      IsDuration(ExtractDuration(text)) && StartsWith(text[i..], ExtractDuration(text))
      && forall j :: 0 <= j < i ==> DurationAt(text[j..]).None?
  {
    DurationPositionLeftmost(text);
  }

  // ---------------------------------------------------------------------------
  // TikTok link ranking

  /** An `<a>` of the TikTok result page: `href` ("" when absent), trimmed text, and whether it has the class `download-file`. */
  datatype Anchor = Anchor(href: string, text: string, downloadFile: bool)

  datatype Link = Link(url: string, quality: int, text: string, kind: string)

  predicate IsDownloadAnchor(a: Anchor)
  {
    a.href != ""
    && (Contains(a.href, "snaptik") || Contains(a.href, "tikmate") || Contains(a.href, "download") || a.downloadFile)
  }

  function LinkQuality(text: string): int
  {
    if Contains(text, "HD") || Contains(text, "1080") then 1080
    else if Contains(text, "720") then 720
    else if Contains(text, "480") then 480
    else if Contains(text, "360") then 360
    else 500
  }

  function LinkOf(a: Anchor): Link
  {
    Link(a.href, LinkQuality(a.text), a.text,
      if Contains(a.text, "photo") || Contains(a.text, "Photo") then "image" else "video")
  }

  /** The links the `.each` over the anchors pushes, in page order. */
  function TikTokLinks(anchors: seq<Anchor>): seq<Link>
  {
    FilterMap(IsDownloadAnchor, LinkOf, anchors)
  }

  /** The pushed links are the links of the download anchors, one each, in order. */
  lemma TikTokLinksAre(anchors: seq<Anchor>)
    ensures var links := TikTokLinks(anchors); var kept := Filter(IsDownloadAnchor, anchors);
      |links| == |kept| && forall k :: 0 <= k < |links| ==> links[k] == LinkOf(kept[k])
  {
    FilterMapIs(IsDownloadAnchor, LinkOf, anchors);
  }

  /** The `.each` over the anchors. */
  method CollectLinks(anchors: seq<Anchor>) returns (links: seq<Link>)
    ensures links == TikTokLinks(anchors)
  {
    links := [];
    var i := 0;
    while i < |anchors|
      invariant 0 <= i <= |anchors|
      invariant TikTokLinks(anchors) == links + TikTokLinks(anchors[i..])
    {
      var a := anchors[i];
      var pushed := if IsDownloadAnchor(a) then [LinkOf(a)] else [];
      FilterMapStep(IsDownloadAnchor, LinkOf, anchors, i);
      Regroup(links, pushed, TikTokLinks(anchors[i + 1..]));
      links := links + pushed;
      i := i + 1;
    }
    assert anchors[i..] == [];
  }

  function LinkKey(l: Link): int
  {
    l.quality
  }

  predicate IsHdLink(l: Link)
  {
    l.quality >= 1000
  }

  /** No element of `s` satisfies `p`, so `find` has nothing to return. */
  lemma {:induction false} FindNothing<T>(p: T -> bool, s: seq<T>)
    requires forall j :: 0 <= j < |s| ==> !p(s[j])
    ensures Find(p, s) == None
    decreases |s|
  {
    if s != [] {
      FindNothing(p, s[1..]);
    }
  }

  /** In a list sorted by quality whose head is below 1000, no link reaches 1000. */
  lemma HdSearchFails(sorted: seq<Link>)
    requires sorted != [] && SortedDesc(sorted, LinkKey) && sorted[0].quality < 1000
    ensures Find(IsHdLink, sorted) == None
  {
    forall j | 0 <= j < |sorted| ensures !IsHdLink(sorted[j]) {
      if j > 0 {
        assert LinkKey(sorted[0]) >= LinkKey(sorted[j]);
      }
    }
    FindNothing(IsHdLink, sorted);
  }

  datatype Pick = Pick(url: string, kind: string, quality: int)

  /**
   * The TikTok branch: collect, sort by quality (stable, highest first),
   * take the head, then look for a link of quality at least 1000 when the
   * head is below it. Every link has a type, so `|| "video"` never applies.
   */
  method PickTikTok(anchors: seq<Anchor>) returns (pick: Option<Pick>)
    ensures pick.None? <==> TikTokLinks(anchors) == []
    ensures pick.Some? ==> var best := FirstMax(TikTokLinks(anchors), LinkKey);
      pick.value == Pick(best.url, best.kind, best.quality)
  {
    var links := CollectLinks(anchors);
    var sorted := SortDesc(links, LinkKey);
    if |sorted| == 0 {
      return None;
    }
    var best := sorted[0];
    var url := best.url;
    var quality := best.quality;
    if best.quality < 1000 {
      SortSorted(links, LinkKey);
      HdSearchFails(sorted);
      var hd := Find(IsHdLink, sorted);
      match hd {
        case Some(h) =>
          url := h.url;
          quality := h.quality;
        case None =>
      }
    }
    SortHead(links, LinkKey);
    pick := Some(Pick(url, best.kind, quality));
  }

  // ---------------------------------------------------------------------------
  // The result table

  /**
   * A `tbody > tr` row: the trimmed text of its first cell, the `href` of the
   * link in its third cell or else the `onclick` of the button there ("" when
   * neither), and the whole row's text.
   */
  datatype Row = Row(resolution: string, target: string, text: string)

  datatype MediaItem = MediaItem(resolution: string, shouldRender: bool, url: string, kind: string, quality: nat)

  const ProgressHost: string := "https://snapsave.app"

  /** The literal text before the capture of `/get_progressApi\('(.*?)'\)/`. */
  const ProgressCall: string := "get_progressApi('"

  /** `/get_progressApi/ig.test(target)`: the `i` flag folds ASCII letters only. */
  predicate ShouldRender(target: string)
  {
    Contains(ToLower(target), "get_progressapi")
  }

  /**
   * The capture of `/get_progressApi\('(.*?)'\)/` tried at the start of `s`:
   * everything up to the first `')`, which the lazy `.` may not cross a line
   * terminator to reach.
   */
  function CaptureAt(s: string): Option<string>
  {
    if !StartsWith(s, ProgressCall) then None
    else
      var rest := s[|ProgressCall|..];
      match IndexOf(rest, "')")
      case None => None
      case Some(j) => if Urls.NoLineTerminator(rest[..j]) then Some(rest[..j]) else None
  }

  /** `/get_progressApi\('(.*?)'\)/.exec(s)?.[1]`: the capture at the leftmost position that matches. */
  function ProgressCapture(s: string): Option<string>
    decreases |s|
  {
    if CaptureAt(s).Some? || s == [] then CaptureAt(s) else ProgressCapture(s[1..])
  }

  /**
   * src/index.ts:675 as written: `+` binds before `||`, and a non-empty
   * string is never falsy, so a failed `exec` gives the text "undefined"
   * after the host instead of the original target.
   */
  function ProgressUrlAsWritten(target: string): string
  {
    if !ShouldRender(target) then target
    else match ProgressCapture(target)
      case Some(c) => ProgressHost + c
      case None => ProgressHost + "undefined"
  }

  /** The evident intent of line 675: the host and the capture, or the target itself when there is no capture. */
  function ProgressUrl(target: string): string
  {
    if !ShouldRender(target) then target
    else match ProgressCapture(target)
      case Some(c) => ProgressHost + c
      case None => target
  }

  /**
   * The two agree whenever `exec` finds its capture or the test fails; when
   * the test passes but `exec` fails, the code as written never falls back.
   */
  lemma ProgressFallback(target: string)
    ensures ProgressCapture(target).Some? || !ShouldRender(target) ==> ProgressUrlAsWritten(target) == ProgressUrl(target)
    ensures ShouldRender(target) && ProgressCapture(target).None? ==>
      ProgressUrlAsWritten(target) == ProgressHost + "undefined" && ProgressUrl(target) == target
  {
  }

  /** `get_progressapi` alone passes the case-blind test and has no capture. */
  lemma ProgressFallbackExample()
    ensures ShouldRender("get_progressapi") && ProgressCapture("get_progressapi").None?
    ensures ProgressUrlAsWritten("get_progressapi") == ProgressHost + "undefined"
    ensures ProgressUrl("get_progressapi") == "get_progressapi"
  {
    ExampleRenders();
    NoCaptureInShort("get_progressapi");
    ProgressFallback("get_progressapi");
  }

  lemma ExampleRenders()
    ensures ShouldRender("get_progressapi")
  {
    ExampleLower();
    PrefixContained("get_progressapi", "get_progressapi");
  }

  lemma ExampleLower()
    ensures ToLower("get_progressapi") == "get_progressapi"
  {
    LowerFixed("get_progressapi");
  }

  lemma PrefixContained(s: string, p: string)
    requires s == p
    ensures Contains(s, p)
  {
    assert s[..|p|] == p;
  }

  /** A text without upper-case ASCII letters is its own lower-cased form. */
  lemma LowerFixed(s: string)
    requires forall i :: 0 <= i < |s| ==> !('A' <= s[i] <= 'Z')
    ensures ToLower(s) == s
  {
  }

  /** A text shorter than the literal part of the pattern has no capture. */
  lemma {:induction false} NoCaptureInShort(s: string)
    requires |s| < |ProgressCall|
    ensures ProgressCapture(s).None?
    decreases |s|
  {
    if s != [] {
      NoCaptureInShort(s[1..]);
    }
  }

  const DoubleDl: string := "&dl=1&dl=1"

  /** `if (_url && _url.includes("&dl=1&dl=1")) _url = _url.replace("&dl=1&dl=1", "&dl=1")`. */
  function Dedup(url: string): string
  {
    if Contains(url, DoubleDl) then ReplaceFirst(url, DoubleDl, "&dl=1") else url
  }

  /**
   * A repeated `&dl=1` is collapsed at its first occurrence only, which
   * makes the text five characters shorter; a text without one is kept.
   */
  lemma DedupIs(url: string)
    ensures Dedup(url) == url <==> !Contains(url, DoubleDl)
    ensures Contains(url, DoubleDl) ==> var k := IndexOf(url, DoubleDl).value;
      |Dedup(url)| == |url| - 5 && Dedup(url) == url[..k] + "&dl=1" + url[k + |DoubleDl|..]
  {
  }

  /** The `type` of a row's item. */
  function RowKind(instagram: bool, resolution: string, rowText: string): string
  {
    if instagram && (Contains(ToLower(rowText), "photo") || Contains(ToLower(rowText), "image") || resolution == "") then "image"
    else if resolution != "" then "video"
    else "image"
  }

  /** A row is an image exactly when it has no resolution, or, on Instagram, when its text mentions a photo or an image. */
  lemma RowKindIs(instagram: bool, resolution: string, rowText: string)
    ensures RowKind(instagram, resolution, rowText) in {"image", "video"}
    ensures RowKind(instagram, resolution, rowText) == "image" <==>
      resolution == "" || (instagram && (Contains(ToLower(rowText), "photo") || Contains(ToLower(rowText), "image")))
  {
  }

  /** The item pushed for one row of the table, with line 675 as it is evidently meant. */
  function RowItem(pageUrl: string, row: Row): MediaItem
  {
    MediaItem(row.resolution, ShouldRender(row.target), Dedup(ProgressUrl(row.target)),
      RowKind(Contains(pageUrl, "instagram"), row.resolution, row.text), Quality.QualityScore(row.resolution))
  }

  /** The `.each` over the rows. */
  method CollectRows(pageUrl: string, rows: seq<Row>) returns (items: seq<MediaItem>)
    ensures |items| == |rows| && forall k :: 0 <= k < |rows| ==> items[k] == RowItem(pageUrl, rows[k])
  {
    items := [];
    var i := 0;
    while i < |rows|
      invariant 0 <= i <= |rows| && |items| == i
      invariant forall k :: 0 <= k < i ==> items[k] == RowItem(pageUrl, rows[k])
    {
      items := items + [RowItem(pageUrl, rows[i])];
      i := i + 1;
    }
  }

  // ---------------------------------------------------------------------------
  // The result cards

  /** A `div.card`: the trimmed text of its link and the link's `href` ("" when absent). */
  datatype Card = Card(text: string, href: string)

  function CardQuality(text: string): nat
  {
    if Contains(text, "HD") || Contains(text, "1080") then 1000
    else if Contains(text, "720") then 720
    else if Contains(text, "480") then 480
    else 360
  }

  /** The item pushed for one card; cards carry no resolution. */
  function CardItem(card: Card): MediaItem
  {
    MediaItem("", false, Dedup(card.href), if Contains(card.text, "Photo") then "image" else "video", CardQuality(card.text))
  }

  /** The `.each` over the cards. */
  method CollectCards(cards: seq<Card>) returns (items: seq<MediaItem>)
    ensures |items| == |cards| && forall k :: 0 <= k < |cards| ==> items[k] == CardItem(cards[k])
  {
    items := [];
    var i := 0;
    while i < |cards|
      invariant 0 <= i <= |cards| && |items| == i
      invariant forall k :: 0 <= k < i ==> items[k] == CardItem(cards[k])
    {
      items := items + [CardItem(cards[i])];
      i := i + 1;
    }
  }

  /**
   * A card of quality "HD" scores 1000, which is below the 1080 of the
   * "Full HD" label, so it is labelled "HD (720p)".
   */
  lemma CardHdLabel(card: Card)
    requires Contains(card.text, "HD")
    ensures CardItem(card).quality == 1000 && Quality.QualityLabel(CardItem(card).quality) == "HD (720p)"
  {
  }

  // ---------------------------------------------------------------------------
  // What the table and card branches push onto `media`

  datatype Labelled = Labelled(item: MediaItem, qualityLabel: string)

  function ItemKey(m: MediaItem): int
  {
    m.quality
  }

  function LabelItem(m: MediaItem): Labelled
  {
    Labelled(m, Quality.QualityLabel(m.quality))
  }

  function Unlabel(r: seq<Labelled>): (items: seq<MediaItem>)
    ensures |items| == |r|
  {
    seq(|r|, k requires 0 <= k < |r| => r[k].item)
  }

  /** Sort by quality, highest first; Instagram keeps every item, any other site only the head. */
  function SelectItems(instagram: bool, items: seq<MediaItem>): seq<Labelled>
  {
    var sorted := SortDesc(items, ItemKey);
    if |sorted| == 0 then []
    else if instagram then seq(|sorted|, k requires 0 <= k < |sorted| => LabelItem(sorted[k]))
    else [LabelItem(sorted[0])]
  }

  /**
   * Nothing is added for no items. Off Instagram exactly one item is added:
   * the earliest of the largest quality. On Instagram every item is added,
   * sorted by quality and each labelled by its own quality.
   */
  lemma SelectItemsIs(instagram: bool, items: seq<MediaItem>)
    ensures items == [] ==> SelectItems(instagram, items) == []
    ensures !instagram && items != [] ==> SelectItems(instagram, items) == [LabelItem(FirstMax(items, ItemKey))]
    ensures instagram ==> var r := SelectItems(instagram, items);
      multiset(Unlabel(r)) == multiset(items) && SortedDesc(Unlabel(r), ItemKey)
      && forall k :: 0 <= k < |r| ==> r[k].qualityLabel == Quality.QualityLabel(r[k].item.quality)
  {
    if items != [] {
      SortHead(items, ItemKey);
    }
    if instagram {
      SortPermutes(items, ItemKey);
      SortSorted(items, ItemKey);
      assert Unlabel(SelectItems(instagram, items)) == SortDesc(items, ItemKey);
    }
  }
}
