/**
 * The pure parts of src/youtube-downloader.ts: `formatDuration`, the
 * per-link classification and best-link choice of the Y2Mate and Snapany
 * extractors, `extractFormatsFromPlayerResponse`, and the format selection
 * of `downloadYouTubeVideo`. The pages and the player response are inputs.
 */
module YouTube {
  import opened Wrappers
  import opened Text
  import opened Ranking

  // ---------------------------------------------------------------------------
  // formatDuration

  /** `Math.floor(seconds / 3600)`, `Math.floor((seconds % 3600) / 60)` and `seconds % 60`. */
  function Clock(seconds: nat): (r: (nat, nat, nat))
    ensures r.0 * 3600 + r.1 * 60 + r.2 == seconds && r.1 < 60 && r.2 < 60
  {
    (seconds / 3600, (seconds % 3600) / 60, seconds % 60)
  }

  /** `n.toString().padStart(2, '0')`. */
  function Pad2(n: nat): string
  {
    var s := DecimalString(n);
    if |s| < 2 then "0" + s else s
  }

  /** `formatDuration(seconds)`: `H:MM:SS` from an hour on, `M:SS` below. */
  function FormatDuration(seconds: nat): string
  {
    var c := Clock(seconds);
    if c.0 > 0 then DecimalString(c.0) + ":" + Pad2(c.1) + ":" + Pad2(c.2)
    else DecimalString(c.1) + ":" + Pad2(c.2)
  }

  /** The seconds a clock text stands for, its pieces read most significant first. */
  function ClockValue(parts: seq<string>): nat
    requires forall i :: 0 <= i < |parts| ==> AllDigits(parts[i])
  {
    if parts == [] then 0 else ClockValue(parts[..|parts| - 1]) * 60 + DecimalValue(parts[|parts| - 1])
  }

  predicate AllDigitPieces(parts: seq<string>)
  {
    forall i :: 0 <= i < |parts| ==> AllDigits(parts[i])
  }

  /** Below 100 the padded text is exactly two digits of the same value. */
  lemma Pad2Facts(n: nat)
    requires n < 100
    ensures |Pad2(n)| == 2 && AllDigits(Pad2(n)) && DecimalValue(Pad2(n)) == n
  {
    DecimalRoundTrip(n);
    if n < 10 {
      if n > 0 {
        assert Digits(n) == Digits(0) + [DigitChar(n)];
      }
      var s := DecimalString(n);
      assert |s| == 1;
      assert ("0" + s)[..1] == "0";
    } else {
      assert Digits(n) == Digits(n / 10) + [DigitChar(n % 10)];
      assert Digits(n / 10) == Digits(0) + [DigitChar(n / 10)];
    }
  }

  lemma DigitsHaveNoColon(s: string)
    requires AllDigits(s)
    ensures ':' !in s
  {
  }

  lemma SplitThree(a: string, b: string, c: string)
    requires ':' !in a && ':' !in b && ':' !in c
    ensures SplitChar(a + ":" + b + ":" + c, ':') == [a, b, c]
  {
    assert a + ":" + b + ":" + c == a + [':'] + (b + [':'] + c);
    SplitFirst(a, ':', b + [':'] + c);
    SplitTwo(b, c);
    assert b + ":" + c == b + [':'] + c;
    assert [a] + [b, c] == [a, b, c];
  }

  lemma SplitTwo(a: string, b: string)
    requires ':' !in a && ':' !in b
    ensures SplitChar(a + ":" + b, ':') == [a, b]
  {
    assert a + ":" + b == a + [':'] + b;
    SplitFirst(a, ':', b);
    SplitNone(b, ':');
    assert [a] + [b] == [a, b];
  }

  lemma ClockValueThree(a: string, b: string, c: string)
    requires AllDigits(a) && AllDigits(b) && AllDigits(c)
    ensures ClockValue([a, b, c]) == (DecimalValue(a) * 60 + DecimalValue(b)) * 60 + DecimalValue(c)
  {
    assert [a, b, c][..2] == [a, b];
    ClockValueTwo(a, b);
  }

  lemma ClockValueTwo(a: string, b: string)
    requires AllDigits(a) && AllDigits(b)
    ensures ClockValue([a, b]) == DecimalValue(a) * 60 + DecimalValue(b)
  {
    assert [a, b][..1] == [a] && [a][..0] == [];
    assert ClockValue([a]) == DecimalValue(a);
  }

  /**
   * Splitting the text at its colons gives three pieces from an hour on and
   * two below; every piece is digits, all but the first exactly two, the
   * first without a leading zero; and reading the pieces back as a clock
   * gives the seconds again.
   */
  lemma FormatDurationRoundTrip(seconds: nat)
    ensures var parts := SplitChar(FormatDuration(seconds), ':');
      (|parts| == 2 <==> seconds < 3600) && (|parts| == 3 <==> seconds >= 3600)
      && AllDigitPieces(parts) && ClockValue(parts) == seconds
      && IsCanonicalDecimal(parts[0]) && forall i :: 1 <= i < |parts| ==> |parts[i]| == 2
  {
    var c := Clock(seconds);
    if c.0 > 0 {
      HoursText(c.0, c.1, c.2);
      assert (c.0 * 60 + c.1) * 60 + c.2 == c.0 * 3600 + c.1 * 60 + c.2;
    } else {
      MinutesText(c.1, c.2);
    }
  }

  /** `H:MM:SS` splits into three digit pieces that read back as the clock. */
  lemma HoursText(h: nat, m: nat, sec: nat)
    requires 0 < h && m < 60 && sec < 60
    ensures var parts := SplitChar(DecimalString(h) + ":" + Pad2(m) + ":" + Pad2(sec), ':');
      |parts| == 3 && AllDigitPieces(parts) && ClockValue(parts) == (h * 60 + m) * 60 + sec
      && IsCanonicalDecimal(parts[0]) && |parts[1]| == 2 && |parts[2]| == 2
  {
    Pad2Facts(m);
    Pad2Facts(sec);
    DigitsHaveNoColon(Pad2(m));
    DigitsHaveNoColon(Pad2(sec));
    DecimalRoundTrip(h);
    DigitsHaveNoColon(DecimalString(h));
    SplitThree(DecimalString(h), Pad2(m), Pad2(sec));
    ClockValueThree(DecimalString(h), Pad2(m), Pad2(sec));
  }

  /** `M:SS` splits into two digit pieces that read back as the clock. */
  lemma MinutesText(m: nat, sec: nat)
    requires m < 60 && sec < 60
    ensures var parts := SplitChar(DecimalString(m) + ":" + Pad2(sec), ':');
      |parts| == 2 && AllDigitPieces(parts) && ClockValue(parts) == m * 60 + sec
      && IsCanonicalDecimal(parts[0]) && |parts[1]| == 2
  {
    Pad2Facts(sec);
    DigitsHaveNoColon(Pad2(sec));
    DecimalRoundTrip(m);
    DigitsHaveNoColon(DecimalString(m));
    SplitTwo(DecimalString(m), Pad2(sec));
    ClockValueTwo(DecimalString(m), Pad2(sec));
  }

  // ---------------------------------------------------------------------------
  // Link classification

  /** The two captures of `/href="([^"]*download[^"]*)"[^>]*>([^<]*Download[^<]*)</gi`: the address and the link text. */
  datatype LinkMatch = LinkMatch(url: string, text: string)

  datatype VideoFormat = VideoFormat(url: string, quality: string, resolution: string, mimeType: string, kind: string)

  /** The resolution every quality name of the extractors goes with. */
  function ResolutionOf(quality: string): string
  {
    if quality == "4K" then "3840x2160"
    else if quality == "1080p" then "1920x1080"
    else if quality == "480p" then "854x480"
    else if quality == "360p" then "640x360"
    else "1280x720"
  }

  /** The link the Y2Mate loop pushes for one match. */
  function Y2MateFormat(m: LinkMatch): VideoFormat
  {
    var quality :=
      if Contains(m.text, "4K") || Contains(m.text, "2160") then "4K"
      else if Contains(m.text, "1080") then "1080p"
      else if Contains(m.text, "720") then "720p"
      else if Contains(m.text, "480") then "480p"
      else if Contains(m.text, "360") then "360p"
      else "720p";
    var audio := Contains(m.text, "Audio");
    VideoFormat(m.url, quality, ResolutionOf(quality), if audio then "audio/mp3" else "video/mp4", if audio then "audio" else "video")
  }

  /**
   * Every Y2Mate link has one of five quality names and the resolution of
   * that name; 4K (or 2160) wins over every other mark, 720p is also the
   * default; a link is audio, with the MP3 type, exactly when its text says
   * `Audio`.
   */
  lemma Y2MateFormatIs(m: LinkMatch)
    ensures var f := Y2MateFormat(m);
      f.quality in {"4K", "1080p", "720p", "480p", "360p"} && f.resolution == ResolutionOf(f.quality)
      && (f.quality == "4K" <==> Contains(m.text, "4K") || Contains(m.text, "2160"))
      && (f.kind == "audio" <==> Contains(m.text, "Audio"))
      && (f.mimeType == "audio/mp3" <==> f.kind == "audio")
      && f.url == m.url
  {
  }

  /** `ys` is `f` applied to each of `xs`, in order. */
  ghost predicate MapsTo<A, B>(f: A -> B, xs: seq<A>, ys: seq<B>)
  {
    |xs| == |ys| && forall k :: 0 <= k < |xs| ==> ys[k] == f(xs[k])
  }

  /** Pushing the image of the next element keeps the mapping. */
  lemma Pushed<A, B>(f: A -> B, xs: seq<A>, i: nat, ys: seq<B>, y: B)
    requires i < |xs| && MapsTo(f, xs[..i], ys) && y == f(xs[i])
    ensures MapsTo(f, xs[..i + 1], ys + [y])
  {
    assert xs[..i + 1] == xs[..i] + [xs[i]];
  }

  /** The body of the `while (regex.exec(html))` loop of the Y2Mate extractor: the link for one match. */
  method Y2MateLink(m: LinkMatch) returns (f: VideoFormat)
    ensures f == Y2MateFormat(m)
  {
    var url := m.url;
    var text := m.text;
    var quality := "720p";
    var resolution := "1280x720";
    var mimeType := "video/mp4";
    var kind := "video";
    if Contains(text, "4K") || Contains(text, "2160") {
      quality := "4K";
      resolution := "3840x2160";
    } else if Contains(text, "1080") {
      quality := "1080p";
      resolution := "1920x1080";
    } else if Contains(text, "720") {
      quality := "720p";
      resolution := "1280x720";
    } else if Contains(text, "480") {
      quality := "480p";
      resolution := "854x480";
    } else if Contains(text, "360") {
      quality := "360p";
      resolution := "640x360";
    }
    if Contains(text, "Audio") {
      kind := "audio";
      mimeType := "audio/mp3";
    }
    f := VideoFormat(url, quality, resolution, mimeType, kind);
  }

  /** The `while (regex.exec(html))` loop of the Y2Mate extractor. */
  method Y2MateLinks(matches: seq<LinkMatch>) returns (links: seq<VideoFormat>)
    ensures MapsTo(Y2MateFormat, matches, links)
  {
    links := [];
    var i := 0;
    while i < |matches|
      invariant 0 <= i <= |matches| && MapsTo(Y2MateFormat, matches[..i], links)
    {
      var f := Y2MateLink(matches[i]);
      Pushed(Y2MateFormat, matches, i, links, f);
      links := links + [f];
      i := i + 1;
    }
    assert matches[..i] == matches;
  }

  /** The link the Snapany loop pushes for one match: only three quality names, always an MP4 video. */
  function SnapanyFormat(m: LinkMatch): VideoFormat
  {
    var quality :=
      if Contains(m.text, "HD") || Contains(m.text, "1080") then "1080p"
      else if Contains(m.text, "720") then "720p"
      else if Contains(m.text, "480") then "480p"
      else "720p";
    VideoFormat(m.url, quality, ResolutionOf(quality), "video/mp4", "video")
  }

  /** `HD` or `1080` gives 1080p; otherwise 480p needs a `480` without a `720`, and 720p is the rest. */
  lemma SnapanyFormatIs(m: LinkMatch)
    ensures var f := SnapanyFormat(m);
      f.quality in {"1080p", "720p", "480p"} && f.resolution == ResolutionOf(f.quality)
      && (f.quality == "1080p" <==> Contains(m.text, "HD") || Contains(m.text, "1080"))
      && (f.quality == "480p" <==> !Contains(m.text, "HD") && !Contains(m.text, "1080") && !Contains(m.text, "720") && Contains(m.text, "480"))
      && f.kind == "video" && f.url == m.url
  {
  }

  /** The body of the `while (regex.exec(html))` loop of the Snapany extractor: the link for one match. */
  method SnapanyLink(m: LinkMatch) returns (f: VideoFormat)
    ensures f == SnapanyFormat(m)
  {
  var url := m.url;
  var text := m.text;
    var quality := "720p";
    var resolution := "1280x720";
    if Contains(text, "HD") || Contains(text, "1080") {
      quality := "1080p";
      resolution := "1920x1080";
    } else if Contains(text, "720") {
      quality := "720p";
      resolution := "1280x720";
    } else if Contains(text, "480") {
      quality := "480p";
      resolution := "854x480";
    }
    f := VideoFormat(url, quality, resolution, "video/mp4", "video");
  }

  /** The `while (regex.exec(html))` loop of the Snapany extractor. */
  method SnapanyLinks(matches: seq<LinkMatch>) returns (links: seq<VideoFormat>)
    ensures MapsTo(SnapanyFormat, matches, links)
  {
    links := [];
    var i := 0;
    while i < |matches|
      invariant 0 <= i <= |matches| && MapsTo(SnapanyFormat, matches[..i], links)
    {
      var f := SnapanyLink(matches[i]);
      Pushed(SnapanyFormat, matches, i, links, f);
      links := links + [f];
      i := i + 1;
    }
    assert matches[..i] == matches;
  }

  // ---------------------------------------------------------------------------
  // The best-quality reductions

  /** `parseInt(s)` with no radix: blanks, a sign, then the leading decimal digits; `None` is NaN. */
  function ParseInt(s: string): Option<int>
  {
    var t := TrimStart(s);
    var negative := t != [] && t[0] == '-';
    var body := if t != [] && (t[0] == '-' || t[0] == '+') then t[1..] else t;
    var d := LeadingDigits(body);
    if d == [] then None
    else if negative then Some(-(DecimalValue(d) as int))
    else Some(DecimalValue(d))
  }

  /** Y2Mate's rank of a quality name: `parseInt(q.replace('p', '').replace('K', '000'))`. */
  function Y2MateRank(quality: string): Option<int>
  {
    ParseInt(ReplaceFirst(ReplaceFirst(quality, "p", ""), "K", "000"))
  }

  /** Snapany's rank of a quality name: `parseInt(q.replace('p', ''))`. */
  function SnapanyRank(quality: string): Option<int>
  {
    ParseInt(ReplaceFirst(quality, "p", ""))
  }

  /** `current > best` on two results of `parseInt`: false whenever either is NaN. */
  predicate Beats(current: Option<int>, best: Option<int>)
  {
    current.Some? && best.Some? && current.value > best.value
  }

  /** `links.reduce((best, current) => rank(current) > rank(best) ? current : best, start)`. */
  function BestBy(start: VideoFormat, links: seq<VideoFormat>, y2mate: bool): VideoFormat
    decreases |links|
  {
    if links == [] then start
    else
      var rank := if y2mate then Y2MateRank(links[0].quality) else SnapanyRank(links[0].quality);
      var held := if y2mate then Y2MateRank(start.quality) else SnapanyRank(start.quality);
      BestBy(if Beats(rank, held) then links[0] else start, links[1..], y2mate)
  }

  /** The rank of a link as a number, for links whose rank is not NaN. */
  function Rank(f: VideoFormat, y2mate: bool): Option<int>
  {
    if y2mate then Y2MateRank(f.quality) else SnapanyRank(f.quality)
  }

  function Y2MateKey(f: VideoFormat): int
  {
    match Y2MateRank(f.quality)
    case Some(v) => v
    case None => 0
  }

  function SnapanyKey(f: VideoFormat): int
  {
    match SnapanyRank(f.quality)
    case Some(v) => v
    case None => 0
  }

  function Key(y2mate: bool): VideoFormat -> int
  {
    if y2mate then Y2MateKey else SnapanyKey
  }

  predicate Ranked(links: seq<VideoFormat>, y2mate: bool)
  {
    forall k :: 0 <= k < |links| ==> Rank(links[k], y2mate).Some?
  }

  /** While no rank is NaN, the reduce is the strict-`>` fold over the numeric ranks. */
  lemma {:induction false} BestByReduce(start: VideoFormat, links: seq<VideoFormat>, y2mate: bool)
    requires Rank(start, y2mate).Some? && Ranked(links, y2mate)
    ensures BestBy(start, links, y2mate) == ReduceBest(start, links, Key(y2mate))
    decreases |links|
  {
    if links != [] {
      var next := if Beats(Rank(links[0], y2mate), Rank(start, y2mate)) then links[0] else start;
      assert Key(y2mate)(links[0]) == Rank(links[0], y2mate).value;
      assert Key(y2mate)(start) == Rank(start, y2mate).value;
      BestByReduce(next, links[1..], y2mate);
    }
  }

  /** Folding from the head of a list gives its earliest maximum: the head counted twice changes nothing. */
  lemma FirstMaxRepeatedHead<T>(s: seq<T>, key: T -> int)
    requires s != []
    ensures FirstMax([s[0]] + s, key) == FirstMax(s, key)
  {
    var t := [s[0]] + s;
    var i := FirstMaxIndex(t, key);
    var j := FirstMaxIndex(s, key);
    assert forall k :: 0 <= k < |s| ==> t[k + 1] == s[k];
    if i == 0 {
      assert IsFirstMax(s, 0, key);
      FirstMaxUnique(s, 0, j, key);
    } else {
      assert i > 1 by {
        if i == 1 {
          assert key(t[0]) == key(t[1]);
        }
      }
      assert IsFirstMax(s, i - 1, key);
      FirstMaxUnique(s, i - 1, j, key);
    }
  }

  /** The Y2Mate names rank by their number, with `4K` read as 4000. */
  lemma Y2MateRanks()
    ensures Y2MateRank("4K") == Some(4000) && Y2MateRank("1080p") == Some(1080) && Y2MateRank("720p") == Some(720)
    ensures Y2MateRank("480p") == Some(480) && Y2MateRank("360p") == Some(360)
  {
    RankOf4K();
    Rank1080();
    Rank720();
    Rank480();
    Rank360();
  }

  lemma Value4000()
    ensures DecimalValue("4000") == 4000
  {
    assert "4000"[..3] == "400" && "400"[..2] == "40" && "40"[..1] == "4" && "4"[..0] == "";
  }

  lemma Without4KLetters()
    ensures ReplaceFirst("4K", "p", "") == "4K"
  {
    NotContainsFirst("4K", "p");
  }

  lemma Expand4K()
    ensures ReplaceFirst("4K", "K", "000") == "4000"
  {
    assert !StartsWith("4K", "K") by {
      assert "4K"[..1] == "4";
    }
    assert "4K"[1..] == "K" && StartsWith("K", "K");
    assert IndexOf("4K", "K") == Some(1);
  }

  lemma RankOf4K()
    ensures Y2MateRank("4K") == Some(4000)
  {
    Without4KLetters();
    Expand4K();
    Value4000();
    LeadingAll("4000");
  }


  /** Whatever holds only digits is read whole. */
  lemma LeadingAll(s: string)
    requires AllDigits(s) && s != [] && s[0] != '-' && s[0] != '+' && !IsJsSpace(s[0])
    ensures ParseInt(s) == Some(DecimalValue(s))
  {
    assert TrimStart(s) == s;
    LeadingDigitsAll(s);
  }

  lemma {:induction false} LeadingDigitsAll(s: string)
    requires AllDigits(s)
    ensures LeadingDigits(s) == s
    decreases |s|
  {
    if s != [] {
      LeadingDigitsAll(s[1..]);
      assert [s[0]] + s[1..] == s;
    }
  }


  /** `<digits>p` loses its `p` and is read as the digits, under both ranks. */
  lemma RankOfP(digits: string, q: string)
    requires AllDigits(digits) && digits != [] && q == digits + "p"
    ensures Y2MateRank(q) == Some(DecimalValue(digits)) && SnapanyRank(q) == Some(DecimalValue(digits))
  {
    DigitsNoLetter(digits, 'p');
    DigitsNoLetter(digits, 'K');
    assert q[..|digits|] == digits && q[|digits|..] == "p";
    IndexOfAfter(q, |digits|, "p");
    assert ReplaceFirst(q, "p", "") == digits by {
      assert q[..|digits|] == digits && q[|digits| + 1..] == [];
    }
    NotContainsFirst(digits, "K");
    assert ReplaceFirst(digits, "K", "000") == digits;
    LeadingAll(digits);
  }

  lemma Value1080()
    ensures DecimalValue("1080") == 1080
  {
    assert "1080"[..3] == "108" && "108"[..2] == "10" && "10"[..1] == "1" && "1"[..0] == "";
  }

  lemma Rank1080()
    ensures Y2MateRank("1080p") == Some(1080) && SnapanyRank("1080p") == Some(1080)
  {
    Value1080();
    RankOfP("1080", "1080p");
  }

  lemma Value720()
    ensures DecimalValue("720") == 720
  {
    assert "720"[..2] == "72" && "72"[..1] == "7" && "7"[..0] == "";
  }

  lemma Rank720()
    ensures Y2MateRank("720p") == Some(720) && SnapanyRank("720p") == Some(720)
  {
    Value720();
    RankOfP("720", "720p");
  }

  lemma Value480()
    ensures DecimalValue("480") == 480
  {
    assert "480"[..2] == "48" && "48"[..1] == "4" && "4"[..0] == "";
  }

  lemma Rank480()
    ensures Y2MateRank("480p") == Some(480) && SnapanyRank("480p") == Some(480)
  {
    Value480();
    RankOfP("480", "480p");
  }

  lemma Value360()
    ensures DecimalValue("360") == 360
  {
    assert "360"[..2] == "36" && "36"[..1] == "3" && "3"[..0] == "";
  }

  lemma Rank360()
    ensures Y2MateRank("360p") == Some(360) && SnapanyRank("360p") == Some(360)
  {
    Value360();
    RankOfP("360", "360p");
  }

  lemma DigitsNoLetter(s: string, c: char)
    requires AllDigits(s) && !IsDigit(c)
    ensures c !in s
  {
  }


  /** Snapany's three names rank by their number. */
  lemma SnapanyRanks()
    ensures SnapanyRank("1080p") == Some(1080) && SnapanyRank("720p") == Some(720) && SnapanyRank("480p") == Some(480)
  {
    Rank1080();
    Rank720();
    Rank480();
  }

  datatype Extraction = Extraction(links: seq<VideoFormat>, best: VideoFormat)

  /**
   * The Y2Mate extractor once it has the page: no link is an error;
   * otherwise every link in page order, and as the best the earliest link of
   * the largest rank, `4K` counting 4000.
   */
  method Y2MateExtract(matches: seq<LinkMatch>) returns (r: Option<Extraction>)
    ensures r.None? <==> matches == []
    ensures r.Some? ==> (MapsTo(Y2MateFormat, matches, r.value.links)
      && r.value.best == FirstMax(r.value.links, Y2MateKey))
  {
    var links := Y2MateLinks(matches);
    if |links| == 0 {
      return None;
    }
    var best := BestBy(links[0], links, true);
    Y2MateRanks();
    forall k | 0 <= k < |links| ensures Rank(links[k], true).Some? {
      assert links[k] == Y2MateFormat(matches[k]);
      Y2MateFormatIs(matches[k]);
    }
    BestByReduce(links[0], links, true);
    ReduceBestFirstMax(links[0], links, Y2MateKey);
    FirstMaxRepeatedHead(links, Y2MateKey);
    r := Some(Extraction(links, best));
  }

  /** The Snapany extractor once it has the page, ranked by the number of each name. */
  method SnapanyExtract(matches: seq<LinkMatch>) returns (r: Option<Extraction>)
    ensures r.None? <==> matches == []
    ensures r.Some? ==> (MapsTo(SnapanyFormat, matches, r.value.links)
      && r.value.best == FirstMax(r.value.links, SnapanyKey))
  {
    var links := SnapanyLinks(matches);
    if |links| == 0 {
      return None;
    }
    var best := BestBy(links[0], links, false);
    SnapanyRanks();
    forall k | 0 <= k < |links| ensures Rank(links[k], false).Some? {
      assert links[k] == SnapanyFormat(matches[k]);
      SnapanyFormatIs(matches[k]);
    }
    BestByReduce(links[0], links, false);
    ReduceBestFirstMax(links[0], links, SnapanyKey);
    FirstMaxRepeatedHead(links, SnapanyKey);
    r := Some(Extraction(links, best));
  }

  // ---------------------------------------------------------------------------
  // extractFormatsFromPlayerResponse

  /**
   * An entry of `streamingData.formats` or `adaptiveFormats`; absent text
   * fields are "" and absent sizes `None`.
   */
  datatype RawFormat = RawFormat(url: string, signatureCipher: string, qualityLabel: string,
                                 width: Option<nat>, height: Option<nat>, mimeType: string)

  /** A size in a template string: its digits, or the text "undefined". */
  function SizeText(n: Option<nat>): string
  {
    match n
    case Some(v) => DecimalString(v)
    case None => "undefined"
  }

  predicate HasSource(f: RawFormat)
  {
    f.url != "" || f.signatureCipher != ""
  }

  function Progressive(f: RawFormat): VideoFormat
  {
    VideoFormat(OrElse(f.url, f.signatureCipher), OrElse(f.qualityLabel, SizeText(f.height) + "p"),
      SizeText(f.width) + "x" + SizeText(f.height), OrElse(f.mimeType, "video/mp4"), "video")
  }

  function Adaptive(f: RawFormat): VideoFormat
  {
    VideoFormat(OrElse(f.url, f.signatureCipher), OrElse(f.qualityLabel, SizeText(f.height) + "p"),
      SizeText(f.width) + "x" + SizeText(f.height), OrElse(f.mimeType, "video/mp4"),
      if Contains(f.mimeType, "audio") then "audio" else "video")
  }

  /** What the two `forEach` calls push, in order. */
  function PlayerFormats(formats: seq<RawFormat>, adaptive: seq<RawFormat>): seq<VideoFormat>
  {
    FilterMap(HasSource, Progressive, formats) + FilterMap(HasSource, Adaptive, adaptive)
  }

  /** `extractFormatsFromPlayerResponse`, with an absent list given as empty. */
  method ExtractFormats(formats: seq<RawFormat>, adaptive: seq<RawFormat>) returns (out: seq<VideoFormat>)
    ensures out == PlayerFormats(formats, adaptive)
  {
    out := [];
    var i := 0;
    while i < |formats|
      invariant 0 <= i <= |formats|
      invariant FilterMap(HasSource, Progressive, formats) == out + FilterMap(HasSource, Progressive, formats[i..])
    {
      FilterMapStep(HasSource, Progressive, formats, i);
      var pushed := if HasSource(formats[i]) then [Progressive(formats[i])] else [];
      Regroup(out, pushed, FilterMap(HasSource, Progressive, formats[i + 1..]));
      out := out + pushed;
      i := i + 1;
    }
    assert formats[i..] == [];
    ghost var head := out;
    i := 0;
    while i < |adaptive|
      invariant 0 <= i <= |adaptive| && head == FilterMap(HasSource, Progressive, formats)
      invariant head + FilterMap(HasSource, Adaptive, adaptive) == out + FilterMap(HasSource, Adaptive, adaptive[i..])
    {
      FilterMapStep(HasSource, Adaptive, adaptive, i);
      var pushed := if HasSource(adaptive[i]) then [Adaptive(adaptive[i])] else [];
      Regroup(out, pushed, FilterMap(HasSource, Adaptive, adaptive[i + 1..]));
      out := out + pushed;
      i := i + 1;
    }
    assert adaptive[i..] == [];
  }

  /**
   * Entries with neither an address nor a cipher are skipped; the plain
   * formats come first, each converted in order, then the adaptive ones.
   */
  lemma PlayerFormatsIs(formats: seq<RawFormat>, adaptive: seq<RawFormat>)
    ensures var out := PlayerFormats(formats, adaptive); var n := |Filter(HasSource, formats)|;
      n <= |out| && MapsTo(Progressive, Filter(HasSource, formats), out[..n])
      && MapsTo(Adaptive, Filter(HasSource, adaptive), out[n..])
  {
    var l := FilterMap(HasSource, Progressive, formats);
    var r := FilterMap(HasSource, Adaptive, adaptive);
    FilterMapIs(HasSource, Progressive, formats);
    FilterMapIs(HasSource, Adaptive, adaptive);
    assert MapsTo(Progressive, Filter(HasSource, formats), l);
    assert MapsTo(Adaptive, Filter(HasSource, adaptive), r);
    assert (l + r)[..|l|] == l && (l + r)[|l|..] == r;
  }

  /**
   * Every kept entry has an address, its own or its cipher; a plain format
   * is always a video, an adaptive one is audio exactly when its type
   * mentions `audio`; a missing type reads as MP4.
   */
  lemma RawFormatIs(f: RawFormat)
    ensures HasSource(f) <==> Progressive(f).url != ""
    ensures HasSource(f) <==> Adaptive(f).url != ""
    ensures Progressive(f).kind == "video"
    ensures Adaptive(f).kind == "audio" <==> Contains(f.mimeType, "audio")
    ensures f.mimeType == "" ==> Progressive(f).mimeType == "video/mp4" && Adaptive(f).mimeType == "video/mp4"
  {
  }

  // ---------------------------------------------------------------------------
  // The format selection of downloadYouTubeVideo

  predicate Is720(f: VideoFormat) { f.quality == "720p" }

  predicate Is480(f: VideoFormat) { f.quality == "480p" }

  /** `selectedFormat` for the requested quality. */
  function SelectFormat(requested: string, links: seq<VideoFormat>, best: VideoFormat): VideoFormat
  {
    if requested == "best" then best
    else if requested == "720p" then (match Find(Is720, links) case Some(f) => f case None => best)
    else if requested == "480p" then (match Find(Is480, links) case Some(f) => f case None => best)
    else best
  }

  /**
   * `best` and any unknown request give the best link; `720p` and `480p`
   * give the first link of exactly that quality, or the best link when none
   * has it.
   */
  lemma SelectFormatIs(requested: string, links: seq<VideoFormat>, best: VideoFormat)
    ensures requested != "720p" && requested != "480p" ==> SelectFormat(requested, links, best) == best
    ensures requested == "720p" ==>
      SelectFormat(requested, links, best) == if Filter(Is720, links) == [] then best else Filter(Is720, links)[0]
    ensures requested == "480p" ==>
      SelectFormat(requested, links, best) == if Filter(Is480, links) == [] then best else Filter(Is480, links)[0]
  {
    FindFilter(Is720, links);
    FindFilter(Is480, links);
  }
}
