/**
 * The quality scale the downloader ranks links by: the score read from a
 * resolution text (`getQualityScore` in src/index.ts and its older form in
 * dist/index.mjs) and the label shown for a score (`getQualityLabel`).
 */
module Quality {
  import opened Wrappers
  import opened Text

  // ---------------------------------------------------------------------------
  // The two numeric patterns

  /** The end of the run of digits starting at `k`: `k` itself when `s[k]` is not a digit. */
  function RunEnd(s: string, k: nat): (e: nat)
    requires k <= |s|
    ensures k <= e <= |s| && (e < |s| ==> !IsDigit(s[e]))
    ensures forall i :: k <= i < e ==> IsDigit(s[i])
    decreases |s| - k
  {
    if k < |s| && IsDigit(s[k]) then RunEnd(s, k + 1) else k
  }

  /** `/(\d+)p/` and `/(\d+)[x×](\d+)/`. */
  datatype Pattern = Tagged | Dimensions

  predicate IsTimes(c: char) { c == 'x' || c == '\U{D7}' }

  /**
   * The pattern matches with its first digits starting at `k`: the greedy
   * run of digits there is followed by `p`, or by `x` or `×` and a digit. A
   * shorter run is followed by a digit, so backtracking finds nothing more.
   */
  predicate MatchAt(s: string, pattern: Pattern, k: nat)
  {
    k < |s| && IsDigit(s[k])
    && var e := RunEnd(s, k);
    match pattern
    case Tagged => e < |s| && s[e] == 'p'
    case Dimensions => e + 1 < |s| && IsTimes(s[e]) && IsDigit(s[e + 1])
  }

  /** The scan of `s.match(pattern)` from `i`: tried at `i`, then past the run of digits or the character there. */
  function FirstMatch(s: string, pattern: Pattern, i: nat): (r: Option<nat>)
    requires i <= |s|
    ensures r.Some? ==> i <= r.value < |s| && MatchAt(s, pattern, r.value)
    decreases |s| - i
  {
    if i == |s| then None
    else if MatchAt(s, pattern, i) then Some(i)
    else if IsDigit(s[i]) then FirstMatch(s, pattern, RunEnd(s, i))
    else FirstMatch(s, pattern, i + 1)
  }

  /** The capture of `/(\d+)p/`: the digits of the leftmost match. */
  function TaggedDigits(s: string): (r: Option<string>)
    ensures r.Some? ==> |r.value| > 0 && AllDigits(r.value)
  {
    match FirstMatch(s, Tagged, 0)
    case None => None
    case Some(k) =>
      var d := s[k..RunEnd(s, k)];
      assert forall i :: 0 <= i < |d| ==> d[i] == s[k + i];
      Some(d)
  }

  /** `parseInt` of the capture of `/(\d+)p/`. */
  function TaggedHeight(s: string): Option<nat>
  {
    match TaggedDigits(s)
    case None => None
    case Some(d) => Some(DecimalValue(d))
  }

  /** The value of the digits after the sign in a `WxH` match starting at `k`. */
  function PixelCapture(s: string, k: nat): nat
    requires MatchAt(s, Dimensions, k)
  {
    var e := RunEnd(s, k);
    var h := s[e + 1..RunEnd(s, e + 1)];
    assert forall i :: 0 <= i < |h| ==> h[i] == s[e + 1 + i];
    DecimalValue(h)
  }

  /** `parseInt` of the second capture of `/(\d+)[x×](\d+)/`. */
  function PixelHeight(s: string): Option<nat>
  {
    match FirstMatch(s, Dimensions, 0)
    case None => None
    case Some(k) => Some(PixelCapture(s, k))
  }

  /** Starting inside a run of digits reaches the same end of the run. */
  lemma {:induction false} RunEndInside(s: string, k: nat, j: nat)
    requires k <= |s| && k <= j <= RunEnd(s, k)
    ensures RunEnd(s, j) == RunEnd(s, k)
    decreases j - k
  {
    if k < j {
      RunEndInside(s, k + 1, j);
    }
  }

  /** `n` digits at `k` and no digit after them make a run of length `n`. */
  lemma {:induction false} RunEndOf(s: string, k: nat, n: nat)
    requires k + n <= |s| && (forall i :: k <= i < k + n ==> IsDigit(s[i]))
    requires k + n == |s| || !IsDigit(s[k + n])
    ensures RunEnd(s, k) == k + n
    decreases n
  {
    if n > 0 {
      RunEndOf(s, k + 1, n - 1);
    }
  }

  /**
   * The scan finds the leftmost position from `i` on where the pattern
   * matches, and nothing exactly when no such position exists.
   */
  lemma {:induction false} FirstMatchLeftmost(s: string, pattern: Pattern, i: nat)
    requires i <= |s|
    ensures FirstMatch(s, pattern, i).None? <==> forall k :: i <= k < |s| ==> !MatchAt(s, pattern, k)
    ensures FirstMatch(s, pattern, i).Some? ==> forall j :: i <= j < FirstMatch(s, pattern, i).value ==> !MatchAt(s, pattern, j)
    decreases |s| - i
  {
    if i < |s| && !MatchAt(s, pattern, i) {
      var next := if IsDigit(s[i]) then RunEnd(s, i) else i + 1;
      forall j | i < j < next ensures !MatchAt(s, pattern, j) {
        RunEndInside(s, i, j);
      }
      FirstMatchLeftmost(s, pattern, next);
    }
  }

  /** The match the scan reports starts a run of digits: no digit comes just before it. */
  lemma FirstMatchStart(s: string, pattern: Pattern)
    ensures FirstMatch(s, pattern, 0).Some? ==>
      var k := FirstMatch(s, pattern, 0).value;
      k == 0 || !IsDigit(s[k - 1])
  {
    FirstMatchLeftmost(s, pattern, 0);
    if FirstMatch(s, pattern, 0).Some? {
      var k := FirstMatch(s, pattern, 0).value;
      if k > 0 && IsDigit(s[k - 1]) {
        RunEndInside(s, k - 1, k);
        assert MatchAt(s, pattern, k - 1);
      }
    }
  }

  /**
   * `TaggedHeight` is `parseInt` of the leftmost match of `/(\d+)p/`: absent
   * exactly when no position matches, and otherwise the value of the whole
   * run of digits that ends at the first `p` preceded by one.
   */
  lemma TaggedHeightIs(s: string)
    ensures TaggedHeight(s).None? <==> forall k :: 0 <= k < |s| ==> !MatchAt(s, Tagged, k)
    ensures TaggedHeight(s).Some? ==>
      var k := FirstMatch(s, Tagged, 0).value;
      (forall j :: 0 <= j < k ==> !MatchAt(s, Tagged, j))
      && (k == 0 || !IsDigit(s[k - 1]))
      && s[RunEnd(s, k)] == 'p'
      && TaggedHeight(s) == Some(DecimalValue(s[k..RunEnd(s, k)]))
  {
    FirstMatchLeftmost(s, Tagged, 0);
    FirstMatchStart(s, Tagged);
  }

  /**
   * `PixelHeight` is `parseInt` of the second capture of the leftmost match
   * of `/(\d+)[x×](\d+)/`: absent exactly when no position matches.
   */
  lemma PixelHeightIs(s: string)
    ensures PixelHeight(s).None? <==> forall k :: 0 <= k < |s| ==> !MatchAt(s, Dimensions, k)
    ensures PixelHeight(s).Some? ==>
      var k := FirstMatch(s, Dimensions, 0).value;
      (forall j :: 0 <= j < k ==> !MatchAt(s, Dimensions, j))
      && (k == 0 || !IsDigit(s[k - 1]))
      && PixelHeight(s) == Some(PixelCapture(s, k))
  {
    FirstMatchLeftmost(s, Dimensions, 0);
    FirstMatchStart(s, Dimensions);
  }

  /** A match at `k` with none before it is the one the scan reports. */
  lemma FirstMatchAt(s: string, pattern: Pattern, k: nat)
    requires MatchAt(s, pattern, k) && forall j :: 0 <= j < k ==> !MatchAt(s, pattern, j)
    ensures FirstMatch(s, pattern, 0) == Some(k)
  {
    FirstMatchLeftmost(s, pattern, 0);
  }

  /**
   * `WxH` after a text in which no match starts, and which does not end in
   * a digit, gives `H`, read in full.
   */
  lemma PixelForm(pre: string, w: string, h: string, rest: string)
    requires pre == [] || !IsDigit(pre[|pre| - 1])
    requires w != [] && h != [] && AllDigits(w) && AllDigits(h) && (rest == [] || !IsDigit(rest[0]))
    requires forall j :: 0 <= j < |pre| ==> !MatchAt(pre + w + "x" + h + rest, Dimensions, j)
    ensures PixelHeight(pre + w + "x" + h + rest) == Some(DecimalValue(h))
  {
    var s := pre + w + "x" + h + rest;
    PixelAt(s, pre, w, h, rest);
    FirstMatchAt(s, Dimensions, |pre|);
  }

  /** `WxH` at `|a|`, followed by no digit, is a match whose second capture is `H`. */
  lemma PixelAt(s: string, a: string, w: string, h: string, rest: string)
    requires s == a + w + "x" + h + rest
    requires w != [] && h != [] && AllDigits(w) && AllDigits(h) && (rest == [] || !IsDigit(rest[0]))
    ensures MatchAt(s, Dimensions, |a|) && PixelCapture(s, |a|) == DecimalValue(h)
  {
    var k := |a|;
    var e := k + |w|;
    assert forall i :: k <= i < e ==> s[i] == w[i - k];
    assert forall i :: e + 1 <= i < e + 1 + |h| ==> s[i] == h[i - e - 1];
    assert e + 1 + |h| == |s| || s[e + 1 + |h|] == rest[0];
    assert s[e + 1..e + 1 + |h|] == h;
    PixelRun(s, k, |w|, |h|);
  }

  /** `n` digits, `x` and `m` digits at `k`, followed by no digit, are a match whose second capture is those `m` digits. */
  lemma PixelRun(s: string, k: nat, n: nat, m: nat)
    requires n > 0 && m > 0 && k + n + 1 + m <= |s| && s[k + n] == 'x'
    requires forall i :: k <= i < k + n ==> IsDigit(s[i])
    requires forall i :: k + n + 1 <= i < k + n + 1 + m ==> IsDigit(s[i])
    requires k + n + 1 + m == |s| || !IsDigit(s[k + n + 1 + m])
    ensures MatchAt(s, Dimensions, k) && PixelCapture(s, k) == DecimalValue(s[k + n + 1..k + n + 1 + m])
  {
    RunEndOf(s, k, n);
    RunEndOf(s, k + n + 1, m);
  }

  /**
   * `Np` after a text in which no match starts, and which does not end in a
   * digit, gives `N`, read in full.
   */
  lemma TaggedForm(pre: string, n: string, rest: string)
    requires pre == [] || !IsDigit(pre[|pre| - 1])
    requires n != [] && AllDigits(n)
    requires forall j :: 0 <= j < |pre| ==> !MatchAt(pre + n + "p" + rest, Tagged, j)
    ensures TaggedHeight(pre + n + "p" + rest) == Some(DecimalValue(n))
  {
    var s := pre + n + "p" + rest;
    var k := |pre|;
    assert forall i :: k <= i < k + |n| ==> s[i] == n[i - k];
    assert s[k + |n|] == 'p';
    RunEndOf(s, k, |n|);
    assert s[k..RunEnd(s, k)] == n;
    FirstMatchAt(s, Tagged, k);
  }

  // ---------------------------------------------------------------------------
  // getQualityScore (src/index.ts)

  predicate UltraHd(res: string) { Contains(res, "4k") || Contains(res, "2160") || Contains(res, "uhd") }

  predicate QuadHd(res: string) { Contains(res, "2k") || Contains(res, "1440") }

  predicate FullHd(res: string)
  {
    Contains(res, "1080") || Contains(res, "hd") || Contains(res, "fullhd") || Contains(res, "fhd")
  }

  /** Any of the resolution words tested before the numeric patterns. */
  predicate NamedResolution(res: string)
  {
    UltraHd(res) || QuadHd(res) || FullHd(res) || Contains(res, "720") || Contains(res, "480")
    || Contains(res, "sd") || Contains(res, "360") || Contains(res, "240")
  }

  /** The score of a pixel height `N` found in `WxN`. */
  function HeightScore(h: nat): nat
  {
    if h >= 2160 then 4000
    else if h >= 1440 then 2000
    else if h >= 1080 then 1080
    else if h >= 720 then 720
    else if h >= 480 then 480
    else if h >= 360 then 360
    else h
  }

  /** The score of the words tried last. */
  function WordScore(res: string): nat
  {
    if Contains(res, "high") || Contains(res, "best") || Contains(res, "original") then 1000
    else if Contains(res, "medium") || Contains(res, "normal") then 500
    else if Contains(res, "low") || Contains(res, "worst") then 100
    else 500
  }

  /** `getQualityScore(resolution)`: the tests in order, on the lower-cased text. */
  function QualityScore(resolution: string): (r: nat)
  {
    if resolution == [] then 0
    else
      var res := ToLower(resolution);
      if UltraHd(res) then 4000
      else if QuadHd(res) then 2000
      else if FullHd(res) then 1080
      else if Contains(res, "720") || Contains(res, "hd") then 720
      else if Contains(res, "480") || Contains(res, "sd") then 480
      else if Contains(res, "360") then 360
      else if Contains(res, "240") then 240
      else match PixelHeight(res)
        case Some(h) => HeightScore(h)
        case None =>
          match TaggedHeight(res)
          case Some(h) => h
          case None => WordScore(res)
  }

  lemma NothingInEmpty(p: string)
    requires p != []
    ensures !Contains([], p)
  {
  }

  /** The empty resolution scores 0. */
  lemma QualityScoreEmpty()
    ensures QualityScore([]) == 0
  {
  }

  /** `4k`, `2160` or `uhd` anywhere, in any case, scores 4000 before any other rule is tried. */
  lemma UltraHdFirst(resolution: string)
    requires UltraHd(ToLower(resolution))
    ensures QualityScore(resolution) == 4000
  {
    if resolution == [] {
      NothingInEmpty("4k");
      NothingInEmpty("2160");
      NothingInEmpty("uhd");
    }
  }

  /** Lower-casing only ASCII letters twice changes nothing more. */
  lemma ToLowerIdempotent(s: string)
    ensures ToLower(ToLower(s)) == ToLower(s)
  {
  }

  /** Scoring ignores case: a text and its lower-cased form score the same. */
  lemma ScoreIgnoresCase(resolution: string)
    ensures QualityScore(ToLower(resolution)) == QualityScore(resolution)
  {
    ToLowerIdempotent(resolution);
  }

  /**
   * A text holding `hd` that is not caught as 4K or 2K scores 1080: the `hd`
   * test of the 720 rule is never the one that decides.
   */
  lemma HdIsFullHd(resolution: string)
    requires Contains(ToLower(resolution), "hd")
    requires !UltraHd(ToLower(resolution)) && !QuadHd(ToLower(resolution))
    ensures QualityScore(resolution) == 1080
  {
    if resolution == [] {
      NothingInEmpty("hd");
    }
  }

  /** Hence a score of 720 never comes from a text holding `hd`. */
  lemma Score720HasNoHd(resolution: string)
    requires QualityScore(resolution) == 720
    ensures !Contains(ToLower(resolution), "hd")
  {
    var res := ToLower(resolution);
    if Contains(res, "hd") {
      if UltraHd(res) {
        UltraHdFirst(resolution);
      } else if QuadHd(res) {
      } else {
        HdIsFullHd(resolution);
      }
    }
  }

  /** A `WxH` text with none of the resolution words is bucketed by its height. */
  lemma PixelBucket(resolution: string, h: nat)
    requires resolution != [] && !NamedResolution(ToLower(resolution))
    requires PixelHeight(ToLower(resolution)) == Some(h)
    ensures QualityScore(resolution) == HeightScore(h)
  {
  }

  /** `1920x1200` holds none of the resolution words, so its height 1200 puts it in the 1080 bucket. */
  lemma WideScreenScore()
    ensures QualityScore("1920x1200") == 1080
  {
    var res := "1920x1200";
    WideScreenHeight(res);
    WideScreenLower();
    WideScreenUnnamed(res);
    PixelBucket(res, 1200);
  }

  lemma WideScreenHeight(res: string)
    requires res == "1920x1200"
    ensures PixelHeight(res) == Some(1200)
  {
    var w, h := "1920", "1200";
    assert res == [] + w + "x" + h + [];
    PixelForm([], w, h, []);
    Value1200();
  }

  lemma WideScreenLower()
    ensures ToLower("1920x1200") == "1920x1200"
  {
    var res := "1920x1200";
    assert forall i :: 0 <= i < |res| ==> IsDigit(res[i]) || res[i] == 'x';
    LowerUnchanged(res);
  }

  lemma Value1200()
    ensures DecimalValue("1200") == 1200
  {
    assert "1200"[..3] == "120" && "120"[..2] == "12" && "12"[..1] == "1" && "1"[..0] == [];
  }

  /** Each resolution word holds a character missing from `1920x1200`. */
  lemma WideScreenUnnamed(res: string)
    requires res == "1920x1200"
    ensures !NamedResolution(res)
  {
    WideScreenNoWords(res);
    WideScreenNoHeights(res);
  }

  lemma WideScreenNoWords(res: string)
    requires res == "1920x1200"
    ensures !Contains(res, "4k") && !Contains(res, "uhd") && !Contains(res, "2k") && !Contains(res, "hd")
    ensures !Contains(res, "fullhd") && !Contains(res, "fhd") && !Contains(res, "sd")
  {
    NotContainsChar(res, "4k", 1);
    NotContainsChar(res, "uhd", 0);
    NotContainsChar(res, "2k", 1);
    NotContainsChar(res, "hd", 0);
    NotContainsChar(res, "fullhd", 0);
    NotContainsChar(res, "fhd", 0);
    NotContainsChar(res, "sd", 0);
  }

  lemma WideScreenNoHeights(res: string)
    requires res == "1920x1200"
    ensures !Contains(res, "2160") && !Contains(res, "1440") && !Contains(res, "1080")
    ensures !Contains(res, "720") && !Contains(res, "480") && !Contains(res, "360") && !Contains(res, "240")
  {
    NotContainsChar(res, "2160", 2);
    NotContainsChar(res, "1440", 1);
    NotContainsChar(res, "1080", 2);
    NotContainsChar(res, "720", 0);
    NotContainsChar(res, "480", 0);
    NotContainsChar(res, "360", 0);
    NotContainsChar(res, "240", 1);
  }

  // ---------------------------------------------------------------------------
  // getQualityLabel (src/index.ts)

  /** The labels from the lowest tier to the highest. */
  const Labels: seq<string> := ["Standard", "Very Low (240p)", "Low (360p)", "SD (480p)", "HD (720p)",
    "Full HD (1080p)", "2K HD", "4K Ultra HD"]

  /** The lowest score of each tier above `Standard`. */
  const Thresholds: seq<int> := [240, 360, 480, 720, 1080, 2000, 4000]

  /** `getQualityLabel(quality)`. */
  function QualityLabel(quality: int): string
  {
    if quality >= 4000 then "4K Ultra HD"
    else if quality >= 2000 then "2K HD"
    else if quality >= 1080 then "Full HD (1080p)"
    else if quality >= 720 then "HD (720p)"
    else if quality >= 480 then "SD (480p)"
    else if quality >= 360 then "Low (360p)"
    else if quality >= 240 then "Very Low (240p)"
    else "Standard"
  }

  /** How many thresholds among the first `k` the score reaches. */
  function Reached(quality: int, k: nat): (r: nat)
    requires k <= |Thresholds|
    ensures r <= k
  {
    if k == 0 then 0 else Reached(quality, k - 1) + (if quality >= Thresholds[k - 1] then 1 else 0)
  }

  /** The tier of a score: the number of thresholds it reaches. */
  function Tier(quality: int): (r: nat)
    ensures r < |Labels|
  {
    Reached(quality, |Thresholds|)
  }

  /** The label is the one of the score's tier. */
  lemma LabelOfTier(quality: int)
    ensures QualityLabel(quality) == Labels[Tier(quality)]
  {
    assert Reached(quality, 1) == (if quality >= 240 then 1 else 0);
    assert Reached(quality, 2) == Reached(quality, 1) + (if quality >= 360 then 1 else 0);
    assert Reached(quality, 3) == Reached(quality, 2) + (if quality >= 480 then 1 else 0);
    assert Reached(quality, 4) == Reached(quality, 3) + (if quality >= 720 then 1 else 0);
    assert Reached(quality, 5) == Reached(quality, 4) + (if quality >= 1080 then 1 else 0);
    assert Reached(quality, 6) == Reached(quality, 5) + (if quality >= 2000 then 1 else 0);
    assert Tier(quality) == Reached(quality, 6) + (if quality >= 4000 then 1 else 0);
  }

  lemma {:induction false} ReachedMonotone(a: int, b: int, k: nat)
    requires a <= b && k <= |Thresholds|
    ensures Reached(a, k) <= Reached(b, k)
  {
    if k > 0 {
      ReachedMonotone(a, b, k - 1);
    }
  }

  /** The label is a step function of the score: a higher score never gets a lower label. */
  lemma LabelMonotone(a: int, b: int)
    requires a <= b
    ensures Tier(a) <= Tier(b)
    ensures QualityLabel(a) == Labels[Tier(a)] && QualityLabel(b) == Labels[Tier(b)]
  {
    ReachedMonotone(a, b, |Thresholds|);
    LabelOfTier(a);
    LabelOfTier(b);
  }

  /** The labels are distinct, so equal labels mean equal tiers. */
  lemma LabelsDistinct(i: nat, j: nat)
    requires i < |Labels| && j < |Labels| && Labels[i] == Labels[j]
    ensures i == j
  {
  }

  // ---------------------------------------------------------------------------
  // getQualityScore (dist/index.mjs)

  /** The older `getQualityScore`: case-sensitive keywords, then `Np`, then 500. */
  function LegacyQualityScore(resolution: string): nat
  {
    if resolution == [] then 0
    else if Contains(resolution, "1080") || Contains(resolution, "HD") then 1000
    else if Contains(resolution, "720") then 720
    else if Contains(resolution, "480") then 480
    else if Contains(resolution, "360") then 360
    else match TaggedHeight(resolution)
      case Some(h) => h
      case None => 500
  }

  /**
   * The older score is one of the fixed keyword scores, or the number of the
   * first `Np` in the text; it is 0 exactly for the empty text or a `0p`.
   */
  lemma LegacyScoreValues(resolution: string)
    ensures var r := LegacyQualityScore(resolution);
      r in {0, 1000, 720, 480, 360, 500} || TaggedHeight(resolution) == Some(r)
    ensures LegacyQualityScore(resolution) == 0 <==> resolution == [] || (!LegacyKeyword(resolution) && TaggedHeight(resolution) == Some(0))
  {
  }

  predicate LegacyKeyword(resolution: string)
  {
    Contains(resolution, "1080") || Contains(resolution, "HD") || Contains(resolution, "720")
    || Contains(resolution, "480") || Contains(resolution, "360")
  }
}
