/**
 * URL helpers: `normalizeURL` (src/utils.ts, repeated in
 * test-youtube-urls.js) and `extractYouTubeVideoId` (test-youtube-urls.js).
 * Each regular expression is modelled by the positions it can match at; a
 * JavaScript `match` or `test` reports the leftmost one.
 */
module Urls {
  import opened Wrappers
  import opened Text

  // ---------------------------------------------------------------------------
  // normalizeURL

  /** What `.` in a regular expression does not match. */
  predicate IsLineTerminator(c: char)
  {
    c == '\n' || c == '\r' || c == '\U{2028}' || c == '\U{2029}'
  }

  predicate NoLineTerminator(s: string)
  {
    forall i :: 0 <= i < |s| ==> !IsLineTerminator(s[i])
  }

  /** `(\d+)(?:.*)?$`: a digit, then anything up to the end on one line. */
  predicate StatusId(s: string)
  {
    s != [] && IsDigit(s[0]) && NoLineTerminator(s)
  }

  /** The position of the first `/`, or the length when there is none. */
  function FirstSlash(s: string): (k: nat)
    ensures k <= |s| && '/' !in s[..k] && (k < |s| ==> s[k] == '/')
  {
    if s == [] || s[0] == '/' then 0
    else
      var k := FirstSlash(s[1..]);
      assert s[..k + 1] == [s[0]] + s[1..][..k];
      k + 1
  }

  /** `(?:i\/web|[^/]+)\/status\/(\d+)(?:.*)?$` at the start of `s`. */
  predicate StatusPath(s: string)
  {
    (StartsWith(s, "i/web/status/") && StatusId(s[13..]))
    || (var k := FirstSlash(s); k > 0 && StartsWith(s[k..], "/status/") && StatusId(s[k + 8..]))
  }

  /** `twitterRegex.test(url)`: a bare x.com or twitter.com address, or one of its status pages. */
  predicate TwitterUrl(url: string)
  {
    (StartsWith(url, "https://x.com") && TwitterTail(url[13..]))
    || (StartsWith(url, "https://twitter.com") && TwitterTail(url[19..]))
  }

  predicate TwitterTail(t: string)
  {
    t == [] || (t[0] == '/' && StatusPath(t[1..]))
  }

  /** The length of the `https?:\/\/` prefix. */
  function SchemeLength(url: string): (r: Option<nat>)
    ensures r.Some? ==> r.value <= |url|
  {
    if StartsWith(url, "https://") then Some(8)
    else if StartsWith(url, "http://") then Some(7)
    else None
  }

  predicate IsLowerAlnum(c: char)
  {
    'a' <= c <= 'z' || IsDigit(c)
  }

  /** `/^(https?:\/\/)(?!www\.)[a-z0-9]+/i.test(url)`: the flag makes ASCII letters match in either case. */
  predicate CanInsertWww(url: string)
  {
    var lower := ToLower(url);
    match SchemeLength(lower)
    case None => false
    case Some(k) => !StartsWith(lower[k..], "www.") && k < |lower| && IsLowerAlnum(lower[k])
  }

  /** `[^./]+\.[^./]+`: two non-empty labels joined by a single dot. */
  predicate TwoLabels(host: string)
  {
    '/' !in host && '.' in host
    && var i := IndexOfChar(host, '.');
    0 < i < |host| - 1 && '.' !in host[i + 1..]
  }

  /**
   * `url.replace(/^(https?:\/\/)([^./]+\.[^./]+)(\/.*)?$/, "$1www.$2$3")`:
   * `www.` goes after the scheme when the host has exactly two labels and
   * the path after it stays on one line.
   */
  function InsertWww(url: string): string
  {
    match SchemeLength(url)
    case None => url
    case Some(k) =>
      var rest := url[k..];
      var j := FirstSlash(rest);
      if TwoLabels(rest[..j]) && NoLineTerminator(rest[j..]) then url[..k] + "www." + rest else url
  }

  /** `normalizeURL(url)`. */
  function NormalizeUrl(url: string): string
  {
    if TwitterUrl(url) then url
    else if CanInsertWww(url) then InsertWww(url)
    else url
  }

  /** A Twitter or X address comes back unchanged. */
  lemma TwitterUnchanged(url: string)
    requires TwitterUrl(url)
    ensures NormalizeUrl(url) == url
  {
  }

  /** In particular every status page of an account on x.com. */
  lemma StatusPageUnchanged(handle: string, id: string, rest: string)
    requires handle != [] && '/' !in handle
    requires id != [] && AllDigits(id) && NoLineTerminator(id + rest)
    ensures NormalizeUrl("https://x.com/" + handle + "/status/" + id + rest) == "https://x.com/" + handle + "/status/" + id + rest
  {
    var t := "/" + handle + "/status/" + id + rest;
    StatusTail(handle, id + rest);
    assert t == "/" + handle + "/status/" + (id + rest);
    assert "https://x.com/" + handle + "/status/" + id + rest == "https://x.com" + t;
    XcomTwitter(t);
  }

  lemma XcomTwitter(t: string)
    requires TwitterTail(t)
    ensures TwitterUrl("https://x.com" + t)
  {
    var u := "https://x.com" + t;
    assert u[..13] == "https://x.com";
    assert u[13..] == t;
  }

  lemma StatusTail(handle: string, idRest: string)
    requires handle != [] && '/' !in handle && StatusId(idRest)
    ensures TwitterTail("/" + handle + "/status/" + idRest)
  {
    var t := "/" + handle + "/status/" + idRest;
    var s := handle + ("/status/" + idRest);
    assert t[1..] == s;
    HandleSlash(handle, "/status/" + idRest);
    assert s[|handle|..] == "/status/" + idRest;
    assert s[|handle| + 8..] == idRest;
  }

  lemma HandleSlash(handle: string, rest: string)
    requires '/' !in handle && rest != [] && rest[0] == '/'
    ensures FirstSlash(handle + rest) == |handle|
  {
    var s := handle + rest;
    assert s[..|handle|] == handle;
    FirstSlashIs(s, |handle|);
  }

  lemma {:induction false} FirstSlashIs(s: string, k: nat)
    requires k < |s| && s[k] == '/' && '/' !in s[..k]
    ensures FirstSlash(s) == k
    decreases k
  {
    if k > 0 {
      assert s[0] == s[..k][0];
      assert s[1..][..k - 1] == s[..k][1..];
      FirstSlashIs(s[1..], k - 1);
    }
  }

  /**
   * A two-label host written without `www.` gains it, whatever the path,
   * when the address is not a Twitter one.
   */
  lemma WwwInserted(scheme: string, a: string, b: string, path: string)
    requires scheme == "https://" || scheme == "http://"
    requires a != [] && b != [] && '.' !in a && '/' !in a && '.' !in b && '/' !in b
    requires ('a' <= ToLowerChar(a[0]) <= 'z' || IsDigit(a[0])) && ToLower(a) != "www"
    requires path == [] || (path[0] == '/' && NoLineTerminator(path))
    requires !TwitterUrl(scheme + (a + "." + b + path))
    ensures NormalizeUrl(scheme + (a + "." + b + path)) == scheme + "www." + (a + "." + b + path)
  {
    var rest := a + "." + b + path;
    CanInsertOf(scheme, a, "." + b + path);
    Regroup(a, "." + b, path);
    Regroup(a, ".", b);
    HostOf(a, b, path);
    InsertsAfterScheme(scheme, rest, a + "." + b, path);
  }

  lemma InsertsAfterScheme(scheme: string, rest: string, host: string, path: string)
    requires scheme == "https://" || scheme == "http://"
    requires rest == host + path && FirstSlash(host + path) == |host| && TwoLabels(host) && NoLineTerminator(path)
    ensures InsertWww(scheme + rest) == scheme + "www." + rest
  {
    var url := scheme + rest;
    SchemeOf(scheme, rest);
    assert url[|scheme|..] == rest;
    InsertsWww(url, |scheme|, host, path);
    assert url[..|scheme|] == scheme;
  }

  lemma CanInsertOf(scheme: string, a: string, tail: string)
    requires scheme == "https://" || scheme == "http://"
    requires a != [] && '.' !in a && ('a' <= ToLowerChar(a[0]) <= 'z' || IsDigit(a[0])) && ToLower(a) != "www"
    requires tail != [] && tail[0] == '.'
    ensures CanInsertWww(scheme + (a + tail))
  {
    LowerScheme(scheme, a + tail);
    NoWwwLabel(a, tail);
    assert (scheme + ToLower(a + tail))[|scheme|..] == ToLower(a + tail);
  }

  lemma InsertsWww(url: string, k: nat, host: string, path: string)
    requires SchemeLength(url) == Some(k) && url[k..] == host + path
    requires FirstSlash(host + path) == |host| && TwoLabels(host) && NoLineTerminator(path)
    ensures InsertWww(url) == url[..k] + "www." + url[k..]
  {
    assert (host + path)[..|host|] == host;
    assert (host + path)[|host|..] == path;
  }

  lemma HostOf(a: string, b: string, path: string)
    requires a != [] && b != [] && '.' !in a && '/' !in a && '.' !in b && '/' !in b
    requires path == [] || path[0] == '/'
    ensures FirstSlash(a + "." + b + path) == |a + "." + b| && TwoLabels(a + "." + b)
  {
    var host := a + "." + b;
    assert a + "." + b + path == host + path;
    if path != [] {
      HandleSlash(host, path);
    } else {
      assert host + path == host;
      NoSlash(host);
    }
    assert host[..|a|] == a;
    IndexOfCharIs(host, '.', |a|);
    assert host[|a| + 1..] == b;
  }

  lemma SchemeOf(scheme: string, rest: string)
    requires scheme == "https://" || scheme == "http://"
    ensures SchemeLength(scheme + rest) == Some(|scheme|)
  {
    var u := scheme + rest;
    assert u[..|scheme|] == scheme;
    if scheme == "http://" {
      assert !StartsWith(u, "https://") by {
        assert u[4] == ':';
      }
    }
  }

  lemma ToLowerAppend(a: string, b: string)
    ensures ToLower(a + b) == ToLower(a) + ToLower(b)
  {
  }

  lemma LowerSchemeFixed(scheme: string)
    requires scheme == "https://" || scheme == "http://"
    ensures ToLower(scheme) == scheme
  {
    assert forall i :: 0 <= i < |scheme| ==> !('A' <= scheme[i] <= 'Z');
    LowerUnchanged(scheme);
  }

  lemma LowerScheme(scheme: string, rest: string)
    requires scheme == "https://" || scheme == "http://"
    ensures ToLower(scheme + rest) == scheme + ToLower(rest)
    ensures SchemeLength(ToLower(scheme + rest)) == Some(|scheme|)
  {
    ToLowerAppend(scheme, rest);
    LowerSchemeFixed(scheme);
    SchemeOf(scheme, ToLower(rest));
  }

  lemma NoWwwLabel(a: string, tail: string)
    requires a != [] && '.' !in a && ('a' <= ToLowerChar(a[0]) <= 'z' || IsDigit(a[0])) && ToLower(a) != "www"
    requires tail != [] && tail[0] == '.'
    ensures var l := ToLower(a + tail); |l| > 0 && IsLowerAlnum(l[0]) && !StartsWith(l, "www.")
  {
    var l := ToLower(a + tail);
    ToLowerAppend(a, tail);
    assert l[0] == ToLowerChar(a[0]);
    if |a| < 3 {
      assert l[|a|] == '.';
      NotWwwAt(l, |a|);
    } else if |a| == 3 {
      var la := ToLower(a);
      assert exists i :: 0 <= i < 3 && la[i] != "www"[i];
      var i :| 0 <= i < 3 && la[i] != "www"[i];
      assert l[i] == la[i];
      NotWwwAt(l, i);
    } else {
      assert a[3] in a;
      assert l[3] == ToLowerChar(a[3]);
      NotWwwAt(l, 3);
    }
  }

  lemma NotWwwAt(l: string, i: nat)
    requires i < 4 && i < |l| && l[i] != "www."[i]
    ensures !StartsWith(l, "www.")
  {
    assert |l| < 4 || l[..4][i] == l[i];
  }

  lemma {:induction false} NoSlash(s: string)
    requires '/' !in s
    ensures FirstSlash(s) == |s|
    decreases |s|
  {
    if s != [] {
      NoSlash(s[1..]);
    }
  }

  /** The result is the address itself or the address with `www.` after its scheme. */
  lemma NormalizeShape(url: string)
    ensures var r := NormalizeUrl(url);
      r == url || exists k :: (k == 7 || k == 8) && k <= |url| && r == url[..k] + "www." + url[k..]
  {
  }

  /** Normalising twice is normalising once: after `www.` is inserted, the look-ahead refuses the address. */
  lemma NormalizeIdempotent(url: string)
    ensures NormalizeUrl(NormalizeUrl(url)) == NormalizeUrl(url)
  {
    var r := NormalizeUrl(url);
    if r != url {
      assert r == InsertWww(url);
      var k := SchemeLength(url).value;
      assert url[..k] == "https://" || url[..k] == "http://";
      assert r == url[..k] + "www." + url[k..];
      WwwRefused(url[..k], url[k..]);
    }
  }

  /** An address whose host starts with `www.` is left alone. */
  lemma WwwRefused(scheme: string, rest: string)
    requires scheme == "https://" || scheme == "http://"
    ensures !CanInsertWww(scheme + "www." + rest)
  {
    var w := "www." + rest;
    assert scheme + "www." + rest == scheme + w;
    LowerScheme(scheme, w);
    ToLowerAppend("www.", rest);
    assert ToLower("www.") == "www.";
    assert (scheme + ToLower(w))[|scheme|..] == ToLower(w);
  }

  // ---------------------------------------------------------------------------
  // extractYouTubeVideoId

  /** `[a-zA-Z0-9_-]`. */
  predicate IsIdChar(c: char)
  {
    'a' <= c <= 'z' || 'A' <= c <= 'Z' || IsDigit(c) || c == '_' || c == '-'
  }

  /** Eleven id characters. */
  predicate IsVideoId(id: string)
  {
    |id| == 11 && forall i :: 0 <= i < 11 ==> IsIdChar(id[i])
  }

  /** The id captured when `s` starts with `marker` followed by eleven id characters. */
  function IdAfter(s: string, marker: string): (r: Option<string>)
    ensures r.Some? ==> IsVideoId(r.value)
  {
    if StartsWith(s, marker) && |s| >= |marker| + 11 && IsVideoId(s[|marker|..|marker| + 11])
    then Some(s[|marker|..|marker| + 11])
    else None
  }

  /** The first of the alternatives that matches at the start of `s`. */
  function IdAtStart(s: string, markers: seq<string>): (r: Option<string>)
    ensures r.Some? ==> IsVideoId(r.value)
  {
    if markers == [] then None
    else match IdAfter(s, markers[0])
      case Some(id) => Some(id)
      case None => IdAtStart(s, markers[1..])
  }

  /** `s.match(re)` for `re` = one of `markers` followed by an 11-character id: the leftmost match. */
  function FindId(s: string, markers: seq<string>): (r: Option<string>)
    ensures r.Some? ==> IsVideoId(r.value)
  {
    if IdAtStart(s, markers).Some? then IdAtStart(s, markers)
    else if s == [] then None
    else FindId(s[1..], markers)
  }

  /** `/youtu\.be\/([a-zA-Z0-9_-]{11})/`. */
  const ShortMarkers: seq<string> := ["youtu.be/"]
  /** `/[?&]v=([a-zA-Z0-9_-]{11})/`. */
  const WatchMarkers: seq<string> := ["?v=", "&v="]
  /** `/\/(?:embed|v|shorts)\/([a-zA-Z0-9_-]{11})/`. */
  const PathMarkers: seq<string> := ["/embed/", "/v/", "/shorts/"]

  /** `extractYouTubeVideoId(url)`. */
  function ExtractVideoId(url: string): (r: Option<string>)
    ensures r.Some? ==> IsVideoId(r.value)
  {
    if Contains(url, "youtu.be/") then FindId(url, ShortMarkers)
    else if Contains(url, "youtube.com/") then
      match FindId(url, WatchMarkers)
      case Some(id) => Some(id)
      case None => FindId(url, PathMarkers)
    else None
  }

  /** Some alternative matches at position `k` with id `id`. */
  predicate MatchAt(s: string, markers: seq<string>, k: nat)
  {
    k <= |s| && IdAtStart(s[k..], markers).Some?
  }

  /**
   * The scan reports the leftmost position where an alternative matches, and
   * nothing exactly when no position matches.
   */
  lemma {:induction false} FindIdLeftmost(s: string, markers: seq<string>)
    ensures FindId(s, markers).None? <==> forall k :: 0 <= k <= |s| ==> !MatchAt(s, markers, k)
    ensures FindId(s, markers).Some? ==> exists k :: (0 <= k <= |s| && MatchAt(s, markers, k)
      && FindId(s, markers) == IdAtStart(s[k..], markers)
      && forall j :: 0 <= j < k ==> !MatchAt(s, markers, j))
    decreases |s|
  {
    assert s[0..] == s;
    if IdAtStart(s, markers).Some? {
      assert MatchAt(s, markers, 0);
    } else if s == [] {
    } else {
      FindIdLeftmost(s[1..], markers);
      MatchAtTail(s, markers);
      if FindId(s, markers).Some? {
        var k :| 0 <= k <= |s[1..]| && MatchAt(s[1..], markers, k)
          && FindId(s[1..], markers) == IdAtStart(s[1..][k..], markers)
          && forall j :: 0 <= j < k ==> !MatchAt(s[1..], markers, j);
        assert s[k + 1..] == s[1..][k..];
        assert MatchAt(s, markers, k + 1);
      }
    }
  }

  /** Matching past the first character is matching in the rest. */
  lemma MatchAtTail(s: string, markers: seq<string>)
    requires s != []
    ensures forall k :: 1 <= k <= |s| ==> MatchAt(s, markers, k) == MatchAt(s[1..], markers, k - 1)
  {
    forall k | 1 <= k <= |s| ensures MatchAt(s, markers, k) == MatchAt(s[1..], markers, k - 1) {
      assert s[k..] == s[1..][k - 1..];
    }
  }

  /** A prefix in which no alternative can start is skipped by the scan. */
  lemma {:induction false} FindIdSkips(pre: string, rest: string, markers: seq<string>)
    requires forall i :: 0 <= i < |pre| ==> IdAtStart(pre[i..] + rest, markers).None?
    ensures FindId(pre + rest, markers) == FindId(rest, markers)
    decreases |pre|
  {
    if pre == [] {
      assert pre + rest == rest;
    } else {
      assert pre[0..] + rest == pre + rest;
      assert IdAtStart(pre[0..] + rest, markers).None?;
      assert (pre + rest)[1..] == pre[1..] + rest;
      forall i | 0 <= i < |pre[1..]| ensures IdAtStart(pre[1..][i..] + rest, markers).None? {
        assert pre[1..][i..] == pre[i + 1..];
        assert IdAtStart(pre[i + 1..] + rest, markers).None?;
      }
      FindIdSkips(pre[1..], rest, markers);
      assert FindId(pre + rest, markers) == FindId(pre[1..] + rest, markers);
    }
  }

  /** The result is absent, or eleven id characters. */
  lemma VideoIdShape(url: string)
    ensures ExtractVideoId(url).None? || IsVideoId(ExtractVideoId(url).value)
  {
  }

  /** Without either host text the result is absent. */
  lemma NoHostNoId(url: string)
    requires !Contains(url, "youtu.be/") && !Contains(url, "youtube.com/")
    ensures ExtractVideoId(url) == None
  {
  }

  /**
   * Once `youtu.be/` occurs, only the short form is tried: the result is the
   * id after the leftmost `youtu.be/` that has one, and absent when none
   * has, even if a `?v=` id follows.
   */
  lemma ShortFormOnly(url: string)
    requires Contains(url, "youtu.be/")
    ensures ExtractVideoId(url).None? <==> forall k :: 0 <= k <= |url| ==> !MatchAt(url, ShortMarkers, k)
    ensures ExtractVideoId(url).Some? ==>
      exists k :: (0 <= k <= |url| && MatchAt(url, ShortMarkers, k)
        && (forall j :: 0 <= j < k ==> !MatchAt(url, ShortMarkers, j))
        && ExtractVideoId(url) == IdAfter(url[k..], "youtu.be/"))
  {
    FindIdLeftmost(url, ShortMarkers);
    assert ShortMarkers[1..] == [];
  }

  /** A match at `k` with none before it is the one the scan reports. */
  lemma FindIdAt(s: string, markers: seq<string>, k: nat)
    requires MatchAt(s, markers, k)
    requires forall j :: 0 <= j < k ==> !MatchAt(s, markers, j)
    ensures FindId(s, markers) == IdAtStart(s[k..], markers)
  {
    FindIdLeftmost(s, markers);
    var i :| 0 <= i <= |s| && MatchAt(s, markers, i)
      && FindId(s, markers) == IdAtStart(s[i..], markers)
      && forall j :: 0 <= j < i ==> !MatchAt(s, markers, j);
    assert !(i < k) && !(k < i);
  }

  /** A marker followed by eleven id characters captures them. */
  lemma MarkerId(marker: string, id: string, post: string)
    requires IsVideoId(id)
    ensures IdAfter(marker + id + post, marker) == Some(id)
  {
    var s := marker + id + post;
    assert s[..|marker|] == marker;
    assert s[|marker|..|marker| + 11] == id;
  }

  /**
   * `youtu.be/` followed by an id gives that id when no earlier position
   * matches the short form, whatever follows (a `?t=30`, or even a `?v=`).
   */
  lemma ShortForm(pre: string, id: string, post: string)
    requires IsVideoId(id)
    requires forall j :: 0 <= j < |pre| ==> !MatchAt(pre + "youtu.be/" + id + post, ShortMarkers, j)
    ensures ExtractVideoId(pre + "youtu.be/" + id + post) == Some(id)
  {
    var url := pre + "youtu.be/" + id + post;
    var s := url[|pre|..];
    assert s == "youtu.be/" + id + post;
    MarkerId("youtu.be/", id, post);
    assert ShortMarkers[1..] == [];
    assert IdAtStart(s, ShortMarkers) == Some(id);
    assert StartsWith(s, "youtu.be/");
    OccurrenceFound(url, "youtu.be/", |pre|);
    FindIdAt(url, ShortMarkers, |pre|);
  }

  /**
   * On a `youtube.com/` address without `youtu.be/`, `?v=` or `&v=` followed
   * by an id gives that id when no earlier position matches either form,
   * whatever parameters come before or after it.
   */
  lemma WatchForm(pre: string, sep: string, id: string, post: string)
    requires sep in WatchMarkers && IsVideoId(id)
    requires !Contains(pre + sep + id + post, "youtu.be/") && Contains(pre + sep + id + post, "youtube.com/")
    requires forall j :: 0 <= j < |pre| ==> !MatchAt(pre + sep + id + post, WatchMarkers, j)
    ensures ExtractVideoId(pre + sep + id + post) == Some(id)
  {
    var url := pre + sep + id + post;
    var s := url[|pre|..];
    assert s == sep + id + post;
    MarkerId(sep, id, post);
    assert IdAtStart(s, WatchMarkers) == Some(id) by {
      if sep == "&v=" {
        assert !StartsWith(s, "?v=") by { assert s[0] == '&'; }
        assert WatchMarkers[1..] == ["&v="];
      }
    }
    FindIdAt(url, WatchMarkers, |pre|);
  }

  /**
   * On a `youtube.com/` address without `youtu.be/` and with no `?v=`/`&v=`
   * id anywhere, `/embed/`, `/v/` or `/shorts/` followed by an id gives that
   * id when no earlier position matches the path form.
   */
  lemma PathForm(pre: string, marker: string, id: string, post: string)
    requires marker in PathMarkers && IsVideoId(id)
    requires !Contains(pre + marker + id + post, "youtu.be/") && Contains(pre + marker + id + post, "youtube.com/")
    requires forall k :: 0 <= k <= |pre + marker + id + post| ==> !MatchAt(pre + marker + id + post, WatchMarkers, k)
    requires forall j :: 0 <= j < |pre| ==> !MatchAt(pre + marker + id + post, PathMarkers, j)
    ensures ExtractVideoId(pre + marker + id + post) == Some(id)
  {
    var url := pre + marker + id + post;
    FindIdLeftmost(url, WatchMarkers);
    var s := url[|pre|..];
    assert s == marker + id + post;
    MarkerId(marker, id, post);
    assert IdAtStart(s, PathMarkers) == Some(id) by {
      assert PathMarkers[0] == "/embed/" && PathMarkers[1..] == ["/v/", "/shorts/"];
      assert PathMarkers[1..][1..] == ["/shorts/"];
      assert IdAfter(s, marker) == Some(id);
      if marker != "/embed/" {
        assert s[1] == marker[1];
        assert !StartsWith(s, "/embed/") by { assert "/embed/"[1] == 'e'; }
        assert IdAtStart(s, PathMarkers) == IdAtStart(s, PathMarkers[1..]);
        if marker == "/shorts/" {
          assert !StartsWith(s, "/v/") by { assert "/v/"[1] == 'v'; }
          assert IdAtStart(s, PathMarkers[1..]) == IdAtStart(s, PathMarkers[1..][1..]);
          assert IdAtStart(s, PathMarkers[1..][1..]) == IdAfter(s, "/shorts/");
        } else {
          assert IdAtStart(s, PathMarkers[1..]) == IdAfter(s, "/v/");
        }
      } else {
        assert IdAtStart(s, PathMarkers) == IdAfter(s, "/embed/");
      }
    }
    FindIdAt(url, PathMarkers, |pre|);
  }

  /** An id after `?v=` wins over an `/embed/` id written before it. */
  lemma WatchBeforeEmbed(pre: string, embedId: string, id: string, post: string)
    requires '?' !in pre && '&' !in pre && IsVideoId(embedId) && IsVideoId(id)
    requires !Contains(pre + "/embed/" + embedId + "?v=" + id + post, "youtu.be/")
    requires Contains(pre + "/embed/" + embedId + "?v=" + id + post, "youtube.com/")
    ensures ExtractVideoId(pre + "/embed/" + embedId + "?v=" + id + post) == Some(id)
  {
    var head := pre + "/embed/" + embedId;
    assert head == pre + ("/embed/" + embedId);
    QuietId(embedId);
    QuietHead(pre, "/embed/" + embedId);
    Regroup(head, "?v=" + id, post);
    Regroup(head, "?v=", id);
    WatchAfterQuiet(head, id, post);
  }

  lemma QuietId(id: string)
    requires IsVideoId(id)
    ensures '?' !in "/embed/" + id && '&' !in "/embed/" + id
  {
    forall c | c in id ensures c != '?' && c != '&' {
      var i :| 0 <= i < |id| && id[i] == c;
      assert IsIdChar(id[i]);
    }
  }

  lemma QuietHead(a: string, b: string)
    requires '?' !in a && '&' !in a && '?' !in b && '&' !in b
    ensures '?' !in a + b && '&' !in a + b
  {
  }

  /** Without `?` or `&` before it, the first `?v=` with an id gives that id. */
  lemma WatchAfterQuiet(head: string, id: string, post: string)
    requires '?' !in head && '&' !in head && IsVideoId(id)
    ensures FindId(head + ("?v=" + id + post), WatchMarkers) == Some(id)
  {
    var rest := "?v=" + id + post;
    forall i | 0 <= i < |head| ensures IdAtStart(head[i..] + rest, WatchMarkers).None? {
      assert head[i] in head;
      NoWatchStart(head, i, rest);
    }
    FindIdSkips(head, rest, WatchMarkers);
    assert rest[..3] == "?v=" && rest[3..14] == id;
  }

  lemma NoWatchStart(head: string, i: nat, rest: string)
    requires i < |head| && head[i] != '?' && head[i] != '&'
    ensures IdAtStart(head[i..] + rest, WatchMarkers).None?
  {
    var s := head[i..] + rest;
    assert s[0] == head[i];
    assert IdAfter(s, "?v=") == None by { assert !StartsWith(s, "?v="); }
    assert IdAfter(s, "&v=") == None by { assert !StartsWith(s, "&v="); }
    assert WatchMarkers[0] == "?v=" && WatchMarkers[1..] == ["&v="] && WatchMarkers[1..][1..] == [];
    assert IdAtStart(s, WatchMarkers[1..][1..]) == None;
    assert IdAtStart(s, WatchMarkers[1..]) == None;
  }

  // ---------------------------------------------------------------------------
  // The sample addresses of test-youtube-urls.js

  /** The id every sample address carries. */
  const SampleId: string := "dQw4w9WgXcQ"

  /** No alternative can start at the front of `t`: its first character differs, or its second does. */
  predicate NoStart(t: string, markers: seq<string>)
  {
    t != [] && forall k :: 0 <= k < |markers| ==>
      |markers[k]| >= 2 && (t[0] != markers[k][0] || (|t| >= 2 && t[1] != markers[k][1]))
  }

  /** No alternative can start anywhere inside `s`, whatever follows it. */
  predicate Quiet(s: string, markers: seq<string>)
  {
    forall j :: 0 <= j < |s| ==> NoStart(s[j..], markers)
  }

  lemma {:induction false} NoStartNone(t: string, rest: string, markers: seq<string>)
    requires NoStart(t, markers)
    ensures IdAtStart(t + rest, markers) == None
    decreases |markers|
  {
    if markers != [] {
      var s := t + rest;
      var m := markers[0];
      assert !StartsWith(s, m) by {
        if |m| <= |s| {
          assert s[..|m|][0] == t[0];
          assert |t| >= 2 ==> s[..|m|][1] == t[1];
        }
      }
      forall k | 0 <= k < |markers[1..]| ensures |markers[1..][k]| >= 2
        && (t[0] != markers[1..][k][0] || (|t| >= 2 && t[1] != markers[1..][k][1]))
      {
        assert markers[1..][k] == markers[k + 1];
      }
      NoStartNone(t, rest, markers[1..]);
    }
  }

  lemma NoStartExtend(t: string, u: string, markers: seq<string>)
    requires NoStart(t, markers)
    ensures NoStart(t + u, markers)
  {
    assert (t + u)[0] == t[0];
    assert |t| >= 2 ==> (t + u)[1] == t[1];
  }

  /** A quiet prefix holds no match, whatever follows it. */
  lemma QuietNoMatch(pre: string, rest: string, markers: seq<string>)
    requires Quiet(pre, markers)
    ensures forall j :: 0 <= j < |pre| ==> !MatchAt(pre + rest, markers, j)
  {
    forall j | 0 <= j < |pre| ensures !MatchAt(pre + rest, markers, j) {
      assert (pre + rest)[j..] == pre[j..] + rest;
      NoStartNone(pre[j..], rest, markers);
    }
  }

  lemma QuietAppend(a: string, b: string, markers: seq<string>)
    requires Quiet(a, markers) && Quiet(b, markers)
    ensures Quiet(a + b, markers)
  {
    forall j | 0 <= j < |a + b| ensures NoStart((a + b)[j..], markers) {
      if j < |a| {
        assert (a + b)[j..] == a[j..] + b;
        NoStartExtend(a[j..], b, markers);
      } else {
        assert (a + b)[j..] == b[j - |a|..];
      }
    }
  }

  lemma QuietCons(s: string, markers: seq<string>)
    requires s != [] && NoStart(s, markers) && Quiet(s[1..], markers)
    ensures Quiet(s, markers)
  {
    forall j | 0 < j < |s| ensures NoStart(s[j..], markers) {
      assert s[j..] == s[1..][j - 1..];
    }
    assert s[0..] == s;
  }

  /** A string holding no alternative's first character is quiet. */
  lemma QuietChars(s: string, markers: seq<string>)
    requires forall k :: 0 <= k < |markers| ==> |markers[k]| >= 2 && markers[k][0] !in s
    ensures Quiet(s, markers)
  {
    forall j | 0 <= j < |s| ensures NoStart(s[j..], markers) {
      assert s[j..][0] == s[j];
    }
  }

  /** An address whose only `y` opens `youtube.com/` has that host and no `youtu.be/`. */
  lemma LongHost(pre: string, tail: string)
    requires 'y' !in pre && 'y' !in tail
    ensures !Contains(pre + "youtube.com/" + tail, "youtu.be/")
    ensures Contains(pre + "youtube.com/" + tail, "youtube.com/")
  {
    var url := pre + "youtube.com/" + tail;
    assert url[|pre|..] == "youtube.com/" + tail;
    assert url[..|pre|] == pre;
    OccurrenceFound(url, "youtube.com/", |pre|);
    NoShortHost(tail);
    IndexOfSkip(url, |pre|, "youtu.be/");
  }

  lemma NoShortHost(tail: string)
    requires 'y' !in tail
    ensures !Contains("youtube.com/" + tail, "youtu.be/")
  {
    var s := "youtube.com/" + tail;
    assert s[5] == 'b';
    NotStartsWithAt(s, "youtu.be/", 5);
    IndexOfTail(s, "youtu.be/");
    assert s[1..] == "youtube.com/"[1..] + tail;
    assert 'y' !in "youtube.com/"[1..];
    NotContainsFirst(s[1..], "youtu.be/");
  }

  lemma NotStartsWithAt(s: string, p: string, i: nat)
    requires i < |s| && i < |p| && s[i] != p[i]
    ensures !StartsWith(s, p)
  {
    if |p| <= |s| {
      assert s[..|p|][i] == s[i];
    }
  }

  lemma SampleIdShape()
    ensures IsVideoId(SampleId)
  {
  }

  lemma SampleIdChars()
    ensures 'y' !in SampleId && '?' !in SampleId && '&' !in SampleId && '/' !in SampleId
  {
  }

  /** `?v=` or `&v=` and the sample id on a `youtube.com/` address whose path and parameters before it are quiet. */
  lemma WatchSample(host: string, path: string, sep: string, post: string)
    requires sep in WatchMarkers
    requires 'y' !in host && '?' !in host && '&' !in host
    requires 'y' !in path && Quiet(path, WatchMarkers) && 'y' !in post
    ensures ExtractVideoId(host + "youtube.com/" + path + sep + SampleId + post) == Some(SampleId)
  {
    var pre := host + "youtube.com/" + path;
    var url := pre + sep + SampleId + post;
    SampleIdShape();
    WatchHost(host, path, sep, post);
    WatchQuiet(host, path);
    assert url == pre + (sep + SampleId + post);
    QuietNoMatch(pre, sep + SampleId + post, WatchMarkers);
    WatchForm(pre, sep, SampleId, post);
  }

  lemma WatchHost(host: string, path: string, sep: string, post: string)
    requires sep in WatchMarkers && 'y' !in host && 'y' !in path && 'y' !in post
    ensures var url := host + "youtube.com/" + path + sep + SampleId + post;
      !Contains(url, "youtu.be/") && Contains(url, "youtube.com/")
  {
    SampleIdChars();
    assert 'y' !in sep;
    assert 'y' !in path + sep + SampleId + post;
    LongHost(host, path + sep + SampleId + post);
    assert host + "youtube.com/" + path + sep + SampleId + post == host + "youtube.com/" + (path + sep + SampleId + post);
  }

  lemma WatchQuiet(host: string, path: string)
    requires '?' !in host && '&' !in host && Quiet(path, WatchMarkers)
    ensures Quiet(host + "youtube.com/" + path, WatchMarkers)
  {
    assert '?' !in "youtube.com/" && '&' !in "youtube.com/";
    assert '?' !in host + "youtube.com/" && '&' !in host + "youtube.com/";
    QuietChars(host + "youtube.com/", WatchMarkers);
    QuietAppend(host + "youtube.com/", path, WatchMarkers);
  }

  /** `/embed/`, `/v/` or `/shorts/` and the sample id after `https://www.youtube.com`. */
  lemma PathSample(marker: string)
    requires marker in PathMarkers
    ensures ExtractVideoId("https://www.youtube.com" + marker + SampleId) == Some(SampleId)
  {
    var pre := "https://www.youtube.com";
    var url := pre + marker + SampleId;
    SampleIdShape();
    PathHost(marker);
    PathNoWatch(marker);
    PathPrefixQuiet();
    assert url == pre + (marker + SampleId);
    QuietNoMatch(pre, marker + SampleId, PathMarkers);
    assert url == pre + marker + SampleId + "";
    PathForm(pre, marker, SampleId, "");
  }

  lemma PathHost(marker: string)
    requires marker in PathMarkers
    ensures var url := "https://www.youtube.com" + marker + SampleId;
      !Contains(url, "youtu.be/") && Contains(url, "youtube.com/")
  {
    SampleIdChars();
    assert marker[0] == '/' && 'y' !in marker[1..];
    assert "https://www.youtube.com" == "https://www." + "youtube.com";
    assert marker == "/" + marker[1..];
    assert "https://www.youtube.com" + marker + SampleId == "https://www." + "youtube.com/" + (marker[1..] + SampleId);
    LongHost("https://www.", marker[1..] + SampleId);
  }

  lemma PathNoWatch(marker: string)
    requires marker in PathMarkers
    ensures var url := "https://www.youtube.com" + marker + SampleId;
      forall k :: 0 <= k <= |url| ==> !MatchAt(url, WatchMarkers, k)
  {
    var url := "https://www.youtube.com" + marker + SampleId;
    SampleIdChars();
    assert '?' !in marker && '&' !in marker;
    assert '?' !in url && '&' !in url;
    QuietChars(url, WatchMarkers);
    assert url + [] == url;
    QuietNoMatch(url, [], WatchMarkers);
    assert !MatchAt(url, WatchMarkers, |url|) by {
      assert url[|url|..] == [];
      assert WatchMarkers[1..][1..] == [];
    }
  }

  lemma PathPrefixQuiet()
    ensures Quiet("https://www.youtube.com", PathMarkers)
  {
    SlashesQuiet();
    SchemeQuiet();
    QuietAppend("https:", "//www.youtube.com", PathMarkers);
    assert "https:" + "//www.youtube.com" == "https://www.youtube.com";
  }

  lemma SchemeQuiet()
    ensures Quiet("https:", PathMarkers)
  {
    assert PathMarkers[0][0] == '/' && PathMarkers[1][0] == '/' && PathMarkers[2][0] == '/';
    assert '/' !in "https:";
    QuietChars("https:", PathMarkers);
  }

  lemma SlashesQuiet()
    ensures Quiet("//www.youtube.com", PathMarkers)
  {
    assert "//" + "www.youtube.com" == "//www.youtube.com";
    var host := "www.youtube.com";
    QuietChars(host, PathMarkers);
    assert NoStart("/" + host, PathMarkers);
    QuietCons("/" + host, PathMarkers);
    assert NoStart("//" + host, PathMarkers);
    assert ("//" + host)[1..] == "/" + host;
    QuietCons("//" + host, PathMarkers);
  }

  /** `youtu.be/` and the sample id after `https://`. */
  lemma ShortSample(post: string)
    ensures ExtractVideoId("https://youtu.be/" + SampleId + post) == Some(SampleId)
  {
    SampleIdShape();
    QuietChars("https://", ShortMarkers);
    QuietNoMatch("https://", "youtu.be/" + SampleId + post, ShortMarkers);
    assert "https://youtu.be/" + SampleId + post == "https://" + ("youtu.be/" + SampleId + post);
    assert "https://" + "youtu.be/" + SampleId + post == "https://" + ("youtu.be/" + SampleId + post);
    ShortForm("https://", SampleId, post);
  }

  /** `watch?` and a first parameter other than `v` hold no `?v=` or `&v=`. */
  lemma ParamQuiet(param: string)
    requires param != [] && param[0] != 'v' && '?' !in param && '&' !in param
    ensures Quiet("watch?" + param, WatchMarkers)
  {
    QuietChars(param, WatchMarkers);
    assert NoStart("?" + param, WatchMarkers);
    assert ("?" + param)[1..] == param;
    QuietCons("?" + param, WatchMarkers);
    QuietChars("watch", WatchMarkers);
    QuietAppend("watch", "?" + param, WatchMarkers);
    assert "watch?" + param == "watch" + ("?" + param);
  }

  lemma FeatureQuiet()
    ensures Quiet("watch?feature=share", WatchMarkers)
  {
    ParamQuiet("feature=share");
    assert "watch?" + "feature=share" == "watch?feature=share";
  }

  lemma TimeQuiet()
    ensures Quiet("watch?t=30s", WatchMarkers)
  {
    ParamQuiet("t=30s");
    assert "watch?" + "t=30s" == "watch?t=30s";
  }

  /*
   * The twelve sample addresses of test-youtube-urls.js, in its order, each
   * written as the pieces the lemmas above put together: every one gives the
   * sample id.
   */

  lemma Sample01()
    ensures ExtractVideoId("https://www." + "youtube.com/" + "watch" + "?v=" + SampleId + "") == Some(SampleId)
  {
    QuietChars("watch", WatchMarkers);
    WatchSample("https://www.", "watch", "?v=", "");
  }

  lemma Sample02()
    ensures ExtractVideoId("https://" + "youtube.com/" + "watch" + "?v=" + SampleId + "") == Some(SampleId)
  {
    QuietChars("watch", WatchMarkers);
    WatchSample("https://", "watch", "?v=", "");
  }

  lemma Sample03()
    ensures ExtractVideoId("https://m." + "youtube.com/" + "watch" + "?v=" + SampleId + "") == Some(SampleId)
  {
    QuietChars("watch", WatchMarkers);
    WatchSample("https://m.", "watch", "?v=", "");
  }

  lemma Sample04()
    ensures ExtractVideoId("https://youtu.be/" + SampleId + "") == Some(SampleId)
  {
    ShortSample("");
  }

  lemma Sample05()
    ensures ExtractVideoId("https://www.youtube.com" + "/embed/" + SampleId) == Some(SampleId)
  {
    PathSample("/embed/");
  }

  lemma Sample06()
    ensures ExtractVideoId("https://www.youtube.com" + "/v/" + SampleId) == Some(SampleId)
  {
    PathSample("/v/");
  }

  lemma Sample07()
    ensures ExtractVideoId("https://www.youtube.com" + "/shorts/" + SampleId) == Some(SampleId)
  {
    PathSample("/shorts/");
  }

  lemma Sample08()
    ensures ExtractVideoId("https://" + "youtube.com/" + "watch" + "?v=" + SampleId + "&t=30s") == Some(SampleId)
  {
    QuietChars("watch", WatchMarkers);
    WatchSample("https://", "watch", "?v=", "&t=30s");
  }

  lemma Sample09()
    ensures ExtractVideoId("https://www." + "youtube.com/" + "watch" + "?v=" + SampleId + "&feature=share") == Some(SampleId)
  {
    QuietChars("watch", WatchMarkers);
    WatchSample("https://www.", "watch", "?v=", "&feature=share");
  }

  lemma Sample10()
    ensures ExtractVideoId("https://youtu.be/" + SampleId + "?t=30") == Some(SampleId)
  {
    ShortSample("?t=30");
  }

  lemma Sample11()
    ensures ExtractVideoId("https://www." + "youtube.com/" + "watch?feature=share" + "&v=" + SampleId + "&t=30s") == Some(SampleId)
  {
    FeatureQuiet();
    WatchSample("https://www.", "watch?feature=share", "&v=", "&t=30s");
  }

  lemma Sample12()
    ensures ExtractVideoId("https://" + "youtube.com/" + "watch?t=30s" + "&v=" + SampleId + "&feature=share") == Some(SampleId)
  {
    TimeQuiet();
    WatchSample("https://", "watch?t=30s", "&v=", "&feature=share");
  }
}
