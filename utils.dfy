/**
 * The string helpers of src/utils.ts: the download file name built from a
 * title, the one-click photo links, the bulk-download instructions and the
 * thumbnail fix-up.
 */
module Utils {
  import opened Wrappers
  import opened Text

  // ---------------------------------------------------------------------------
  // generateCleanFilename

  /** `\w`: an ASCII letter, digit or underscore. */
  predicate IsWordChar(c: char)
  {
    'a' <= c <= 'z' || 'A' <= c <= 'Z' || IsDigit(c) || c == '_'
  }

  /** The characters of `[<>:"/\\|?*]`, removed first. */
  predicate IsReservedChar(c: char)
  {
    c == '<' || c == '>' || c == ':' || c == '"' || c == '/' || c == '\\' || c == '|' || c == '?' || c == '*'
  }

  /** The characters `[^\w\s\-_]` does not match: word characters, white space and `-`. */
  predicate IsKeptChar(c: char)
  {
    IsWordChar(c) || IsJsSpace(c) || c == '-'
  }

  /** A character a cleaned title may hold. */
  predicate IsTitleChar(c: char)
  {
    IsWordChar(c) || c == '-' || c == ' '
  }

  /** `.replace(/[<>:"/\\|?*]/g, '')`. */
  function DropReserved(s: string): (r: string)
    ensures |r| <= |s|
  {
    if s == [] then [] else (if IsReservedChar(s[0]) then [] else [s[0]]) + DropReserved(s[1..])
  }

  /** `.replace(/[^\w\s\-_]/g, '')`. */
  function DropSpecial(s: string): (r: string)
    ensures forall i :: 0 <= i < |r| ==> IsKeptChar(r[i])
  {
    if s == [] then [] else (if IsKeptChar(s[0]) then [s[0]] else []) + DropSpecial(s[1..])
  }

  /** `.replace(/\s+/g, ' ')`: every maximal run of white space becomes one space. */
  function CollapseSpaces(s: string): (r: string)
    decreases |s|
  {
    if s == [] then []
    else if IsJsSpace(s[0]) then [' '] + CollapseSpaces(TrimStart(s[1..]))
    else [s[0]] + CollapseSpaces(s[1..])
  }

  /** `.substring(0, n)`. */
  function Prefix(s: string, n: nat): (r: string)
    ensures |r| <= n && |r| <= |s| && r == s[..|r|]
    ensures |s| <= n ==> r == s
  {
    if |s| <= n then s else s[..n]
  }

  /** The title after the chain of replacements, the trim and the cut at 100 characters. */
  function CleanTitle(title: string): string
  {
    Prefix(Trim(CollapseSpaces(DropSpecial(DropReserved(title)))), 100)
  }

  /** Only title characters, and no space directly after another. */
  predicate Collapsed(s: string)
  {
    (forall i :: 0 <= i < |s| ==> IsTitleChar(s[i]))
    && (forall i :: 0 <= i < |s| - 1 ==> s[i] == ' ' ==> s[i + 1] != ' ')
  }

  /** What a cleaned title looks like. */
  predicate WellFormedTitle(r: string)
  {
    |r| <= 100 && Collapsed(r) && (r == [] || r[0] != ' ')
  }

  /** The suffix used without an explicit extension. */
  function DefaultExtension(kind: string): string
  {
    if kind == "video" then "mp4"
    else if kind == "image" then "jpg"
    else if kind == "zip" then "zip"
    else "mp4"
  }

  /** `new Date().toISOString().replace(/[:.]/g, '-').slice(0, 19)` for the given ISO time. */
  function Timestamp(iso: string): (r: string)
    ensures |r| <= 19
  {
    Prefix(ReplaceColonDot(iso), 19)
  }

  function ReplaceColonDot(s: string): (r: string)
    ensures |r| == |s| && ':' !in r && '.' !in r
  {
    if s == [] then [] else [if s[0] == ':' || s[0] == '.' then '-' else s[0]] + ReplaceColonDot(s[1..])
  }

  /** The name used when the title gives nothing: the extension, or else the raw type, after the time. */
  function TimestampName(iso: string, kind: string, extension: string): string
  {
    "video_" + Timestamp(iso) + "." + (if extension != "" then extension else kind)
  }

  /**
   * `generateCleanFilename(title, type, extension)`. An absent extension is
   * the empty string (both are falsy), and `iso` is the current time the
   * source reads from the clock.
   */
  function CleanFilename(title: string, kind: string, extension: string, iso: string): string
  {
    if Trim(title) == [] then TimestampName(iso, kind, extension)
    else
      var clean := CleanTitle(title);
      if clean == [] then TimestampName(iso, kind, extension)
      else if extension != "" then clean + "." + extension
      else clean + "." + DefaultExtension(kind)
  }

  lemma {:induction false} CollapseStarts(s: string)
    requires s != [] && !IsJsSpace(s[0])
    ensures CollapseSpaces(s) != [] && CollapseSpaces(s)[0] == s[0]
  {
  }

  lemma {:induction false} CollapseKept(s: string)
    requires forall i :: 0 <= i < |s| ==> IsKeptChar(s[i])
    ensures Collapsed(CollapseSpaces(s))
    decreases |s|
  {
    if s != [] {
      if IsJsSpace(s[0]) {
        var t := TrimStart(s[1..]);
        assert forall i :: 0 <= i < |t| ==> t[i] == s[1..][|s[1..]| - |t| + i];
        CollapseKept(t);
        if t != [] {
          CollapseStarts(t);
        }
        ConsCollapsed(' ', CollapseSpaces(t));
      } else {
        CollapseKept(s[1..]);
        ConsCollapsed(s[0], CollapseSpaces(s[1..]));
      }
    }
  }

  lemma ConsCollapsed(c: char, r: string)
    requires IsTitleChar(c) && Collapsed(r)
    requires c == ' ' ==> r == [] || r[0] != ' '
    ensures Collapsed([c] + r)
  {
    var s := [c] + r;
    forall i | 0 <= i < |s| - 1 && s[i] == ' ' ensures s[i + 1] != ' ' {
      if i > 0 {
        assert s[i] == r[i - 1] && s[i + 1] == r[i];
      }
    }
  }

  lemma SliceCollapsed(s: string, a: nat, b: nat)
    requires a <= b <= |s| && Collapsed(s)
    ensures Collapsed(s[a..b])
  {
    var t := s[a..b];
    forall i | 0 <= i < |t| - 1 && t[i] == ' ' ensures t[i + 1] != ' ' {
      assert t[i] == s[a + i] && t[i + 1] == s[a + i + 1];
    }
  }

  lemma TrimCollapsed(s: string)
    requires Collapsed(s)
    ensures Collapsed(Trim(s)) && (Trim(s) == [] || Trim(s)[0] != ' ')
  {
    var u := TrimStart(s);
    var k := |s| - |u|;
    assert u == s[k..];
    var r := TrimEnd(u);
    assert r == s[k..k + |r|];
    SliceCollapsed(s, k, k + |r|);
  }

  /**
   * A cleaned title has at most 100 characters, only ASCII letters, digits,
   * `_`, `-` and spaces, does not begin with a space and holds no two spaces
   * in a row.
   */
  lemma CleanTitleWellFormed(title: string)
    ensures WellFormedTitle(CleanTitle(title))
  {
    var s := CollapseSpaces(DropSpecial(DropReserved(title)));
    CollapseKept(DropSpecial(DropReserved(title)));
    TrimCollapsed(s);
    var t := Trim(s);
    SliceCollapsed(t, 0, |Prefix(t, 100)|);
  }

  /** With an extension and a title that cleans to something, the name is the clean title, a dot and the extension. */
  lemma FilenameWithExtension(title: string, kind: string, extension: string, iso: string)
    requires extension != "" && CleanTitle(title) != []
    ensures CleanFilename(title, kind, extension, iso) == CleanTitle(title) + "." + extension
  {
    if Trim(title) == [] {
      BlankTitleCleansEmpty(title);
    }
  }

  /** Without an extension the suffix follows the type: mp4 for video, jpg for image, zip for zip, and mp4 for anything else. */
  lemma FilenameDefaultExtension(title: string, kind: string, iso: string)
    requires CleanTitle(title) != []
    ensures CleanFilename(title, kind, "", iso) == CleanTitle(title) + "." + DefaultExtension(kind)
    ensures DefaultExtension(kind) == (if kind == "image" then "jpg" else if kind == "zip" then "zip" else "mp4")
  {
    if Trim(title) == [] {
      BlankTitleCleansEmpty(title);
    }
  }

  /**
   * A title that is empty, white space only or that cleans to nothing gives
   * the time-stamped name, suffixed with the extension or else the type as
   * given (not the default extension of the type).
   */
  lemma FilenameFromTimestamp(title: string, kind: string, extension: string, iso: string)
    requires CleanTitle(title) == []
    ensures CleanFilename(title, kind, extension, iso) == "video_" + Timestamp(iso) + "." + (if extension != "" then extension else kind)
  {
  }

  /** A white-space title also cleans to nothing, so the first test is covered by the second. */
  lemma BlankTitleCleansEmpty(title: string)
    requires Trim(title) == []
    ensures CleanTitle(title) == []
  {
    AllSpaceTrimmed(title);
    var d := DropSpecial(DropReserved(title));
    DropKeepsSpaces(title);
    DropSpecialKeepsSpaces(DropReserved(title));
    CollapseAllSpace(d);
  }

  lemma AllSpaceTrimmed(s: string)
    requires Trim(s) == []
    ensures forall i :: 0 <= i < |s| ==> IsJsSpace(s[i])
  {
    var u := TrimStart(s);
    if u != [] {
      TrimEndKeepsFirst(u);
    }
    TrimStartEmpty(s);
  }

  lemma {:induction false} TrimEndKeepsFirst(u: string)
    requires u != [] && !IsJsSpace(u[0])
    ensures TrimEnd(u) != []
    decreases |u|
  {
    if IsJsSpace(u[|u| - 1]) {
      TrimEndKeepsFirst(u[..|u| - 1]);
    }
  }

  lemma {:induction false} TrimStartEmpty(s: string)
    requires TrimStart(s) == []
    ensures forall i :: 0 <= i < |s| ==> IsJsSpace(s[i])
    decreases |s|
  {
    if s != [] {
      TrimStartEmpty(s[1..]);
      assert forall i :: 1 <= i < |s| ==> s[i] == s[1..][i - 1];
    }
  }

  lemma {:induction false} DropKeepsSpaces(s: string)
    requires forall i :: 0 <= i < |s| ==> IsJsSpace(s[i])
    ensures DropReserved(s) == s
    decreases |s|
  {
    if s != [] {
      DropKeepsSpaces(s[1..]);
      assert s == [s[0]] + s[1..];
    }
  }

  lemma {:induction false} DropSpecialKeepsSpaces(s: string)
    requires forall i :: 0 <= i < |s| ==> IsJsSpace(s[i])
    ensures DropSpecial(s) == s
    decreases |s|
  {
    if s != [] {
      DropSpecialKeepsSpaces(s[1..]);
      assert s == [s[0]] + s[1..];
    }
  }

  lemma CollapseAllSpace(s: string)
    requires forall i :: 0 <= i < |s| ==> IsJsSpace(s[i])
    ensures Trim(CollapseSpaces(s)) == []
  {
    if s != [] {
      TrimStartEmptyOn(s[1..]);
      assert CollapseSpaces(s) == [' '];
    }
  }

  lemma {:induction false} TrimStartEmptyOn(s: string)
    requires forall i :: 0 <= i < |s| ==> IsJsSpace(s[i])
    ensures TrimStart(s) == []
    decreases |s|
  {
    if s != [] {
      TrimStartEmptyOn(s[1..]);
    }
  }

  // ---------------------------------------------------------------------------
  // generatePhotoDownloadLinks

  /** A photo entry of `downloadAllPhotos`. */
  datatype Photo = Photo(url: string, filename: string, index: nat, quality: int, thumbnail: string)

  /** The entry with its `downloadLink` and `downloadAttribute`. */
  datatype PhotoLink = PhotoLink(photo: Photo, downloadLink: string, downloadAttribute: string)

  function DownloadAttribute(filename: string): string
  {
    "download=\"" + filename + "\""
  }

  /** `generatePhotoDownloadLinks(photos)`. */
  function PhotoDownloadLinks(photos: seq<Photo>): (r: seq<PhotoLink>)
    ensures |r| == |photos|
    ensures forall i :: 0 <= i < |r| ==> r[i].photo == photos[i] && r[i].downloadLink == photos[i].url
    ensures forall i :: 0 <= i < |r| ==> r[i].downloadAttribute == DownloadAttribute(photos[i].filename)
  {
    seq(|photos|, i requires 0 <= i < |photos| => PhotoLink(photos[i], photos[i].url, DownloadAttribute(photos[i].filename)))
  }

  /** The file name is given back by the attribute: it is the text between `download="` and the final quote. */
  lemma AttributeNamesFile(filename: string)
    ensures var a := DownloadAttribute(filename);
      StartsWith(a, "download=\"") && a[|a| - 1] == '"' && a[10..|a| - 1] == filename
  {
  }

  // ---------------------------------------------------------------------------
  // generateBulkDownloadInstructions

  const FoundIcon: string := "\U{1F4F8}"
  const ReadyIcon: string := "\U{1F680}"
  const FolderIcon: string := "\U{1F4C1}"
  const TipIcon: string := "\U{1F4A1}"
  const WarningIcon: string := "\U{26A0}\U{FE0F}"
  const DiskIcon: string := "\U{1F4BE}"

  /** The line that reports the count. */
  function FoundLine(totalPhotos: nat, platform: string): string
  {
    FoundIcon + " Found " + DecimalString(totalPhotos) + " photos on " + platform
  }

  /** The line that warns about a large collection. */
  function LargeLine(totalPhotos: nat): string
  {
    WarningIcon + " Large collection detected (" + DecimalString(totalPhotos) + " photos)"
  }

  const ReadyLine: string := ReadyIcon + " All photos are ready for download in one click!"
  const FolderLine: string := FolderIcon + " Each photo will be saved with a unique filename"
  const TipLine: string := TipIcon + " Tip: Use browser's \"Save all\" feature or download individually"
  const BatchLine: string := DiskIcon + " Consider downloading in smaller batches for better performance"

  /** `generateBulkDownloadInstructions(totalPhotos, platform)`: two more lines above ten photos. */
  function BulkInstructions(totalPhotos: nat, platform: string): seq<string>
  {
    [FoundLine(totalPhotos, platform), ReadyLine, FolderLine, TipLine]
    + if totalPhotos > 10 then [LargeLine(totalPhotos), BatchLine] else []
  }

  /**
   * Four lines up to ten photos and six above; the first four are the same
   * lines either way, the count line first.
   */
  lemma InstructionCount(totalPhotos: nat, platform: string)
    ensures |BulkInstructions(totalPhotos, platform)| == if totalPhotos > 10 then 6 else 4
    ensures BulkInstructions(totalPhotos, platform)[..4] == [FoundLine(totalPhotos, platform), ReadyLine, FolderLine, TipLine]
  {
  }

  /** The lists for two counts on the same side of ten differ only in the count line and the warning line. */
  lemma InstructionsAgree(m: nat, n: nat, platform: string)
    requires (m > 10) == (n > 10)
    ensures |BulkInstructions(m, platform)| == |BulkInstructions(n, platform)|
    ensures forall i :: 0 < i < |BulkInstructions(m, platform)| && i != 4 ==> BulkInstructions(m, platform)[i] == BulkInstructions(n, platform)[i]
  {
  }

  // ---------------------------------------------------------------------------
  // fixThumbnail

  const SnapinstaPhoto: string := "https://snapinsta.app/photo.php?photo="

  /**
   * `fixThumbnail(url)`: the proxy prefix is removed and the rest decoded.
   * `decode` stands for `decodeURIComponent`.
   */
  function FixThumbnail(url: string, decode: string -> string): string
  {
    if Contains(url, SnapinstaPhoto) then decode(ReplaceFirst(url, SnapinstaPhoto, "")) else url
  }

  /** A URL without the proxy prefix comes back unchanged. */
  lemma FixThumbnailUnproxied(url: string, decode: string -> string)
    requires !Contains(url, SnapinstaPhoto)
    ensures FixThumbnail(url, decode) == url
  {
  }

  /** A proxied URL is decoded from what follows the prefix. */
  lemma FixThumbnailProxied(rest: string, decode: string -> string)
    ensures FixThumbnail(SnapinstaPhoto + rest, decode) == decode(rest)
  {
    var u := SnapinstaPhoto + rest;
    assert u[..|SnapinstaPhoto|] == SnapinstaPhoto;
    assert IndexOf(u, SnapinstaPhoto) == Some(0);
    assert u[..0] + "" + u[|SnapinstaPhoto|..] == rest;
  }
}
