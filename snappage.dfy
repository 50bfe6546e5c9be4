/**
 * The pages SnapSave and Snaptik return carry their result as an obfuscated
 * script: a call `decodeURIComponent(escape(r))}("h",u,"n",t,e,r))` whose six
 * arguments feed `decodeSnapApp`, and whose decoded text assigns the result
 * HTML, as a JavaScript string literal, to the inner HTML of an element.
 * This module cuts the arguments out of the page, cuts the HTML out of the
 * decoded script, and chains the three steps as `decryptSnapSave` and
 * `decryptSnaptik` do.
 */
module SnapPage {
  import opened Wrappers
  import opened Text
  import SnapApp

  const CallMarker: string := "decodeURIComponent(escape(r))}("
  const CallEnd: string := "))"

  const SnapSaveMarker: string := "getElementById(\"download-section\").innerHTML = \""
  const SnaptikMarker: string := "$(\"#download\").innerHTML = \""
  const ContentEnd: string := "\"; document.getElementById(\"inputData\").remove(); "

  // ---------------------------------------------------------------------------
  // The arguments of the obfuscated call

  /** One argument as the page writes it, with every `"` removed and the white space around it trimmed. */
  function CleanToken(v: string): (r: string)
    ensures '"' !in r
  {
    var q := RemoveChar(v, '"');
    TrimKeeps(q, '"');
    Trim(q)
  }

  /** Every argument cleaned, in order. */
  function CleanTokens(vs: seq<string>): (r: seq<string>)
    ensures |r| == |vs|
  {
    seq(|vs|, i requires 0 <= i < |vs| => CleanToken(vs[i]))
  }

  /**
   * `data.split(start)[1].split(end)[0]`: the text after the first `start`, up
   * to the next `start` and then up to the first `end`. `None` stands for the
   * `TypeError` thrown when `start` does not occur.
   */
  function Cut(data: string, start: string, end: string): (r: Option<string>)
    ensures r.None? <==> !Contains(data, start)
  {
    match SecondPiece(data, start)
    case None => None
    case Some(p) => Some(Before(p, end))
  }

  /**
   * Text placed right after the first `start`, followed by `end`, is what
   * `Cut` gives back when `start` is not repeated and `end` does not occur
   * earlier.
   */
  lemma CutFrom(prefix: string, start: string, text: string, end: string, suffix: string)
    requires IndexOf(prefix + start, start) == Some(|prefix|)
    requires !Contains(text + end + suffix, start)
    requires IndexOf(text + end, end) == Some(|text|)
    ensures Cut(prefix + start + text + end + suffix, start, end) == Some(text)
  {
    var body := text + end + suffix;
    Regroup(prefix + start, text + end, suffix);
    Regroup(prefix + start, text, end);
    SecondPieceFrom(prefix, start, body);
    BeforeEnd(text, end, suffix);
  }

  lemma SecondPieceFrom(prefix: string, start: string, body: string)
    requires IndexOf(prefix + start, start) == Some(|prefix|)
    requires !Contains(body, start)
    ensures SecondPiece(prefix + start + body, start) == Some(body)
  {
    var data := prefix + start + body;
    MarkerFirst(prefix, start, body);
    SecondPieceAt(data, start, |prefix|);
    assert data[|prefix| + |start|..] == body;
    BeforeNoOccurrence(body, start);
  }

  lemma BeforeEnd(text: string, end: string, suffix: string)
    requires IndexOf(text + end, end) == Some(|text|)
    ensures Before(text + end + suffix, end) == text
  {
    IndexOfExtend(text + end, suffix, end);
    Regroup(text, end, suffix);
    BeforeAt(text, end + suffix, end);
  }

  /** `getEncodedSnapApp`: the text between the call marker and `))`, split at the commas, each piece cleaned. */
  function GetEncodedSnapApp(data: string): (r: Option<seq<string>>)
    ensures r.None? <==> !Contains(data, CallMarker)
  {
    match Cut(data, CallMarker, CallEnd)
    case None => None
    case Some(c) => Some(CleanTokens(SplitChar(c, ',')))
  }

  /** Trimming keeps only characters of its input. */
  lemma TrimKeeps(s: string, c: char)
    requires c !in s
    ensures c !in Trim(s)
  {
    var t := TrimStart(s);
    NotInSlice(s, c, |s| - |t|, |s|);
    NotInSlice(t, c, 0, |TrimEnd(t)|);
  }

  /** There is one argument more than there are commas before the closing `))`, and no argument holds a quote. */
  lemma EncodedArgumentCount(data: string)
    requires Contains(data, CallMarker)
    ensures |GetEncodedSnapApp(data).value| == CountChar(Cut(data, CallMarker, CallEnd).value, ',') + 1
    ensures forall i :: 0 <= i < |GetEncodedSnapApp(data).value| ==> '"' !in GetEncodedSnapApp(data).value[i]
  {
    SplitJoin(Cut(data, CallMarker, CallEnd).value, ',');
  }

  /** The characters an argument may hold for it to survive the cut: no comma, parenthesis, quote or white space. */
  predicate PlainChar(c: char)
  {
    c != ',' && c != ')' && c != '"' && !IsJsSpace(c)
  }

  predicate PlainText(s: string)
  {
    forall i :: 0 <= i < |s| ==> PlainChar(s[i])
  }

  lemma PlainAppend(a: string, b: string)
    requires PlainText(a) && PlainText(b)
    ensures PlainText(a + b)
  {
    forall i | 0 <= i < |a + b| ensures PlainChar((a + b)[i]) {
      if i < |a| {
        assert (a + b)[i] == a[i];
      } else {
        assert (a + b)[i] == b[i - |a|];
      }
    }
  }

  function Quote(s: string): string
  {
    "\"" + s + "\""
  }

  /** A plain argument comes back from its quoted or unquoted spelling. */
  lemma CleanPlain(v: string)
    requires PlainText(v)
    ensures CleanToken(v) == v && CleanToken(Quote(v)) == v
  {
    PlainHasNo(v, '"');
    assert Quote(v) == ['"'] + v + ['"'];
    RemoveAround(v, '"');
    RemoveCharAbsent(v, '"');
    PlainTrimmed(v);
  }

  lemma PlainHasNo(v: string, c: char)
    requires PlainText(v) && !PlainChar(c)
    ensures c !in v
  {
  }

  lemma PlainTrimmed(v: string)
    requires PlainText(v)
    ensures Trim(v) == v
  {
    if v != [] {
      assert PlainChar(v[0]) && PlainChar(v[|v| - 1]);
    }
    TrimNoSpace(v);
  }

  lemma RemoveAround(v: string, c: char)
    requires c !in v
    ensures RemoveChar([c] + v + [c], c) == v
  {
    RemoveCharAppend([c] + v, [c], c);
    RemoveCharAppend([c], v, c);
    RemoveCharAbsent(v, c);
    assert RemoveChar([c], c) == [];
  }

  /**
   * The page writes the call arguments between the first call marker and the
   * first `))`: `getEncodedSnapApp` gives back the cleaned arguments, in order.
   */
  lemma EncodedSnapAppFrom(prefix: string, args: seq<string>, suffix: string)
    requires IndexOf(prefix + CallMarker, CallMarker) == Some(|prefix|)
    requires |args| > 0 && forall i :: 0 <= i < |args| ==> ',' !in args[i] && ')' !in args[i]
    requires !Contains(JoinChar(args, ',') + CallEnd + suffix, CallMarker)
    ensures GetEncodedSnapApp(prefix + CallMarker + JoinChar(args, ',') + CallEnd + suffix) == Some(CleanTokens(args))
  {
    var j := JoinChar(args, ',');
    JoinAbsent(args, ',', ')');
    CallEndAfter(j);
    CutFrom(prefix, CallMarker, j, CallEnd, suffix);
    JoinSplit(args, ',');
  }

  /** The first occurrence of a marker in `prefix + marker` is still the first once more text follows. */
  lemma MarkerFirst(prefix: string, marker: string, body: string)
    requires IndexOf(prefix + marker, marker) == Some(|prefix|)
    ensures IndexOf(prefix + marker + body, marker) == Some(|prefix|)
  {
    IndexOfExtend(prefix + marker, body, marker);
  }

  lemma CallEndAfter(j: string)
    requires ')' !in j
    ensures IndexOf(j + CallEnd, CallEnd) == Some(|j|)
  {
    EndAfter(j, CallEnd);
  }

  /** An end mark whose first letter does not occur in `j` is first found right after `j`. */
  lemma EndAfter(j: string, end: string)
    requires |end| > 0 && end[0] !in j
    ensures IndexOf(j + end, end) == Some(|j|)
  {
    var s := j + end;
    assert s[..|j|] == j && s[|j|..] == end;
    IndexOfAfter(s, |j|, end);
  }

  // ---------------------------------------------------------------------------
  // The HTML in the decoded script

  /** `s.replace(/\\(\\)?/g, "")`: each backslash, together with a backslash right after it, is deleted. */
  function RemoveEscapes(s: string): string
    decreases |s|
  {
    if s == [] then []
    else if s[0] == '\\' then
      if |s| >= 2 && s[1] == '\\' then RemoveEscapes(s[2..]) else RemoveEscapes(s[1..])
    else [s[0]] + RemoveEscapes(s[1..])
  }

  /** Taking backslashes one or two at a time deletes every backslash and keeps everything else. */
  lemma {:induction false} RemoveEscapesDeletes(s: string)
    ensures RemoveEscapes(s) == RemoveChar(s, '\\')
    decreases |s|
  {
    if s != [] {
      if s[0] == '\\' && |s| >= 2 && s[1] == '\\' {
        RemoveEscapesDeletes(s[2..]);
        assert s[1..][1..] == s[2..];
      } else {
        RemoveEscapesDeletes(s[1..]);
      }
    }
  }

  /** Deleting the backslashes a second time changes nothing. */
  lemma RemoveEscapesIdempotent(s: string)
    ensures '\\' !in RemoveEscapes(s)
    ensures RemoveEscapes(RemoveEscapes(s)) == RemoveEscapes(s)
  {
    RemoveEscapesDeletes(s);
    RemoveEscapesDeletes(RemoveEscapes(s));
    RemoveCharAbsent(RemoveEscapes(s), '\\');
  }

  /**
   * `getDecodedSnapSave` and `getDecodedSnaptik`, which differ only in the
   * marker: the text the marker starts, up to the terminator, with the
   * backslashes deleted. `None` stands for the `TypeError` thrown when the
   * marker is missing.
   */
  function GetDecoded(data: string, marker: string): (r: Option<string>)
    ensures r.None? <==> !Contains(data, marker)
  {
    match Cut(data, marker, ContentEnd)
    case None => None
    case Some(c) => Some(RemoveEscapes(c))
  }

  function GetDecodedSnapSave(data: string): (r: Option<string>)
  {
    GetDecoded(data, SnapSaveMarker)
  }

  function GetDecodedSnaptik(data: string): (r: Option<string>)
  {
    GetDecoded(data, SnaptikMarker)
  }

  /** The cut HTML holds no backslash, it is the cut text with the backslashes deleted, and cleaning it again changes nothing. */
  lemma DecodedHasNoEscapes(data: string, marker: string)
    requires Contains(data, marker)
    ensures GetDecoded(data, marker) == Some(RemoveChar(Cut(data, marker, ContentEnd).value, '\\'))
    ensures '\\' !in GetDecoded(data, marker).value
    ensures RemoveEscapes(GetDecoded(data, marker).value) == GetDecoded(data, marker).value
  {
    var c := Cut(data, marker, ContentEnd).value;
    RemoveEscapesDeletes(c);
    RemoveEscapesIdempotent(c);
  }

  /**
   * A script that assigns `html` (free of backslashes and of the terminator)
   * right after the first marker, with the marker not repeated, gives back `html`.
   */
  lemma DecodedFrom(prefix: string, marker: string, html: string, suffix: string)
    requires IndexOf(prefix + marker, marker) == Some(|prefix|)
    requires !Contains(html + ContentEnd + suffix, marker)
    requires IndexOf(html + ContentEnd, ContentEnd) == Some(|html|)
    requires '\\' !in html
    ensures GetDecoded(prefix + marker + html + ContentEnd + suffix, marker) == Some(html)
  {
    CutFrom(prefix, marker, html, ContentEnd, suffix);
    RemoveEscapesDeletes(html);
    RemoveCharAbsent(html, '\\');
  }

  // ---------------------------------------------------------------------------
  // The whole chain

  /** What `getDecoded…(decodeSnapApp(getEncodedSnapApp(data)))` returns; `None` when a step throws. */
  function Decrypt(data: string, marker: string): Option<string>
  {
    match GetEncodedSnapApp(data)
    case None => None
    case Some(args) =>
      match SnapApp.DecodeSnapAppSpec(args)
      case None => None
      case Some(text) => GetDecoded(text, marker)
  }

  /** `decryptSnapSave`. */
  method DecryptSnapSave(data: string) returns (r: Option<string>)
    ensures r == Decrypt(data, SnapSaveMarker)
    ensures r.Some? ==> '\\' !in r.value
  {
    r := DecryptWith(data, SnapSaveMarker);
  }

  /** `decryptSnaptik`. */
  method DecryptSnaptik(data: string) returns (r: Option<string>)
    ensures r == Decrypt(data, SnaptikMarker)
    ensures r.Some? ==> '\\' !in r.value
  {
    r := DecryptWith(data, SnaptikMarker);
  }

  method DecryptWith(data: string, marker: string) returns (r: Option<string>)
    ensures r == Decrypt(data, marker)
    ensures r.Some? ==> '\\' !in r.value
  {
    var args := GetEncodedSnapApp(data);
    if args.None? {
      return None;
    }
    var text := SnapApp.DecodeSnapApp(args.value);
    if text.None? {
      return None;
    }
    r := GetDecoded(text.value, marker);
    if r.Some? {
      DecodedHasNoEscapes(text.value, marker);
    }
  }
}
