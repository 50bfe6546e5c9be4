/**
 * The whole chain of `decryptSnapSave` and `decryptSnaptik` against the page
 * a server builds: the HTML is wrapped in an assignment script, the script is
 * obfuscated under a key, and the obfuscated call is written into the page.
 */
module SnapPageEncoding {
  import opened Wrappers
  import opened Text
  import Utf8
  import SnapApp
  import opened SnapAppEncoding
  import opened SnapPage

  /** The six arguments of the obfuscated call as the page writes them: the payload and the letters quoted, the numbers in decimal. */
  function CallArguments(h: string, u: string, n: string, t: nat, e: nat, r: string): seq<string>
  {
    [Quote(h), u, Quote(n), DecimalString(t), DecimalString(e), r]
  }

  /** The page around the call: `prefix`, the call marker, the arguments, `))`, `suffix`. */
  function Page(prefix: string, h: string, u: string, n: string, t: nat, e: nat, r: string, suffix: string): string
  {
    prefix + CallMarker + JoinChar(CallArguments(h, u, n, t, e, r), ',') + CallEnd + suffix
  }

  /** The script the call decodes to: the HTML assigned after `marker`. */
  function Script(pre: string, marker: string, html: string, post: string): string
  {
    pre + marker + html + ContentEnd + post
  }

  /** A key that `decodeSnapApp` accepts and whose letters survive the argument cut. */
  predicate PlainKey(n: string, e: nat)
  {
    ValidKey(n, e) && PlainText(n)
  }

  /** The call is the first in the page and the call marker is not repeated after it. */
  predicate CallFramed(prefix: string, h: string, u: string, n: string, t: nat, e: nat, r: string, suffix: string)
  {
    IndexOf(prefix + CallMarker, CallMarker) == Some(|prefix|)
    && !Contains(JoinChar(CallArguments(h, u, n, t, e, r), ',') + CallEnd + suffix, CallMarker)
  }

  /**
   * The HTML follows the first `marker` of the script, the marker is not
   * repeated, the terminator does not occur inside the HTML and the HTML
   * holds no backslash.
   */
  predicate HtmlFramed(pre: string, marker: string, html: string, post: string)
  {
    IndexOf(pre + marker, marker) == Some(|pre|)
    && !Contains(html + ContentEnd + post, marker)
    && IndexOf(html + ContentEnd, ContentEnd) == Some(|html|)
    && '\\' !in html
  }

  /**
   * `decryptSnapSave` (with `SnapSaveMarker`) and `decryptSnaptik` (with
   * `SnaptikMarker`) give back the HTML of a page built this way, for any
   * usable key whose letters and free arguments are plain, as long as the
   * call and the HTML are framed as above and the script does not begin
   * with a byte order mark.
   */
  lemma DecryptInverts(prefix: string, pre: string, marker: string, html: string, post: string,
                       u: string, n: string, t: nat, e: nat, r: string, suffix: string)
    requires PlainKey(n, e) && PlainText(u) && PlainText(r)
    requires CallFramed(prefix, EncodeSnapApp(Script(pre, marker, html, post), n, t, e), u, n, t, e, r, suffix)
    requires HtmlFramed(pre, marker, html, post)
    requires Script(pre, marker, html, post)[0] != Utf8.ByteOrderMark
    ensures Decrypt(Page(prefix, EncodeSnapApp(Script(pre, marker, html, post), n, t, e), u, n, t, e, r, suffix), marker) == Some(html)
  {
    var script := Script(pre, marker, html, post);
    EncodedPlain(script, n, t, e);
    ScriptDecoded(pre, marker, html, post);
    PageDecrypts(prefix, script, marker, html, u, n, t, e, r, suffix);
  }

  /** The HTML is cut back out of the script that assigns it. */
  lemma ScriptDecoded(pre: string, marker: string, html: string, post: string)
    requires HtmlFramed(pre, marker, html, post)
    ensures GetDecoded(Script(pre, marker, html, post), marker) == Some(html)
  {
    DecodedFrom(pre, marker, html, post);
  }

  /** The page carrying the obfuscated `script` decrypts to what `getDecoded` cuts from the script. */
  lemma PageDecrypts(prefix: string, script: string, marker: string, html: string,
                     u: string, n: string, t: nat, e: nat, r: string, suffix: string)
    requires PlainKey(n, e) && PlainText(u) && PlainText(r)
    requires PlainText(EncodeSnapApp(script, n, t, e))
    requires CallFramed(prefix, EncodeSnapApp(script, n, t, e), u, n, t, e, r, suffix)
    requires script == [] || script[0] != Utf8.ByteOrderMark
    requires GetDecoded(script, marker) == Some(html)
    ensures Decrypt(Page(prefix, EncodeSnapApp(script, n, t, e), u, n, t, e, r, suffix), marker) == Some(html)
  {
    var h := EncodeSnapApp(script, n, t, e);
    ArgumentsFromPage(prefix, h, u, n, t, e, r, suffix);
    DecryptFrom(Page(prefix, h, u, n, t, e, r, suffix), marker, CleanTokens(CallArguments(h, u, n, t, e, r)), script, html, n, t, e);
  }

  /**
   * `decrypt` runs its three steps in sequence: when the arguments cut from
   * the page carry a payload obfuscated under a usable key, the script it
   * decodes to is cut for the HTML.
   */
  lemma DecryptFrom(data: string, marker: string, args: seq<string>, script: string, html: string, n: string, t: nat, e: nat)
    requires GetEncodedSnapApp(data) == Some(args)
    requires ValidKey(n, e) && (script == [] || script[0] != Utf8.ByteOrderMark)
    requires |args| >= 5 && args[0] == EncodeSnapApp(script, n, t, e) && args[2] == n
    requires args[3] == DecimalString(t) && args[4] == DecimalString(e)
    requires GetDecoded(script, marker) == Some(html)
    ensures Decrypt(data, marker) == Some(html)
  {
    DecodeSnapAppInverts(script, args, n, t, e);
  }

  /** The call arguments are cut back out of the page, in order and without their quotes. */
  lemma ArgumentsFromPage(prefix: string, h: string, u: string, n: string, t: nat, e: nat, r: string, suffix: string)
    requires PlainText(h) && PlainText(u) && PlainText(n) && PlainText(r)
    requires CallFramed(prefix, h, u, n, t, e, r, suffix)
    ensures GetEncodedSnapApp(Page(prefix, h, u, n, t, e, r, suffix)) == Some(CleanTokens(CallArguments(h, u, n, t, e, r)))
    ensures var c := CleanTokens(CallArguments(h, u, n, t, e, r));
      |c| == 6 && c[0] == h && c[1] == u && c[2] == n && c[3] == DecimalString(t) && c[4] == DecimalString(e) && c[5] == r
  {
    PlainDecimal(t);
    PlainDecimal(e);
    var args := CallArguments(h, u, n, t, e, r);
    CallArgumentsAt(h, u, n, t, e, r);
    ArgumentsSeparable(args, h, u, n, DecimalString(t), DecimalString(e), r);
    EncodedSnapAppFrom(prefix, args, suffix);
    CleanArguments(args, h, u, n, DecimalString(t), DecimalString(e), r);
  }

  lemma CallArgumentsAt(h: string, u: string, n: string, t: nat, e: nat, r: string)
    ensures var a := CallArguments(h, u, n, t, e, r);
      |a| == 6 && a[0] == Quote(h) && a[1] == u && a[2] == Quote(n) && a[3] == DecimalString(t) && a[4] == DecimalString(e) && a[5] == r
  {
  }

  /** No argument of the call holds a comma or a closing parenthesis. */
  lemma ArgumentsSeparable(args: seq<string>, h: string, u: string, n: string, d3: string, d4: string, r: string)
    requires |args| == 6 && args[0] == Quote(h) && args[1] == u && args[2] == Quote(n)
    requires args[3] == d3 && args[4] == d4 && args[5] == r
    requires PlainText(h) && PlainText(u) && PlainText(n) && PlainText(d3) && PlainText(d4) && PlainText(r)
    ensures forall i :: 0 <= i < |args| ==> ',' !in args[i] && ')' !in args[i]
  {
    QuotedPlain(h);
    QuotedPlain(n);
    PlainSeparable(u);
    PlainSeparable(d3);
    PlainSeparable(d4);
    PlainSeparable(r);
  }

  lemma PlainSeparable(v: string)
    requires PlainText(v)
    ensures ',' !in v && ')' !in v
  {
    PlainHasNo(v, ',');
    PlainHasNo(v, ')');
  }

  /** Cleaning the call arguments strips the quotes and gives each value back. */
  lemma CleanArguments(args: seq<string>, h: string, u: string, n: string, d3: string, d4: string, r: string)
    requires |args| == 6 && args[0] == Quote(h) && args[1] == u && args[2] == Quote(n)
    requires args[3] == d3 && args[4] == d4 && args[5] == r
    requires PlainText(h) && PlainText(u) && PlainText(n) && PlainText(d3) && PlainText(d4) && PlainText(r)
    ensures var c := CleanTokens(args);
      |c| == 6 && c[0] == h && c[1] == u && c[2] == n && c[3] == d3 && c[4] == d4 && c[5] == r
  {
    CleanQuotedAt(args, 0, h);
    CleanPlainAt(args, 1, u);
    CleanQuotedAt(args, 2, n);
    CleanPlainAt(args, 3, d3);
    CleanPlainAt(args, 4, d4);
    CleanPlainAt(args, 5, r);
  }

  lemma CleanPlainAt(args: seq<string>, k: nat, v: string)
    requires k < |args| && args[k] == v && PlainText(v)
    ensures CleanTokens(args)[k] == v
  {
    CleanPlain(v);
  }

  lemma CleanQuotedAt(args: seq<string>, k: nat, v: string)
    requires k < |args| && args[k] == Quote(v) && PlainText(v)
    ensures CleanTokens(args)[k] == v
  {
    CleanPlain(v);
  }

  lemma QuotedPlain(v: string)
    requires PlainText(v)
    ensures ',' !in Quote(v) && ')' !in Quote(v)
  {
    assert Quote(v) == ['"'] + v + ['"'];
    PlainHasNo(v, ',');
    PlainHasNo(v, ')');
  }

  lemma PlainDecimal(x: nat)
    ensures PlainText(DecimalString(x))
  {
    Text.DecimalRoundTrip(x);
    var s := DecimalString(x);
    forall i | 0 <= i < |s| ensures PlainChar(s[i]) {
      assert IsDigit(s[i]);
    }
  }

  /** A payload is written with the key letters only, so it is plain when they are. */
  lemma EncodedPlain(text: string, n: string, t: nat, e: nat)
    requires PlainKey(n, e)
    ensures PlainText(EncodeSnapApp(text, n, t, e))
  {
    EncodeBytesPlain(Utf8.Encode(text), n, t, e);
  }

  lemma {:induction false} EncodeBytesPlain(bs: seq<Utf8.Byte>, n: string, t: nat, e: nat)
    requires ValidKey(n, e) && PlainText(n)
    ensures PlainText(EncodeBytes(bs, n, t, e))
    decreases |bs|
  {
    if bs != [] {
      EncodeBytesPlain(bs[1..], n, t, e);
      ByteEncodingPlain(bs[0], n, t, e);
      PlainAppend(EncodeByte(bs[0], n, t, e), EncodeBytes(bs[1..], n, t, e));
    }
  }

  lemma ByteEncodingPlain(b: Utf8.Byte, n: string, t: nat, e: nat)
    requires ValidKey(n, e) && PlainText(n)
    ensures PlainText(EncodeByte(b, n, t, e))
  {
    var ds := BaseDigits(b + t, e);
    SpellPlain(ds, n, e);
    PlainAppend(Spell(ds, n), [n[e]]);
  }

  lemma SpellPlain(ds: seq<nat>, n: string, e: nat)
    requires ValidKey(n, e) && PlainText(n) && forall i :: 0 <= i < |ds| ==> ds[i] < e
    ensures PlainText(Spell(ds, n))
  {
    var g := Spell(ds, n);
    forall i | 0 <= i < |g| ensures PlainChar(g[i]) {
      assert g[i] == n[ds[i]];
    }
  }
}
