/**
 * The obfuscation that `decodeSnapApp` undoes, written out so that the
 * decoder can be checked against it: the text is encoded as UTF-8, each byte
 * `b` becomes `b + t` written in base `e` with the letters `n[0..e-1]` as
 * digits, and every group is closed by the separator letter `n[e]`.
 */
module SnapAppEncoding {
  import opened Wrappers
  import opened Text
  import Utf8
  import opened SnapApp

  /** The base-`e` digits of `v`, most significant first; 0 is written with one digit. */
  function BaseDigits(v: nat, e: nat): (ds: seq<nat>)
    requires e >= 2
    ensures |ds| > 0 && forall i :: 0 <= i < |ds| ==> ds[i] < e
    decreases v
  {
    if v < e then [v] else DivisionFacts(v, e); BaseDigits(v / e, e) + [v % e]
  }

  lemma DivisionFacts(v: nat, e: nat)
    requires e >= 2
    ensures v == v / e * e + v % e && 0 <= v % e < e
    ensures v >= e ==> 1 <= v / e < v
  {
    var q, r := v / e, v % e;
    if v >= e {
      assert v == q * e + r;
      ProductAtLeastDouble(q, e);
    }
  }

  lemma ProductAtLeastDouble(q: nat, e: nat)
    requires e >= 2
    ensures q * e >= q * 2
  {
    assert q * e == q * 2 + q * (e - 2);
  }

  /** The value of a digit sequence in base `e`. */
  function DigitsValue(ds: seq<nat>, e: nat): nat
  {
    if ds == [] then 0 else DigitsValue(ds[..|ds| - 1], e) * e + ds[|ds| - 1]
  }

  lemma {:induction false} BaseDigitsValue(v: nat, e: nat)
    requires e >= 2
    ensures DigitsValue(BaseDigits(v, e), e) == v
    decreases v
  {
    if v >= e {
      DivisionFacts(v, e);
      BaseDigitsValue(v / e, e);
      var ds := BaseDigits(v, e);
      assert ds[..|ds| - 1] == BaseDigits(v / e, e);
      assert DigitsValue(ds, e) == DigitsValue(BaseDigits(v / e, e), e) * e + v % e;
    } else {
      assert [v][..0] == [];
    }
  }

  /** The digits spelled with the letters of `n`. */
  function Spell(ds: seq<nat>, n: string): (g: string)
    requires forall i :: 0 <= i < |ds| ==> ds[i] < |n|
    ensures |g| == |ds| && forall i :: 0 <= i < |ds| ==> g[i] == n[ds[i]]
  {
    if ds == [] then [] else Spell(ds[..|ds| - 1], n) + [n[ds[|ds| - 1]]]
  }

  /** The digits written with the decimal digit characters. */
  function DigitString(ds: seq<nat>): (s: string)
    requires forall i :: 0 <= i < |ds| ==> ds[i] < 10
    ensures |s| == |ds|
  {
    if ds == [] then [] else DigitString(ds[..|ds| - 1]) + [DigitChar(ds[|ds| - 1])]
  }

  /** A usable key: a base between 2 and 10, letters that are not decimal digits, distinct digit letters and separator. */
  predicate ValidKey(n: string, e: nat)
  {
    2 <= e <= 10 && e < |n| && NoDigits(n)
    && forall i, j :: 0 <= j < i <= e ==> n[j] != n[i]
  }

  /** No digit letter occurs before its own position. */
  lemma LetterFirst(n: string, e: nat, d: nat)
    requires ValidKey(n, e) && d <= e
    ensures n[d] !in n[..d]
  {
    forall j | 0 <= j < d ensures n[..d][j] != n[d] {
      assert n[..d][j] == n[j];
    }
  }

  /** One byte: `b + t` spelled in base `e`, closed by the separator `n[e]`. */
  function EncodeByte(b: Utf8.Byte, n: string, t: nat, e: nat): string
    requires 2 <= e < |n|
  {
    Spell(BaseDigits(b + t, e), n) + [n[e]]
  }

  function EncodeBytes(bs: seq<Utf8.Byte>, n: string, t: nat, e: nat): string
    requires 2 <= e < |n|
  {
    if bs == [] then [] else EncodeByte(bs[0], n, t, e) + EncodeBytes(bs[1..], n, t, e)
  }

  /** The payload `h` a page carries for `text` under the key `(n, t, e)`. */
  function EncodeSnapApp(text: string, n: string, t: nat, e: nat): string
    requires 2 <= e < |n|
  {
    EncodeBytes(Utf8.Encode(text), n, t, e)
  }

  // ---------------------------------------------------------------------------
  // Decoding one group

  lemma {:induction false} ExpandAppend(a: string, b: string, n: string, j: nat)
    requires j <= |n|
    ensures Expand(a + b, n, j) == Expand(a, n, j) + Expand(b, n, j)
    decreases |a|
  {
    if a == [] {
      assert a + b == b;
    } else {
      assert (a + b)[0] == a[0] && (a + b)[1..] == a[1..] + b;
      ExpandAppend(a[1..], b, n, j);
    }
  }

  lemma ExpandLetter(n: string, e: nat, d: nat)
    requires ValidKey(n, e) && d < e
    ensures Expand([n[d]], n, |n|) == [DigitChar(d)]
  {
    assert n[..|n|] == n;
    LetterFirst(n, e, d);
    IndexOfCharIs(n, n[d], d);
    assert n[d] in n[..|n|] by { assert n[..|n|][d] == n[d]; }
    assert ExpandChar(n[d], n, |n|) == DecimalString(d);
    if d > 0 {
      assert Digits(d) == Digits(0) + [DigitChar(d)];
    }
    assert [n[d]][1..] == [];
  }

  /** Reading a spelled group letter by letter gives back the decimal digits. */
  lemma {:induction false} ExpandSpell(ds: seq<nat>, n: string, e: nat)
    requires ValidKey(n, e) && forall i :: 0 <= i < |ds| ==> ds[i] < e
    ensures Expand(Spell(ds, n), n, |n|) == DigitString(ds)
    decreases |ds|
  {
    if ds != [] {
      var init, d := ds[..|ds| - 1], ds[|ds| - 1];
      ExpandSpell(init, n, e);
      ExpandAppend(Spell(init, n), [n[d]], n, |n|);
      ExpandLetter(n, e, d);
    } else {
      assert Spell(ds, n) == [];
    }
  }

  /** In a base up to 10 the decimal digit characters read as themselves. */
  lemma {:induction false} NumeralDigitString(ds: seq<nat>, e: nat)
    requires 2 <= e <= 10 && forall i :: 0 <= i < |ds| ==> ds[i] < e
    ensures Numeral(DigitString(ds), e, e) == DigitsValue(ds, e)
    decreases |ds|
  {
    if ds != [] {
      var s := DigitString(ds);
      assert s[..|s| - 1] == DigitString(ds[..|ds| - 1]);
      NumeralDigitString(ds[..|ds| - 1], e);
      var d := ds[|ds| - 1];
      assert AlphabetIndex(DigitChar(d)) == Some(d);
    }
  }

  /** Each group of the payload decodes to the byte it was made from. */
  lemma GroupCodeEncodeByte(b: Utf8.Byte, n: string, t: nat, e: nat)
    requires ValidKey(n, e)
    ensures GroupCode(Spell(BaseDigits(b + t, e), n), n, Some(e), Some(t)) == b
  {
    SpelledByte(b, n, t, e);
    GroupCodeOfSpelled(b, n, t, e);
  }

  /** The spelling of `b + t` in base `e` is read back by the replacements and the `reduce`. */
  lemma SpelledByte(b: Utf8.Byte, n: string, t: nat, e: nat)
    requires ValidKey(n, e)
    ensures Numeral(SubstitutePrefix(Spell(BaseDigits(b + t, e), n), n, |n|), e, e) == b + t
  {
    SpelledValue(b + t, n, e);
  }

  /** A value spelled in base `e` is read back by the replacements and the `reduce`. */
  lemma SpelledValue(v: nat, n: string, e: nat)
    requires ValidKey(n, e)
    ensures Numeral(SubstitutePrefix(Spell(BaseDigits(v, e), n), n, |n|), e, e) == v
  {
    var ds := BaseDigits(v, e);
    SubstituteSpell(ds, n, e);
    NumeralDigitString(ds, e);
    BaseDigitsValue(v, e);
  }

  lemma GroupCodeOfSpelled(b: Utf8.Byte, n: string, t: nat, e: nat)
    requires ValidKey(n, e)
    requires Numeral(SubstitutePrefix(Spell(BaseDigits(b + t, e), n), n, |n|), e, e) == b + t
    ensures GroupCode(Spell(BaseDigits(b + t, e), n), n, Some(e), Some(t)) == b
  {
    GroupCodeOfValue(Spell(BaseDigits(b + t, e), n), n, e, t, b);
  }

  /** The replacements of `decodeSnapApp` turn a spelled group back into its decimal digits. */
  lemma SubstituteSpell(ds: seq<nat>, n: string, e: nat)
    requires ValidKey(n, e) && forall i :: 0 <= i < |ds| ==> ds[i] < e
    ensures SubstitutePrefix(Spell(ds, n), n, |n|) == DigitString(ds)
  {
    assert n[..|n|] == n;
    SubstituteExpand(Spell(ds, n), n, |n|);
    ExpandSpell(ds, n, e);
  }

  /** A group whose substituted letters read `b + t` in base `e` stands for the code `b`. */
  lemma GroupCodeOfValue(g: string, n: string, e: nat, t: nat, b: nat)
    requires 2 <= e <= 64 && b < 0x1_0000
    requires Numeral(SubstitutePrefix(g, n, |n|), e, e) == b + t
    ensures GroupCode(g, n, Some(e), Some(t)) == b
  {
    assert WindowLength(Some(e)) == e;
    assert Max0(b + t) == b + t;
    assert Minus(Some(b + t), Some(t)) == Some(b);
    ModSmall(b, 0x1_0000);
    assert FromCharCode(Some(b)) == b;
  }

  lemma ToBytesCons(x: CodeUnit, xs: seq<CodeUnit>)
    ensures ToBytes([x] + xs) == [x % 256] + ToBytes(xs)
  {
    assert ([x] + xs)[1..] == xs;
  }

  /** The bytes the decoder reads from a payload under the key `(n, t, e)`, before they are decoded as UTF-8. */
  function PayloadBytes(h: string, n: string, t: nat, e: nat): seq<Utf8.Byte>
    requires e < |n|
  {
    ToBytes(Codes(Groups(h, Some(n[e])), n, Some(e), Some(t)))
  }

  lemma PayloadBytesCons(g: string, rest: string, n: string, t: nat, e: nat)
    requires e < |n| && n[e] !in g
    ensures PayloadBytes(g + [n[e]] + rest, n, t, e) == [GroupCode(g, n, Some(e), Some(t)) % 256] + PayloadBytes(rest, n, t, e)
  {
    GroupsCons(g, n[e], rest);
    var gs := Groups(rest, Some(n[e]));
    CodesCons(g, gs, n, Some(e), Some(t));
    ToBytesCons(GroupCode(g, n, Some(e), Some(t)), Codes(gs, n, Some(e), Some(t)));
  }

  /** The groups of an encoded payload give back the bytes, in order. */
  lemma {:induction false} DecodeEncodedBytes(bs: seq<Utf8.Byte>, n: string, t: nat, e: nat)
    requires ValidKey(n, e)
    ensures PayloadBytes(EncodeBytes(bs, n, t, e), n, t, e) == bs
    decreases |bs|
  {
    if bs == [] {
      assert EncodeBytes(bs, n, t, e) == [];
    } else {
      PayloadFirstByte(bs, n, t, e);
      DecodeEncodedBytes(bs[1..], n, t, e);
      assert bs == [bs[0]] + bs[1..];
    }
  }

  /** The separator letter never occurs inside a group. */
  lemma SeparatorNotSpelled(ds: seq<nat>, n: string, e: nat)
    requires ValidKey(n, e) && forall i :: 0 <= i < |ds| ==> ds[i] < e
    ensures n[e] !in Spell(ds, n)
  {
    var g := Spell(ds, n);
    forall i | 0 <= i < |g| ensures g[i] != n[e] {
      assert g[i] == n[ds[i]];
    }
  }

  /** The first group of an encoded payload gives back the first byte. */
  lemma PayloadFirstByte(bs: seq<Utf8.Byte>, n: string, t: nat, e: nat)
    requires ValidKey(n, e) && bs != []
    ensures PayloadBytes(EncodeBytes(bs, n, t, e), n, t, e) == [bs[0]] + PayloadBytes(EncodeBytes(bs[1..], n, t, e), n, t, e)
  {
    ByteGroupCons(bs[0], EncodeBytes(bs[1..], n, t, e), n, t, e);
  }

  /** An encoded byte in front of a payload is read back first. */
  lemma ByteGroupCons(b: Utf8.Byte, rest: string, n: string, t: nat, e: nat)
    requires ValidKey(n, e)
    ensures PayloadBytes(EncodeByte(b, n, t, e) + rest, n, t, e) == [b] + PayloadBytes(rest, n, t, e)
  {
    FirstGroup(b, n, t, e);
    var g := Spell(BaseDigits(b + t, e), n);
    assert EncodeByte(b, n, t, e) + rest == g + [n[e]] + rest;
    PayloadGroupCons(EncodeByte(b, n, t, e) + rest, g, rest, n, t, e, b);
  }

  /** The first group of an encoded payload holds no separator and stands for the first byte. */
  lemma FirstGroup(b: Utf8.Byte, n: string, t: nat, e: nat)
    requires ValidKey(n, e)
    ensures n[e] !in Spell(BaseDigits(b + t, e), n)
    ensures GroupCode(Spell(BaseDigits(b + t, e), n), n, Some(e), Some(t)) == b
  {
    ByteNotSpellingSeparator(b, n, t, e);
    GroupCodeEncodeByte(b, n, t, e);
  }

  lemma ByteNotSpellingSeparator(b: Utf8.Byte, n: string, t: nat, e: nat)
    requires ValidKey(n, e)
    ensures n[e] !in Spell(BaseDigits(b + t, e), n)
  {
    SeparatorNotSpelled(BaseDigits(b + t, e), n, e);
  }

  /** A payload that starts with a group standing for `b` yields the byte `b` first. */
  lemma PayloadGroupCons(h: string, g: string, rest: string, n: string, t: nat, e: nat, b: Utf8.Byte)
    requires e < |n| && h == g + [n[e]] + rest
    requires n[e] !in g && GroupCode(g, n, Some(e), Some(t)) == b
    ensures PayloadBytes(h, n, t, e) == [b] + PayloadBytes(rest, n, t, e)
  {
    PayloadBytesCons(g, rest, n, t, e);
    ModSmall(b, 256);
  }

  lemma ModSmall(x: int, m: int)
    requires 0 <= x < m
    ensures x % m == x
  {
  }

  /**
   * The decoder inverts the obfuscation: for every usable key and every text
   * that does not itself begin with a byte order mark, `decodeSnapApp` called
   * with the payload, the key letters `n`, and `t` and `e` in decimal returns
   * the text, whatever the second argument and any arguments after the fifth.
   */
  lemma DecodeSnapAppInverts(text: string, args: seq<string>, n: string, t: nat, e: nat)
    requires ValidKey(n, e)
    requires text == [] || text[0] != Utf8.ByteOrderMark
    requires |args| >= 5 && args[0] == EncodeSnapApp(text, n, t, e) && args[2] == n
    requires args[3] == DecimalString(t) && args[4] == DecimalString(e)
    ensures DecodeSnapAppSpec(args) == Some(text)
  {
    NumberArgDecimal(args, 3, t);
    NumberArgDecimal(args, 4, e);
    DecodeSnapAppPayload(args, n, t, e);
    DecodeEncodedBytes(Utf8.Encode(text), n, t, e);
    Utf8.TextDecodeEncode(text);
  }

  /** An argument written as a canonical decimal reads back as its value. */
  lemma NumberArgDecimal(args: seq<string>, k: nat, x: nat)
    requires k < |args| && args[k] == DecimalString(x)
    ensures NumberArg(args, k) == Some(x)
  {
    ParseNumberDecimal(x);
  }

  /** With the key arguments present, the decoder returns the UTF-8 reading of the payload's bytes. */
  lemma DecodeSnapAppPayload(args: seq<string>, n: string, t: nat, e: nat)
    requires |args| >= 5 && e < |n| && args[2] == n
    requires NumberArg(args, 3) == Some(t) && NumberArg(args, 4) == Some(e)
    ensures DecodeSnapAppSpec(args) == Some(Utf8.TextDecode(PayloadBytes(args[0], n, t, e)))
  {
    assert Separator(n, Some(e)) == Some(n[e]);
  }
}
