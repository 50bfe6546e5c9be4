/**
 * `decodeSnapApp`: the de-obfuscation of the script the SnapSave and Snaptik
 * pages return. The encoded payload `h` is a run of groups separated by the
 * character `n[e]`; each group spells a number in base `e` with the letters of
 * `n` as digits, offset by `t`, and each number is one character code of the
 * hidden text. The codes are finally read as UTF-8 bytes.
 */
module SnapApp {
  import opened Wrappers
  import opened Text
  import Utf8

  /** A UTF-16 code unit, what `String.fromCharCode` produces. */
  type CodeUnit = x: int | 0 <= x < 0x1_0000

  /** The digit alphabet of the inner `decode`. */
  const Alphabet: string := "0123456789" + "abcdefghijklmnopqrstuvwxyz" + "ABCDEFGHIJKLMNOPQRSTUVWXYZ" + "+/"

  /** Where `c` sits in `Alphabet`. */
  function AlphabetIndex(c: char): Option<nat>
  {
    if '0' <= c <= '9' then Some(c as int - '0' as int)
    else if 'a' <= c <= 'z' then Some(c as int - 'a' as int + 10)
    else if 'A' <= c <= 'Z' then Some(c as int - 'A' as int + 36)
    else if c == '+' then Some(62)
    else if c == '/' then Some(63)
    else None
  }

  lemma DigitRun(i: nat)
    requires i < 10
    ensures "0123456789"[i] as int == '0' as int + i
  {
  }

  lemma LowerRun(i: nat)
    requires i < 26
    ensures "abcdefghijklmnopqrstuvwxyz"[i] as int == 'a' as int + i
  {
  }

  lemma UpperRun(i: nat)
    requires i < 26
    ensures "ABCDEFGHIJKLMNOPQRSTUVWXYZ"[i] as int == 'A' as int + i
  {
  }

  /** The alphabet is the three letter runs followed by `+` and `/`. */
  lemma AlphabetLetter(i: nat)
    requires i < 64
    ensures |Alphabet| == 64
    ensures i < 10 ==> Alphabet[i] == "0123456789"[i]
    ensures 10 <= i < 36 ==> Alphabet[i] == "abcdefghijklmnopqrstuvwxyz"[i - 10]
    ensures 36 <= i < 62 ==> Alphabet[i] == "ABCDEFGHIJKLMNOPQRSTUVWXYZ"[i - 36]
    ensures Alphabet[62] == '+' && Alphabet[63] == '/'
  {
  }

  lemma AlphabetIndexAt(i: nat)
    requires i < 64
    ensures AlphabetIndex(Alphabet[i]) == Some(i)
  {
    AlphabetLetter(i);
    if i < 10 {
      DigitRun(i);
    } else if i < 36 {
      LowerRun(i - 10);
    } else if i < 62 {
      UpperRun(i - 36);
    }
  }

  /**
   * `AlphabetIndex` is `indexOf` on the alphabet: every letter is found at its
   * own position (so the letters are distinct), and exactly the letters are found.
   */
  lemma AlphabetIndexCorrect()
    ensures |Alphabet| == 64
    ensures forall i :: 0 <= i < 64 ==> AlphabetIndex(Alphabet[i]) == Some(i)
    ensures forall c :: AlphabetIndex(c).Some? ==> AlphabetIndex(c).value < 64 && Alphabet[AlphabetIndex(c).value] == c
  {
    forall i | 0 <= i < 64
      ensures AlphabetIndex(Alphabet[i]) == Some(i)
    {
      AlphabetIndexAt(i);
    }
    forall c | AlphabetIndex(c).Some?
      ensures AlphabetIndex(c).value < 64 && Alphabet[AlphabetIndex(c).value] == c
    {
      AlphabetIndexFound(c);
    }
  }

  lemma AlphabetIndexFound(c: char)
    requires AlphabetIndex(c).Some?
    ensures AlphabetIndex(c).value < 64 && Alphabet[AlphabetIndex(c).value] == c
  {
    var i := AlphabetIndex(c).value;
    AlphabetLetter(i);
    if '0' <= c <= '9' {
      DigitRun(i);
    } else if 'a' <= c <= 'z' {
      LowerRun(i - 10);
    } else if 'A' <= c <= 'Z' {
      UpperRun(i - 36);
    }
  }

  /** The length of `g.slice(0, e2)` for a 64-letter array; `NaN` counts as 0. */
  function WindowLength(base: Option<int>): (w: nat)
    ensures w <= 64
  {
    match base
    case None => 0
    case Some(b) => if b < 0 then (if 64 + b < 0 then 0 else 64 + b) else if b > 64 then 64 else b
  }

  /** The value a character contributes in `reduce`: its index in the window, or nothing when `indexOf` gives -1. */
  function Contribution(c: char, w: nat): nat
  {
    match AlphabetIndex(c)
    case Some(i) => if i < w then i else 0
    case None => 0
  }

  function Pow(b: int, k: nat): int
  {
    if k == 0 then 1 else b * Pow(b, k - 1)
  }

  /** The `reduce` over the reversed digit string: position `c` is weighted by `b` to the power `c`. */
  function ReduceValue(r: string, b: int, w: nat): int
  {
    if r == [] then 0 else ReduceValue(r[..|r| - 1], b, w) + Contribution(r[|r| - 1], w) * Pow(b, |r| - 1)
  }

  /** The numeral `d`, most significant digit first, in base `b` (Horner's rule). */
  function Numeral(d: string, b: int, w: nat): int
  {
    if d == [] then 0 else Numeral(d[..|d| - 1], b, w) * b + Contribution(d[|d| - 1], w)
  }

  lemma Distribute(x: int, p: int, m: int, b: int, y: int)
    ensures (x * p + m) * b + y == x * (p * b) + (m * b + y)
  {
  }

  lemma {:induction false} NumeralCons(d: string, b: int, w: nat)
    requires d != []
    ensures Numeral(d, b, w) == Contribution(d[0], w) * Pow(b, |d| - 1) + Numeral(d[1..], b, w)
    decreases |d|
  {
    if |d| > 1 {
      var init := d[..|d| - 1];
      NumeralCons(init, b, w);
      assert init[0] == d[0];
      assert init[1..] == d[1..][..|d[1..]| - 1];
      var x, y := Contribution(d[0], w), Contribution(d[|d| - 1], w);
      var p, m := Pow(b, |init| - 1), Numeral(init[1..], b, w);
      assert Numeral(d, b, w) == (x * p + m) * b + y;
      Distribute(x, p, m, b, y);
      assert Pow(b, |d| - 1) == p * b;
      assert Numeral(d[1..], b, w) == m * b + y;
    } else {
      assert d[1..] == [];
      assert d[..0] == [];
    }
  }

  /** Summing weighted digits over the reversed string is reading the numeral in positional notation. */
  lemma {:induction false} ReduceValueNumeral(d: string, b: int, w: nat)
    ensures ReduceValue(Reverse(d), b, w) == Numeral(d, b, w)
    decreases |d|
  {
    if d != [] {
      var r := Reverse(d);
      assert r == Reverse(d[1..]) + [d[0]];
      assert r[..|r| - 1] == Reverse(d[1..]);
      ReduceValueNumeral(d[1..], b, w);
      NumeralCons(d, b, w);
    }
  }

  function Max0(x: int): nat { if x > 0 then x else 0 }

  /**
   * The inner `decode(d, e2, 10)`: the `reduce` reads `d` in base `e2`, then
   * the loop renders the value in decimal, "0" when it is not positive.
   */
  method DecodeNumeral(d: string, base: Option<int>) returns (k: string)
    ensures IsCanonicalDecimal(k)
    ensures DecimalValue(k) == Max0(Numeral(d, base.GetOr(0), WindowLength(base)))
  {
    var b, w := base.GetOr(0), WindowLength(base);
    var j := ReduceValue(Reverse(d), b, w);
    ReduceValueNumeral(d, b, w);
    ghost var v := Max0(j);
    k := "";
    while j > 0
      invariant Digits(Max0(j)) + k == Digits(v)
    {
      DigitsLast(j);
      k := [DigitChar(j % 10)] + k;
      j := j / 10;
    }
    assert k == Digits(v);
    DigitsFacts(v);
    if k == [] {
      k := "0";
    }
    DecimalRoundTrip(v);
  }

  /** Taking the last decimal digit off a positive number. */
  lemma DigitsLast(j: int)
    requires j > 0
    ensures Digits(Max0(j)) == Digits(Max0(j / 10)) + [DigitChar(j % 10)]
  {
    assert Max0(j) == j && Max0(j / 10) == j / 10;
  }

  // ---------------------------------------------------------------------------
  // Splitting the payload into groups

  /** `n[e]`: the separator, or undefined when `e` is not an index of `n`. */
  function Separator(n: string, base: Option<int>): Option<char>
  {
    match base
    case Some(e) => if 0 <= e < |n| then Some(n[e]) else None
    case None => None
  }

  /**
   * The groups the scanning loop cuts from `h`: the text up to each separator,
   * and the text after the last one when it is not empty. Without a
   * separator the whole of `h` is one group.
   */
  function Groups(h: string, sep: Option<char>): (r: seq<string>)
    ensures (r == []) == (h == [])
  {
    if h == [] then []
    else
      var r := Groups(h[1..], sep);
      if IsSeparator(h[0], sep) then [[]] + r
      else if r == [] then [[h[0]]]
      else [[h[0]] + r[0]] + r[1..]
  }

  /** The scan's test `h[i] !== n[e]` fails: `c` is the separator. */
  predicate IsSeparator(c: char, sep: Option<char>)
  {
    sep.Some? && sep.value == c
  }

  /** What is left of `h` after the scan has moved to position `i`. */
  function Rest(h: string, i: nat): string
  {
    if i < |h| then h[i..] else []
  }

  /** No group contains the separator. */
  lemma {:induction false} GroupsNoSeparator(h: string, c: char)
    ensures forall i :: 0 <= i < |Groups(h, Some(c))| ==> c !in Groups(h, Some(c))[i]
    decreases |h|
  {
    if h != [] {
      GroupsNoSeparator(h[1..], c);
      var r := Groups(h[1..], Some(c));
      if h[0] != c && r != [] {
        assert c !in [h[0]] + r[0] by {
          assert c !in r[0];
        }
        forall i | 1 <= i < |r| ensures c !in r[i] { }
      }
    }
  }

  /** The pieces of `h.split(c)`, without the empty last piece a trailing separator leaves. */
  function SplitGroups(h: string, c: char): seq<string>
  {
    if h == [] then []
    else if h[|h| - 1] == c then SplitChar(h, c)[..|SplitChar(h, c)| - 1]
    else SplitChar(h, c)
  }

  /** The groups are the pieces of `h.split(n[e])`, except that a separator at the very end does not open an empty last group. */
  lemma {:induction false} GroupsSplit(h: string, c: char)
    ensures Groups(h, Some(c)) == SplitGroups(h, c)
    decreases |h|
  {
    if h != [] {
      GroupsSplit(h[1..], c);
      if h[0] == c {
        GroupsSplitSeparator(h, c);
      } else {
        GroupsSplitOther(h, c);
      }
    }
  }

  /** A string ending in the separator splits into at least two pieces, the last one empty. */
  lemma {:induction false} SplitLastSeparator(s: string, c: char)
    requires s != [] && s[|s| - 1] == c
    ensures |SplitChar(s, c)| >= 2 && SplitChar(s, c)[|SplitChar(s, c)| - 1] == []
    decreases |s|
  {
    if |s| == 1 {
      assert s == [c];
      SplitSeparatorOnly(c);
    } else {
      assert s[1..][|s| - 2] == c;
      SplitLastSeparator(s[1..], c);
      SplitCharKeepsLast(s, c);
    }
  }

  lemma SplitSeparatorOnly(c: char)
    ensures SplitChar([c], c) == [[], []]
  {
    assert [c][1..] == [];
  }

  /** Prepending a character changes only the first piece, so a split into two or more pieces keeps its last one. */
  lemma SplitCharKeepsLast(s: string, c: char)
    requires |s| >= 2 && |SplitChar(s[1..], c)| >= 2
    ensures var r, q := SplitChar(s[1..], c), SplitChar(s, c); |q| >= |r| && q[|q| - 1] == r[|r| - 1]
  {
    var r := SplitChar(s[1..], c);
    if s[0] == c {
      assert SplitChar(s, c) == [[]] + r;
    } else {
      assert SplitChar(s, c) == [[s[0]] + r[0]] + r[1..];
    }
  }

  lemma GroupsSplitSeparator(h: string, c: char)
    requires h != [] && h[0] == c
    requires Groups(h[1..], Some(c)) == SplitGroups(h[1..], c)
    ensures Groups(h, Some(c)) == SplitGroups(h, c)
  {
    var t := h[1..];
    var s := SplitChar(t, c);
    assert Groups(h, Some(c)) == [[]] + Groups(t, Some(c));
    assert SplitChar(h, c) == [[]] + s;
    if t == [] {
      assert s == [[]];
    } else {
      assert h[|h| - 1] == t[|t| - 1];
      ConsDropLast([], s);
    }
  }

  lemma GroupsSplitOther(h: string, c: char)
    requires h != [] && h[0] != c
    requires Groups(h[1..], Some(c)) == SplitGroups(h[1..], c)
    ensures Groups(h, Some(c)) == SplitGroups(h, c)
  {
    var t := h[1..];
    var s := SplitChar(t, c);
    assert SplitChar(h, c) == [[h[0]] + s[0]] + s[1..];
    if t == [] {
      assert s == [[]];
      assert h[|h| - 1] == h[0];
      assert [h[0]] + s[0] == [h[0]] && s[1..] == [];
      assert SplitGroups(h, c) == SplitChar(h, c) == [[h[0]]];
      assert Groups(h, Some(c)) == [[h[0]]];
    } else {
      assert h[|h| - 1] == t[|t| - 1];
      if t[|t| - 1] == c {
        SplitLastSeparator(t, c);
        GroupsSplitTrailing(h[0], s, Groups(t, Some(c)));
      }
    }
  }

  lemma GroupsSplitTrailing(x: char, s: seq<string>, r: seq<string>)
    requires |s| >= 2 && r == s[..|s| - 1]
    ensures [[x] + r[0]] + r[1..] == ([[x] + s[0]] + s[1..])[..|s| - 1]
  {
  }

  lemma ConsDropLast<T>(x: T, s: seq<T>)
    requires |s| > 0
    ensures ([x] + s)[..|s|] == [x] + s[..|s| - 1]
  {
  }

  /** One turn of the scanning loop: from `i`, the group runs up to the separator at `p` (or the end), and the scan resumes after it. */
  lemma {:induction false} GroupsStep(h: string, sep: Option<char>, i: nat, p: nat)
    requires GroupEnd(h, sep, i, p)
    ensures Groups(h[i..], sep) == [h[i..p]] + Groups(Rest(h, p + 1), sep)
    decreases p - i
  {
    var x := h[i..];
    assert x[0] == h[i] && x[1..] == h[i + 1..];
    if i == p {
      assert IsSeparator(x[0], sep);
      assert Groups(x, sep) == [[]] + Groups(x[1..], sep);
      assert h[i..p] == [];
      assert h[i + 1..] == Rest(h, p + 1);
    } else if i + 1 == |h| {
      assert x == [h[i]] && h[i..p] == [h[i]];
    } else {
      assert !IsSeparator(h[i], sep);
      GroupsStep(h, sep, i + 1, p);
      assert [h[i]] + h[i + 1..p] == h[i..p];
    }
  }

  /** `stop` is where the group starting at `start` ends: the next separator, or the end of `h`. */
  predicate GroupEnd(h: string, sep: Option<char>, start: nat, stop: nat)
  {
    start < |h| && start <= stop <= |h|
    && (forall k :: start <= k < stop ==> !IsSeparator(h[k], sep))
    && (stop < |h| ==> IsSeparator(h[stop], sep))
  }

  /** A payload made of a group and the separator splits back into that group and the rest. */
  lemma {:induction false} GroupsCons(g: string, c: char, rest: string)
    requires c !in g
    ensures Groups(g + [c] + rest, Some(c)) == [g] + Groups(rest, Some(c))
    decreases |g|
  {
    var h := g + [c] + rest;
    if g == [] {
      assert h[0] == c && h[1..] == rest;
    } else {
      assert h[0] == g[0] && h[1..] == g[1..] + [c] + rest;
      NotInTail(g, c);
      GroupsCons(g[1..], c, rest);
      assert g == [g[0]] + g[1..];
    }
  }

  // ---------------------------------------------------------------------------
  // Substituting the letters of `n` by their indices

  /** The `for` loop over `n` after `j` turns: each `n[k]`, `k < j`, replaced in turn by `k.toString()`. */
  function SubstitutePrefix(g: string, n: string, j: nat): string
    requires j <= |n|
  {
    if j == 0 then g else ReplaceAllChar(SubstitutePrefix(g, n, j - 1), n, j - 1)
  }

  function ReplaceAllChar(s: string, n: string, k: nat): string
    requires k < |n|
  {
    Text.ReplaceAllChar(s, n[k], DecimalString(k))
  }

  /** One character read through the first `j` letters of `n`: the index of its first occurrence, else itself. */
  function ExpandChar(c: char, n: string, j: nat): string
    requires j <= |n|
  {
    if c in n[..j] then DecimalString(IndexOfChar(n[..j], c)) else [c]
  }

  /** Every character of `g` read through the first `j` letters of `n`, independently of the others. */
  function Expand(g: string, n: string, j: nat): string
    requires j <= |n|
  {
    if g == [] then [] else ExpandChar(g[0], n, j) + Expand(g[1..], n, j)
  }

  predicate NoDigits(s: string) { forall i :: 0 <= i < |s| ==> !IsDigit(s[i]) }

  lemma ReplaceExpandChar(c: char, n: string, j: nat)
    requires j < |n| && !IsDigit(n[j])
    ensures Text.ReplaceAllChar(ExpandChar(c, n, j), n[j], DecimalString(j)) == ExpandChar(c, n, j + 1)
  {
    assert n[..j + 1] == n[..j] + [n[j]];
    if c in n[..j] {
      var k := IndexOfChar(n[..j], c);
      DecimalRoundTrip(k);
      assert n[j] !in DecimalString(k);
      ReplaceAllCharAbsent(DecimalString(k), n[j], DecimalString(j));
      IndexOfCharAppend(n[..j], [n[j]], c);
    } else if c == n[j] {
      assert [c][1..] == [];
      IndexOfCharIs(n[..j + 1], c, j);
      assert n[..j + 1][..j] == n[..j];
    } else {
      assert [c][1..] == [];
    }
  }

  lemma {:induction false} ReplaceExpand(g: string, n: string, j: nat)
    requires j < |n| && !IsDigit(n[j])
    ensures Text.ReplaceAllChar(Expand(g, n, j), n[j], DecimalString(j)) == Expand(g, n, j + 1)
    decreases |g|
  {
    if g != [] {
      ReplaceAllCharAppend(ExpandChar(g[0], n, j), Expand(g[1..], n, j), n[j], DecimalString(j));
      ReplaceExpandChar(g[0], n, j);
      ReplaceExpand(g[1..], n, j);
    }
  }

  /**
   * When no letter of `n` is a decimal digit, the successive global
   * replacements amount to reading each character of the group on its own:
   * the digits a replacement inserts are never touched by a later one.
   */
  lemma {:induction false} SubstituteExpand(g: string, n: string, j: nat)
    requires j <= |n| && NoDigits(n[..j])
    ensures SubstitutePrefix(g, n, j) == Expand(g, n, j)
    decreases j
  {
    if j == 0 {
      ExpandEmptyWindow(g, n);
    } else {
      assert NoDigits(n[..j - 1]) by { assert forall i :: 0 <= i < j - 1 ==> n[..j - 1][i] == n[..j][i]; }
      assert !IsDigit(n[j - 1]) by { assert n[..j][j - 1] == n[j - 1]; }
      SubstituteExpand(g, n, j - 1);
      ReplaceExpand(g, n, j - 1);
    }
  }

  lemma {:induction false} ExpandEmptyWindow(g: string, n: string)
    ensures Expand(g, n, 0) == g
    decreases |g|
  {
    if g != [] {
      ExpandEmptyWindow(g[1..], n);
      assert g == [g[0]] + g[1..];
    }
  }

  // ---------------------------------------------------------------------------
  // From groups to text

  /** `String.fromCharCode(x)`: ToUint16, with `NaN` giving 0. */
  function FromCharCode(x: Option<int>): CodeUnit
  {
    match x
    case Some(v) => v % 0x1_0000
    case None => 0
  }

  /** Subtraction of two numbers, either of which may be `NaN`. */
  function Minus(a: Option<int>, b: Option<int>): Option<int>
  {
    if a.Some? && b.Some? then Some(a.value - b.value) else None
  }

  /** The character code one group stands for. */
  function GroupCode(g: string, n: string, base: Option<int>, offset: Option<int>): CodeUnit
  {
    var value := Max0(Numeral(SubstitutePrefix(g, n, |n|), base.GetOr(0), WindowLength(base)));
    FromCharCode(Minus(Some(value), offset))
  }

  function Codes(groups: seq<string>, n: string, base: Option<int>, offset: Option<int>): (r: seq<CodeUnit>)
    ensures |r| == |groups|
  {
    if groups == [] then [] else [GroupCode(groups[0], n, base, offset)] + Codes(groups[1..], n, base, offset)
  }

  /** `new Uint8Array(codes)`: each code unit truncated to its low byte. */
  function ToBytes(codes: seq<CodeUnit>): (r: seq<Utf8.Byte>)
    ensures |r| == |codes|
  {
    if codes == [] then [] else [codes[0] % 256] + ToBytes(codes[1..])
  }

  /** `fixEncoding`: the code units read as UTF-8 bytes. */
  function FixEncoding(codes: seq<CodeUnit>): string
  {
    Utf8.TextDecode(ToBytes(codes))
  }

  /** The argument at `k` read with `Number`; a missing argument is `undefined`, which reads as `NaN`. */
  function NumberArg(args: seq<string>, k: nat): Option<int>
  {
    if k < |args| then ParseNumber(args[k]) else None
  }

  /**
   * What `decodeSnapApp(args)` returns; `None` when it throws. It throws when
   * there is no payload, and when the payload is not empty but the alphabet
   * `n` is missing.
   */
  function DecodeSnapAppSpec(args: seq<string>): Option<string>
  {
    if |args| == 0 then None
    else if |args| < 3 && args[0] != [] then None
    else
      var n := if |args| > 2 then args[2] else [];
      var base := NumberArg(args, 4);
      Some(FixEncoding(Codes(Groups(args[0], Separator(n, base)), n, base, NumberArg(args, 3))))
  }

  /** The body of the scanning loop for one group: substitute the letters of `n`, decode, subtract `t`. */
  method DecodeGroup(group: string, n: string, base: Option<int>, offset: Option<int>) returns (code: CodeUnit)
    ensures code == GroupCode(group, n, base, offset)
  {
    var s := group;
    for j := 0 to |n|
      invariant s == SubstitutePrefix(group, n, j)
    {
      s := Text.ReplaceAllChar(s, n[j], DecimalString(j));
    }
    var k := DecodeNumeral(s, base);
    ParseNumberCanonical(k);
    code := FromCharCode(Minus(ParseNumber(k), offset));
  }

  /** The inner `while`: collects the characters from `start` up to the next separator or the end. */
  method ScanGroup(h: string, sep: Option<char>, start: nat) returns (s: string, i: nat)
    requires start < |h|
    ensures GroupEnd(h, sep, start, i) && s == h[start..i]
    ensures Groups(Rest(h, start), sep) == [s] + Groups(Rest(h, i + 1), sep)
  {
    s, i := "", start;
    while i < |h| && !IsSeparator(h[i], sep)
      invariant start <= i <= |h|
      invariant s == h[start..i]
      invariant forall k :: start <= k < i ==> !IsSeparator(h[k], sep)
    {
      s := s + [h[i]];
      i := i + 1;
    }
    assert Rest(h, start) == h[start..];
    GroupsStep(h, sep, start, i);
  }

  /** `decodeSnapApp`: reads the key arguments, scans the payload, fixes the encoding. */
  method DecodeSnapApp(args: seq<string>) returns (r: Option<string>)
    ensures r.None? <==> |args| == 0 || (|args| < 3 && args[0] != [])
    ensures r == DecodeSnapAppSpec(args)
  {
    if |args| == 0 {
      return None;
    }
    var h := args[0];
    if |args| < 3 && h != [] {
      return None;
    }
    var n := if |args| > 2 then args[2] else [];
    var codes := ScanPayload(h, n, NumberArg(args, 4), NumberArg(args, 3));
    r := Some(FixEncoding(codes));
  }

  /** The scanning loop over the payload: one character code per group. */
  method ScanPayload(h: string, n: string, base: Option<int>, offset: Option<int>) returns (result: seq<CodeUnit>)
    ensures result == Codes(Groups(h, Separator(n, base)), n, base, offset)
  {
    var sep := Separator(n, base);
    result := [];
    var i := 0;
    assert Rest(h, 0) == h;
    while i < |h|
      invariant i <= |h| + 1
      invariant Codes(Groups(h, sep), n, base, offset) == result + Codes(Groups(Rest(h, i), sep), n, base, offset)
    {
      var code, next := NextCode(h, n, base, offset, i);
      result, i := result + [code], next;
    }
    assert Rest(h, i) == [];
  }

  /** One pass of the scanning loop: the group starting at `i`, its character code, and where the next group starts. */
  method NextCode(h: string, n: string, base: Option<int>, offset: Option<int>, i: nat) returns (code: CodeUnit, next: nat)
    requires i < |h|
    ensures i < next <= |h| + 1
    ensures Codes(Groups(Rest(h, i), Separator(n, base)), n, base, offset)
         == [code] + Codes(Groups(Rest(h, next), Separator(n, base)), n, base, offset)
  {
    var sep := Separator(n, base);
    var s, stop := ScanGroup(h, sep, i);
    code := DecodeGroup(s, n, base, offset);
    next := stop + 1;
    CodesNext(Groups(Rest(h, i), sep), s, Groups(Rest(h, next), sep), n, base, offset, code);
  }

  lemma CodesNext(gs: seq<string>, g: string, rest: seq<string>, n: string, base: Option<int>, offset: Option<int>, code: CodeUnit)
    requires gs == [g] + rest && code == GroupCode(g, n, base, offset)
    ensures Codes(gs, n, base, offset) == [code] + Codes(rest, n, base, offset)
  {
    CodesCons(g, rest, n, base, offset);
  }

  lemma CodesCons(g: string, gs: seq<string>, n: string, base: Option<int>, offset: Option<int>)
    ensures Codes([g] + gs, n, base, offset) == [GroupCode(g, n, base, offset)] + Codes(gs, n, base, offset)
  {
    assert ([g] + gs)[1..] == gs;
  }
}
