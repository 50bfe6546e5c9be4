/**
 * String primitives of the JavaScript runtime that the downloader relies on:
 * decimal rendering and parsing, `includes`/`indexOf`, `split`, `replace`,
 * `trim`, `toLowerCase`. Strings are sequences of characters.
 */
module Text {
  import opened Wrappers

  // ---------------------------------------------------------------------------
  // Decimal digits

  predicate IsDigit(c: char) { '0' <= c <= '9' }

  predicate AllDigits(s: string) { forall i :: 0 <= i < |s| ==> IsDigit(s[i]) }

  function DigitChar(d: nat): (c: char)
    requires d < 10
  {
    ('0' as int + d) as char
  }

  function DigitValue(c: char): (d: nat)
    requires IsDigit(c)
    ensures d < 10 && DigitChar(d) == c
  {
    c as int - '0' as int
  }

  /** The digits of `n` without leading zeros; empty for 0 (the string the render loop builds). */
  function Digits(n: nat): string
  {
    if n == 0 then [] else Digits(n / 10) + [DigitChar(n % 10)]
  }

  /** JavaScript's `String(n)` for a non-negative integer. */
  function DecimalString(n: nat): string
  {
    if n == 0 then "0" else Digits(n)
  }

  /** `String(x)` for any integer. */
  function IntString(x: int): string
  {
    if x < 0 then "-" + DecimalString(-x) else DecimalString(x)
  }

  /** The value of a string of decimal digits, most significant first. */
  function DecimalValue(s: string): nat
    requires AllDigits(s)
  {
    if s == [] then 0 else 10 * DecimalValue(s[..|s| - 1]) + DigitValue(s[|s| - 1])
  }

  /** A decimal numeral as JavaScript prints a non-negative integer: no sign, no leading zero. */
  predicate IsCanonicalDecimal(s: string)
  {
    |s| > 0 && AllDigits(s) && (s[0] == '0' ==> |s| == 1)
  }

  lemma {:induction false} DigitsFacts(n: nat)
    ensures AllDigits(Digits(n)) && DecimalValue(Digits(n)) == n
    ensures n > 0 ==> |Digits(n)| > 0 && Digits(n)[0] != '0'
    ensures n == 0 ==> Digits(n) == []
    decreases n
  {
    if n > 0 {
      DigitsFacts(n / 10);
      var s := Digits(n);
      assert s[..|s| - 1] == Digits(n / 10);
      if n / 10 == 0 {
        assert s == [DigitChar(n % 10)];
      }
    }
  }

  /** Rendering then reading a non-negative integer gives it back, and the rendering is canonical. */
  lemma DecimalRoundTrip(n: nat)
    ensures IsCanonicalDecimal(DecimalString(n))
    ensures DecimalValue(DecimalString(n)) == n
  {
    DigitsFacts(n);
    if n == 0 {
      assert DecimalString(n) == "0";
      assert DecimalString(n)[..0] == [];
    }
  }

  lemma {:induction false} LeadingDigitPositive(s: string)
    requires AllDigits(s) && |s| > 0 && s[0] != '0'
    ensures DecimalValue(s) > 0
    decreases |s|
  {
    if |s| > 1 {
      LeadingDigitPositive(s[..|s| - 1]);
    }
  }

  /** Every canonical numeral is the rendering of its value: rendering and reading are inverse bijections. */
  lemma {:induction false} CanonicalDecimalUnique(s: string)
    requires IsCanonicalDecimal(s)
    ensures DecimalString(DecimalValue(s)) == s
    decreases |s|
  {
    if |s| == 1 {
      if s[0] != '0' {
        assert DecimalValue(s) == DigitValue(s[0]) by { assert s[..0] == []; }
        assert Digits(DecimalValue(s)) == Digits(0) + [s[0]];
      } else {
        assert s[..0] == [];
        assert s == "0";
      }
    } else {
      var init := s[..|s| - 1];
      assert init[0] == s[0];
      LeadingDigitPositive(init);
      CanonicalDecimalUnique(init);
      var v := DecimalValue(s);
      assert v / 10 == DecimalValue(init) && v % 10 == DigitValue(s[|s| - 1]);
      assert Digits(v) == Digits(DecimalValue(init)) + [s[|s| - 1]];
    }
  }

  // ---------------------------------------------------------------------------
  // Substrings

  predicate StartsWith(s: string, p: string)
  {
    |p| <= |s| && s[..|p|] == p
  }

  /** `a || b` on strings, where only the empty string is falsy. */
  function OrElse(a: string, b: string): (r: string)
    ensures r == a || r == b
    ensures r == "" ==> a == "" && b == ""
  {
    if a == "" then b else a
  }

  /** `s.indexOf(p)`: the leftmost position where `p` occurs. */
  function IndexOf(s: string, p: string): (r: Option<nat>)
    ensures r.Some? ==> r.value + |p| <= |s| && s[r.value..r.value + |p|] == p
    decreases |s|
  {
    if StartsWith(s, p) then Some(0)
    else if s == [] then None
    else match IndexOf(s[1..], p)
      case None => None
      case Some(k) => Some(k + 1)
  }

  /** `s.includes(p)`. */
  predicate Contains(s: string, p: string)
  {
    IndexOf(s, p).Some?
  }

  lemma {:induction false} IndexOfLeftmost(s: string, p: string)
    ensures IndexOf(s, p).Some? ==> forall j :: 0 <= j < IndexOf(s, p).value ==> !StartsWith(s[j..], p)
    ensures IndexOf(s, p).None? ==> forall j :: 0 <= j <= |s| ==> !StartsWith(s[j..], p)
    decreases |s|
  {
    if !StartsWith(s, p) && s != [] {
      IndexOfLeftmost(s[1..], p);
      forall j | 1 <= j <= |s| ensures s[j..] == s[1..][j - 1..] { }
    }
  }

  /** Any occurrence of `p` is at or after the one `IndexOf` reports. */
  lemma OccurrenceFound(s: string, p: string, j: nat)
    requires j <= |s| && StartsWith(s[j..], p)
    ensures IndexOf(s, p).Some? && IndexOf(s, p).value <= j
  {
    IndexOfLeftmost(s, p);
  }

  /** A character that does not occur in `s` cannot start an occurrence. */
  lemma {:induction false} NotContainsFirst(s: string, p: string)
    requires |p| > 0 && p[0] !in s
    ensures !Contains(s, p)
    decreases |s|
  {
    if s != [] {
      NotInTail(s, p[0]);
      NotContainsFirst(s[1..], p);
    }
  }

  /** A string holding a character that does not occur in `s` does not occur in `s`. */
  lemma NotContainsChar(s: string, p: string, i: nat)
    requires i < |p| && p[i] !in s
    ensures !Contains(s, p)
  {
  }

  /** `a + (b + c) == (a + b) + c`, stated once for every kind of sequence. */
  lemma Regroup<T>(a: seq<T>, b: seq<T>, c: seq<T>)
    ensures a + (b + c) == (a + b) + c
  {
  }

  /** An occurrence inside a prefix is an occurrence of the whole string, at the same place. */
  lemma {:induction false} IndexOfExtend(s: string, t: string, p: string)
    requires IndexOf(s, p).Some?
    ensures IndexOf(s + t, p) == IndexOf(s, p)
    decreases |s|
  {
    assert StartsWith(s, p) ==> StartsWith(s + t, p) by {
      if StartsWith(s, p) { assert (s + t)[..|p|] == s[..|p|]; }
    }
    if !StartsWith(s, p) {
      assert s != [];
      assert |p| <= |s|;
      assert (s + t)[..|p|] == s[..|p|];
      assert (s + t)[1..] == s[1..] + t;
      IndexOfExtend(s[1..], t, p);
    }
  }

  /** A position found in a suffix, moved back to the whole string. */
  function Shift(o: Option<nat>, k: nat): Option<nat>
  {
    match o
    case None => None
    case Some(j) => Some(j + k)
  }

  lemma ShiftShift(o: Option<nat>, a: nat, b: nat)
    ensures Shift(Shift(o, a), b) == Shift(o, a + b)
  {
  }

  /** When `s` does not start with `p`, the search goes on from the second character. */
  lemma IndexOfTail(s: string, p: string)
    requires s != [] && !StartsWith(s, p)
    ensures IndexOf(s, p) == Shift(IndexOf(s[1..], p), 1)
  {
  }

  /** Skipping a prefix that holds no character of `p`'s first letter does not change what `IndexOf` finds. */
  lemma {:induction false} IndexOfSkip(s: string, k: nat, p: string)
    requires k <= |s| && |p| > 0 && p[0] !in s[..k]
    ensures IndexOf(s, p) == Shift(IndexOf(s[k..], p), k)
    decreases k
  {
    if k == 0 {
      assert s[k..] == s;
    } else {
      SkipFirst(s, k, p[0]);
      NotStartsWithFirst(s, p);
      IndexOfTail(s, p);
      IndexOfSkip(s[1..], k - 1, p);
      assert s[1..][k - 1..] == s[k..];
      ShiftShift(IndexOf(s[k..], p), k - 1, 1);
    }
  }

  lemma SkipFirst(s: string, k: nat, c: char)
    requires 0 < k <= |s| && c !in s[..k]
    ensures s[0] != c && c !in s[1..][..k - 1]
  {
    assert s[0] == s[..k][0];
    assert s[1..][..k - 1] == s[..k][1..];
    NotInTail(s[..k], c);
  }

  lemma NotStartsWithFirst(s: string, p: string)
    requires s != [] && p != [] && s[0] != p[0]
    ensures !StartsWith(s, p)
  {
    if |p| <= |s| {
      assert s[..|p|][0] == s[0];
    }
  }

  /** A character missing from a string is missing from its tail. */
  /** A character missing from `a` is missing from every slice of it. */
  lemma NotInSlice(a: string, x: char, i: nat, j: nat)
    requires i <= j <= |a| && x !in a
    ensures x !in a[i..j]
  {
    forall k | 0 <= k < j - i
      ensures a[i..j][k] != x
    {
      assert a[i..j][k] == a[i + k];
    }
  }

  lemma NotInTail(a: string, x: char)
    requires a != [] && x !in a
    ensures x !in a[1..]
  {
    forall i | 0 <= i < |a| - 1
      ensures a[1..][i] != x
    {
      assert a[1..][i] == a[i + 1];
    }
  }

  /** `s.split(p)[0]`: the text before the first occurrence of `p`, or all of `s`. */
  function Before(s: string, p: string): (r: string)
    ensures |r| <= |s|
  {
    match IndexOf(s, p)
    case None => s
    case Some(k) => s[..k]
  }

  /** `s.split(p)[1]`: undefined when `p` does not occur; otherwise the text between its first and second occurrence. */
  function SecondPiece(s: string, p: string): Option<string>
  {
    match IndexOf(s, p)
    case None => None
    case Some(k) => Some(Before(s[k + |p|..], p))
  }

  lemma BeforeNoOccurrence(s: string, p: string)
    requires !Contains(s, p)
    ensures Before(s, p) == s
  {
  }

  // ---------------------------------------------------------------------------
  // Splitting on one character

  /** `s.split(c)` for a one-character separator: always at least one piece. */
  function SplitChar(s: string, c: char): (r: seq<string>)
    ensures |r| > 0
  {
    if s == [] then [[]]
    else
      var r := SplitChar(s[1..], c);
      if s[0] == c then [[]] + r else [[s[0]] + r[0]] + r[1..]
  }

  /** The position of the first `c` in `s`, which must occur. */
  function IndexOfChar(s: string, c: char): (k: nat)
    requires c in s
    ensures k < |s| && s[k] == c && c !in s[..k]
  {
    if s[0] == c then 0 else
      assert c in s[1..];
      var k := IndexOfChar(s[1..], c);
      assert s[..k + 1] == [s[0]] + s[1..][..k];
      k + 1
  }

  /** `IndexOfChar` is characterised by where the character is and that it does not occur earlier. */
  lemma {:induction false} IndexOfCharIs(s: string, c: char, k: nat)
    requires k < |s| && s[k] == c && c !in s[..k]
    ensures IndexOfChar(s, c) == k
    decreases k
  {
    if k > 0 {
      assert s[0] == s[..k][0];
      assert s[1..][..k - 1] == s[..k][1..];
      NotInTail(s[..k], c);
      IndexOfCharIs(s[1..], c, k - 1);
    }
  }

  /** Appending text after an occurrence does not move the first occurrence. */
  lemma IndexOfCharAppend(s: string, t: string, c: char)
    requires c in s
    ensures c in s + t && IndexOfChar(s + t, c) == IndexOfChar(s, c)
  {
    var k := IndexOfChar(s, c);
    assert (s + t)[..k] == s[..k];
    IndexOfCharIs(s + t, c, k);
  }

  /** A string without the separator is a single piece. */
  lemma {:induction false} SplitNone(a: string, c: char)
    requires c !in a
    ensures SplitChar(a, c) == [a]
    decreases |a|
  {
    if a != [] {
      SplitNone(a[1..], c);
      assert [a[0]] + a[1..] == a;
    }
  }

  /** A piece without the separator, then the separator, splits off as the first piece. */
  lemma {:induction false} SplitFirst(a: string, c: char, b: string)
    requires c !in a
    ensures SplitChar(a + [c] + b, c) == [a] + SplitChar(b, c)
    decreases |a|
  {
    var s := a + [c] + b;
    if a == [] {
      assert s == [c] + b && s[1..] == b;
    } else {
      assert s[0] == a[0] && s[1..] == a[1..] + [c] + b;
      SplitFirst(a[1..], c, b);
      assert [a[0]] + a[1..] == a;
    }
  }

  /** `parts.join(c)`. */
  function JoinChar(parts: seq<string>, c: char): string
    requires |parts| > 0
  {
    if |parts| == 1 then parts[0] else parts[0] + [c] + JoinChar(parts[1..], c)
  }

  function CountChar(s: string, c: char): nat
  {
    if s == [] then 0 else (if s[0] == c then 1 else 0) + CountChar(s[1..], c)
  }

  lemma {:induction false} CountCharAppend(a: string, b: string, c: char)
    ensures CountChar(a + b, c) == CountChar(a, c) + CountChar(b, c)
    decreases |a|
  {
    if a != [] {
      assert (a + b)[0] == a[0] && (a + b)[1..] == a[1..] + b;
      CountCharAppend(a[1..], b, c);
    } else {
      assert a + b == b;
    }
  }

  lemma {:induction false} CountCharAbsent(s: string, c: char)
    ensures c !in s <==> CountChar(s, c) == 0
    decreases |s|
  {
    if s != [] {
      CountCharAbsent(s[1..], c);
      assert c in s <==> s[0] == c || c in s[1..];
    }
  }

  /** Splitting yields one piece more than there are separators, none holding the separator, and joining them back gives the input. */
  lemma {:induction false} SplitJoin(s: string, c: char)
    ensures |SplitChar(s, c)| == CountChar(s, c) + 1
    ensures forall i :: 0 <= i < |SplitChar(s, c)| ==> c !in SplitChar(s, c)[i]
    ensures JoinChar(SplitChar(s, c), c) == s
    decreases |s|
  {
    if s != [] {
      SplitJoin(s[1..], c);
      if s[0] == c {
        SplitJoinSeparator(s, c);
      } else {
        SplitJoinOther(s, c);
      }
    }
  }

  lemma SplitJoinSeparator(s: string, c: char)
    requires s != [] && s[0] == c
    requires forall i :: 0 <= i < |SplitChar(s[1..], c)| ==> c !in SplitChar(s[1..], c)[i]
    requires JoinChar(SplitChar(s[1..], c), c) == s[1..]
    ensures forall i :: 0 <= i < |SplitChar(s, c)| ==> c !in SplitChar(s, c)[i]
    ensures JoinChar(SplitChar(s, c), c) == s
  {
    var r := SplitChar(s[1..], c);
    assert SplitChar(s, c) == [[]] + r;
    assert ([[]] + r)[1..] == r;
    assert JoinChar([[]] + r, c) == [] + [c] + JoinChar(r, c);
    assert s == [c] + s[1..];
  }

  lemma SplitJoinOther(s: string, c: char)
    requires s != [] && s[0] != c
    requires forall i :: 0 <= i < |SplitChar(s[1..], c)| ==> c !in SplitChar(s[1..], c)[i]
    requires JoinChar(SplitChar(s[1..], c), c) == s[1..]
    ensures forall i :: 0 <= i < |SplitChar(s, c)| ==> c !in SplitChar(s, c)[i]
    ensures JoinChar(SplitChar(s, c), c) == s
  {
    var r := SplitChar(s[1..], c);
    assert SplitChar(s, c) == [[s[0]] + r[0]] + r[1..];
    assert c !in [s[0]] + r[0] by {
      assert c !in r[0];
    }
    forall i | 1 <= i < |r| ensures c !in r[i] { }
    JoinConsFirst(s[0], r, c);
    assert s == [s[0]] + s[1..];
  }

  /** Extending the first piece extends the joined string at the front. */
  lemma JoinConsFirst(x: char, r: seq<string>, c: char)
    requires |r| > 0
    ensures JoinChar([[x] + r[0]] + r[1..], c) == [x] + JoinChar(r, c)
  {
    var parts := [[x] + r[0]] + r[1..];
    if |r| > 1 {
      assert parts[1..] == r[1..];
    }
  }

  /** Joining pieces that hold no separator and splitting again gives the pieces back. */
  lemma {:induction false} JoinSplit(parts: seq<string>, c: char)
    requires |parts| > 0
    requires forall i :: 0 <= i < |parts| ==> c !in parts[i]
    ensures SplitChar(JoinChar(parts, c), c) == parts
    decreases |parts|
  {
    if |parts| == 1 {
      SplitAbsent(parts[0], c);
    } else {
      SplitCons(parts[0], c, JoinChar(parts[1..], c));
      JoinSplit(parts[1..], c);
      assert parts == [parts[0]] + parts[1..];
    }
  }

  /** A string without the separator is a single piece. */
  lemma {:induction false} SplitAbsent(s: string, c: char)
    requires c !in s
    ensures SplitChar(s, c) == [s]
    decreases |s|
  {
    if s != [] {
      NotInTail(s, c);
      SplitAbsent(s[1..], c);
      assert s == [s[0]] + s[1..];
    }
  }

  /** A piece free of the separator, then the separator: splitting peels off that piece. */
  lemma {:induction false} SplitCons(p: string, c: char, rest: string)
    requires c !in p
    ensures SplitChar(p + [c] + rest, c) == [p] + SplitChar(rest, c)
    decreases |p|
  {
    var s := p + [c] + rest;
    if p == [] {
      assert s[0] == c && s[1..] == rest;
    } else {
      assert s[0] == p[0] && s[1..] == p[1..] + [c] + rest;
      NotInTail(p, c);
      SplitCons(p[1..], c, rest);
      assert p == [p[0]] + p[1..];
    }
  }

  // ---------------------------------------------------------------------------
  // Replacing

  /** `s.replace(new RegExp(c, "g"), r)` for a character `c` that is not a pattern metacharacter. */
  function ReplaceAllChar(s: string, c: char, r: string): string
  {
    if s == [] then [] else (if s[0] == c then r else [s[0]]) + ReplaceAllChar(s[1..], c, r)
  }

  lemma {:induction false} ReplaceAllCharAbsent(s: string, c: char, r: string)
    requires c !in s
    ensures ReplaceAllChar(s, c, r) == s
    decreases |s|
  {
    if s != [] {
      assert s[0] != c && c !in s[1..];
      ReplaceAllCharAbsent(s[1..], c, r);
    }
  }

  lemma {:induction false} ReplaceAllCharAppend(a: string, b: string, c: char, r: string)
    ensures ReplaceAllChar(a + b, c, r) == ReplaceAllChar(a, c, r) + ReplaceAllChar(b, c, r)
    decreases |a|
  {
    if a != [] {
      assert (a + b)[0] == a[0] && (a + b)[1..] == a[1..] + b;
      ReplaceAllCharAppend(a[1..], b, c, r);
    } else {
      assert a + b == b;
    }
  }

  /** `s.replace(p, r)` with a string pattern: only the first occurrence is replaced. */
  function ReplaceFirst(s: string, p: string, r: string): string
  {
    match IndexOf(s, p)
    case None => s
    case Some(k) => s[..k] + r + s[k + |p|..]
  }

  /** `s.replace(/c/g, "")`: deletes every occurrence of `c`. */
  function RemoveChar(s: string, c: char): (r: string)
    ensures c !in r && |r| <= |s|
  {
    if s == [] then [] else (if s[0] == c then [] else [s[0]]) + RemoveChar(s[1..], c)
  }

  lemma {:induction false} RemoveCharAbsent(s: string, c: char)
    requires c !in s
    ensures RemoveChar(s, c) == s
    decreases |s|
  {
    if s != [] {
      NotInTail(s, c);
      RemoveCharAbsent(s[1..], c);
      assert s == [s[0]] + s[1..];
    }
  }

  lemma {:induction false} RemoveCharAppend(a: string, b: string, c: char)
    ensures RemoveChar(a + b, c) == RemoveChar(a, c) + RemoveChar(b, c)
    decreases |a|
  {
    if a != [] {
      assert (a + b)[0] == a[0] && (a + b)[1..] == a[1..] + b;
      RemoveCharAppend(a[1..], b, c);
    } else {
      assert a + b == b;
    }
  }

  /** A character that is neither the separator nor in any piece is not in the joined string. */
  lemma {:induction false} JoinAbsent(parts: seq<string>, c: char, x: char)
    requires |parts| > 0 && x != c
    requires forall i :: 0 <= i < |parts| ==> x !in parts[i]
    ensures x !in JoinChar(parts, c)
    decreases |parts|
  {
    if |parts| > 1 {
      JoinAbsent(parts[1..], c, x);
      assert x !in parts[0];
    }
  }

  /** Where the first occurrence of `p` is known, `split(p)[1]` starts right after it. */
  lemma SecondPieceAt(s: string, p: string, k: nat)
    requires IndexOf(s, p) == Some(k)
    ensures SecondPiece(s, p) == Some(Before(s[k + |p|..], p))
  {
  }

  /** A pattern that starts right after a prefix free of its first letter is found there. */
  lemma IndexOfAfter(s: string, k: nat, p: string)
    requires k <= |s| && |p| > 0 && p[0] !in s[..k] && StartsWith(s[k..], p)
    ensures IndexOf(s, p) == Some(k)
  {
    IndexOfSkip(s, k, p);
  }

  /** `split(p)[0]` when the first occurrence of `p` is right after `a`. */
  lemma BeforeAt(a: string, b: string, p: string)
    requires IndexOf(a + b, p) == Some(|a|)
    ensures Before(a + b, p) == a
  {
    assert (a + b)[..|a|] == a;
  }

  // ---------------------------------------------------------------------------
  // Numbers

  /**
   * `Number(s)` for the integer spellings: surrounding white space is ignored,
   * the empty string is 0, an optional sign may precede the digits. `None`
   * stands for `NaN`.
   */
  function ParseNumber(s: string): Option<int>
  {
    ParseTrimmed(Trim(s))
  }

  /** `Number` on a string that has already been trimmed. */
  function ParseTrimmed(t: string): Option<int>
  {
    if t == [] then Some(0)
    else if AllDigits(t) then Some(DecimalValue(t))
    else if |t| > 1 && t[0] == '-' && AllDigits(t[1..]) then Some(-(DecimalValue(t[1..]) as int))
    else if |t| > 1 && t[0] == '+' && AllDigits(t[1..]) then Some(DecimalValue(t[1..]))
    else None
  }

  /** `Number(String(x)) == x` for every integer. */
  lemma ParseNumberIntString(x: int)
    ensures ParseNumber(IntString(x)) == Some(x)
  {
    if x < 0 {
      ParseNumberIntStringNegative(x);
    } else {
      ParseNumberIntStringNatural(x);
    }
  }

  lemma ParseNumberIntStringNegative(x: int)
    requires x < 0
    ensures ParseNumber(IntString(x)) == Some(x)
  {
    var m: nat := -x;
    var s := "-" + DecimalString(m);
    assert IntString(x) == s;
    ParseNumberNegative(m);
    assert ParseNumber(s) == Some(x);
  }

  lemma ParseNumberIntStringNatural(x: nat)
    ensures ParseNumber(IntString(x)) == Some(x)
  {
    assert IntString(x) == DecimalString(x);
    ParseNumberDecimal(x);
  }

  /** `Number(String(m))` for a natural number `m`. */
  lemma ParseNumberDecimal(m: nat)
    ensures ParseNumber(DecimalString(m)) == Some(m)
  {
    DecimalRoundTrip(m);
    ParseNumberCanonical(DecimalString(m));
  }

  /** A minus sign before the numeral of a positive number reads as its negation. */
  lemma ParseNumberNegative(m: nat)
    requires m > 0
    ensures ParseNumber("-" + DecimalString(m)) == Some(-(m as int))
  {
    var d := DecimalString(m);
    DecimalRoundTrip(m);
    NegativeTrimmed(d);
    ParseTrimmedNegative(d);
  }

  lemma NegativeTrimmed(d: string)
    requires IsCanonicalDecimal(d)
    ensures Trim("-" + d) == "-" + d
  {
    var s := "-" + d;
    assert s[|s| - 1] == d[|d| - 1];
    NotSpaceDigit(d[|d| - 1]);
    TrimNoSpace(s);
  }

  lemma ParseTrimmedNegative(d: string)
    requires IsCanonicalDecimal(d)
    ensures ParseTrimmed("-" + d) == Some(-(DecimalValue(d) as int))
  {
    var s := "-" + d;
    assert s[1..] == d;
    assert !IsDigit(s[0]);
  }

  lemma NotSpaceDigit(c: char)
    requires IsDigit(c)
    ensures !IsJsSpace(c)
  {
  }

  /** A canonical numeral reads back as its value. */
  lemma ParseNumberCanonical(s: string)
    requires IsCanonicalDecimal(s)
    ensures ParseNumber(s) == Some(DecimalValue(s))
  {
    NotSpaceDigit(s[0]);
    NotSpaceDigit(s[|s| - 1]);
    TrimNoSpace(s);
  }

  /** Integer parsing from the front, as `parseInt(s)` reads a string that starts with digits. */
  function LeadingDigits(s: string): (r: string)
    ensures |r| <= |s| && AllDigits(r) && r == s[..|r|]
    ensures |r| < |s| ==> !IsDigit(s[|r|])
  {
    if s != [] && IsDigit(s[0]) then [s[0]] + LeadingDigits(s[1..]) else []
  }

  // ---------------------------------------------------------------------------
  // Whitespace and case

  /** The characters JavaScript's `trim` and `\s` treat as white space or line terminators. */
  predicate IsJsSpace(c: char)
  {
    c == '\t' || c == '\n' || c == '\U{B}' || c == '\U{C}' || c == '\r' || c == ' '
    || c == '\U{A0}' || c == '\U{1680}' || ('\U{2000}' <= c <= '\U{200A}')
    || c == '\U{2028}' || c == '\U{2029}' || c == '\U{202F}' || c == '\U{205F}'
    || c == '\U{3000}' || c == '\U{FEFF}'
  }

  function TrimStart(s: string): (r: string)
    ensures |r| <= |s| && (r != [] ==> !IsJsSpace(r[0]))
    ensures r == s[|s| - |r|..]
  {
    if s != [] && IsJsSpace(s[0]) then TrimStart(s[1..]) else s
  }

  function TrimEnd(s: string): (r: string)
    ensures |r| <= |s| && (r != [] ==> !IsJsSpace(r[|r| - 1]))
    ensures r == s[..|r|]
  {
    if s != [] && IsJsSpace(s[|s| - 1]) then TrimEnd(s[..|s| - 1]) else s
  }

  /** `s.trim()`. */
  function Trim(s: string): (r: string)
    ensures r == [] || (!IsJsSpace(r[0]) && !IsJsSpace(r[|r| - 1]))
  {
    TrimEnd(TrimStart(s))
  }

  lemma TrimStartNoSpace(s: string)
    requires s == [] || !IsJsSpace(s[0])
    ensures TrimStart(s) == s
  {
  }

  lemma TrimEndNoSpace(s: string)
    requires s == [] || !IsJsSpace(s[|s| - 1])
    ensures TrimEnd(s) == s
  {
  }

  /** Characters of `s` other than white space are kept by `trim`, in order. */
  lemma TrimNoSpace(s: string)
    requires s == [] || (!IsJsSpace(s[0]) && !IsJsSpace(s[|s| - 1]))
    ensures Trim(s) == s
  {
    TrimStartNoSpace(s);
    TrimEndNoSpace(s);
  }

  function ToLowerChar(c: char): char
  {
    if 'A' <= c <= 'Z' then (c as int + 32) as char else c
  }

  /** `s.toLowerCase()` on the ASCII letters. */
  function ToLower(s: string): (r: string)
    ensures |r| == |s| && forall i :: 0 <= i < |s| ==> r[i] == ToLowerChar(s[i])
  {
    if s == [] then [] else [ToLowerChar(s[0])] + ToLower(s[1..])
  }

  /** A string without upper-case ASCII letters is its own lower-cased form. */
  lemma LowerUnchanged(s: string)
    requires forall i :: 0 <= i < |s| ==> !('A' <= s[i] <= 'Z')
    ensures ToLower(s) == s
  {
  }

  function Reverse(s: string): (r: string)
    ensures |r| == |s|
  {
    if s == [] then [] else Reverse(s[1..]) + [s[0]]
  }
}
