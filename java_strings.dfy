/** The `java.lang.String` and `java.lang.Integer` operations the application
    uses, with Java's edge cases: `split` drops trailing empty fields, `trim`
    removes every character up to U+0020, `parseInt` accepts an optional sign
    and rejects values outside 32 bits. Case conversion is ASCII only. */
module JavaStrings {
  import opened Platform

  predicate IsAsciiDigit(c: char) { '0' <= c <= '9' }

  predicate IsAsciiLetter(c: char) { 'a' <= c <= 'z' || 'A' <= c <= 'Z' }

  /** The character class `[a-zA-Z0-9]`. */
  predicate IsAsciiAlphanumeric(c: char) { IsAsciiDigit(c) || IsAsciiLetter(c) }

  /** String conversion of a possibly-null string, as `"" + s` does it. */
  function NullableText(s: Option<string>): string
  {
    match s
    case None => "null"
    case Some(t) => t
  }

  predicate StartsWith(s: string, prefix: string)
  {
    |prefix| <= |s| && s[..|prefix|] == prefix
  }

  predicate EndsWith(s: string, suffix: string)
  {
    |suffix| <= |s| && s[|s| - |suffix|..] == suffix
  }

  /** `part` occurs in `s` starting at position `i`. */
  predicate OccursAt(s: string, part: string, i: int)
  {
    0 <= i && i + |part| <= |s| && s[i..i + |part|] == part
  }

  /** `s.contains(part)`. */
  predicate Contains(s: string, part: string)
  {
    exists i :: 0 <= i <= |s| && OccursAt(s, part, i)
  }

  /** `s.lastIndexOf(c)`: the position of the last `c`, or -1. */
  function LastIndexOf(s: string, c: char): (k: int)
    ensures -1 <= k < |s|
    ensures k >= 0 ==> s[k] == c
    ensures forall j :: k < j < |s| ==> s[j] != c
  {
    if |s| == 0 then -1
    else if s[|s| - 1] == c then |s| - 1
    else LastIndexOf(s[..|s| - 1], c)
  }

  /** The text after the last `c`, or "" when `s` has no `c`: the shape of
      both applications' `getFileExtension`. */
  function AfterLast(s: string, c: char): (r: string)
    ensures c !in s ==> r == ""
    ensures c !in r
    ensures c in s ==> |r| < |s| && s[|s| - |r| - 1] == c && s[|s| - |r|..] == r
  {
    var k := LastIndexOf(s, c);
    assert k == -1 ==> forall j :: 0 <= j < |s| ==> s[j] != c;
    if k == -1 then "" else s[k + 1..]
  }

  /** Whatever precedes the last `c`, the text after it is the extension:
      appending `c` and a `c`-free text is undone by AfterLast. */
  lemma AfterLastOfAppended(s: string, c: char, t: string)
    requires c !in t
    ensures AfterLast(s + [c] + t, c) == t
  {
    var u := s + [c] + t;
    assert u[|s|] == c;
    assert forall j :: |s| < j < |u| ==> u[j] == t[j - |s| - 1];
    assert LastIndexOf(u, c) == |s|;
    assert u[|s| + 1..] == t;
  }

  // ---------------------------------------------------------------- trim

  function TrimStart(s: string): (r: string)
    ensures |r| <= |s| && r == s[|s| - |r|..]
    ensures r == [] || r[0] > ' '
    ensures forall k :: 0 <= k < |s| - |r| ==> s[k] <= ' '
  {
    if s != [] && s[0] <= ' ' then TrimStart(s[1..]) else s
  }

  function TrimEnd(s: string): (r: string)
    ensures |r| <= |s| && r == s[..|r|]
    ensures r == [] || r[|r| - 1] > ' '
    ensures forall k :: |r| <= k < |s| ==> s[k] <= ' '
  {
    if s != [] && s[|s| - 1] <= ' ' then TrimEnd(s[..|s| - 1]) else s
  }

  /** `r` is the slice of `s` at `i` and only characters up to U+0020
      surround it. */
  predicate BlankSurrounded(s: string, i: int, r: string)
  {
    0 <= i && i + |r| <= |s| && r == s[i..i + |r|]
    && (forall k :: 0 <= k < i ==> s[k] <= ' ')
    && (forall k :: i + |r| <= k < |s| ==> s[k] <= ' ')
  }

  /** `s.trim()`: the slice of `s` left after removing every character up
      to U+0020 from both ends. */
  function Trim(s: string): (r: string)
    ensures r == [] || (r[0] > ' ' && r[|r| - 1] > ' ')
    ensures exists i :: BlankSurrounded(s, i, r)
  {
    TrimIsSlice(s);
    TrimEnd(TrimStart(s))
  }

  lemma TrimIsSlice(s: string)
    ensures BlankSurrounded(s, |s| - |TrimStart(s)|, TrimEnd(TrimStart(s)))
  {
    var t := TrimStart(s);
    var r := TrimEnd(t);
    assert |t| <= |s| && t == s[|s| - |t|..];
    assert |r| <= |t| && r == t[..|r|];
    Surrounded(s, t, r);
  }

  /** A blank-led suffix `t` of `s`, cut back to a prefix `r` followed only
      by blanks, leaves `r` surrounded by blanks in `s`. */
  lemma Surrounded(s: string, t: string, r: string)
    requires |t| <= |s| && t == s[|s| - |t|..]
    requires forall k :: 0 <= k < |s| - |t| ==> s[k] <= ' '
    requires |r| <= |t| && r == t[..|r|]
    requires forall k :: |r| <= k < |t| ==> t[k] <= ' '
    ensures BlankSurrounded(s, |s| - |t|, r)
  {
    var i := |s| - |t|;
    SliceOfSlice(s, i, t, r);
    TrimmedTailIsBlank(s, t, i, r);
  }

  lemma SliceOfSlice(s: string, i: nat, t: string, r: string)
    requires i <= |s| && t == s[i..]
    requires |r| <= |t| && r == t[..|r|]
    ensures r == s[i..i + |r|]
  {
  }

  lemma TrimmedTailIsBlank(s: string, t: string, i: nat, r: string)
    requires i <= |s| && t == s[i..]
    requires |r| <= |t| && forall k :: |r| <= k < |t| ==> t[k] <= ' '
    ensures forall k :: i + |r| <= k < |s| ==> s[k] <= ' '
  {
    forall k | i + |r| <= k < |s|
      ensures s[k] <= ' '
    {
      assert s[k] == t[k - i];
    }
  }

  /** `s.trim().isEmpty()`. */
  predicate IsBlank(s: string) { Trim(s) == [] }

  /** `s == null || s.trim().isEmpty()`. */
  predicate NullOrBlank(s: Option<string>)
  {
    s.None? || IsBlank(s.value)
  }

  lemma {:induction false} BlankIffAllSpace(s: string)
    ensures IsBlank(s) <==> forall k :: 0 <= k < |s| ==> s[k] <= ' '
  {
    var r := Trim(s);
    var i :| BlankSurrounded(s, i, r);
    if r != [] {
      assert s[i] == r[0];
    }
  }

  lemma TrimIdempotent(s: string)
    ensures Trim(Trim(s)) == Trim(s)
  {
    var r := Trim(s);
    var r2 := Trim(r);
    var i :| BlankSurrounded(r, i, r2);
    if r != [] {
      assert i == 0;
      assert i + |r2| == |r|;
    }
  }

  // ---------------------------------------------------------------- case

  /** `Character.toLowerCase`, on ASCII letters only. */
  function ToLowerChar(c: char): char
  {
    if 'A' <= c <= 'Z' then (c as int + 32) as char else c
  }

  function ToLower(s: string): (r: string)
    ensures |r| == |s|
    ensures forall k :: 0 <= k < |s| ==> r[k] == ToLowerChar(s[k])
  {
    seq(|s|, k requires 0 <= k < |s| => ToLowerChar(s[k]))
  }

  /** `a.equalsIgnoreCase(b)` for non-null `a` and `b`, ASCII case only. */
  predicate EqualsIgnoreCase(a: string, b: string)
    ensures EqualsIgnoreCase(a, b) <==>
      |a| == |b| && forall k :: 0 <= k < |a| ==> ToLowerChar(a[k]) == ToLowerChar(b[k])
  {
    ToLower(a) == ToLower(b)
  }

  lemma LowerAlphanumeric(c: char)
    ensures IsAsciiAlphanumeric(ToLowerChar(c)) <==> IsAsciiAlphanumeric(c)
  {
  }

  /** Lower-casing a text twice lower-cases it once. */
  lemma ToLowerIdempotent(s: string)
    ensures ToLower(ToLower(s)) == ToLower(s)
  {
  }

  // ---------------------------------------------------------------- split

  /** Every text between consecutive separators, empty ones included. */
  function Pieces(s: string, sep: char): (r: seq<string>)
    ensures |r| >= 1
    ensures forall k :: 0 <= k < |r| ==> sep !in r[k]
  {
    if s == [] then [[]]
    else
      var rest := Pieces(s[1..], sep);
      if s[0] == sep then [[]] + rest else [[s[0]] + rest[0]] + rest[1..]
  }

  /** `String.join(sep, parts)`. */
  function Join(parts: seq<string>, sep: string): string
  {
    if |parts| == 0 then ""
    else if |parts| == 1 then parts[0]
    else parts[0] + sep + Join(parts[1..], sep)
  }

  /** Splitting and joining again gives back the text. */
  lemma {:induction false} JoinPieces(s: string, sep: char)
    ensures Join(Pieces(s, sep), [sep]) == s
  {
    if s != [] {
      var rest := Pieces(s[1..], sep);
      JoinPieces(s[1..], sep);
      if s[0] == sep {
        assert Pieces(s, sep)[1..] == rest;
      } else if |rest| > 1 {
        assert Pieces(s, sep)[1..] == rest[1..];
        assert s == [s[0]] + s[1..];
      }
    }
  }

  lemma {:induction false} PiecesWithoutSeparator(s: string, sep: char)
    requires sep !in s
    ensures Pieces(s, sep) == [s]
  {
    if s != [] {
      PiecesWithoutSeparator(s[1..], sep);
      assert [s[0]] + s[1..] == s;
    }
  }

  lemma PiecesUnfold(c: char, s: string, sep: char)
    ensures Pieces([c] + s, sep) ==
      if c == sep then [[]] + Pieces(s, sep) else [[c] + Pieces(s, sep)[0]] + Pieces(s, sep)[1..]
  {
    assert ([c] + s)[1..] == s;
  }

  lemma HeadAppend(h: string, p: seq<string>, q: seq<string>)
    requires |p| >= 1
    ensures [h + p[0]] + (p + q)[1..] == ([h + p[0]] + p[1..]) + q
    ensures (p + q)[0] == p[0]
  {
    assert (p + q)[1..] == p[1..] + q;
  }
  lemma PiecesOfJoinedStep(x: char, xt: string, sep: char, ys: string)
    requires Pieces(xt + [sep] + ys, sep) == Pieces(xt, sep) + Pieces(ys, sep)
    ensures Pieces([x] + xt + [sep] + ys, sep) == Pieces([x] + xt, sep) + Pieces(ys, sep)
  {
    var u := xt + [sep] + ys;
    assert [x] + xt + [sep] + ys == [x] + u;
    PiecesUnfold(x, u, sep);
    PiecesUnfold(x, xt, sep);
    ConsPieces(x, sep, Pieces(xt, sep), Pieces(ys, sep));
  }

  /** Adding a character in front of the pieces of `p + q` touches only the
      pieces of `p`. */
  lemma ConsPieces(x: char, sep: char, p: seq<string>, q: seq<string>)
    requires |p| >= 1
    ensures (if x == sep then [[]] + (p + q) else [[x] + (p + q)[0]] + (p + q)[1..])
      == (if x == sep then [[]] + p else [[x] + p[0]] + p[1..]) + q
  {
    if x != sep {
      HeadAppend([x], p, q);
    } else {
      assert [[]] + (p + q) == ([[]] + p) + q;
    }
  }
  /** Splitting a text made of two texts joined by the separator splits
      each of them. */
  lemma {:induction false} PiecesOfJoined(xs: string, sep: char, ys: string)
    ensures Pieces(xs + [sep] + ys, sep) == Pieces(xs, sep) + Pieces(ys, sep)
  {
    if xs == [] {
      assert xs + [sep] + ys == [sep] + ys;
      PiecesUnfold(sep, ys, sep);
    } else {
      PiecesOfJoined(xs[1..], sep, ys);
      PiecesOfJoinedStep(xs[0], xs[1..], sep, ys);
      assert [xs[0]] + xs[1..] == xs;
    }
  }

  /** A separator-free first field is split off as it is. */
  lemma PiecesOfField(a: string, sep: char, t: string)
    requires sep !in a
    ensures Pieces(a + [sep] + t, sep) == [a] + Pieces(t, sep)
  {
    PiecesOfJoined(a, sep, t);
    PiecesWithoutSeparator(a, sep);
  }

  /** Removes the empty texts at the end of `parts`. */
  function DropTrailingEmpty(parts: seq<string>): (r: seq<string>)
    ensures |r| <= |parts| && r == parts[..|r|]
    ensures r == [] || r[|r| - 1] != []
    ensures forall k :: |r| <= k < |parts| ==> parts[k] == []
  {
    if |parts| > 0 && parts[|parts| - 1] == [] then DropTrailingEmpty(parts[..|parts| - 1]) else parts
  }

  /** `s.split(regex)` for a one-character regex: the whole text when the
      separator does not occur, otherwise every field with the trailing
      empty fields removed. */
  function Split(s: string, sep: char): (r: seq<string>)
    ensures forall k :: 0 <= k < |r| ==> sep !in r[k]
    ensures sep !in s ==> r == [s]
    ensures sep in s ==> |r| <= |Pieces(s, sep)| && r == Pieces(s, sep)[..|r|]
    ensures sep in s ==> r == [] || r[|r| - 1] != []
    ensures sep in s ==> forall k :: |r| <= k < |Pieces(s, sep)| ==> Pieces(s, sep)[k] == []
  {
    if sep !in s then [s] else DropTrailingEmpty(Pieces(s, sep))
  }

  /** Appending more fields to a text that already splits into at least `n`
      fields keeps its first `n` fields. */
  lemma SplitKeepsLeadingFields(s: string, sep: char, t: string, n: nat)
    requires sep in s && n <= |Split(s, sep)|
    ensures n <= |Split(s + [sep] + t, sep)|
    ensures Split(s + [sep] + t, sep)[..n] == Split(s, sep)[..n]
  {
    var u := s + [sep] + t;
    assert u[|s|] == sep;
    PiecesOfJoined(s, sep, t);
    DropKeepsLeading(Pieces(s, sep), Pieces(t, sep), n);
  }

  /** Dropping the trailing empty texts of `ps + qs` keeps at least the
      texts it keeps of `ps`. */
  lemma DropKeepsLeading(ps: seq<string>, qs: seq<string>, n: nat)
    requires n <= |DropTrailingEmpty(ps)|
    ensures n <= |DropTrailingEmpty(ps + qs)|
    ensures DropTrailingEmpty(ps + qs)[..n] == DropTrailingEmpty(ps)[..n]
  {
    var d := DropTrailingEmpty(ps);
    var e := DropTrailingEmpty(ps + qs);
    if n > 0 {
      // the last text kept of ps is not empty, so it is kept of ps + qs too
      var m := |d|;
      assert (ps + qs)[m - 1] == ps[m - 1] == d[m - 1] != [];
      assert m <= |e|;
      assert e[..n] == (ps + qs)[..n];
      assert (ps + qs)[..n] == ps[..n];
    }
  }

  // ---------------------------------------------------------------- integers

  const IntMin: int := -0x8000_0000
  const IntMax: int := 0x7fff_ffff

  predicate AllDigits(s: string)
  {
    forall k :: 0 <= k < |s| ==> IsAsciiDigit(s[k])
  }

  function DigitValue(c: char): nat
    requires IsAsciiDigit(c)
  {
    c as int - '0' as int
  }

  /** The value of a text of decimal digits. */
  function DigitsValue(s: string): nat
    requires AllDigits(s)
  {
    if s == [] then 0 else 10 * DigitsValue(s[..|s| - 1]) + DigitValue(s[|s| - 1])
  }

  /** `s` without its leading sign, if it has one. */
  function Unsigned(s: string): string
  {
    if |s| > 0 && (s[0] == '-' || s[0] == '+') then s[1..] else s
  }

  function Sign(s: string): int
  {
    if |s| > 0 && s[0] == '-' then -1 else 1
  }

  /** `Integer.parseInt(s)`: an optional `+` or `-` and at least one digit,
      whose value fits in 32 bits; `None` stands for NumberFormatException.
      Digits are ASCII digits. */
  function ParseInt(s: string): (r: Option<int32>)
    ensures r.Some? <==>
      (|Unsigned(s)| > 0 && AllDigits(Unsigned(s))
       && IntMin <= Sign(s) * DigitsValue(Unsigned(s)) <= IntMax)
    ensures r.Some? ==> r.value == Sign(s) * DigitsValue(Unsigned(s))
  {
    var digits := Unsigned(s);
    if |digits| == 0 || !AllDigits(digits) then None
    else
      var v := Sign(s) * DigitsValue(digits);
      if IntMin <= v <= IntMax then Some(v) else None
  }

  function DigitChar(d: nat): (c: char)
    requires d < 10
    ensures IsAsciiDigit(c) && DigitValue(c) == d
  {
    ('0' as int + d) as char
  }

  /** Decimal digits of `n`, without leading zeros. */
  function NaturalText(n: nat): (r: string)
    ensures |r| >= 1 && AllDigits(r) && DigitsValue(r) == n
    ensures r[0] == '0' ==> n == 0
  {
    if n < 10 then [DigitChar(n)]
    else
      var r := NaturalText(n / 10) + [DigitChar(n % 10)];
      assert r[..|r| - 1] == NaturalText(n / 10);
      r
  }

  /** `String.valueOf(n)` for an `int` or a `long`. */
  function IntegerText(n: int): (r: string)
    ensures n >= 0 ==> |r| >= 1 && AllDigits(r) && DigitsValue(r) == n
    ensures n < 0 ==> |r| >= 2 && r[0] == '-' && AllDigits(r[1..]) && DigitsValue(r[1..]) == -n
  {
    if n < 0 then "-" + NaturalText(-n) else NaturalText(n)
  }

  /** Every 32-bit value is read back from its decimal text. */
  lemma ParseIntegerText(n: int32)
    ensures ParseInt(IntegerText(n)) == Some(n)
  {
    var s := IntegerText(n);
    if n < 0 {
      assert Unsigned(s) == NaturalText(-(n as int));
    } else {
      assert Unsigned(s) == NaturalText(n);
    }
  }
}
