/**
 * String operations with the semantics of the JavaScript built-ins the source
 * calls: `Array.prototype.join`, `parseInt(_, 10)`, `String.prototype.trim`,
 * `substring`, `indexOf`, `toLowerCase`/`toUpperCase` (for ASCII letters) and the relational
 * comparison of two strings.
 */
module Strings {
  import opened Wrappers

  /** `parts.join(sep)`. */
  function Join(parts: seq<string>, sep: string): string
  {
    if |parts| == 0 then ""
    else if |parts| == 1 then parts[0]
    else parts[0] + sep + Join(parts[1..], sep)
  }

  /** Position of the first `c` in `s`. */
  function IndexOfChar(s: string, c: char): (i: nat)
    requires c in s
    ensures i < |s| && s[i] == c && c !in s[..i]
  {
    if s[0] == c then 0
    else
      var j := IndexOfChar(s[1..], c);
      assert s[..j + 1] == [s[0]] + s[1..][..j];
      j + 1
  }

  /** `s.indexOf(c)`: the first position of `c`, or -1. */
  function IndexOf(s: string, c: char): (i: int)
    ensures -1 <= i < |s|
    ensures i == -1 <==> c !in s
  {
    if c in s then IndexOfChar(s, c) else -1
  }

  /** Splits `s` at every `c`; with a one-character separator it undoes Join. */
  function Split(s: string, c: char): (parts: seq<string>)
    ensures |parts| > 0
    decreases |s|
  {
    if c !in s then [s]
    else
      var i := IndexOfChar(s, c);
      [s[..i]] + Split(s[i + 1..], c)
  }

  lemma {:induction false} IndexAfterPrefix(p: string, c: char, t: string)
    requires c !in p
    ensures c in p + [c] + t && IndexOfChar(p + [c] + t, c) == |p|
  {
    var s := p + [c] + t;
    assert s[|p|] == c;
    if p != [] {
      assert s[1..] == p[1..] + [c] + t;
      IndexAfterPrefix(p[1..], c, t);
    }
  }

  /** Splitting at the first separator: the part before it, then the rest split. */
  lemma SplitAfterPrefix(p: string, c: char, t: string)
    requires c !in p
    ensures Split(p + [c] + t, c) == [p] + Split(t, c)
  {
    var s := p + [c] + t;
    IndexAfterPrefix(p, c, t);
    assert s[..|p|] == p;
    assert s[|p| + 1..] == t;
  }

  /** Splitting a joined list on its one-character separator gives the list back. */
  lemma {:induction false} SplitJoin(parts: seq<string>, c: char)
    requires |parts| > 0
    requires forall i | 0 <= i < |parts| :: c !in parts[i]
    ensures Split(Join(parts, [c]), c) == parts
  {
    if |parts| == 1 {
      assert Join(parts, [c]) == parts[0];
    } else {
      var rest := Join(parts[1..], [c]);
      var s := parts[0] + [c] + rest;
      calc {
        Split(Join(parts, [c]), c);
      == { assert Join(parts, [c]) == s; }
        Split(s, c);
      == { SplitAfterPrefix(parts[0], c, rest); }
        [parts[0]] + Split(rest, c);
      == { SplitJoin(parts[1..], c); }
        [parts[0]] + parts[1..];
      == { assert parts == [parts[0]] + parts[1..]; }
        parts;
      }
    }
  }

  /** Where part `i` starts in `parts.join(sep)`: the parts before it, each followed by the separator. */
  function JoinOffset(parts: seq<string>, sep: string, i: nat): nat
    requires i <= |parts|
  {
    if i == 0 then 0 else |parts[0]| + |sep| + JoinOffset(parts[1..], sep, i - 1)
  }

  /** A slice of `b` is found in `a + b` shifted by `|a|`. */
  lemma SliceAfter(a: string, b: string, x: nat, y: nat)
    requires x <= y <= |b|
    ensures |a| + y <= |a + b| && (a + b)[|a| + x..|a| + y] == b[x..y]
  {
    assert forall k | 0 <= k < y - x :: (a + b)[|a| + x..|a| + y][k] == b[x..y][k];
  }

  /** Whatever the separator, `parts.join(sep)` holds each part at its offset. */
  lemma {:induction false} JoinPartAt(parts: seq<string>, sep: string, i: nat)
    requires i < |parts|
    ensures var j := Join(parts, sep);
      var o := JoinOffset(parts, sep, i);
      o + |parts[i]| <= |j| && j[o..o + |parts[i]|] == parts[i]
  {
    var j := Join(parts, sep);
    if |parts| == 1 {
      assert j == parts[0];
    } else if i == 0 {
      assert j == parts[0] + (sep + Join(parts[1..], sep));
      SliceAfter([], j, 0, |parts[0]|);
    } else {
      var head := parts[0] + sep;
      var rest := Join(parts[1..], sep);
      var o' := JoinOffset(parts[1..], sep, i - 1);
      JoinPartAt(parts[1..], sep, i - 1);
      assert parts[1..][i - 1] == parts[i];
      assert j == head + rest;
      SliceAfter(head, rest, o', o' + |parts[i]|);
    }
  }

  /** Every part but the last is followed by the separator. */
  lemma {:induction false} JoinSepAfter(parts: seq<string>, sep: string, i: nat)
    requires i < |parts| - 1
    ensures var j := Join(parts, sep);
      var e := JoinOffset(parts, sep, i) + |parts[i]|;
      e + |sep| <= |j| && j[e..e + |sep|] == sep
  {
    var j := Join(parts, sep);
    var rest := Join(parts[1..], sep);
    if i == 0 {
      assert j == parts[0] + (sep + rest);
      SliceAfter(parts[0], sep + rest, 0, |sep|);
      assert (sep + rest)[0..|sep|] == sep;
    } else {
      var head := parts[0] + sep;
      var e' := JoinOffset(parts[1..], sep, i - 1) + |parts[i]|;
      JoinSepAfter(parts[1..], sep, i - 1);
      assert parts[1..][i - 1] == parts[i];
      assert j == head + rest;
      SliceAfter(head, rest, e', e' + |sep|);
    }
  }

  /** Nothing follows the last part. */
  lemma {:induction false} JoinLength(parts: seq<string>, sep: string)
    requires |parts| > 0
    ensures |Join(parts, sep)| == JoinOffset(parts, sep, |parts| - 1) + |parts[|parts| - 1]|
  {
    if |parts| > 1 {
      JoinLength(parts[1..], sep);
      assert parts[1..][|parts| - 2] == parts[|parts| - 1];
    }
  }

  /**
   * After a prefix: `prefix + parts.join(sep)` holds part `i` at `|prefix|`
   * plus its offset, followed by the separator unless it is the last part,
   * and nothing after the last part.
   */
  lemma PrefixedJoinParts(prefix: string, parts: seq<string>, sep: string, i: nat)
    requires i < |parts|
    ensures var w := prefix + Join(parts, sep);
      var o := |prefix| + JoinOffset(parts, sep, i);
      && w[..|prefix|] == prefix
      && o + |parts[i]| <= |w| && w[o..o + |parts[i]|] == parts[i]
      && (i < |parts| - 1 ==> o + |parts[i]| + |sep| <= |w| && w[o + |parts[i]|..o + |parts[i]| + |sep|] == sep)
      && (i == |parts| - 1 ==> |w| == o + |parts[i]|)
  {
    var j := Join(parts, sep);
    JoinPartAt(parts, sep, i);
    if i < |parts| - 1 {
      JoinSepAfter(parts, sep, i);
    } else {
      JoinLength(parts, sep);
    }
    var o := JoinOffset(parts, sep, i);
    assert (prefix + j)[..|prefix|] == prefix;
    SliceAfter(prefix, j, o, o + |parts[i]|);
    if i < |parts| - 1 {
      SliceAfter(prefix, j, o + |parts[i]|, o + |parts[i]| + |sep|);
    }
  }

  /** The characters `String.prototype.trim` and `parseInt` skip: WhiteSpace and LineTerminator. */
  predicate IsSpace(ch: char)
  {
    || ch == ' '
    || ('\t' <= ch <= '\r')
    || ('\U{00A0}' <= ch && IsWideSpace(ch))
  }

  /** The blanks above U+00A0: no-break, Ogham, the U+2000 block, separators, ideographic space and the BOM. */
  predicate IsWideSpace(ch: char)
  {
    || ch == '\U{00A0}' || ch == '\U{1680}'
    || ('\U{2000}' <= ch <= '\U{200A}')
    || ch == '\U{2028}' || ch == '\U{2029}' || ch == '\U{202F}' || ch == '\U{205F}'
    || ch == '\U{3000}' || ch == '\U{FEFF}'
  }

  function TrimStart(s: string): (r: string)
    ensures |r| <= |s| && r == s[|s| - |r|..]
    ensures r == [] || !IsSpace(r[0])
  {
    if s != [] && IsSpace(s[0]) then TrimStart(s[1..]) else s
  }

  function TrimEnd(s: string): (r: string)
    ensures |r| <= |s| && r == s[..|r|]
    ensures r == [] || !IsSpace(r[|r| - 1])
  {
    if s != [] && IsSpace(s[|s| - 1]) then TrimEnd(s[..|s| - 1]) else s
  }

  /** `s.trim()`. */
  function Trim(s: string): string
  {
    TrimEnd(TrimStart(s))
  }

  function LowerChar(ch: char): char
  {
    if 'A' <= ch <= 'Z' then (ch as int + 32) as char else ch
  }

  function UpperChar(ch: char): char
  {
    if 'a' <= ch <= 'z' then (ch as int - 32) as char else ch
  }

  /** `s.toLowerCase()`, for the ASCII letters. */
  function Lower(s: string): (r: string)
    ensures |r| == |s|
  {
    seq(|s|, i requires 0 <= i < |s| => LowerChar(s[i]))
  }

  /** `s.toUpperCase()`, for the ASCII letters. */
  function Upper(s: string): (r: string)
    ensures |r| == |s|
  {
    seq(|s|, i requires 0 <= i < |s| => UpperChar(s[i]))
  }

  /** ToIntegerOrInfinity clamped to [0, n], as `substring` applies to its arguments. */
  function Clamp(i: int, n: nat): (r: nat)
    ensures r <= n
  {
    if i < 0 then 0 else if i > n then n else i
  }

  /** `s.substring(start, end)`: both ends clamped, swapped when start > end. */
  function Substring(s: string, start: int, end: int): string
  {
    var a, b := Clamp(start, |s|), Clamp(end, |s|);
    if a <= b then s[a..b] else s[b..a]
  }

  /** True when `p` occurs in `s`. */
  predicate Contains(s: string, p: string)
    decreases |s|
  {
    p <= s || (s != [] && Contains(s[1..], p))
  }

  /** `s.match(/p/ig)` succeeds, for a pattern made of plain characters. */
  predicate ContainsIgnoringCase(s: string, p: string)
  {
    Contains(Lower(s), Lower(p))
  }

  /** The relational comparison `a < b` of two strings (lexicographic). */
  predicate LexLess(a: string, b: string)
  {
    if |b| == 0 then false
    else if |a| == 0 then true
    else if a[0] != b[0] then a[0] < b[0]
    else LexLess(a[1..], b[1..])
  }

  /** No string is below itself. */
  lemma {:induction false} LexIrreflexive(a: string)
    ensures !LexLess(a, a)
  {
    if a != [] {
      LexIrreflexive(a[1..]);
    }
  }

  lemma {:induction false} LexTransitive(a: string, b: string, c: string)
    requires LexLess(a, b) && LexLess(b, c)
    ensures LexLess(a, c)
  {
    if a != [] && a[0] == b[0] && b[0] == c[0] {
      LexTransitive(a[1..], b[1..], c[1..]);
    }
  }

  /** Of two different strings, one is below the other. */
  lemma {:induction false} LexTotal(a: string, b: string)
    requires a != b
    ensures LexLess(a, b) || LexLess(b, a)
  {
    if a != [] && b != [] && a[0] == b[0] {
      assert a == [a[0]] + a[1..] && b == [b[0]] + b[1..];
      LexTotal(a[1..], b[1..]);
    }
  }

  lemma LexAsymmetric(a: string, b: string)
    requires LexLess(a, b)
    ensures !LexLess(b, a)
  {
    if LexLess(b, a) {
      LexTransitive(a, b, a);
      LexIrreflexive(a);
    }
  }

  /** "Not below" is transitive: the order `<` induces on strings is a total preorder. */
  lemma LexNotLessTransitive(a: string, b: string, c: string)
    requires !LexLess(b, a) && !LexLess(c, b)
    ensures !LexLess(c, a)
  {
    if LexLess(c, a) {
      if a != b {
        LexTotal(a, b);
        LexTransitive(c, a, b);
      }
    }
  }

  predicate IsDigit(ch: char)
  {
    '0' <= ch <= '9'
  }

  predicate AllDigits(s: string)
  {
    forall i | 0 <= i < |s| :: IsDigit(s[i])
  }

  function DigitValue(ch: char): (d: nat)
    requires IsDigit(ch)
    ensures d < 10
  {
    ch as int - '0' as int
  }

  function DigitChar(d: nat): (ch: char)
    requires d < 10
    ensures IsDigit(ch) && DigitValue(ch) == d
  {
    ('0' as int + d) as char
  }

  /** The number a run of decimal digits denotes. */
  function DigitsValue(s: string): nat
    requires AllDigits(s)
  {
    if s == [] then 0 else DigitsValue(s[..|s| - 1]) * 10 + DigitValue(s[|s| - 1])
  }

  /** Decimal notation of a natural number, as `String(n)` writes it. */
  function NatString(n: nat): (s: string)
    ensures |s| > 0 && AllDigits(s)
  {
    if n < 10 then [DigitChar(n)] else NatString(n / 10) + [DigitChar(n % 10)]
  }

  /** Decimal notation of an integer, as `String(n)` writes it. */
  function IntString(n: int): (s: string)
    ensures |s| > 0
  {
    if n < 0 then "-" + NatString(Abs(n)) else NatString(Abs(n))
  }

  function Abs(n: int): nat
  {
    if n < 0 then -n else n
  }

  lemma {:induction false} NatStringValue(n: nat)
    ensures DigitsValue(NatString(n)) == n
  {
    if n >= 10 {
      var s := NatString(n);
      assert s[..|s| - 1] == NatString(n / 10);
      NatStringValue(n / 10);
    }
  }

  /** Length of the longest prefix of `s` made of decimal digits. */
  function DigitPrefix(s: string): (k: nat)
    ensures k <= |s| && AllDigits(s[..k])
    ensures k == |s| || !IsDigit(s[k])
  {
    if s == [] || !IsDigit(s[0]) then 0
    else
      var k := DigitPrefix(s[1..]);
      assert s[..k + 1] == [s[0]] + s[1..][..k];
      k + 1
  }

  /** `parseInt(s, 10)`: leading blanks are skipped; None stands for NaN. */
  function ParseInt(s: string): Option<int>
  {
    ParseSigned(TrimStart(s))
  }

  /** An optional sign, then the leading digits. */
  function ParseSigned(t: string): Option<int>
  {
    if |t| > 0 && t[0] == '-' then
      match ParseDigits(t[1..])
      case None => None
      case Some(v) => Some(-v)
    else if |t| > 0 && t[0] == '+' then ParseDigits(t[1..])
    else ParseDigits(t)
  }

  /** The value of the leading run of digits; None when there is none. */
  function ParseDigits(u: string): Option<int>
  {
    var k := DigitPrefix(u);
    if k == 0 then None else Some(DigitsValue(u[..k]))
  }

  lemma {:induction false} DigitPrefixOfDigits(d: string, tail: string)
    requires AllDigits(d)
    requires tail == [] || !IsDigit(tail[0])
    ensures DigitPrefix(d + tail) == |d|
  {
    if d != [] {
      assert (d + tail)[1..] == d[1..] + tail;
      DigitPrefixOfDigits(d[1..], tail);
    }
  }

  /**
   * parseInt reads back what String(n) writes, and stops at the first
   * character that is not a digit: parseInt('12x') is 12.
   */
  lemma ParseIntOfDecimal(n: int, tail: string)
    requires tail == [] || !IsDigit(tail[0])
    ensures ParseInt(IntString(n) + tail) == Some(n)
  {
    var u := NatString(Abs(n)) + tail;
    if n < 0 {
      calc {
        ParseInt(IntString(n) + tail);
      == { NegativeIntString(n, tail); }
        ParseInt("-" + u);
      == { NatStringDigits(Abs(n), tail); ParseIntOfNegative(u); }
        Some(n);
      }
    } else {
      calc {
        ParseInt(IntString(n) + tail);
      == { assert IntString(n) + tail == u; }
        ParseInt(u);
      == { NatStringDigits(Abs(n), tail); ParseIntOfUnsigned(u); }
        Some(n);
      }
    }
  }

  /** `String(n) + tail` for a negative `n` is a minus sign, the digits of `-n`, then the tail. */
  lemma NegativeIntString(n: int, tail: string)
    requires n < 0
    ensures IntString(n) + tail == "-" + (NatString(Abs(n)) + tail)
  {
    var d := NatString(Abs(n));
    assert ("-" + d) + tail == "-" + (d + tail);
  }

  /** The decimal form of `m`, followed by a non-digit, starts with a digit and has `m` as its leading digits. */
  lemma NatStringDigits(m: nat, tail: string)
    requires tail == [] || !IsDigit(tail[0])
    ensures var u := NatString(m) + tail; IsDigit(u[0]) && ParseDigits(u) == Some(m)
  {
    NatStringValue(m);
    ParseDigitsOfDecimal(NatString(m), tail);
  }

  /** A minus sign followed by digits reads as the negated digits. */
  lemma ParseIntOfNegative(u: string)
    requires ParseDigits(u).Some?
    ensures ParseInt("-" + u) == Some(-ParseDigits(u).value)
  {
    var s := "-" + u;
    assert s[0] == '-';
    TrimStartOfNonSpace(s);
    SignedOfNegative(u);
  }

  /** Text that starts with a digit reads as its leading digits. */
  lemma ParseIntOfUnsigned(u: string)
    requires u != [] && IsDigit(u[0])
    ensures ParseInt(u) == ParseDigits(u)
  {
    TrimStartOfNonSpace(u);
    SignedOfUnsigned(u);
  }

  /** The leading digits of `d + tail` are exactly `d`. */
  lemma ParseDigitsOfDecimal(d: string, tail: string)
    requires |d| > 0 && AllDigits(d)
    requires tail == [] || !IsDigit(tail[0])
    ensures ParseDigits(d + tail) == Some(DigitsValue(d))
  {
    DigitPrefixOfDigits(d, tail);
    assert (d + tail)[..|d|] == d;
  }

  lemma TrimStartOfNonSpace(s: string)
    requires s != [] && !IsSpace(s[0])
    ensures TrimStart(s) == s
  {
  }

  lemma SignedOfNegative(u: string)
    ensures ParseSigned("-" + u) == if ParseDigits(u).Some? then Some(-ParseDigits(u).value) else None
  {
    assert ("-" + u)[1..] == u;
  }

  lemma SignedOfUnsigned(u: string)
    requires u != [] && IsDigit(u[0])
    ensures ParseSigned(u) == ParseDigits(u)
  {
  }

  /** parseInt finds no number when no digit follows the blanks and the sign. */
  lemma ParseIntNoDigits(s: string)
    requires forall i | 0 <= i < |s| :: !IsDigit(s[i])
    ensures ParseInt(s) == None
  {
    var t := TrimStart(s);
    var u := if |t| > 0 && (t[0] == '-' || t[0] == '+') then t[1..] else t;
    assert u == [] || u[0] in s;
    assert ParseDigits(u) == None;
  }
}
