/** Text helpers with the semantics of the Python `str` methods the
    comparator uses: `strip`, `replace` of one character, `split` on one
    character, and the join that undoes `split`. */
module Strings {

  datatype Option<+T> = None | Some(value: T)

  /** Python's `str.isspace` for one character (the whitespace set of
      `str.strip()` and of the `Decimal` constructor). */
  predicate IsSpace(c: char) {
    var k := c as int;
    (9 <= k <= 13) || (28 <= k <= 32) || k == 0x85 || k == 0xA0 || k == 0x1680
    || (0x2000 <= k <= 0x200A) || k == 0x2028 || k == 0x2029 || k == 0x202F
    || k == 0x205F || k == 0x3000
  }

  predicate IsDigit(c: char) {
    '0' <= c <= '9'
  }

  predicate AllDigits(s: string) {
    forall k :: 0 <= k < |s| ==> IsDigit(s[k])
  }

  lemma AllDigitsConcat(a: string, b: string)
    requires AllDigits(a) && AllDigits(b)
    ensures AllDigits(a + b)
  {
    assert forall k :: 0 <= k < |a + b| ==> (a + b)[k] == if k < |a| then a[k] else b[k - |a|];
  }

  /** Number of occurrences of `c` in `s`. */
  function Count(s: string, c: char): nat {
    if s == [] then 0 else (if s[0] == c then 1 else 0) + Count(s[1..], c)
  }

  lemma {:induction false} CountConcat(a: string, b: string, c: char)
    ensures Count(a + b, c) == Count(a, c) + Count(b, c)
  {
    if a == [] {
      assert a + b == b;
    } else {
      assert (a + b)[1..] == a[1..] + b;
      CountConcat(a[1..], b, c);
    }
  }

  /** `c` stands at no index of `s`. */
  predicate Avoids(s: string, c: char) {
    forall k :: 0 <= k < |s| ==> s[k] != c
  }

  /** A character is counted zero times exactly when it stands at no
      index. */
  lemma {:induction false} CountZero(s: string, c: char)
    ensures Count(s, c) == 0 <==> Avoids(s, c)
  {
    if s != [] {
      CountZero(s[1..], c);
      assert forall k :: 1 <= k < |s| ==> s[k] == s[1..][k - 1];
    }
  }

  lemma AvoidsConcat(a: string, b: string, c: char)
    requires Avoids(a, c) && Avoids(b, c)
    ensures Avoids(a + b, c)
  {
    assert forall k :: 0 <= k < |a + b| ==> (a + b)[k] == if k < |a| then a[k] else b[k - |a|];
  }

  /** A string of digits holds no other character. */
  lemma {:induction false} CountNonDigit(s: string, c: char)
    requires AllDigits(s) && !IsDigit(c)
    ensures Count(s, c) == 0
  {
    if s != [] {
      CountNonDigit(s[1..], c);
    }
  }

  /** The digits of `s`, in order. */
  function DigitsOf(s: string): (r: string)
    ensures AllDigits(r)
  {
    if s == [] then [] else (if IsDigit(s[0]) then [s[0]] else []) + DigitsOf(s[1..])
  }

  lemma {:induction false} DigitsOfConcat(a: string, b: string)
    ensures DigitsOf(a + b) == DigitsOf(a) + DigitsOf(b)
  {
    if a == [] {
      assert a + b == b;
    } else {
      assert (a + b)[1..] == a[1..] + b;
      DigitsOfConcat(a[1..], b);
    }
  }

  lemma {:induction false} DigitsOfDigits(s: string)
    requires AllDigits(s)
    ensures DigitsOf(s) == s
  {
    if s != [] {
      DigitsOfDigits(s[1..]);
    }
  }

  /** `s.replace(c, '')` */
  function RemoveChar(s: string, c: char): (r: string)
    ensures Count(r, c) == 0
  {
    if s == [] then []
    else
      var rest := RemoveChar(s[1..], c);
      if s[0] == c then rest else [s[0]] + rest
  }

  lemma {:induction false} RemoveCharConcat(a: string, b: string, c: char)
    ensures RemoveChar(a + b, c) == RemoveChar(a, c) + RemoveChar(b, c)
  {
    if a == [] {
      assert a + b == b;
    } else {
      assert (a + b)[1..] == a[1..] + b;
      RemoveCharConcat(a[1..], b, c);
    }
  }

  lemma {:induction false} RemoveCharAbsent(s: string, c: char)
    requires Count(s, c) == 0
    ensures RemoveChar(s, c) == s
  {
    if s != [] {
      RemoveCharAbsent(s[1..], c);
    }
  }

  /** Removing one character leaves the count of every other character alone. */
  lemma {:induction false} RemoveCharKeeps(s: string, c: char, d: char)
    requires c != d
    ensures Count(RemoveChar(s, c), d) == Count(s, d)
  {
    if s != [] {
      RemoveCharKeeps(s[1..], c, d);
    }
  }

  /** Removing a non-digit leaves the digits of `s` alone. */
  lemma {:induction false} RemoveCharKeepsDigits(s: string, c: char)
    requires !IsDigit(c)
    ensures DigitsOf(RemoveChar(s, c)) == DigitsOf(s)
  {
    if s != [] {
      RemoveCharKeepsDigits(s[1..], c);
    }
  }

  /** Removing a character that is at neither end keeps both ends. */
  lemma RemoveCharEnds(t: string, c: char)
    requires t != [] && t[0] != c && t[|t| - 1] != c
    ensures var r := RemoveChar(t, c);
      r != [] && r[0] == t[0] && r[|r| - 1] == t[|t| - 1]
  {
    var n := |t|;
    assert t == t[..n - 1] + [t[n - 1]];
    RemoveCharConcat(t[..n - 1], [t[n - 1]], c);
    assert RemoveChar([t[n - 1]], c) == [t[n - 1]];
  }

  /** `s.replace(a, b)` for single characters `a` and `b`. */
  function ReplaceChar(s: string, a: char, b: char): (r: string)
    ensures |r| == |s|
  {
    if s == [] then [] else [if s[0] == a then b else s[0]] + ReplaceChar(s[1..], a, b)
  }

  lemma {:induction false} ReplaceCharConcat(x: string, y: string, a: char, b: char)
    ensures ReplaceChar(x + y, a, b) == ReplaceChar(x, a, b) + ReplaceChar(y, a, b)
  {
    if x == [] {
      assert x + y == y;
    } else {
      assert (x + y)[1..] == x[1..] + y;
      ReplaceCharConcat(x[1..], y, a, b);
    }
  }

  /** The ends of `s.replace(a, b)` are the ends of `s`, replaced. */
  lemma ReplaceCharEnds(r: string, a: char, b: char)
    requires r != []
    ensures var q := ReplaceChar(r, a, b);
      q[0] == (if r[0] == a then b else r[0]) &&
      q[|q| - 1] == (if r[|r| - 1] == a then b else r[|r| - 1])
  {
    var n := |r|;
    assert r == r[..n - 1] + [r[n - 1]];
    ReplaceCharConcat(r[..n - 1], [r[n - 1]], a, b);
  }

  lemma {:induction false} ReplaceCharAbsent(s: string, a: char, b: char)
    requires Count(s, a) == 0
    ensures ReplaceChar(s, a, b) == s
  {
    if s != [] {
      ReplaceCharAbsent(s[1..], a, b);
    }
  }

  /** Replacing `a` by `b` moves every `a` to the count of `b`. */
  lemma {:induction false} ReplaceCharCount(s: string, a: char, b: char)
    requires a != b
    ensures Count(ReplaceChar(s, a, b), b) == Count(s, a) + Count(s, b)
    ensures Count(ReplaceChar(s, a, b), a) == 0
  {
    if s != [] {
      assert ReplaceChar(s, a, b)[1..] == ReplaceChar(s[1..], a, b);
      ReplaceCharCount(s[1..], a, b);
    }
  }

  /** Replacing `a` by `b` leaves the count of every third character alone. */
  lemma {:induction false} ReplaceCharKeeps(s: string, a: char, b: char, c: char)
    requires c != a && c != b
    ensures Count(ReplaceChar(s, a, b), c) == Count(s, c)
  {
    if s != [] {
      assert ReplaceChar(s, a, b)[1..] == ReplaceChar(s[1..], a, b);
      ReplaceCharKeeps(s[1..], a, b, c);
    }
  }

  /** Replacing one non-digit by another leaves the digits of `s` alone. */
  lemma {:induction false} ReplaceCharKeepsDigits(s: string, a: char, b: char)
    requires !IsDigit(a) && !IsDigit(b)
    ensures DigitsOf(ReplaceChar(s, a, b)) == DigitsOf(s)
  {
    if s != [] {
      assert ReplaceChar(s, a, b)[1..] == ReplaceChar(s[1..], a, b);
      ReplaceCharKeepsDigits(s[1..], a, b);
    }
  }

  /** `s.lstrip()`: what is cut off the left is whitespace. */
  function TrimStart(s: string): (r: string)
    ensures r == [] || !IsSpace(r[0])
    ensures |r| <= |s| && r == s[|s| - |r|..]
    ensures forall k :: 0 <= k < |s| - |r| ==> IsSpace(s[k])
  {
    if s != [] && IsSpace(s[0]) then TrimStart(s[1..]) else s
  }

  /** `s.rstrip()`: what is cut off the right is whitespace. */
  function TrimEnd(s: string): (r: string)
    ensures r == [] || !IsSpace(r[|r| - 1])
    ensures |r| <= |s| && r == s[..|r|]
    ensures forall k :: |r| <= k < |s| ==> IsSpace(s[k])
  {
    if s != [] && IsSpace(s[|s| - 1]) then TrimEnd(s[..|s| - 1]) else s
  }

  /** `s.strip()` */
  function Strip(s: string): (r: string)
    ensures r == [] || (!IsSpace(r[0]) && !IsSpace(r[|r| - 1]))
  {
    TrimEnd(TrimStart(s))
  }

  /** `strip` keeps the piece of `s` between the whitespace at its two
      ends: it starts at the first character that is not whitespace,
      everything cut off is whitespace, and (by the contract of `Strip`)
      the piece neither starts nor ends with whitespace. */
  lemma StripCutsSpace(s: string)
    ensures var r, i := Strip(s), |s| - |TrimStart(s)|;
      i + |r| <= |s| && r == s[i..i + |r|] &&
      (forall k :: 0 <= k < i ==> IsSpace(s[k])) &&
      (forall k :: i + |r| <= k < |s| ==> IsSpace(s[k]))
  {
    var t := TrimStart(s);
    var r := TrimEnd(t);
    assert Strip(s) == r;
    SpaceAround(s, t, r);
  }

  /** A prefix `r` of a suffix `t` of `s`, with only whitespace after `r`
      in `t`, is a slice of `s` followed by whitespace only. */
  lemma SpaceAround(s: string, t: string, r: string)
    requires |t| <= |s| && t == s[|s| - |t|..]
    requires |r| <= |t| && r == t[..|r|]
    requires forall k :: |r| <= k < |t| ==> IsSpace(t[k])
    ensures var i := |s| - |t|;
      r == s[i..i + |r|] && forall k :: i + |r| <= k < |s| ==> IsSpace(s[k])
  {
    var i := |s| - |t|;
    forall k | i + |r| <= k < |s|
      ensures IsSpace(s[k])
    {
      assert s[k] == t[k - i];
    }
  }

  /** Taking whitespace off the left keeps every other character. */
  lemma {:induction false} TrimStartKeeps(s: string, c: char)
    requires !IsSpace(c)
    ensures Count(TrimStart(s), c) == Count(s, c)
  {
    if s != [] && IsSpace(s[0]) {
      TrimStartKeeps(s[1..], c);
    }
  }

  /** Taking whitespace off the right keeps every other character. */
  lemma {:induction false} TrimEndKeeps(s: string, c: char)
    requires !IsSpace(c)
    ensures Count(TrimEnd(s), c) == Count(s, c)
  {
    if s != [] && IsSpace(s[|s| - 1]) {
      var t, last := s[..|s| - 1], s[|s| - 1];
      assert s == t + [last];
      TrimEndKeeps(t, c);
      CountConcat(t, [last], c);
    }
  }

  /** `strip` takes away whitespace only: every other character is
      counted as often after as before. */
  lemma StripKeeps(s: string, c: char)
    requires !IsSpace(c)
    ensures Count(Strip(s), c) == Count(s, c)
  {
    TrimStartKeeps(s, c);
    TrimEndKeeps(TrimStart(s), c);
  }

  /** Taking whitespace off the left keeps the digits, in order. */
  lemma {:induction false} TrimStartKeepsDigits(s: string)
    ensures DigitsOf(TrimStart(s)) == DigitsOf(s)
  {
    if s != [] && IsSpace(s[0]) {
      TrimStartKeepsDigits(s[1..]);
    }
  }

  /** Taking whitespace off the right keeps the digits, in order. */
  lemma {:induction false} TrimEndKeepsDigits(s: string)
    ensures DigitsOf(TrimEnd(s)) == DigitsOf(s)
  {
    if s != [] && IsSpace(s[|s| - 1]) {
      var t, last := s[..|s| - 1], s[|s| - 1];
      assert s == t + [last];
      TrimEndKeepsDigits(t);
      DigitsOfConcat(t, [last]);
    }
  }

  /** The digits of `s` before and after `strip` are the same, in order. */
  lemma StripKeepsDigits(s: string)
    ensures DigitsOf(Strip(s)) == DigitsOf(s)
  {
    TrimStartKeepsDigits(s);
    TrimEndKeepsDigits(TrimStart(s));
  }

  /** A string that neither starts nor ends with whitespace is its own strip. */
  lemma StripUnchanged(s: string)
    requires s != [] && !IsSpace(s[0]) && !IsSpace(s[|s| - 1])
    ensures Strip(s) == s
  {
  }

  /** Four strings put together, regrouped from the left to the right. */
  lemma Regroup(a: string, b: string, c: string, d: string)
    ensures a + b + c + d == a + (b + c + d)
  {
  }

  /** The parts of `parts`, one after the other. */
  function Concat(parts: seq<string>): string {
    if parts == [] then [] else Concat(parts[..|parts| - 1]) + parts[|parts| - 1]
  }

  /** `s.split(sep)`: one more piece than there are separators, and no
      piece holds the separator. */
  function SplitOn(s: string, sep: char): (r: seq<string>)
    ensures |r| == Count(s, sep) + 1
    ensures forall k :: 0 <= k < |r| ==> Count(r[k], sep) == 0
  {
    if s == [] then [[]]
    else
      var rest := SplitOn(s[1..], sep);
      if s[0] == sep then [[]] + rest
      else
        assert ([s[0]] + rest[0])[1..] == rest[0];
        [[s[0]] + rest[0]] + rest[1..]
  }

  /** `sep.join(parts)` */
  function JoinWith(parts: seq<string>, sep: char): string
    requires |parts| >= 1
  {
    if |parts| == 1 then parts[0] else parts[0] + [sep] + JoinWith(parts[1..], sep)
  }

  /** Splitting at one separator splits the two sides independently. */
  lemma {:induction false} SplitOnConcat(a: string, b: string, sep: char)
    ensures SplitOn(a + [sep] + b, sep) == SplitOn(a, sep) + SplitOn(b, sep)
  {
    if a == [] {
      assert a + [sep] + b == [sep] + b;
      assert ([sep] + b)[1..] == b;
    } else {
      assert (a + [sep] + b)[1..] == a[1..] + [sep] + b;
      SplitOnConcat(a[1..], b, sep);
    }
  }

  /** `sep.join(s.split(sep)) == s` */
  lemma {:induction false} JoinSplit(s: string, sep: char)
    ensures JoinWith(SplitOn(s, sep), sep) == s
  {
    if s != [] {
      var rest := SplitOn(s[1..], sep);
      JoinSplit(s[1..], sep);
      if s[0] == sep {
        assert SplitOn(s, sep)[1..] == rest;
      } else if |rest| == 1 {
        assert SplitOn(s, sep) == [[s[0]] + rest[0]];
      } else {
        var r := SplitOn(s, sep);
        assert r[1..] == rest[1..];
        assert JoinWith(rest, sep) == rest[0] + [sep] + JoinWith(rest[1..], sep);
      }
    }
  }

  lemma SplitOnAbsent(s: string, sep: char)
    requires Count(s, sep) == 0
    ensures SplitOn(s, sep) == [s]
  {
    JoinSplit(s, sep);
  }

  /** `s.split(sep)` undoes `sep.join(parts)` when no part holds `sep`. */
  lemma {:induction false} SplitJoin(parts: seq<string>, sep: char)
    requires |parts| >= 1
    requires forall k :: 0 <= k < |parts| ==> Count(parts[k], sep) == 0
    ensures SplitOn(JoinWith(parts, sep), sep) == parts
  {
    SplitOnAbsent(parts[0], sep);
    if |parts| > 1 {
      assert [parts[0]] + parts[1..] == parts;
      SplitJoin(parts[1..], sep);
      SplitOnConcat(parts[0], JoinWith(parts[1..], sep), sep);
    }
  }

  /** Parts that avoid the separator are split back out of their join. */
  lemma SplitJoinAvoiding(parts: seq<string>, sep: char)
    requires |parts| >= 1
    requires forall k :: 0 <= k < |parts| ==> Avoids(parts[k], sep)
    ensures SplitOn(JoinWith(parts, sep), sep) == parts
  {
    forall k | 0 <= k < |parts|
      ensures Count(parts[k], sep) == 0
    {
      CountZero(parts[k], sep);
    }
    SplitJoin(parts, sep);
  }

  /** Appending one part appends one separator and that part. */
  lemma {:induction false} JoinAppend(parts: seq<string>, last: string, sep: char)
    requires |parts| >= 1
    ensures JoinWith(parts + [last], sep) == JoinWith(parts, sep) + [sep] + last
  {
    if |parts| > 1 {
      assert (parts + [last])[1..] == parts[1..] + [last];
      JoinAppend(parts[1..], last, sep);
    }
  }
}
