/**
 * The Python string built-ins the two front ends rely on: str.strip,
 * str.split(sep), str.replace for one character, str.lower, str(int)
 * and os.path.join.  Each is characterised by its contract and the
 * lemmas after it, so that the modules above can reason about it without unfolding.
 */
module StrOps {

  /** The characters for which Python's str.isspace() holds; str.strip() with no argument removes them. */
  predicate IsSpace(c: char) {
    var n := c as int;
    0x09 <= n <= 0x0D || 0x1C <= n <= 0x20 || n == 0x85 || n == 0xA0 || n == 0x1680 ||
    0x2000 <= n <= 0x200A || n == 0x2028 || n == 0x2029 || n == 0x202F || n == 0x205F || n == 0x3000
  }

  /**
   * s.strip(chars): drop dropped characters from the front while there are
   * any, then from the back; what is left neither starts nor ends with a
   * dropped character, and a string with nothing to drop is kept whole.
   */
  function Strip(s: string, drop: char -> bool): (r: string)
    ensures |r| <= |s|
    ensures r != [] ==> !drop(r[0]) && !drop(r[|r| - 1])
    ensures (forall k :: 0 <= k < |s| ==> !drop(s[k])) ==> r == s
  {
    if s != [] && drop(s[0]) then Strip(s[1..], drop)
    else if s != [] && drop(s[|s| - 1]) then Strip(s[..|s| - 1], drop)
    else s
  }

  /** Stripping a string whose two ends are kept changes nothing. */
  lemma StripKeptEnds(t: string, drop: char -> bool)
    requires t != [] && !drop(t[0]) && !drop(t[|t| - 1])
    ensures Strip(t, drop) == t
  {
  }

  /** Stripping removes one dropped character from each end of a string whose inner ends are kept. */
  lemma StripOnePair(c: char, t: string, drop: char -> bool)
    requires drop(c)
    requires t != [] && !drop(t[0]) && !drop(t[|t| - 1])
    ensures Strip([c] + t + [c], drop) == t
  {
    var s := [c] + t + [c];
    assert s[1..] == t + [c];
    assert (t + [c])[..|t|] == t;
    assert Strip(t + [c], drop) == Strip(t, drop) == t;
  }

  /**
   * t is s with a run of characters satisfying cut removed from the front
   * (a of them) and another from the back; t itself is untouched text of s.
   */
  predicate CutAt(s: string, a: nat, t: string, cut: char -> bool) {
    a + |t| <= |s| && t == s[a..a + |t|] &&
    (forall k :: 0 <= k < a ==> cut(s[k])) &&
    (forall k :: a + |t| <= k < |s| ==> cut(s[k]))
  }

  /** What strip removes: dropped characters from the two ends only; the result is an infix of s. */
  lemma {:induction false} StripRemovesEnds(s: string, drop: char -> bool) returns (a: nat)
    ensures CutAt(s, a, Strip(s, drop), drop)
  {
    if s != [] && drop(s[0]) {
      var b := StripRemovesEnds(s[1..], drop);
      CutExtendFront(s, b, Strip(s[1..], drop), drop);
      a := b + 1;
    } else if s != [] && drop(s[|s| - 1]) {
      a := StripRemovesEnds(s[..|s| - 1], drop);
      CutExtendBack(s, a, Strip(s[..|s| - 1], drop), drop);
    } else {
      a := 0;
      assert s == s[0..|s|];
    }
  }

  /** A cut of s[1..] is a cut of s one further in, when s[0] may be cut too. */
  lemma CutExtendFront(s: string, b: nat, t: string, cut: char -> bool)
    requires s != [] && cut(s[0]) && CutAt(s[1..], b, t, cut)
    ensures CutAt(s, b + 1, t, cut)
  {
    assert t == s[1..][b..b + |t|] == s[b + 1..b + 1 + |t|];
    forall k | 0 <= k < b + 1 || b + 1 + |t| <= k < |s|
      ensures cut(s[k])
    {
      if k > 0 {
        assert s[k] == s[1..][k - 1];
      }
    }
  }

  /** A cut of s[..|s| - 1] is a cut of s, when the last character may be cut too. */
  lemma CutExtendBack(s: string, a: nat, t: string, cut: char -> bool)
    requires s != [] && cut(s[|s| - 1]) && CutAt(s[..|s| - 1], a, t, cut)
    ensures CutAt(s, a, t, cut)
  {
    assert t == s[..|s| - 1][a..a + |t|] == s[a..a + |t|];
    forall k | 0 <= k < a || a + |t| <= k < |s|
      ensures cut(s[k])
    {
      if k < |s| - 1 {
        assert s[k] == s[..|s| - 1][k];
      }
    }
  }

  /**
   * Three strips in a row, with any three tests: the result is an infix of
   * s, and every character cut off satisfies one of the tests.
   */
  lemma StripThrice(s: string, d1: char -> bool, d2: char -> bool, d3: char -> bool) returns (a: nat)
    ensures var u := Strip(Strip(Strip(s, d1), d2), d3);
      a + |u| <= |s| && u == s[a..a + |u|] &&
      forall k :: 0 <= k < a || a + |u| <= k < |s| ==> d1(s[k]) || d2(s[k]) || d3(s[k])
  {
    var t1 := Strip(s, d1);
    var t2 := Strip(t1, d2);
    var a1 := StripRemovesEnds(s, d1);
    var a2 := StripRemovesEnds(t1, d2);
    var a3 := StripRemovesEnds(t2, d3);
    a := PeelInfix(s, t1, t2, Strip(t2, d3), a1, a2, a3, d1, d2, d3);
  }

  /**
   * Three nested cuts, each with its own test, are one cut at the summed
   * offset whose removed characters satisfy one of the three tests.
   */
  lemma PeelInfix(s: string, t1: string, t2: string, u: string, a1: nat, a2: nat, a3: nat,
                  d1: char -> bool, d2: char -> bool, d3: char -> bool) returns (a: nat)
    requires CutAt(s, a1, t1, d1) && CutAt(t1, a2, t2, d2) && CutAt(t2, a3, u, d3)
    ensures a == a1 + a2 + a3 && a + |u| <= |s| && u == s[a..a + |u|]
    ensures forall k :: 0 <= k < a || a + |u| <= k < |s| ==> d1(s[k]) || d2(s[k]) || d3(s[k])
  {
    a := a1 + a2 + a3;
    assert forall k :: 0 <= k < |u| ==> u[k] == t2[a3 + k] == t1[a2 + a3 + k] == s[a + k];
    forall k | 0 <= k < a || a + |u| <= k < |s|
      ensures d1(s[k]) || d2(s[k]) || d3(s[k])
    {
      if a1 <= k < a1 + |t1| {
        assert s[k] == t1[k - a1];
        if a2 <= k - a1 < a2 + |t2| {
          assert t1[k - a1] == t2[k - a1 - a2];
        }
      }
    }
  }

  /** s.replace(from, to) for single characters: every occurrence is rewritten, nothing else moves. */
  function ReplaceAll(s: string, from: char, to: char): (r: string)
    ensures |r| == |s|
    ensures forall i :: 0 <= i < |s| ==> r[i] == if s[i] == from then to else s[i]
  {
    if s == [] then [] else [if s[0] == from then to else s[0]] + ReplaceAll(s[1..], from, to)
  }

  /**
   * s.split(sep): the pieces between occurrences of sep.  Its properties
   * (piece count, no separator inside a piece, joining back) are the
   * lemmas below.
   */
  function Split(s: string, sep: char): (parts: seq<string>)
    ensures |parts| >= 1
  {
    if s == [] then [[]]
    else
      var rest := Split(s[1..], sep);
      if s[0] == sep then [[]] + rest
      else [[s[0]] + rest[0]] + rest[1..]
  }

  /** There is one more piece than there are separators. */
  lemma {:induction false} SplitCount(s: string, sep: char)
    ensures |Split(s, sep)| == multiset(s)[sep] + 1
  {
    if s != [] {
      SplitCount(s[1..], sep);
      assert s == [s[0]] + s[1..];
      assert multiset(s) == multiset{s[0]} + multiset(s[1..]);
    }
  }

  /** No piece holds a separator. */
  lemma {:induction false} SplitSeparatorFree(s: string, sep: char)
    ensures forall i :: 0 <= i < |Split(s, sep)| ==> sep !in Split(s, sep)[i]
  {
    if s != [] {
      SplitSeparatorFree(s[1..], sep);
      var rest := Split(s[1..], sep);
      if s[0] != sep {
        var parts := Split(s, sep);
        assert parts[0] == [s[0]] + rest[0];
        assert forall i :: 1 <= i < |parts| ==> parts[i] == rest[i];
      }
    }
  }

  /** Joining the pieces with the separator gives the string back. */
  lemma {:induction false} JoinSplit(s: string, sep: char)
    ensures Join(Split(s, sep), sep) == s
  {
    if s != [] {
      JoinSplit(s[1..], sep);
      var rest := Split(s[1..], sep);
      if s[0] == sep {
        assert Split(s, sep)[1..] == rest;
        assert s == [sep] + s[1..];
      } else {
        var parts := Split(s, sep);
        assert parts[1..] == rest[1..];
        if |rest| == 1 {
          assert s == [s[0]] + s[1..];
        } else {
          assert Join(rest, sep) == rest[0] + [sep] + Join(rest[1..], sep);
          assert s == [s[0]] + s[1..];
        }
      }
    }
  }

  /** sep.join(parts), for a non-empty list of parts. */
  function Join(parts: seq<string>, sep: char): (s: string)
    requires |parts| >= 1
  {
    if |parts| == 1 then parts[0] else parts[0] + [sep] + Join(parts[1..], sep)
  }

  /** Splitting the join of separator-free pieces gives the same pieces back. */
  lemma {:induction false} SplitJoin(parts: seq<string>, sep: char)
    requires |parts| >= 1
    requires forall i :: 0 <= i < |parts| ==> sep !in parts[i]
    ensures Split(Join(parts, sep), sep) == parts
  {
    if |parts| == 1 {
      SplitWithoutSep(parts[0], sep);
    } else {
      SplitJoin(parts[1..], sep);
      SplitPrefix(parts[0], Join(parts[1..], sep), sep);
      assert parts == [parts[0]] + parts[1..];
    }
  }

  /** A string without the separator is a single piece. */
  lemma {:induction false} SplitWithoutSep(s: string, sep: char)
    requires sep !in s
    ensures Split(s, sep) == [s]
  {
    if s != [] {
      SplitWithoutSep(s[1..], sep);
      assert [s[0]] + s[1..] == s;
    }
  }

  /** Splitting p + sep + t, where p has no separator, yields p followed by the pieces of t. */
  lemma {:induction false} SplitPrefix(p: string, t: string, sep: char)
    requires sep !in p
    ensures Split(p + [sep] + t, sep) == [p] + Split(t, sep)
  {
    var s := p + [sep] + t;
    if p == [] {
      assert s[0] == sep && s[1..] == t;
    } else {
      assert s[0] == p[0] && s[0] != sep;
      assert s[1..] == p[1..] + [sep] + t;
      SplitPrefix(p[1..], t, sep);
      var rest := Split(s[1..], sep);
      assert rest == [p[1..]] + Split(t, sep);
      assert Split(s, sep) == [[s[0]] + rest[0]] + rest[1..];
      assert [s[0]] + rest[0] == p;
      assert rest[1..] == Split(t, sep);
    }
  }

  /** s.lower() restricted to ASCII letters; every other character is kept. */
  function LowerAscii(s: string): (r: string)
    ensures |r| == |s|
    ensures forall i :: 0 <= i < |s| ==> r[i] == if 'A' <= s[i] <= 'Z' then (s[i] as int + 32) as char else s[i]
  {
    if s == [] then []
    else [if 'A' <= s[0] <= 'Z' then (s[0] as int + 32) as char else s[0]] + LowerAscii(s[1..])
  }

  predicate IsDigit(c: char) { '0' <= c <= '9' }

  /** The value of one decimal digit. */
  function DigitValue(c: char): (d: nat)
    requires IsDigit(c)
    ensures d < 10
  {
    assert '0' as int <= c as int <= '9' as int;
    c as int - '0' as int
  }

  /** The value of a string of decimal digits. */
  function DecimalValue(s: string): nat
    requires forall k :: 0 <= k < |s| ==> IsDigit(s[k])
  {
    if s == [] then 0
    else DecimalValue(s[..|s| - 1]) * 10 + DigitValue(s[|s| - 1])
  }

  /** A digit string without a leading zero, other than "0" itself: the form str() prints. */
  predicate IsCanonicalDecimal(s: string) {
    |s| >= 1 && (forall k :: 0 <= k < |s| ==> IsDigit(s[k])) && (s[0] == '0' ==> |s| == 1)
  }

  /** str(n) for a natural number: its decimal digits, without a leading zero, read back as n. */
  function NatToString(n: nat): (s: string)
    ensures |s| >= 1
    ensures forall k :: 0 <= k < |s| ==> IsDigit(s[k])
    ensures DecimalValue(s) == n
    ensures n == 0 || s[0] != '0'
  {
    var last := [('0' as int + n % 10) as char];
    if n < 10 then last
    else
      var s := NatToString(n / 10) + last;
      assert s[..|s| - 1] == NatToString(n / 10);
      s
  }

  /** Different numbers print differently. */
  lemma NatToStringInjective(m: nat, n: nat)
    requires NatToString(m) == NatToString(n)
    ensures m == n
  {
    assert DecimalValue(NatToString(m)) == m;
  }

  /** A digit string that starts with a non-zero digit has a positive value. */
  lemma {:induction false} LeadingDigitPositive(s: string)
    requires |s| >= 1 && (forall k :: 0 <= k < |s| ==> IsDigit(s[k])) && s[0] != '0'
    ensures DecimalValue(s) >= 1
  {
    if |s| > 1 {
      LeadingDigitPositive(s[..|s| - 1]);
    }
  }

  /** The character of a digit's value is the digit itself. */
  lemma DigitOfValue(c: char)
    requires IsDigit(c)
    ensures ('0' as int + DigitValue(c)) as char == c
  {
  }

  /** Appending a digit c to the text of a positive q gives the text of q * 10 + c. */
  lemma AppendDigit(q: nat, c: char)
    requires q >= 1 && IsDigit(c)
    ensures NatToString(q * 10 + DigitValue(c)) == NatToString(q) + [c]
  {
    var n := q * 10 + DigitValue(c);
    assert n / 10 == q && n % 10 == DigitValue(c);
    DigitOfValue(c);
  }

  /** str(n) is the only canonical decimal text with value n. */
  lemma {:induction false} CanonicalDecimalUnique(s: string, n: nat)
    requires IsCanonicalDecimal(s) && DecimalValue(s) == n
    ensures s == NatToString(n)
  {
    var last := s[|s| - 1];
    if |s| == 1 {
      DigitOfValue(last);
    } else {
      var front := s[..|s| - 1];
      var q := DecimalValue(front);
      assert IsCanonicalDecimal(front) by {
        assert front[0] == s[0];
      }
      assert n == q * 10 + DigitValue(last);
      LeadingDigitPositive(front);
      CanonicalDecimalUnique(front, q);
      AppendDigit(q, last);
      calc {
        s;
        front + [last];
        NatToString(q) + [last];
        NatToString(n);
      }
    }
  }

  /** os.path.join(dir, name) with POSIX separators. */
  function PathJoin(dir: string, name: string): (path: string)
    ensures name != [] && name[0] != '/' && dir != [] && dir[|dir| - 1] != '/' ==> path == dir + "/" + name
    ensures name != [] && name[0] == '/' ==> path == name
    ensures name != [] && name[0] != '/' && (dir == [] || dir[|dir| - 1] == '/') ==> path == dir + name
  {
    if name != [] && name[0] == '/' then name
    else if dir == [] || dir[|dir| - 1] == '/' then dir + name
    else dir + "/" + name
  }
}
