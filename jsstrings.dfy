/**
  The JavaScript string operations the components rely on, on `seq<char>`:
  the white-space class shared by `\s` and `trim()`, `includes`/`indexOf`,
  `replace` with a string pattern, `split`/`join` on a one-character
  separator, and the decimal text of a whole number (`${n}`).
*/
module JsStrings {
  import opened ClimaTypes

  /** The characters that `\s` matches and that `trim()` removes. */
  predicate IsSpace(c: char) {
    c == ' ' || c == '\t' || c == '\n' || c == '\r' || c == '\U{000B}' || c == '\U{000C}'
    || c == '\U{00A0}' || c == '\U{1680}' || ('\U{2000}' <= c <= '\U{200A}')
    || c == '\U{2028}' || c == '\U{2029}' || c == '\U{202F}' || c == '\U{205F}'
    || c == '\U{3000}' || c == '\U{FEFF}'
  }

  /** The characters that `.` does not match. */
  predicate IsLineTerminator(c: char) {
    c == '\n' || c == '\r' || c == '\U{2028}' || c == '\U{2029}'
  }

  predicate AllSpace(s: string) {
    forall i :: 0 <= i < |s| ==> IsSpace(s[i])
  }

  // ---------------------------------------------------------------- trim

  function TrimStart(s: string): (r: string)
    ensures |r| <= |s|
    ensures r == [] || !IsSpace(r[0])
  {
    if |s| > 0 && IsSpace(s[0]) then TrimStart(s[1..]) else s
  }

  /** `TrimStart` keeps a suffix of `s`, and what it removes is white space. */
  lemma {:induction false} TrimStartRemovesSpace(s: string)
    ensures TrimStart(s) == s[|s| - |TrimStart(s)|..]
    ensures AllSpace(s[..|s| - |TrimStart(s)|])
  {
    if |s| > 0 && IsSpace(s[0]) {
      TrimStartRemovesSpace(s[1..]);
      assert s[1..][|s| - 1 - |TrimStart(s[1..])|..] == s[|s| - |TrimStart(s)|..];
      assert s[..|s| - |TrimStart(s)|] == [s[0]] + s[1..][..|s| - 1 - |TrimStart(s[1..])|];
    }
  }

  function TrimEnd(s: string): (r: string)
    ensures |r| <= |s|
    ensures r == [] || !IsSpace(r[|r| - 1])
  {
    if |s| > 0 && IsSpace(s[|s| - 1]) then TrimEnd(s[..|s| - 1]) else s
  }

  /** `TrimEnd` keeps a prefix of `s`, and what it removes is white space. */
  lemma {:induction false} TrimEndRemovesSpace(s: string)
    ensures TrimEnd(s) == s[..|TrimEnd(s)|]
    ensures AllSpace(s[|TrimEnd(s)|..])
  {
    if |s| > 0 && IsSpace(s[|s| - 1]) {
      TrimEndRemovesSpace(s[..|s| - 1]);
      assert s[..|s| - 1][..|TrimEnd(s[..|s| - 1])|] == s[..|TrimEnd(s)|];
      assert s[|TrimEnd(s)|..] == s[..|s| - 1][|TrimEnd(s[..|s| - 1])|..] + [s[|s| - 1]];
    }
  }

  /** Where the trimmed text starts: the number of leading white-space characters. */
  function TrimOffset(s: string): (i: nat)
    ensures i <= |s|
  {
    |s| - |TrimStart(s)|
  }

  /** Neither end of `s` is white space. */
  predicate IsTrimmed(s: string) {
    s == [] || (!IsSpace(s[0]) && !IsSpace(s[|s| - 1]))
  }

  /** `s.trim()`: `s` with its leading and trailing white space removed. */
  function Trim(s: string): (r: string)
    ensures |r| <= |s|
    ensures IsTrimmed(r)
  {
    TrimEndRemovesSpace(TrimStart(s));
    TrimEnd(TrimStart(s))
  }

  /**
    The trimmed text is the slice of `s` at the trim offset, and what
    `trim()` removes on either side is white space.
  */
  lemma TrimIsSlice(s: string)
    ensures TrimOffset(s) + |Trim(s)| <= |s|
    ensures Trim(s) == s[TrimOffset(s)..TrimOffset(s) + |Trim(s)|]
    ensures AllSpace(s[..TrimOffset(s)])
    ensures AllSpace(s[TrimOffset(s) + |Trim(s)|..])
  {
    var t := TrimStart(s);
    TrimStartRemovesSpace(s);
    TrimEndRemovesSpace(t);
    assert s[TrimOffset(s)..TrimOffset(s) + |Trim(s)|] == t[..|TrimEnd(t)|];
    assert s[TrimOffset(s) + |Trim(s)|..] == t[|TrimEnd(t)|..];
  }

  /** The strings `trim()` leaves unchanged are exactly those with no white space at either end. */
  lemma TrimFixesTrimmed(s: string)
    ensures Trim(s) == s <==> IsTrimmed(s)
  {
    if IsTrimmed(s) {
      assert TrimStart(s) == s;
      assert TrimEnd(s) == s;
    }
  }

  /** Leading white space makes no difference to `trimStart()`. */
  lemma {:induction false} TrimStartSkipsSpace(w: string, t: string)
    requires AllSpace(w)
    ensures TrimStart(w + t) == TrimStart(t)
    decreases |w|
  {
    if w != [] {
      assert (w + t)[0] == w[0];
      assert (w + t)[1..] == w[1..] + t;
      TrimStartSkipsSpace(w[1..], t);
    } else {
      assert w + t == t;
    }
  }

  /** Leading white space makes no difference to `trim()`. */
  lemma TrimSkipsLeadingSpace(w: string, t: string)
    requires AllSpace(w)
    ensures Trim(w + t) == Trim(t)
  {
    TrimStartSkipsSpace(w, t);
  }

  lemma AllSpaceConcat(a: string, b: string)
    requires AllSpace(a) && AllSpace(b)
    ensures AllSpace(a + b)
  {
    forall k | 0 <= k < |a + b|
      ensures IsSpace((a + b)[k])
    {
      if k >= |a| {
        assert (a + b)[k] == b[k - |a|];
      }
    }
  }

  /**
    In `x + y`, the first occurrence of `x.trim()`, when that is not empty,
    is where `trim()` found it: only white space comes before it, and the
    trimmed text does not start with white space.
  */
  lemma TrimmedTextFirstOccurrence(x: string, y: string)
    requires Trim(x) != ""
    ensures IndexOf(x + y, Trim(x)) == Some(TrimOffset(x))
  {
    var s, t, o := x + y, Trim(x), TrimOffset(x);
    TrimIsSlice(x);
    assert s[o..o + |t|] == x[o..o + |t|];
    assert OccursAt(s, t, o);
    forall j | 0 <= j < o
      ensures !OccursAt(s, t, j)
    {
      assert IsSpace(x[..o][j]);
      assert s[j] == x[j];
      if j + |t| <= |s| {
        assert s[j..j + |t|][0] == s[j];
      }
    }
    var i := IndexOf(s, t).value;
    assert OccursAt(s, t, i);
  }

  /** Replacing the first occurrence of `t` by nothing, when it lies within the prefix `x`, cuts it out of `x`. */
  lemma RemoveFromPrefix(x: string, y: string, t: string, o: nat)
    requires o + |t| <= |x| && IndexOf(x + y, t) == Some(o)
    ensures ReplaceFirst(x + y, t, "") == x[..o] + x[o + |t|..] + y
  {
    var s := x + y;
    assert s[..o] == x[..o];
    assert s[o + |t|..] == x[o + |t|..] + y;
  }

  /** Trimming twice is trimming once. */
  lemma TrimIdempotent(s: string)
    ensures Trim(Trim(s)) == Trim(s)
  {
    TrimFixesTrimmed(Trim(s));
  }

  /** A string is truthy after `trim()` exactly when it is not all white space. */
  lemma {:induction false} TrimEmptyIffAllSpace(s: string)
    ensures Trim(s) == [] <==> AllSpace(s)
  {
    var t := TrimStart(s);
    TrimStartRemovesSpace(s);
    TrimEndRemovesSpace(t);
    if !AllSpace(s) {
      var k :| 0 <= k < |s| && !IsSpace(s[k]);
      assert k >= |s| - |t|;
      assert t != [] && !IsSpace(t[0]);
      assert t[0..] == t;
    }
  }

  // ------------------------------------------------------- search, replace

  ghost predicate OccursAt(s: string, p: string, k: nat) {
    k + |p| <= |s| && s[k..k + |p|] == p
  }

  function IndexFrom(s: string, p: string, k: nat): (r: Option<nat>)
    requires k <= |s|
    decreases |s| - k
    ensures r.Some? ==> k <= r.value && OccursAt(s, p, r.value)
    ensures r.Some? ==> forall j :: k <= j < r.value ==> !OccursAt(s, p, j)
    ensures r.None? ==> forall j :: k <= j <= |s| ==> !OccursAt(s, p, j)
  {
    if k + |p| <= |s| && s[k..k + |p|] == p then Some(k)
    else if k == |s| then None
    else IndexFrom(s, p, k + 1)
  }

  /** `s.indexOf(p)`: the leftmost occurrence of `p` in `s`, if any. */
  function IndexOf(s: string, p: string): (r: Option<nat>)
    ensures r.Some? ==> OccursAt(s, p, r.value)
    ensures r.Some? ==> forall j :: 0 <= j < r.value ==> !OccursAt(s, p, j)
    ensures r.None? ==> forall j :: 0 <= j <= |s| ==> !OccursAt(s, p, j)
  {
    IndexFrom(s, p, 0)
  }

  /** `s.includes(p)`. */
  predicate Contains(s: string, p: string) {
    IndexOf(s, p).Some?
  }

  lemma ContainsWitness(s: string, p: string, k: nat)
    requires OccursAt(s, p, k)
    ensures Contains(s, p)
  {
  }

  /** `s.replace(p, t)` with a string pattern: only the leftmost occurrence is replaced. */
  function ReplaceFirst(s: string, p: string, t: string): (r: string)
    ensures !Contains(s, p) ==> r == s
    ensures Contains(s, p) ==>
      var i := IndexOf(s, p).value; r == s[..i] + t + s[i + |p|..]
  {
    match IndexOf(s, p)
    case None => s
    case Some(i) => s[..i] + t + s[i + |p|..]
  }

  /** `s.replace('', '')` leaves `s` as it is: the empty pattern occurs first at 0. */
  lemma ReplaceEmptyIsIdentity(s: string)
    ensures ReplaceFirst(s, "", "") == s
  {
    ContainsWitness(s, "", 0);
    assert IndexOf(s, "").value == 0;
    assert s[..0] + "" + s[0..] == s;
  }

  // The global removal of the pair of stars (a `/g` replace with ''): every
  // non-overlapping `**`, leftmost first, is removed.
  function RemoveDoubleStars(s: string): (r: string)
    ensures |r| <= |s|
  {
    if |s| >= 2 && s[0] == '*' && s[1] == '*' then RemoveDoubleStars(s[2..])
    else if s == [] then []
    else [s[0]] + RemoveDoubleStars(s[1..])
  }

  ghost predicate HasDoubleStar(s: string) {
    exists k :: 0 <= k < |s| - 1 && s[k] == '*' && s[k + 1] == '*'
  }

  /**
    After the global removal no `**` is left, even where removing one pair
    brings two stars together: a star kept in front of a removed pair would
    itself have started the pair.
  */
  lemma {:induction false} RemoveDoubleStarsLeavesNone(s: string)
    ensures !HasDoubleStar(RemoveDoubleStars(s))
    decreases |s|
  {
    if |s| >= 2 && s[0] == '*' && s[1] == '*' {
      RemoveDoubleStarsLeavesNone(s[2..]);
    } else if s == [] {
    } else {
      RemoveDoubleStarsLeavesNone(s[1..]);
      var t := RemoveDoubleStars(s[1..]);
      var r := [s[0]] + t;
      forall k | 0 <= k < |r| - 1
        ensures !(r[k] == '*' && r[k + 1] == '*')
      {
        if k == 0 {
          if s[0] == '*' { assert s[1..][0] != '*'; assert t[0] == s[1]; }
        } else {
          assert r[k] == t[k - 1] && r[k + 1] == t[k];
        }
      }
    }
  }

  /** The text with every `*` dropped. */
  function WithoutStars(s: string): (r: string)
    ensures '*' !in r && |r| <= |s|
  {
    if s == [] then [] else (if s[0] == '*' then [] else [s[0]]) + WithoutStars(s[1..])
  }

  /**
    The removal takes out stars and nothing else: every other character
    survives, in order.
  */
  lemma {:induction false} RemoveDoubleStarsRemovesOnlyStars(s: string)
    ensures WithoutStars(RemoveDoubleStars(s)) == WithoutStars(s)
    decreases |s|
  {
    if |s| >= 2 && s[0] == '*' && s[1] == '*' {
      RemoveDoubleStarsRemovesOnlyStars(s[2..]);
      assert s[1..][1..] == s[2..];
      assert WithoutStars(s) == WithoutStars(s[1..]) == WithoutStars(s[2..]);
    } else if s != [] {
      RemoveDoubleStarsRemovesOnlyStars(s[1..]);
      var r := [s[0]] + RemoveDoubleStars(s[1..]);
      assert r[0] == s[0] && r[1..] == RemoveDoubleStars(s[1..]);
    }
  }

  /** A text with no `**` passes through unchanged. */
  lemma {:induction false} RemoveDoubleStarsWithoutPairs(s: string)
    requires !HasDoubleStar(s)
    ensures RemoveDoubleStars(s) == s
    decreases |s|
  {
    if s != [] {
      forall k | 0 <= k < |s| - 2
        ensures !(s[1..][k] == '*' && s[1..][k + 1] == '*')
      {
        assert s[1..][k] == s[k + 1] && s[1..][k + 1] == s[k + 2];
      }
      if |s| >= 2 {
        assert !(s[0] == '*' && s[1] == '*');
      }
      RemoveDoubleStarsWithoutPairs(s[1..]);
      assert [s[0]] + s[1..] == s;
    }
  }

  // ------------------------------------------------------------ split, join

  /** `s.split(c)` for a one-character separator: the pieces between the separators. */
  function SplitChar(s: string, c: char): (r: seq<string>)
    ensures |r| >= 1
  {
    if |s| == 0 then [""]
    else
      var rest := SplitChar(s[1..], c);
      if s[0] == c then [""] + rest else [[s[0]] + rest[0]] + rest[1..]
  }

  /** `parts.join(sep)`. */
  function Join(parts: seq<string>, sep: string): (r: string)
    ensures |parts| == 0 ==> r == ""
    ensures |parts| >= 1 ==> |parts[0]| <= |r| && r[..|parts[0]|] == parts[0]
  {
    if |parts| == 0 then ""
    else if |parts| == 1 then parts[0]
    else parts[0] + sep + Join(parts[1..], sep)
  }

  /** Joining the pieces of a split with the separator gives back the string. */
  lemma {:induction false} SplitJoinRoundTrip(s: string, c: char)
    ensures Join(SplitChar(s, c), [c]) == s
  {
    if |s| > 0 {
      SplitJoinRoundTrip(s[1..], c);
      var rest := SplitChar(s[1..], c);
      if s[0] == c {
        assert SplitChar(s, c)[1..] == rest;
      } else {
        var r := SplitChar(s, c);
        assert r[1..] == rest[1..];
        if |rest| == 1 {
          assert Join(r, [c]) == [s[0]] + rest[0];
        } else {
          assert Join(r, [c]) == [s[0]] + rest[0] + [c] + Join(rest[1..], [c]);
        }
        assert s == [s[0]] + s[1..];
      }
    }
  }

  /** No piece of a split holds the separator. */
  lemma {:induction false} SplitPiecesLackSeparator(s: string, c: char)
    ensures forall k :: 0 <= k < |SplitChar(s, c)| ==> c !in SplitChar(s, c)[k]
  {
    if |s| > 0 {
      SplitPiecesLackSeparator(s[1..], c);
      var rest := SplitChar(s[1..], c);
      var r := SplitChar(s, c);
      if s[0] == c {
        assert r == [""] + rest;
      } else {
        assert r == [[s[0]] + rest[0]] + rest[1..];
        forall k | 1 <= k < |r|
          ensures c !in r[k]
        {
          assert r[k] == rest[k];
        }
      }
    }
  }

  /** The string with every `a` replaced by `b`. */
  function ReplaceChar(s: string, a: char, b: char): (r: string)
    ensures |r| == |s|
  {
    seq(|s|, k requires 0 <= k < |s| => if s[k] == a then b else s[k])
  }

  /** Splitting on `c` and joining with `d` replaces every `c` by `d`. */
  lemma {:induction false} SplitJoinReplaces(s: string, c: char, d: char)
    ensures Join(SplitChar(s, c), [d]) == ReplaceChar(s, c, d)
  {
    if |s| > 0 {
      SplitJoinReplaces(s[1..], c, d);
      var rest := SplitChar(s[1..], c);
      var r := SplitChar(s, c);
      assert ReplaceChar(s, c, d) == [if s[0] == c then d else s[0]] + ReplaceChar(s[1..], c, d);
      if s[0] == c {
        assert r[1..] == rest;
      } else {
        assert r[1..] == rest[1..];
        if |rest| > 1 {
          assert Join(r, [d]) == [s[0]] + rest[0] + [d] + Join(rest[1..], [d]);
        }
      }
    }
  }

  /** The pieces after the first are the pieces of what follows the first separator. */
  lemma {:induction false} SplitCharTail(s: string, c: char, i: nat)
    requires i < |s| && s[i] == c && c !in s[..i]
    ensures SplitChar(s, c)[0] == s[..i]
    ensures SplitChar(s, c)[1..] == SplitChar(s[i + 1..], c)
  {
    if i > 0 {
      assert s[1..][..i - 1] == s[1..i];
      SplitCharTail(s[1..], c, i - 1);
      assert s[1..][i..] == s[i + 1..];
      assert s[..i] == [s[0]] + s[1..i];
    } else {
      assert s[1..] == s[i + 1..];
    }
  }

  /** With no separator in the string there is a single piece, the string itself. */
  lemma {:induction false} SplitCharNone(s: string, c: char)
    requires c !in s
    ensures SplitChar(s, c) == [s]
  {
    if |s| > 0 {
      assert c !in s[1..];
      SplitCharNone(s[1..], c);
      assert [s[0]] + s[1..] == s;
    }
  }

  // ------------------------------------------------------- decimal numbers

  function DigitChar(d: nat): (c: char)
    requires d < 10
    ensures '0' <= c <= '9'
  {
    ('0' as int + d) as char
  }

  /** The decimal digits of a natural number, without leading zeros. */
  function NatText(n: nat): (r: string)
    ensures |r| >= 1 && forall k :: 0 <= k < |r| ==> '0' <= r[k] <= '9'
    ensures r[0] == '0' <==> n == 0
    ensures |r| == 1 <==> n < 10
  {
    if n < 10 then [DigitChar(n)] else NatText(n / 10) + [DigitChar(n % 10)]
  }

  /** `${n}` for a whole number: its decimal digits, after a minus sign when negative. */
  function IntText(n: int): (r: string)
    ensures |r| >= 1
    ensures (r[0] == '-') <==> n < 0
  {
    if n < 0 then "-" + NatText(-n) else NatText(n)
  }

  function ParseNat(s: string): nat {
    if s == [] then 0
    else ParseNat(s[..|s| - 1]) * 10 + (if '0' <= s[|s| - 1] <= '9' then (s[|s| - 1] - '0') as nat else 0)
  }

  function ParseInt(s: string): int {
    if |s| > 0 && s[0] == '-' then -(ParseNat(s[1..]) as int) else ParseNat(s)
  }

  lemma {:induction false} NatTextRoundTrip(n: nat)
    ensures ParseNat(NatText(n)) == n
  {
    if n >= 10 {
      NatTextRoundTrip(n / 10);
      var s := NatText(n);
      assert s[..|s| - 1] == NatText(n / 10);
      assert s[|s| - 1] == DigitChar(n % 10);
    } else {
      assert ParseNat([DigitChar(n)]) == ParseNat([]) * 10 + n;
    }
  }

  /** The decimal text of a whole number reads back as that number. */
  lemma {:induction false} IntTextRoundTrip(n: int)
    ensures ParseInt(IntText(n)) == n
  {
    var s := IntText(n);
    if n < 0 {
      var t := NatText(-n);
      assert s[1..] == t;
      NatTextRoundTrip(-n);
      assert ParseInt(s) == -(ParseNat(t) as int);
    } else {
      NatTextRoundTrip(n);
      assert ParseInt(s) == ParseNat(NatText(n));
    }
  }
}
