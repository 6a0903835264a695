/** String primitives the scripts take from Python's `str`: whitespace,
    `split()`/`join`, `strip`, substring search, ASCII case mapping and
    decimal rendering of counters. Strings are sequences of Unicode code
    points, as in Python 3. */
module Text {

  /** `str.isspace()` for one character: exactly the code points Python 3
      treats as whitespace (also what `\s` matches in a `str` pattern). */
  predicate IsSpace(c: char) {
    || ('\t' <= c <= '\r')
    || ('\U{1C}' <= c <= ' ')
    || c == '\U{85}' || c == '\U{A0}' || c == '\U{1680}'
    || ('\U{2000}' <= c <= '\U{200A}')
    || c == '\U{2028}' || c == '\U{2029}' || c == '\U{202F}'
    || c == '\U{205F}' || c == '\U{3000}'
  }

  predicate NoSpace(s: string) {
    forall i :: 0 <= i < |s| ==> !IsSpace(s[i])
  }

  predicate All(s: string, p: char -> bool) {
    forall i :: 0 <= i < |s| ==> p(s[i])
  }

  /** The longest prefix of `s` free of whitespace. */
  function WordPrefix(s: string): (w: string)
    ensures w <= s && NoSpace(w)
    ensures |w| == |s| || IsSpace(s[|w|])
  {
    if s == [] || IsSpace(s[0]) then [] else [s[0]] + WordPrefix(s[1..])
  }

  /** `s.split()` with no separator: the maximal runs of non-whitespace,
      in order, with empty strings never produced. */
  function Words(s: string): (ws: seq<string>)
    ensures forall i :: 0 <= i < |ws| ==> ws[i] != [] && NoSpace(ws[i])
    decreases |s|
  {
    if s == [] then []
    else if IsSpace(s[0]) then Words(s[1..])
    else
      var w := WordPrefix(s);
      [w] + Words(s[|w|..])
  }

  /** A whitespace character splits: the words of `a + [c] + b` are the
      words of `a` followed by the words of `b`. */
  lemma WordsSplit(a: string, c: char, b: string)
    requires IsSpace(c)
    ensures Words(a + [c] + b) == Words(a) + Words(b)
  {
    var t := [c] + b;
    assert a + [c] + b == a + t && t[1..] == b;
    WordsSplitAt(a, t);
  }

  lemma {:induction false} WordsSplitAt(a: string, t: string)
    requires t != [] && IsSpace(t[0])
    ensures Words(a + t) == Words(a) + Words(t[1..])
    decreases |a|, 1
  {
    if a == [] {
      assert a + t == t;
      WordsSpaceFirst(t);
    } else if IsSpace(a[0]) {
      WordsSplitAfterSpace(a, t);
    } else {
      WordsSplitAfterWord(a, t);
    }
  }

  lemma {:induction false} WordsSplitAfterSpace(a: string, t: string)
    requires t != [] && IsSpace(t[0]) && a != [] && IsSpace(a[0])
    ensures Words(a + t) == Words(a) + Words(t[1..])
    decreases |a|, 0
  {
    var a' := a[1..];
    WordsSpaceFirst(a);
    WordsSpaceFirst(a + t);
    assert (a + t)[1..] == a' + t;
    WordsSplitAt(a', t);
  }

  lemma {:induction false} WordsSplitAfterWord(a: string, t: string)
    requires t != [] && IsSpace(t[0]) && a != [] && !IsSpace(a[0])
    ensures Words(a + t) == Words(a) + Words(t[1..])
    decreases |a|, 0
  {
    var w := WordPrefix(a);
    var a' := a[|w|..];
    WordsWordFirst(a);
    WordPrefixSpace(a, t);
    SliceAppend(a, t, |w|);
    WordsAfterPrefix(a + t, w, a' + t);
    WordsSplitAt(a', t);
  }

  lemma SliceAppend(a: string, t: string, k: nat)
    requires k <= |a|
    ensures (a + t)[k..] == a[k..] + t
  {
  }

  lemma WordsAfterPrefix(s: string, w: string, rest: string)
    requires s != [] && !IsSpace(s[0]) && WordPrefix(s) == w && s[|w|..] == rest
    ensures Words(s) == [w] + Words(rest)
  {
  }

  lemma WordsSpaceFirst(s: string)
    requires s != [] && IsSpace(s[0])
    ensures Words(s) == Words(s[1..])
  {
  }

  lemma WordsWordFirst(s: string)
    requires s != [] && !IsSpace(s[0])
    ensures |WordPrefix(s)| >= 1
    ensures Words(s) == [WordPrefix(s)] + Words(s[|WordPrefix(s)|..])
  {
  }

  /** The first word of `a + t` lies within `a` when `t` starts with
      whitespace. */
  lemma {:induction false} WordPrefixSpace(a: string, t: string)
    requires t != [] && IsSpace(t[0])
    ensures WordPrefix(a + t) == WordPrefix(a)
    decreases |a|
  {
    if a == [] {
      assert a + t == t;
    } else if !IsSpace(a[0]) {
      assert (a + t)[1..] == a[1..] + t;
      WordPrefixSpace(a[1..], t);
    }
  }

  /** A non-empty string free of whitespace is a single word. */
  lemma {:induction false} WordsSingle(w: string)
    requires w != [] && NoSpace(w)
    ensures Words(w) == [w]
  {
    WordPrefixWhole(w);
    assert w[|w|..] == [];
  }

  lemma {:induction false} WordPrefixWhole(w: string)
    requires NoSpace(w)
    ensures WordPrefix(w) == w
  {
    if w != [] {
      WordPrefixWhole(w[1..]);
    }
  }

  /** `s` with every character failing `keep` removed. */
  function Select(s: string, keep: char -> bool): (r: string)
    ensures |r| <= |s|
    ensures All(r, keep)
  {
    if s == [] then []
    else (if keep(s[0]) then [s[0]] else []) + Select(s[1..], keep)
  }

  function Concat(ws: seq<string>): string {
    if ws == [] then [] else ws[0] + Concat(ws[1..])
  }

  /** Reference meaning of `split()`: gluing the words back together gives
      the string with all its whitespace removed. */
  lemma {:induction false} WordsKeepEveryOtherChar(s: string)
    ensures Concat(Words(s)) == Select(s, c => !IsSpace(c))
    decreases |s|
  {
    if s == [] {
    } else if IsSpace(s[0]) {
      WordsKeepEveryOtherChar(s[1..]);
    } else {
      var w := WordPrefix(s);
      WordPrefixSelect(s);
      WordsKeepEveryOtherChar(s[|w|..]);
    }
  }

  lemma {:induction false} WordPrefixSelect(s: string)
    ensures Select(s, c => !IsSpace(c)) == WordPrefix(s) + Select(s[|WordPrefix(s)|..], c => !IsSpace(c))
  {
    if s != [] && !IsSpace(s[0]) {
      WordPrefixSelect(s[1..]);
      assert s[1..][|WordPrefix(s[1..])|..] == s[|WordPrefix(s)|..];
    }
  }

  /** `sep.join(ws)`. */
  function Join(ws: seq<string>, sep: string): string {
    if ws == [] then []
    else if |ws| == 1 then ws[0]
    else ws[0] + sep + Join(ws[1..], sep)
  }

  /** Joining strings that all satisfy `p` with a separator that satisfies
      `p` gives a string every character of which satisfies `p`. */
  lemma {:induction false} JoinAll(ws: seq<string>, sep: string, p: char -> bool)
    requires forall i :: 0 <= i < |ws| ==> All(ws[i], p)
    requires All(sep, p)
    ensures All(Join(ws, sep), p)
  {
    if |ws| > 1 {
      JoinAll(ws[1..], sep, p);
      var rest := Join(ws[1..], sep);
      assert Join(ws, sep) == ws[0] + sep + rest;
      forall i | 0 <= i < |Join(ws, sep)|
        ensures p(Join(ws, sep)[i])
      {
        if i < |ws[0]| {
          assert Join(ws, sep)[i] == ws[0][i];
        } else if i < |ws[0]| + |sep| {
          assert Join(ws, sep)[i] == sep[i - |ws[0]|];
        } else {
          assert Join(ws, sep)[i] == rest[i - |ws[0]| - |sep|];
        }
      }
    }
  }

  lemma AllSlice(s: string, i: nat, j: nat, p: char -> bool)
    requires i <= j <= |s| && All(s, p)
    ensures All(s[i..j], p)
  {
    forall k | 0 <= k < j - i ensures p(s[i..j][k]) {
      assert s[i..j][k] == s[i + k];
    }
  }

  /** `s.lstrip(chars)`: drops the longest prefix made of characters in `drop`. */
  function TrimLeft(s: string, drop: char -> bool): (r: string)
    ensures |r| <= |s|
  {
    if s != [] && drop(s[0]) then TrimLeft(s[1..], drop) else s
  }

  /** `lstrip` keeps a suffix, removes only dropped characters, and stops at
      the first character it must keep. */
  lemma {:induction false} TrimLeftShape(s: string, drop: char -> bool)
    ensures var r := TrimLeft(s, drop);
      && |r| <= |s| && r == s[|s| - |r|..]
      && (forall i :: 0 <= i < |s| - |r| ==> drop(s[i]))
      && (r == [] || !drop(r[0]))
  {
    if s != [] && drop(s[0]) {
      TrimLeftShape(s[1..], drop);
    }
  }

  /** `s.rstrip(chars)`: drops the longest suffix made of characters in `drop`. */
  function TrimRight(s: string, drop: char -> bool): string {
    if s != [] && drop(s[|s| - 1]) then TrimRight(s[..|s| - 1], drop) else s
  }

  /** `rstrip` keeps a prefix, removes only dropped characters, and stops at
      the last character it must keep. */
  lemma {:induction false} TrimRightShape(s: string, drop: char -> bool)
    ensures var r := TrimRight(s, drop);
      && |r| <= |s| && r == s[..|r|]
      && (forall i :: |r| <= i < |s| ==> drop(s[i]))
      && (r == [] || !drop(r[|r| - 1]))
  {
    if s != [] && drop(s[|s| - 1]) {
      TrimRightShape(s[..|s| - 1], drop);
    }
  }

  /** `s.strip(chars)`; with `drop := IsSpace` it is `s.strip()`. */
  function Strip(s: string, drop: char -> bool): string {
    TrimRight(TrimLeft(s, drop), drop)
  }

  /** `strip` keeps the piece of `s` that starts after the dropped prefix:
      everything before and after that piece is a dropped character, and
      the piece's two ends are kept characters. */
  lemma StripShape(s: string, drop: char -> bool)
    ensures var r := Strip(s, drop); var k := |s| - |TrimLeft(s, drop)|;
      && |r| <= |s|
      && OccursAt(s, r, k)
      && (forall i :: 0 <= i < k ==> drop(s[i]))
      && (forall i :: k + |r| <= i < |s| ==> drop(s[i]))
      && (r == [] || (!drop(r[0]) && !drop(r[|r| - 1])))
  {
    var l := TrimLeft(s, drop);
    var r := TrimRight(l, drop);
    var k := |s| - |l|;
    TrimLeftShape(s, drop);
    TrimRightShape(l, drop);
    assert OccursAt(s, r, k);
    forall i | k + |r| <= i < |s| ensures drop(s[i]) {
      assert s[i] == l[i - k];
    }
  }

  predicate OccursAt(s: string, p: string, i: nat) {
    i + |p| <= |s| && s[i..i + |p|] == p
  }

  /** Python's `p in s` for strings, as a left-to-right search. */
  predicate Contains(s: string, p: string)
    decreases |s|
  {
    p <= s || (s != [] && Contains(s[1..], p))
  }

  /** The search finds `p` exactly when `p` occurs at some position of `s`. */
  lemma {:induction false} ContainsIff(s: string, p: string)
    ensures Contains(s, p) <==> exists i: nat :: OccursAt(s, p, i)
    decreases |s|
  {
    OccursAtStart(s, p);
    if p <= s {
    } else if s == [] {
      forall i: nat ensures !OccursAt(s, p, i) {}
    } else {
      ContainsIff(s[1..], p);
      if exists i: nat :: OccursAt(s[1..], p, i) {
        var i: nat :| OccursAt(s[1..], p, i);
        OccursShift(s, p, i);
      }
      if exists i: nat :: OccursAt(s, p, i) {
        var i: nat :| OccursAt(s, p, i);
        assert i != 0;
        OccursShift(s, p, i - 1);
      }
    }
  }

  lemma OccursAtStart(s: string, p: string)
    ensures OccursAt(s, p, 0) <==> p <= s
  {
  }

  lemma OccursShift(s: string, p: string, i: nat)
    requires s != []
    ensures OccursAt(s[1..], p, i) <==> OccursAt(s, p, i + 1)
  {
    if i + |p| <= |s[1..]| {
      assert s[1..][i..i + |p|] == s[i + 1..i + 1 + |p|];
    }
  }

  predicate IsAsciiUpper(c: char) { 'A' <= c <= 'Z' }
  predicate IsAsciiLower(c: char) { 'a' <= c <= 'z' }
  predicate IsAsciiDigit(c: char) { '0' <= c <= '9' }

  function LowerChar(c: char): (d: char)
    ensures !IsAsciiUpper(d)
  {
    if IsAsciiUpper(c) then (c as int - 'A' as int + 'a' as int) as char else c
  }

  /** `s.lower()` restricted to ASCII letters; other characters are kept. */
  function Lower(s: string): (r: string)
    ensures |r| == |s|
    ensures forall i :: 0 <= i < |s| ==> r[i] == LowerChar(s[i])
  {
    seq(|s|, i requires 0 <= i < |s| => LowerChar(s[i]))
  }

  function DigitChar(d: nat): (c: char)
    requires d < 10
    ensures IsAsciiDigit(c)
  {
    ('0' as int + d) as char
  }

  /** `str(n)` for a natural number: its decimal digits, most significant first. */
  function NatToString(n: nat): (s: string)
    ensures s != [] && All(s, IsAsciiDigit)
  {
    if n < 10 then [DigitChar(n)] else NatToString(n / 10) + [DigitChar(n % 10)]
  }

  /** The value of a string of decimal digits (the inverse of NatToString). */
  function DecimalValue(s: string): nat
    requires All(s, IsAsciiDigit)
  {
    if s == [] then 0
    else DecimalValue(s[..|s| - 1]) * 10 + (s[|s| - 1] as int - '0' as int)
  }

  lemma {:induction false} DecimalRoundTrip(n: nat)
    ensures DecimalValue(NatToString(n)) == n
  {
    if n >= 10 {
      DecimalRoundTrip(n / 10);
      var s := NatToString(n);
      assert s[..|s| - 1] == NatToString(n / 10);
    }
  }

  /** Distinct counters render as distinct strings. */
  lemma NatToStringInjective(a: nat, b: nat)
    requires NatToString(a) == NatToString(b)
    ensures a == b
  {
    DecimalRoundTrip(a);
    DecimalRoundTrip(b);
  }
}
