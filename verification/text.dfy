/**
 The handful of Python `str` operations the console's logic relies on, over
 `string` (= `seq<char>`): `isspace`, `strip`, `split(sep)`, `split()`,
 `lower`, the `in` substring test, and decimal rendering of an `int` as done
 by an f-string.
 */
module Text {

  /** Python's `str.isspace` on one character: the whitespace that both
      `strip()` and `split()` without arguments remove. */
  predicate IsSpace(c: char) {
    || ('\t' <= c <= '\r') || ('\U{1c}' <= c <= ' ')
    || c == '\U{85}' || c == '\U{a0}' || c == '\U{1680}'
    || ('\U{2000}' <= c <= '\U{200a}') || c == '\U{2028}' || c == '\U{2029}'
    || c == '\U{202f}' || c == '\U{205f}' || c == '\U{3000}'
  }

  predicate AllSpace(s: string) {
    forall k :: 0 <= k < |s| ==> IsSpace(s[k])
  }

  /** A word: non-empty and free of whitespace. */
  predicate IsWord(w: string) {
    |w| > 0 && forall k :: 0 <= k < |w| ==> !IsSpace(w[k])
  }

  /** Non-empty, with no whitespace at either end: what `strip` leaves. */
  predicate Trimmed(s: string) {
    s != [] && !IsSpace(s[0]) && !IsSpace(s[|s| - 1])
  }

  // ---------------------------------------------------------------- strip

  /** Number of whitespace characters at the front of `s`. */
  function LeadingSpaces(s: string): (n: nat)
    ensures n <= |s|
    ensures AllSpace(s[..n])
    ensures n < |s| ==> !IsSpace(s[n])
  {
    if |s| > 0 && IsSpace(s[0]) then
      var m := LeadingSpaces(s[1..]);
      assert s[1..][..m] == s[1..m + 1];
      1 + m
    else 0
  }

  /** Number of whitespace characters at the end of `s`. */
  function TrailingSpaces(s: string): (n: nat)
    ensures n <= |s|
    ensures AllSpace(s[|s| - n..])
    ensures n < |s| ==> !IsSpace(s[|s| - n - 1])
  {
    if |s| > 0 && IsSpace(s[|s| - 1]) then
      var m := TrailingSpaces(s[..|s| - 1]);
      1 + m
    else 0
  }

  /** Where `strip` cuts `s`: from its first non-whitespace character to
      just past its last one, with only whitespace outside the cut. */
  function StripBounds(s: string): (b: (nat, nat))
    ensures b.0 <= b.1 <= |s|
    ensures AllSpace(s[..b.0]) && AllSpace(s[b.1..])
    ensures b.0 < b.1 ==> !IsSpace(s[b.0]) && !IsSpace(s[b.1 - 1])
    ensures b.0 == b.1 ==> AllSpace(s)
  {
    var i := LeadingSpaces(s);
    var t := s[i..];
    var j := TrailingSpaces(t);
    SuffixOfSuffix(s, i, |t| - j);
    assert j == |t| ==> AllSpace(s) by {
      if j == |t| {
        AllSpaceSplit(s, i);
      }
    }
    (i, i + (|t| - j))
  }

  /** Python `s.strip()`: `s` without its leading and trailing whitespace. */
  function Strip(s: string): (r: string)
    ensures |r| <= |s|
    ensures r == [] <==> AllSpace(s)
    ensures r != [] ==> !IsSpace(r[0]) && !IsSpace(r[|r| - 1])
  {
    var b := StripBounds(s);
    s[b.0..b.1]
  }

  /** A non-empty sequence is its head followed by its tail. */
  lemma HeadTail<T>(s: seq<T>)
    requires |s| > 0
    ensures s == [s[0]] + s[1..]
  {
  }

  /** A suffix of a suffix is a suffix of the whole. */
  lemma SuffixOfSuffix<T>(s: seq<T>, i: nat, a: nat)
    requires i <= |s| && a <= |s| - i
    ensures s[i..][a..] == s[i + a..]
  {
  }

  /** A string is all whitespace exactly when both sides of any cut are. */
  lemma AllSpaceSplit(s: string, i: nat)
    requires i <= |s|
    ensures AllSpace(s) <==> AllSpace(s[..i]) && AllSpace(s[i..])
  {
    if AllSpace(s[..i]) && AllSpace(s[i..]) {
      forall k | 0 <= k < |s| ensures IsSpace(s[k]) {
        if k < i { assert s[k] == s[..i][k]; } else { assert s[k] == s[i..][k - i]; }
      }
    }
  }

  /** What `strip` removes is whitespace at the two ends and nothing else. */
  lemma StripSlice(s: string)
    ensures var r := Strip(s);
            exists i :: 0 <= i <= |s| - |r| && r == s[i..i + |r|]
                        && AllSpace(s[..i]) && AllSpace(s[i + |r|..])
  {
    var b := StripBounds(s);
    assert Strip(s) == s[b.0..b.1];
    assert b.0 + |Strip(s)| == b.1;
  }

  /** Stripping a string that already starts and ends with a non-space
      character gives it back unchanged. */
  lemma StripOfTrimmed(s: string)
    requires Trimmed(s)
    ensures Strip(s) == s
  {
    var r := Strip(s);
    StripSlice(s);
    var i :| 0 <= i <= |s| - |r| && r == s[i..i + |r|]
             && AllSpace(s[..i]) && AllSpace(s[i + |r|..]);
    assert !AllSpace(s[..1]);
  }

  // ------------------------------------------------------- split(sep)

  /** Inverse of `Split`: the pieces glued back with the separator. */
  function Join(parts: seq<string>, sep: char): string
  {
    if |parts| == 0 then ""
    else if |parts| == 1 then parts[0]
    else parts[0] + [sep] + Join(parts[1..], sep)
  }

  /** Python `s.split(sep)` for a one-character separator: never empty, no
      piece holds the separator, and joining the pieces rebuilds `s`. */
  function Split(s: string, sep: char): (r: seq<string>)
    ensures |r| >= 1
    ensures forall k :: 0 <= k < |r| ==> sep !in r[k]
    ensures Join(r, sep) == s
  {
    if |s| == 0 then [""]
    else
      var rest := Split(s[1..], sep);
      if s[0] == sep then
        assert s == [sep] + s[1..];
        [""] + rest
      else
        var r := [[s[0]] + rest[0]] + rest[1..];
        assert r[1..] == rest[1..];
        assert s == [s[0]] + s[1..];
        r
  }

  /** Splitting a joined sequence of separator-free pieces gives the pieces
      back: `Split` and `Join` are inverse. */
  lemma {:induction false} SplitJoin(parts: seq<string>, sep: char)
    requires |parts| >= 1
    requires forall k :: 0 <= k < |parts| ==> sep !in parts[k]
    ensures Split(Join(parts, sep), sep) == parts
  {
    if |parts| == 1 {
      SplitOfSepFree(parts[0], sep);
    } else {
      SplitJoin(parts[1..], sep);
      SplitPrefix(parts[0], Join(parts[1..], sep), sep);
      assert parts == [parts[0]] + parts[1..];
    }
  }

  /** A string without the separator splits into itself alone. */
  lemma {:induction false} SplitOfSepFree(s: string, sep: char)
    requires sep !in s
    ensures Split(s, sep) == [s]
  {
    if |s| > 0 {
      SplitOfSepFree(s[1..], sep);
      assert s == [s[0]] + s[1..];
    }
  }

  /** Splitting `w + [sep] + t`, where `w` has no separator, puts `w` in
      front of the pieces of `t`. */
  lemma {:induction false} SplitPrefix(w: string, t: string, sep: char)
    requires sep !in w
    ensures Split(w + [sep] + t, sep) == [w] + Split(t, sep)
  {
    if |w| == 0 {
      assert ([sep] + t)[1..] == t;
    } else {
      SplitPrefix(w[1..], t, sep);
      assert (w + [sep] + t)[1..] == w[1..] + [sep] + t;
      assert [w[0]] + w[1..] == w;
    }
  }

  /** A character found in none of the pieces, other than the separator,
      is not in their join. */
  lemma {:induction false} JoinAvoids(parts: seq<string>, sep: char, c: char)
    requires c != sep
    requires forall k :: 0 <= k < |parts| ==> c !in parts[k]
    ensures c !in Join(parts, sep)
  {
    if |parts| > 1 {
      JoinAvoids(parts[1..], sep, c);
    }
  }

  /** Joining trimmed pieces gives a trimmed string. */
  lemma {:induction false} JoinTrimmed(parts: seq<string>, sep: char)
    requires |parts| >= 1
    requires forall k :: 0 <= k < |parts| ==> Trimmed(parts[k])
    ensures Trimmed(Join(parts, sep))
  {
    if |parts| > 1 {
      JoinTrimmed(parts[1..], sep);
      var j := Join(parts, sep);
      assert j == parts[0] + [sep] + Join(parts[1..], sep);
      assert j[0] == parts[0][0];
    }
  }

  // ---------------------------------------------------------- split()

  /** The maximal run of non-space characters at the front of `s`. */
  function WordPrefix(s: string): (n: nat)
    ensures n <= |s|
    ensures forall k :: 0 <= k < n ==> !IsSpace(s[k])
    ensures n < |s| ==> IsSpace(s[n])
  {
    if |s| > 0 && !IsSpace(s[0]) then 1 + WordPrefix(s[1..]) else 0
  }

  /** Where the first word of `s` lies: after the leading whitespace, up to
      the next whitespace character. It starts at the end exactly when `s`
      is all whitespace. */
  function NextWord(s: string): (b: (nat, nat))
    ensures b.0 <= b.1 <= |s|
    ensures b.0 == |s| <==> AllSpace(s)
    ensures b.0 < |s| ==> IsWord(s[b.0..b.1])
  {
    var i := LeadingSpaces(s);
    var t := s[i..];
    var n := WordPrefix(t);
    assert i == |s| ==> AllSpace(s) by {
      if i == |s| {
        assert s == s[..i];
      }
    }
    assert i < |s| ==> t[..n] == s[i..i + n] && n > 0 by {
      if i < |s| {
        assert t[0] == s[i];
      }
    }
    (i, i + n)
  }

  /** Python `s.split()` with no argument: the whitespace-separated words of
      `s`, with no empty strings. */
  function Fields(s: string): (r: seq<string>)
    ensures forall k :: 0 <= k < |r| ==> IsWord(r[k])
    ensures AllSpace(s) ==> r == []
    decreases |s|
  {
    var b := NextWord(s);
    if b.0 == |s| then []
    else [s[b.0..b.1]] + Fields(s[b.1..])
  }

  /** `split()` undoes a single-space join of words: the partner of `Fields`. */
  lemma {:induction false} FieldsJoin(words: seq<string>)
    requires forall k :: 0 <= k < |words| ==> IsWord(words[k])
    ensures Fields(Join(words, ' ')) == words
  {
    if |words| == 1 {
      FieldsOfWordThen(words[0], "");
      assert words[0] + "" == words[0];
    } else if |words| > 1 {
      var w := words[0];
      var rest := Join(words[1..], ' ');
      assert Join(words, ' ') == w + ([' '] + rest) by {
        assert w + [' '] + rest == w + ([' '] + rest);
      }
      FieldsOfWordThen(w, [' '] + rest);
      FieldsSkipSpace(rest);
      FieldsJoin(words[1..]);
      HeadTail(words);
    }
  }

  /** A word followed by nothing or by whitespace is the first field. */
  lemma FieldsOfWordThen(w: string, t: string)
    requires IsWord(w)
    requires t == [] || IsSpace(t[0])
    ensures Fields(w + t) == [w] + Fields(t)
  {
    var s := w + t;
    assert LeadingSpaces(s) == 0 by { assert s[0] == w[0]; }
    assert s[0..] == s;
    WordPrefixOfWord(w, t);
    assert NextWord(s) == (0, |w|);
    assert s[0..|w|] == w;
    assert s[|w|..] == t;
  }

  /** The word prefix of `w + t` is exactly `w` when `t` is empty or starts
      with a space. */
  lemma {:induction false} WordPrefixOfWord(w: string, t: string)
    requires IsWord(w)
    requires t == [] || IsSpace(t[0])
    ensures WordPrefix(w + t) == |w|
  {
    if |w| == 1 {
      assert (w + t)[1..] == t;
    } else {
      assert (w + t)[1..] == w[1..] + t;
      WordPrefixOfWord(w[1..], t);
    }
  }

  /** A leading space shifts the first word by one position. */
  lemma NextWordSkipSpace(s: string)
    ensures NextWord([' '] + s) == (1 + NextWord(s).0, 1 + NextWord(s).1)
  {
    var t := [' '] + s;
    assert t[1..] == s;
    var n := LeadingSpaces(s);
    assert LeadingSpaces(t) == 1 + n;
    ConsSlice(' ', s, n, |s|);
    assert t[1 + n..] == s[n..];
  }

  /** A leading space does not change the words of a string. */
  lemma FieldsSkipSpace(s: string)
    ensures Fields([' '] + s) == Fields(s)
  {
    var t := [' '] + s;
    var b := NextWord(s);
    NextWordSkipSpace(s);
    var c := NextWord(t);
    assert c.0 == 1 + b.0 && c.1 == 1 + b.1;
    if b.0 < |s| {
      ConsSlice(' ', s, b.0, b.1);
      ConsSlice(' ', s, b.1, |s|);
      assert t[c.0..c.1] == s[b.0..b.1] && t[c.1..] == s[b.1..];
      assert Fields(t) == [t[c.0..c.1]] + Fields(t[c.1..]);
      assert Fields(s) == [s[b.0..b.1]] + Fields(s[b.1..]);
    } else {
      assert Fields(t) == [] && Fields(s) == [];
    }
  }

  /** Slicing behind a prepended element is slicing the original. */
  lemma ConsSlice<T>(x: T, s: seq<T>, a: nat, c: nat)
    requires a <= c <= |s|
    ensures ([x] + s)[1 + a..1 + c] == s[a..c]
    ensures c == |s| ==> ([x] + s)[1 + a..] == s[a..]
  {
  }

  // ------------------------------------------------------------- lower

  /** ASCII lower-casing of one character. */
  function LowerChar(c: char): (d: char)
    ensures 'A' <= c <= 'Z' ==> 'a' <= d <= 'z'
    ensures !('A' <= c <= 'Z') ==> d == c
  {
    if 'A' <= c <= 'Z' then (c as int + 32) as char else c
  }

  /** `s.lower()` on the ASCII letters; every other character is kept. */
  function Lower(s: string): (r: string)
    ensures |r| == |s|
    ensures forall k :: 0 <= k < |s| ==> r[k] == LowerChar(s[k])
  {
    seq(|s|, k requires 0 <= k < |s| => LowerChar(s[k]))
  }

  /** Lower-casing twice is lower-casing once. */
  lemma LowerIdempotent(s: string)
    ensures Lower(Lower(s)) == Lower(s)
  {
  }

  // --------------------------------------------------------- substring

  predicate StartsWith(s: string, prefix: string) {
    |prefix| <= |s| && s[..|prefix|] == prefix
  }

  ghost predicate OccursAt(s: string, sub: string, i: int) {
    0 <= i <= |s| - |sub| && s[i..i + |sub|] == sub
  }

  /** Python `sub in s`. */
  function Contains(s: string, sub: string): (r: bool)
    ensures r <==> exists i :: OccursAt(s, sub, i)
  {
    ContainsStep(s, sub);
    if StartsWith(s, sub) then true
    else if |s| == 0 then false
    else Contains(s[1..], sub)
  }

  /** An occurrence is either at the front or in the tail. */
  lemma ContainsStep(s: string, sub: string)
    ensures (exists i :: OccursAt(s, sub, i)) <==>
            StartsWith(s, sub) || (|s| > 0 && exists i :: OccursAt(s[1..], sub, i))
  {
    if StartsWith(s, sub) {
      assert OccursAt(s, sub, 0);
    }
    if |s| > 0 {
      forall i | OccursAt(s[1..], sub, i) ensures OccursAt(s, sub, i + 1) {
        assert s[i + 1..i + 1 + |sub|] == s[1..][i..i + |sub|];
      }
      forall i | OccursAt(s, sub, i) && i > 0 ensures OccursAt(s[1..], sub, i - 1) {
        assert 0 <= i - 1 <= |s[1..]| - |sub|;
        assert s[1..][i - 1..i - 1 + |sub|] == s[i..i + |sub|];
      }
    }
  }

  // ----------------------------------------------------------- decimal

  function DigitChar(d: nat): (c: char)
    requires d < 10
    ensures '0' <= c <= '9' && c as int - '0' as int == d
  {
    ('0' as int + d) as char
  }

  /** Decimal digits of `n`, as `str(n)` renders a non-negative int. */
  function NatToString(n: nat): (s: string)
    ensures |s| >= 1
    ensures forall k :: 0 <= k < |s| ==> '0' <= s[k] <= '9'
    ensures |s| > 1 ==> s[0] != '0'
  {
    if n < 10 then [DigitChar(n)]
    else NatToString(n / 10) + [DigitChar(n % 10)]
  }

  /** Value of a string of decimal digits. */
  function DecimalValue(s: string): nat
    requires forall k :: 0 <= k < |s| ==> '0' <= s[k] <= '9'
  {
    if |s| == 0 then 0
    else 10 * DecimalValue(s[..|s| - 1]) + (s[|s| - 1] as int - '0' as int)
  }

  /** Reading back the rendered digits yields the number. */
  lemma {:induction false} DecimalRoundTrip(n: nat)
    ensures DecimalValue(NatToString(n)) == n
  {
    var s := NatToString(n);
    if n >= 10 {
      var q, d := n / 10, n % 10;
      DecimalRoundTrip(q);
      assert s == NatToString(q) + [DigitChar(d)];
      assert s[..|s| - 1] == NatToString(q);
      assert s[|s| - 1] as int - '0' as int == d;
      assert DecimalValue(s) == 10 * q + d;
    } else {
      assert s == [DigitChar(n)];
    }
  }
}
