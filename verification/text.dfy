/** The fragment of Python's `str` behaviour the agent relies on: whitespace
    classification, `strip`, `startswith`, `in`, `split` on one separator,
    `join`, `lower`, `replace(x, "")` and `str(n)` for natural numbers. */
module Text {
  import opened Wrappers

  /** Python truthiness of an optional string: present and non-empty. */
  predicate Truthy(o: Option<string>) {
    o.Some? && o.value != ""
  }

  /** `str.isspace()` on one character, which is also what the regular
      expression class `\s` matches in a `str` pattern. */
  predicate IsSpace(c: char) {
    var n := c as int;
    (9 <= n <= 13) || (28 <= n <= 32) || n == 0x85 || n == 0xA0 || n == 0x1680
    || (0x2000 <= n <= 0x200A) || n == 0x2028 || n == 0x2029 || n == 0x202F
    || n == 0x205F || n == 0x3000
  }

  predicate AllSpace(s: string) {
    forall i :: 0 <= i < |s| ==> IsSpace(s[i])
  }

  /** Neither end of `s` is whitespace: the shape of every stripped string. */
  predicate Trimmed(s: string) {
    s == [] || (!IsSpace(s[0]) && !IsSpace(s[|s| - 1]))
  }

  /** `s.lstrip()`. */
  function LStrip(s: string): (r: string)
    ensures |r| <= |s|
    ensures r == [] || !IsSpace(r[0])
  {
    if |s| > 0 && IsSpace(s[0]) then LStrip(s[1..]) else s
  }

  /** `s.lstrip()` is the suffix left after dropping leading whitespace. */
  lemma {:induction false} LStripShape(s: string)
    ensures var r := LStrip(s);
      |r| <= |s| && r == s[|s| - |r|..] && AllSpace(s[..|s| - |r|]) && (r == [] || !IsSpace(r[0]))
    decreases |s|
  {
    if |s| > 0 && IsSpace(s[0]) {
      LStripShape(s[1..]);
      var r := LStrip(s[1..]);
      assert s[1..][|s[1..]| - |r|..] == s[|s| - |r|..];
      assert s[..|s| - |r|] == [s[0]] + s[1..][..|s[1..]| - |r|];
    }
  }

  /** `s.rstrip()`. */
  function RStrip(s: string): (r: string)
    ensures |r| <= |s|
    ensures r == [] || !IsSpace(r[|r| - 1])
  {
    if |s| > 0 && IsSpace(s[|s| - 1]) then RStrip(s[..|s| - 1]) else s
  }

  /** `s.rstrip()` is the prefix left after dropping trailing whitespace. */
  lemma {:induction false} RStripShape(s: string)
    ensures var r := RStrip(s);
      |r| <= |s| && r == s[..|r|] && AllSpace(s[|r|..]) && (r == [] || !IsSpace(r[|r| - 1]))
    decreases |s|
  {
    if |s| > 0 && IsSpace(s[|s| - 1]) {
      var t := s[..|s| - 1];
      RStripShape(t);
      var r := RStrip(t);
      assert t[..|r|] == s[..|r|];
      assert s[|r|..] == t[|r|..] + [s[|s| - 1]];
    }
  }

  /** `s` is whitespace, then `r` from index `i`, then whitespace. */
  predicate SurroundedAt(s: string, r: string, i: int) {
    0 <= i <= |s| - |r| && s[i..i + |r|] == r
    && AllSpace(s[..i]) && AllSpace(s[i + |r|..])
  }

  /** `r` is what remains of `s` once surrounding whitespace is cut off. */
  ghost predicate IsStripOf(s: string, r: string) {
    Trimmed(r) && exists i :: SurroundedAt(s, r, i)
  }

  /** `s.strip()`. */
  function Strip(s: string): (r: string)
    ensures Trimmed(r)
  {
    assert Trimmed(RStrip(LStrip(s))) by {
      LStripShape(s);
      RStripShape(LStrip(s));
    }
    RStrip(LStrip(s))
  }

  /** `s.strip()` is `s` with its surrounding whitespace cut off. */
  lemma StripIsStripOf(s: string)
    ensures IsStripOf(s, Strip(s))
  {
    var l := LStrip(s);
    var r := RStrip(l);
    LStripShape(s);
    RStripShape(l);
    assert s[|s| - |l|..][..|r|] == s[|s| - |l|..|s| - |l| + |r|];
    assert AllSpace(s[|s| - |l| + |r|..]) by {
      assert s[|s| - |l| + |r|..] == l[|r|..];
    }
    assert SurroundedAt(s, r, |s| - |l|);
  }

  lemma {:induction false} LStripOfSpaces(a: string, t: string)
    requires AllSpace(a)
    requires t == [] || !IsSpace(t[0])
    ensures LStrip(a + t) == t
    decreases |a|
  {
    if |a| > 0 {
      assert (a + t)[1..] == a[1..] + t;
      LStripOfSpaces(a[1..], t);
    } else {
      assert a + t == t;
    }
  }

  lemma {:induction false} RStripOfSpaces(t: string, b: string)
    requires AllSpace(b)
    requires t == [] || !IsSpace(t[|t| - 1])
    ensures RStrip(t + b) == t
    decreases |b|
  {
    if |b| > 0 {
      assert (t + b)[..|t + b| - 1] == t + b[..|b| - 1];
      RStripOfSpaces(t, b[..|b| - 1]);
    } else {
      assert t + b == t;
    }
  }

  /** Stripping is determined by the decomposition: whenever `s` is
      whitespace, then a trimmed `m`, then whitespace, `s.strip()` is `m`.
      Together with the contract of `Strip` this makes `IsStripOf(s, r)`
      equivalent to `r == Strip(s)` (see `StripIsStripOf`). */
  lemma StripUnique(s: string, r: string)
    requires IsStripOf(s, r)
    ensures Strip(s) == r
  {
    var i :| SurroundedAt(s, r, i);
    var a, b := s[..i], s[i + |r|..];
    assert s == a + r + b;
    if r == [] {
      assert AllSpace(a + b);
      LStripOfSpaces(a + b, []);
      assert a + b + [] == s;
    } else {
      assert s == a + (r + b);
      LStripOfSpaces(a, r + b);
      RStripOfSpaces(r, b);
    }
  }

  lemma StripOfTrimmed(s: string)
    requires Trimmed(s)
    ensures Strip(s) == s
  {
    assert s[0..0 + |s|] == s;
    assert SurroundedAt(s, s, 0);
    StripUnique(s, s);
  }

  lemma StripIdempotent(s: string)
    ensures Strip(Strip(s)) == Strip(s)
  {
    StripOfTrimmed(Strip(s));
  }

  /** `s.startswith(p)`. */
  predicate StartsWith(s: string, p: string) {
    |p| <= |s| && s[..|p|] == p
  }

  /** `p` occurs in `s` starting at index `i`. */
  predicate OccursAt(s: string, p: string, i: int) {
    0 <= i <= |s| - |p| && s[i..i + |p|] == p
  }

  /** `p in s`. */
  predicate Contains(s: string, p: string) {
    exists i | 0 <= i <= |s| - |p| :: OccursAt(s, p, i)
  }

  /** `sep.join(parts)`. */
  function Join(parts: seq<string>, sep: string): (r: string)
    ensures |parts| > 0 ==> StartsWith(r, parts[0])
  {
    if |parts| == 0 then ""
    else if |parts| == 1 then parts[0]
    else parts[0] + sep + Join(parts[1..], sep)
  }

  /** `s.split(c)`: the pieces between occurrences of `c`, at least one. */
  function Split(s: string, c: char): (parts: seq<string>)
    ensures |parts| >= 1
  {
    if |s| == 0 then [""]
    else
      var rest := Split(s[1..], c);
      if s[0] == c then [""] + rest
      else [[s[0]] + rest[0]] + rest[1..]
  }

  /** No piece holds the separator. */
  lemma {:induction false} SplitPiecesLackSeparator(s: string, c: char)
    ensures forall k :: 0 <= k < |Split(s, c)| ==> c !in Split(s, c)[k]
    decreases |s|
  {
    if |s| > 0 {
      SplitPiecesLackSeparator(s[1..], c);
      var rest := Split(s[1..], c);
      if s[0] != c {
        assert c !in [s[0]] + rest[0];
      }
    }
  }

  /** Joining the pieces with the separator gives the text back. */
  lemma {:induction false} JoinOfSplit(s: string, c: char)
    ensures Join(Split(s, c), [c]) == s
    decreases |s|
  {
    if |s| > 0 {
      var rest := Split(s[1..], c);
      JoinOfSplit(s[1..], c);
      if s[0] == c {
        assert s == [c] + s[1..];
      } else {
        var parts := [[s[0]] + rest[0]] + rest[1..];
        assert parts[1..] == rest[1..];
        assert s == [s[0]] + s[1..];
      }
    }
  }

  /** Number of occurrences of `c` in `s`. */
  function Count(s: string, c: char): nat {
    if |s| == 0 then 0 else (if s[0] == c then 1 else 0) + Count(s[1..], c)
  }

  /** Splitting on `c` yields one more piece than `c` occurs. */
  lemma {:induction false} SplitCount(s: string, c: char)
    ensures |Split(s, c)| == Count(s, c) + 1
    decreases |s|
  {
    if |s| > 0 {
      SplitCount(s[1..], c);
    }
  }

  lemma {:induction false} SplitOfPiece(w: string, c: char, t: string)
    requires c !in w
    ensures Split(w + [c] + t, c) == [w] + Split(t, c)
    ensures Split(w, c) == [w]
    decreases |w|
  {
    if |w| == 0 {
      assert w + [c] + t == [c] + t;
      assert ([c] + t)[1..] == t;
    } else {
      assert (w + [c] + t)[1..] == w[1..] + [c] + t;
      assert w[1..] + [c] + t == w[1..] + [c] + t;
      SplitOfPiece(w[1..], c, t);
      assert [w[0]] + w[1..] == w;
    }
  }

  /** `split` undoes `join` when no piece contains the separator. */
  lemma {:induction false} SplitOfJoin(parts: seq<string>, c: char)
    requires |parts| >= 1
    requires forall k :: 0 <= k < |parts| ==> c !in parts[k]
    ensures Split(Join(parts, [c]), c) == parts
    decreases |parts|
  {
    if |parts| == 1 {
      SplitOfPiece(parts[0], c, "");
    } else {
      SplitOfJoin(parts[1..], c);
      SplitOfPiece(parts[0], c, Join(parts[1..], [c]));
      assert [parts[0]] + parts[1..] == parts;
    }
  }

  /** `s.lower()` on ASCII letters; other characters are kept as they are. */
  function Lower(s: string): (r: string)
    ensures |r| == |s|
    ensures forall i :: 0 <= i < |s| ==> ('A' <= s[i] <= 'Z' ==> r[i] as int == s[i] as int + 32)
    ensures forall i :: 0 <= i < |s| ==> (!('A' <= s[i] <= 'Z') ==> r[i] == s[i])
  {
    seq(|s|, i requires 0 <= i < |s| =>
      if 'A' <= s[i] <= 'Z' then (s[i] as int + 32) as char else s[i])
  }

  /** Lower-casing works character by character. */
  lemma LowerAppend(a: string, b: string)
    ensures Lower(a + b) == Lower(a) + Lower(b)
  {
  }

  /** Lower-casing a slice is slicing the lower-cased text. */
  lemma LowerSlice(s: string, i: int, j: int)
    requires 0 <= i <= j <= |s|
    ensures Lower(s[i..j]) == Lower(s)[i..j]
  {
  }

  /** Lower-casing twice changes nothing more. */
  lemma LowerIdempotent(s: string)
    ensures Lower(Lower(s)) == Lower(s)
  {
  }

  /** `s.replace(p, "")`: occurrences of `p` are removed left to right,
      never overlapping. */
  function RemoveAll(s: string, p: string): (r: string)
    requires |p| > 0
    ensures |r| <= |s|
    decreases |s|
  {
    if StartsWith(s, p) then RemoveAll(s[|p|..], p)
    else if |s| == 0 then ""
    else [s[0]] + RemoveAll(s[1..], p)
  }

  /** A text without the pattern is left unchanged by its removal. */
  lemma {:induction false} RemoveAllAbsent(s: string, p: string)
    requires |p| > 0
    requires !Contains(s, p)
    ensures RemoveAll(s, p) == s
    decreases |s|
  {
    if |s| > 0 {
      assert !OccursAt(s, p, 0);
      forall i | 0 <= i <= |s[1..]| - |p|
        ensures !OccursAt(s[1..], p, i)
      {
        assert !OccursAt(s, p, i + 1);
        assert s[1..][i..i + |p|] == s[i + 1..i + 1 + |p|];
      }
      RemoveAllAbsent(s[1..], p);
    }
  }

  /** A prefix in which no occurrence of the pattern starts is copied
      unchanged, and removal continues after it. */
  lemma {:induction false} RemoveAllKeepsPrefix(a: string, t: string, p: string)
    requires |p| > 0
    requires forall i :: 0 <= i < |a| ==> !StartsWith((a + t)[i..], p)
    ensures RemoveAll(a + t, p) == a + RemoveAll(t, p)
    decreases |a|
  {
    if |a| == 0 {
      assert a + t == t;
    } else {
      var s := a + t;
      assert s[0..] == s;
      assert s[1..] == a[1..] + t;
      assert RemoveAll(s, p) == [a[0]] + RemoveAll(a[1..] + t, p);
      forall i | 0 <= i < |a[1..]|
        ensures !StartsWith((a[1..] + t)[i..], p)
      {
        assert (a[1..] + t)[i..] == s[i + 1..];
      }
      RemoveAllKeepsPrefix(a[1..], t, p);
      var rest := RemoveAll(t, p);
      assert RemoveAll(s, p) == [a[0]] + (a[1..] + rest);
      assert [a[0]] + (a[1..] + rest) == ([a[0]] + a[1..]) + rest;
      assert [a[0]] + a[1..] == a;
    }
  }

  /** An occurrence at the front is removed and removal continues after it:
      with `RemoveAllKeepsPrefix` this fixes the result on every input. */
  lemma RemoveAllAfterOccurrence(t: string, p: string)
    requires |p| > 0
    ensures RemoveAll(p + t, p) == RemoveAll(t, p)
  {
    assert StartsWith(p + t, p);
    assert (p + t)[|p|..] == t;
  }

  /** Two occurrences, each followed by text in which none starts, are both
      removed. */
  lemma RemoveAllBetween(a: string, b: string, p: string)
    requires |p| > 0 && !Contains(b, p)
    requires forall i :: 0 <= i < |a| ==> !StartsWith((a + (p + b))[i..], p)
    ensures RemoveAll(p + (a + (p + b)), p) == a + b
  {
    RemoveAllAfterOccurrence(a + (p + b), p);
    RemoveAllKeepsPrefix(a, p + b, p);
    RemoveAllAfterOccurrence(b, p);
    RemoveAllAbsent(b, p);
  }

  predicate IsDigit(c: char) {
    '0' <= c <= '9'
  }

  predicate AllDigits(s: string) {
    forall i :: 0 <= i < |s| ==> IsDigit(s[i])
  }

  /** The number a string of decimal digits denotes. */
  function DigitsValue(s: string): nat
    requires AllDigits(s)
  {
    if |s| == 0 then 0
    else DigitsValue(s[..|s| - 1]) * 10 + (s[|s| - 1] as int - '0' as int)
  }

  /** `str(n)` for a natural number: its shortest decimal spelling. */
  function NatToString(n: nat): (s: string)
    ensures |s| >= 1 && AllDigits(s)
    ensures |s| > 1 ==> s[0] != '0'
    ensures DigitsValue(s) == n
  {
    var last := [('0' as int + n % 10) as char];
    if n < 10 then last
    else
      var s := NatToString(n / 10) + last;
      assert s[..|s| - 1] == NatToString(n / 10);
      s
  }
}
