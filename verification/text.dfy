/** An optional value. */
module Wrappers {

  datatype Option<+T> = None | Some(value: T)
}

/** The few string primitives of Python's `str` that the mirror uses: `lower`, `replace` of
    one character, and `strip` without arguments. */
module Text {

  /** Python's `str.isspace`, which is also what `\s` matches in a `str` pattern of the `re`
      module: the ASCII separators and control whitespace, and the Unicode space separators. */
  predicate IsSpace(c: char)
  {
    || ('\U{0009}' <= c <= '\U{000D}')
    || ('\U{001C}' <= c <= '\U{0020}')
    || c == '\U{0085}' || c == '\U{00A0}' || c == '\U{1680}'
    || ('\U{2000}' <= c <= '\U{200A}')
    || c == '\U{2028}' || c == '\U{2029}' || c == '\U{202F}' || c == '\U{205F}' || c == '\U{3000}'
  }

  predicate NoSpace(s: string)
  {
    forall i :: 0 <= i < |s| ==> !IsSpace(s[i])
  }

  predicate AllSpace(s: string)
  {
    forall i :: 0 <= i < |s| ==> IsSpace(s[i])
  }

  predicate IsUpper(c: char)
  {
    'A' <= c <= 'Z'
  }

  /** Lower-casing of one character; only the ASCII letters are mapped. */
  function LowerChar(c: char): (r: char)
    ensures !IsUpper(r)
    ensures !IsUpper(c) ==> r == c
    ensures IsSpace(r) <==> IsSpace(c)
  {
    if IsUpper(c) then (c as int - 'A' as int + 'a' as int) as char else c
  }

  function Lower(s: string): (r: string)
    ensures |r| == |s|
    ensures forall i :: 0 <= i < |s| ==> r[i] == LowerChar(s[i])
  {
    seq(|s|, i requires 0 <= i < |s| => LowerChar(s[i]))
  }

  /** `s.replace(from, to)` for single-character `from` and `to`. */
  function ReplaceChar(s: string, from: char, to: char): (r: string)
    ensures |r| == |s|
    ensures forall i :: 0 <= i < |s| ==> r[i] == (if s[i] == from then to else s[i])
  {
    seq(|s|, i requires 0 <= i < |s| => if s[i] == from then to else s[i])
  }

  function TrimStart(s: string): (r: string)
    ensures |r| <= |s| && r == s[|s| - |r|..]
    ensures AllSpace(s[..|s| - |r|])
    ensures r == [] || !IsSpace(r[0])
  {
    if s != [] && IsSpace(s[0]) then
      var r := TrimStart(s[1..]);
      SpaceBefore(s, r);
      r
    else
      assert AllSpace(s[..0]);
      s
  }

  /** A suffix of `s[1..]` preceded only by spaces there is preceded only by spaces in `s`
      when `s[0]` is a space too. */
  lemma SpaceBefore(s: string, r: string)
    requires s != [] && IsSpace(s[0]) && |r| <= |s| - 1
    requires r == s[1..][|s| - 1 - |r|..] && AllSpace(s[1..][..|s| - 1 - |r|])
    ensures r == s[|s| - |r|..] && AllSpace(s[..|s| - |r|])
  {
    var k := |s| - |r|;
    assert s[..k] == [s[0]] + s[1..][..k - 1];
  }

  /** One step of `TrimStart`: a leading space is dropped, a leading non-space stops it. */
  lemma TrimStartSkips(s: string)
    requires s != [] && IsSpace(s[0])
    ensures TrimStart(s) == TrimStart(s[1..])
  {
  }

  lemma TrimStartStops(s: string)
    requires s != [] && !IsSpace(s[0])
    ensures TrimStart(s) == s
  {
  }

  function TrimEnd(s: string): (r: string)
    ensures |r| <= |s| && r == s[..|r|]
    ensures AllSpace(s[|r|..])
    ensures r == [] || !IsSpace(r[|r| - 1])
  {
    if s != [] && IsSpace(s[|s| - 1]) then
      var r := TrimEnd(s[..|s| - 1]);
      SpaceAfter(s, r);
      r
    else
      assert AllSpace(s[|s|..]);
      s
  }

  /** The mirror image of `SpaceBefore`, for a prefix followed only by spaces. */
  lemma SpaceAfter(s: string, r: string)
    requires s != [] && IsSpace(s[|s| - 1]) && |r| <= |s| - 1
    requires r == s[..|s| - 1][..|r|] && AllSpace(s[..|s| - 1][|r|..])
    ensures r == s[..|r|] && AllSpace(s[|r|..])
  {
    assert s[|r|..] == s[..|s| - 1][|r|..] + [s[|s| - 1]];
  }

  /** `s.strip()`: whitespace cut from both ends. */
  function Strip(s: string): (r: string)
    ensures |r| <= |s|
    ensures r == [] || (!IsSpace(r[0]) && !IsSpace(r[|r| - 1]))
  {
    var t := TrimStart(s);
    var r := TrimEnd(t);
    StripWitness(s, t, r, |s| - |t|);
    r
  }

  /** A suffix `t` of `s` after the spaces `s[..a]`, and a prefix `r` of `t` before spaces:
      `r` is the slice of `s` from `a`, with spaces on both sides of it. */
  lemma StripWitness(s: string, t: string, r: string, a: nat)
    requires a <= |s| && t == s[a..] && AllSpace(s[..a]) && (t == [] || !IsSpace(t[0]))
    requires |r| <= |t| && r == t[..|r|] && AllSpace(t[|r|..]) && (r == [] || !IsSpace(r[|r| - 1]))
    ensures a <= |s| - |r|
    ensures r == s[a..a + |r|]
    ensures AllSpace(s[a + |r|..])
    ensures r == [] || (!IsSpace(r[0]) && !IsSpace(r[|r| - 1]))
  {
    assert s[a + |r|..] == t[|r|..];
    if r != [] {
      assert r[0] == t[0];
    }
  }

  lemma StripOfStripped(s: string)
    requires s == [] || (!IsSpace(s[0]) && !IsSpace(s[|s| - 1]))
    ensures Strip(s) == s
  {
  }

  predicate EndsWith(s: string, suffix: string)
  {
    |suffix| <= |s| && s[|s| - |suffix|..] == suffix
  }

  predicate StartsWith(s: string, prefix: string)
  {
    |prefix| <= |s| && s[..|prefix|] == prefix
  }

  /** The length of the longest prefix of `s` holding no character that satisfies `stop`:
      what a greedy `[^...]*` matches at the start of `s`. */
  function RunLen(s: string, stop: char -> bool): (n: nat)
    ensures n <= |s|
    ensures forall i :: 0 <= i < n ==> !stop(s[i])
    ensures n == |s| || stop(s[n])
  {
    if s == [] || stop(s[0]) then 0 else 1 + RunLen(s[1..], stop)
  }

  /** A stop-free prefix that ends at the end of `s` or at a stop character is the run. */
  lemma RunLenUnique(s: string, stop: char -> bool, n: nat)
    requires n <= |s|
    requires forall i :: 0 <= i < n ==> !stop(s[i])
    requires n == |s| || stop(s[n])
    ensures RunLen(s, stop) == n
  {
  }

  /** The part of a file name after its last dot (all of it when there is none). */
  function AfterLastDot(s: string): (r: string)
    ensures '.' !in r
  {
    if s == [] || s[|s| - 1] == '.' then [] else AfterLastDot(s[..|s| - 1]) + [s[|s| - 1]]
  }

  /** An extension without a dot is recovered from any name that ends with it. */
  lemma {:induction false} ExtensionAfterLastDot(s: string, ext: string)
    requires '.' !in ext && EndsWith(s, "." + ext)
    ensures AfterLastDot(s) == ext
    decreases |ext|
  {
    if ext != [] {
      var e := ext[..|ext| - 1];
      assert ext[|ext| - 1] in ext;
      assert s[..|s| - 1][|s| - 1 - |"." + e|..] == "." + e;
      ExtensionAfterLastDot(s[..|s| - 1], e);
      assert ext == e + [ext[|ext| - 1]];
    }
  }

  /** Splitting off the first element of the left operand of a concatenation. */
  lemma ConsSplit<T>(p: seq<T>, x: seq<T>)
    requires p != []
    ensures p + x == [p[0]] + (p[1..] + x)
  {
    assert p == [p[0]] + p[1..];
  }

  lemma AppendNothing<T>(p: seq<T>)
    ensures p + [] == p
  {
  }

  /** A stop-free prefix of length `n` is part of the run. */
  lemma {:induction false} RunLenAtLeast(s: string, stop: char -> bool, n: nat)
    requires n <= |s|
    requires forall i :: 0 <= i < n ==> !stop(s[i])
    ensures RunLen(s, stop) >= n
  {
    if n > 0 {
      assert !stop(s[0]);
      assert forall i :: 0 <= i < n - 1 ==> s[1..][i] == s[i + 1];
      RunLenAtLeast(s[1..], stop, n - 1);
    }
  }
}
