/** The third rewrite pass: `[[Title]]` and `[[Title|Label]]` become Markdown links
    (plugins/module_utils/redmine_wiki.py, `wiki_link_re` and `_wiki_link_replace`).

    The pattern is `\[\[([^\]|]+)(?:\|([^\]]+))?\]\]`, applied by `re.sub`: scanning left to
    right, each position either starts a match, which is replaced and skipped, or is copied. */
module WikiLinks {
  import opened Wrappers
  import opened Text
  import opened LinkTable
  import opened Resolve

  /** Characters a title may not contain: `]` and `|`. */
  predicate IsTitleStop(c: char)
  {
    c == ']' || c == '|'
  }

  /** Characters a caption may not contain: `]`. */
  predicate IsLabelStop(c: char)
  {
    c == ']'
  }

  predicate NoStop(s: string, stop: char -> bool)
  {
    forall i :: 0 <= i < |s| ==> !stop(s[i])
  }

  /** One match: the raw title group, the caption group when present, and the match length. */
  datatype WikiLink = WikiLink(target: string, caption: Option<string>, len: nat)

  /** `t` starts with a match of the pattern whose groups are `target` and `caption` and whose
      length is `len`: `[[`, one or more title characters, optionally `|` and one or more
      caption characters, then `]]`. */
  predicate IsWikiLinkMatch(t: string, target: string, caption: Option<string>, len: nat)
  {
    && StartsWith(t, "[[")
    && |target| >= 1 && NoStop(target, IsTitleStop) && StartsWith(t[2..], target)
    && match caption
       case None => StartsWith(t[2 + |target|..], "]]") && len == |target| + 4
       case Some(l) =>
         && |l| >= 1 && NoStop(l, IsLabelStop)
         && StartsWith(t[2 + |target|..], "|" + l + "]]") && len == |target| + |l| + 5
  }

  /** The match of the pattern at the start of `t`, if any. */
  function MatchWikiLink(t: string): (r: Option<WikiLink>)
    ensures r.Some? ==> IsWikiLinkMatch(t, r.value.target, r.value.caption, r.value.len)
    ensures r.Some? ==> 0 < r.value.len <= |t|
  {
    if !StartsWith(t, "[[") then None
    else
      var n := RunLen(t[2..], IsTitleStop);
      var j := 2 + n;
      if n == 0 || j + 1 >= |t| then None
      else if t[j] == ']' then
        if t[j + 1] == ']' then
          BareIsMatch(t, n);
          Some(WikiLink(t[2..j], None, j + 2))
        else None
      else MatchCaptioned(t, n)
  }

  /** The captioned form `[[target|caption]]`, once the target run of length `n` has been read. */
  function MatchCaptioned(t: string, n: nat): (r: Option<WikiLink>)
    requires StartsWith(t, "[[") && n > 0 && 2 + n + 1 < |t|
    requires RunLen(t[2..], IsTitleStop) == n && t[2 + n] != ']'
    ensures r.Some? ==> IsWikiLinkMatch(t, r.value.target, r.value.caption, r.value.len)
    ensures r.Some? ==> 0 < r.value.len <= |t|
  {
    var j := 2 + n;
    var k := RunLen(t[j + 1..], IsLabelStop);
    if k == 0 || j + k + 2 >= |t| || t[j + k + 2] != ']' then None
    else
      CaptionedIsMatch(t, n, k);
      Some(WikiLink(t[2..j], Some(t[j + 1..j + 1 + k]), j + k + 3))
  }

  /** The title run followed by `]]` is a match without caption. */
  lemma BareIsMatch(t: string, n: nat)
    requires StartsWith(t, "[[") && n > 0 && 2 + n + 1 < |t|
    requires RunLen(t[2..], IsTitleStop) == n && t[2 + n] == ']' && t[2 + n + 1] == ']'
    ensures IsWikiLinkMatch(t, t[2..2 + n], None, 2 + n + 2)
  {
    assert t[2..][..n] == t[2..2 + n];
    assert t[2 + n..][..2] == "]]";
  }

  /** The run RunLen measures is a stop-free prefix. */
  lemma RunIsPrefix(s: string, stop: char -> bool, n: nat)
    requires RunLen(s, stop) == n
    ensures NoStop(s[..n], stop) && StartsWith(s, s[..n])
  {
    assert forall i :: 0 <= i < n ==> s[..n][i] == s[i];
  }

  /** After the target ending at `j`, `|caption]]` with a non-empty caption run. */
  lemma CaptionTail(t: string, j: nat, k: nat)
    requires 0 < k && j + k + 2 < |t| && t[j] == '|' && t[j + k + 2] == ']'
    requires RunLen(t[j + 1..], IsLabelStop) == k
    ensures NoStop(t[j + 1..j + 1 + k], IsLabelStop)
    ensures StartsWith(t[j..], "|" + t[j + 1..j + 1 + k] + "]]")
  {
    var l := t[j + 1..j + 1 + k];
    RunIsPrefix(t[j + 1..], IsLabelStop, k);
    assert t[j + 1..][..k] == l;
    assert t[j + 1..][k] == ']';
    var w := "|" + l + "]]";
    assert forall i :: 0 <= i < k + 3 ==> t[j..][..k + 3][i] == w[i];
  }

  /** The title run, `|`, the caption run and `]]` form a match with caption. */
  lemma CaptionedIsMatch(t: string, n: nat, k: nat)
    requires StartsWith(t, "[[") && n > 0 && k > 0 && 2 + n + k + 2 < |t|
    requires RunLen(t[2..], IsTitleStop) == n && t[2 + n] != ']'
    requires RunLen(t[2 + n + 1..], IsLabelStop) == k && t[2 + n + k + 2] == ']'
    ensures IsWikiLinkMatch(t, t[2..2 + n], Some(t[2 + n + 1..2 + n + 1 + k]), 2 + n + k + 3)
  {
    var j := 2 + n;
    RunIsPrefix(t[2..], IsTitleStop, n);
    assert t[2..][..n] == t[2..j];
    assert t[j] == t[2..][n] == '|';
    CaptionTail(t, j, k);
  }



  /** There is only one way to match at a position (each group can only end at the first
      stop character after it), so whatever order the regular-expression engine tries the
      alternatives in, the match it finds is the one `MatchWikiLink` returns. */
  lemma {:induction false} MatchWikiLinkComplete(t: string, target: string, caption: Option<string>, len: nat)
    requires IsWikiLinkMatch(t, target, caption, len)
    ensures MatchWikiLink(t) == Some(WikiLink(target, caption, len))
  {
    if caption.None? {
      BareMatchComplete(t, target, len);
    } else {
      CaptionMatchComplete(t, target, caption.value, len);
    }
  }

  lemma {:induction false} TitleRun(t: string, target: string, next: char)
    requires StartsWith(t, "[[") && NoStop(target, IsTitleStop) && IsTitleStop(next)
    requires StartsWith(t[2..], target + [next])
    ensures RunLen(t[2..], IsTitleStop) == |target|
    ensures t[2 + |target|] == next
  {
    var u := t[2..];
    assert forall i :: 0 <= i < |target| ==> u[i] == (target + [next])[i] == target[i];
    assert u[|target|] == (target + [next])[|target|];
    RunLenUnique(u, IsTitleStop, |target|);
  }

  lemma {:induction false} BareMatchComplete(t: string, target: string, len: nat)
    requires IsWikiLinkMatch(t, target, None, len)
    ensures MatchWikiLink(t) == Some(WikiLink(target, None, len))
  {
    var j := 2 + |target|;
    assert t[j..][..2] == "]]";
    assert t[2..][..|target| + 1] == target + "]";
    TitleRun(t, target, ']');
    assert t[j + 1] == ']';
    assert t[2..j] == target;
  }

  lemma {:induction false} CaptionMatchComplete(t: string, target: string, l: string, len: nat)
    requires IsWikiLinkMatch(t, target, Some(l), len)
    ensures MatchWikiLink(t) == Some(WikiLink(target, Some(l), len))
  {
    var j := 2 + |target|;
    assert t[2..][..|target| + 1] == target + "|";
    TitleRun(t, target, '|');
    LabelRunAt(t, j, l);
    assert t[2..j] == target;
    CaptionMatchAt(t, target, l);
  }

  /** `LabelRun` for the caption that follows position `j` of `t`. */
  lemma LabelRunAt(t: string, j: nat, l: string)
    requires j <= |t| && StartsWith(t[j..], "|" + l + "]]") && NoStop(l, IsLabelStop)
    ensures j + |l| + 2 < |t|
    ensures RunLen(t[j + 1..], IsLabelStop) == |l|
    ensures t[j + |l| + 2] == ']'
    ensures t[j + 1..j + 1 + |l|] == l
  {
    var w := t[j..];
    LabelRun(w, l);
    assert t[j + 1..] == w[1..];
    assert t[j + |l| + 2] == w[|l| + 2];
    assert t[j + 1..j + 1 + |l|] == w[1..1 + |l|];
  }

  /** The captioned branch of `MatchWikiLink`, in terms of the two run lengths. */
  lemma CaptionMatchAt(t: string, target: string, l: string)
    requires StartsWith(t, "[[") && |target| > 0 && |l| > 0 && 2 + |target| + |l| + 2 < |t|
    requires RunLen(t[2..], IsTitleStop) == |target| && t[2 + |target|] == '|'
    requires RunLen(t[2 + |target| + 1..], IsLabelStop) == |l| && t[2 + |target| + |l| + 2] == ']'
    requires t[2..2 + |target|] == target && t[2 + |target| + 1..2 + |target| + 1 + |l|] == l
    ensures MatchWikiLink(t) == Some(WikiLink(target, Some(l), |target| + |l| + 5))
  {
    assert MatchWikiLink(t) == MatchCaptioned(t, |target|);
  }


  /** After the `|`, the caption runs up to the first `]`, which is followed by another. */
  lemma {:induction false} LabelRun(w: string, l: string)
    requires StartsWith(w, "|" + l + "]]") && NoStop(l, IsLabelStop)
    ensures RunLen(w[1..], IsLabelStop) == |l|
    ensures w[|l| + 1] == ']' && w[|l| + 2] == ']'
    ensures w[1..1 + |l|] == l
  {
    var m := "|" + l + "]]";
    var v := w[1..];
    assert forall i :: 0 <= i < |l| ==> v[i] == m[i + 1] == l[i];
    assert v[|l|] == m[|l| + 1] == ']';
    assert w[|l| + 2] == m[|l| + 2] == ']';
    RunLenUnique(v, IsLabelStop, |l|);
  }

  /** The Markdown link a match becomes: `[caption](file)`, where the caption defaults to the
      stripped title and the file is resolved from the stripped title. */
  function LinkReplacement(mapping: map<string, string>, codec: UrlCodec, w: WikiLink): string
  {
    var title := Strip(w.target);
    var shown := if w.caption.Some? then w.caption.value else title;
    "[" + shown + "](" + ResolveWikiTitle(mapping, codec, title) + ")"
  }

  /** `wiki_link_re.sub(_wiki_link_replace, t)`. */
  function WikiLinkPass(t: string, mapping: map<string, string>, codec: UrlCodec): string
    decreases |t|
  {
    if t == [] then []
    else
      match MatchWikiLink(t)
      case Some(w) => LinkReplacement(mapping, codec, w) + WikiLinkPass(t[w.len..], mapping, codec)
      case None => [t[0]] + WikiLinkPass(t[1..], mapping, codec)
  }

  /** No two adjacent `[` in `t`. */
  predicate NoDoubleBracket(t: string)
  {
    forall i :: 0 <= i < |t| - 1 ==> !(t[i] == '[' && t[i + 1] == '[')
  }

  /** A position that does not start with `[[` is copied. */
  lemma WikiLinkPassCopies(t: string, mapping: map<string, string>, codec: UrlCodec)
    requires t != [] && !StartsWith(t, "[[")
    ensures WikiLinkPass(t, mapping, codec) == [t[0]] + WikiLinkPass(t[1..], mapping, codec)
  {
    assert MatchWikiLink(t).None?;
  }

  /** Text without `[[` is left exactly as it is. */
  lemma {:induction false} WikiLinkPassWithoutBrackets(t: string, mapping: map<string, string>, codec: UrlCodec)
    requires NoDoubleBracket(t)
    ensures WikiLinkPass(t, mapping, codec) == t
    decreases |t|
  {
    if t != [] {
      assert !StartsWith(t, "[[") by {
        if |t| >= 2 {
          assert !(t[0] == '[' && t[1] == '[');
        }
      }
      WikiLinkPassCopies(t, mapping, codec);
      assert NoDoubleBracket(t[1..]) by {
        forall i | 0 <= i < |t[1..]| - 1 ensures !(t[1..][i] == '[' && t[1..][i + 1] == '[') {
          assert t[1..][i] == t[i + 1] && t[1..][i + 1] == t[i + 2];
        }
      }
      WikiLinkPassWithoutBrackets(t[1..], mapping, codec);
      assert t == [t[0]] + t[1..];
    }
  }

  /** A character other than '[' in front of the text is copied through unchanged. */
  lemma WikiLinkPassCons(c: char, u: string, mapping: map<string, string>, codec: UrlCodec)
    requires c != '['
    ensures WikiLinkPass([c] + u, mapping, codec) == [c] + WikiLinkPass(u, mapping, codec)
  {
    var s := [c] + u;
    assert s[0] == c && s[1..] == u;
    WikiLinkPassCopies(s, mapping, codec);
  }

  /** A stretch of text without `[` is copied and the scan resumes right after it. */
  lemma {:induction false} WikiLinkPassPrefix(p: string, t: string, mapping: map<string, string>, codec: UrlCodec)
    requires '[' !in p
    ensures WikiLinkPass(p + t, mapping, codec) == p + WikiLinkPass(t, mapping, codec)
    decreases |p|
  {
    if p == [] {
      assert p + t == t;
    } else {
      ConsSplit(p, t);
      assert p[0] in p;
      WikiLinkPassCons(p[0], p[1..] + t, mapping, codec);
      WikiLinkPassPrefix(p[1..], t, mapping, codec);
      ConsSplit(p, WikiLinkPass(t, mapping, codec));
    }
  }


  /** `[[T]]` becomes `[strip(T)](f)` with `f` resolved from `strip(T)`; the scan goes on after
      the closing `]]`. The title may contain `[`. */
  lemma {:induction false} WikiLinkPassBare(title: string, rest: string, mapping: map<string, string>, codec: UrlCodec)
    requires |title| >= 1 && NoStop(title, IsTitleStop)
    ensures WikiLinkPass("[[" + title + "]]" + rest, mapping, codec)
         == "[" + Strip(title) + "](" + ResolveWikiTitle(mapping, codec, Strip(title)) + ")"
            + WikiLinkPass(rest, mapping, codec)
  {
    var s := "[[" + title + "]]" + rest;
    assert s[2..][..|title|] == title;
    assert s[2 + |title|..][..2] == "]]";
    assert IsWikiLinkMatch(s, title, None, |title| + 4);
    MatchWikiLinkComplete(s, title, None, |title| + 4);
    assert s[|title| + 4..] == rest;
  }

  /** `[[T|L]]` becomes `[L](f)`: the caption is kept as written (not stripped) and `f` is
      resolved from `strip(T)`. */
  lemma {:induction false} WikiLinkPassCaptioned(title: string, caption: string, rest: string, mapping: map<string, string>, codec: UrlCodec)
    requires |title| >= 1 && NoStop(title, IsTitleStop)
    requires |caption| >= 1 && NoStop(caption, IsLabelStop)
    ensures WikiLinkPass("[[" + title + "|" + caption + "]]" + rest, mapping, codec)
         == "[" + caption + "](" + ResolveWikiTitle(mapping, codec, Strip(title)) + ")"
            + WikiLinkPass(rest, mapping, codec)
  {
    var s := "[[" + title + "|" + caption + "]]" + rest;
    var len := |title| + |caption| + 5;
    assert s[2..][..|title|] == title;
    assert s[2 + |title|..][..|caption| + 3] == "|" + caption + "]]";
    assert IsWikiLinkMatch(s, title, Some(caption), len);
    MatchWikiLinkComplete(s, title, Some(caption), len);
    assert s[len..] == rest;
  }
}
