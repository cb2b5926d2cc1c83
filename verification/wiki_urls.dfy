/** The first two rewrite passes: links to a wiki page of the project, absolute
    (`https://host/projects/<project>/wiki/<title>`) or site-relative
    (`/projects/<project>/wiki/<title>`), are replaced by the resolved file name alone
    (plugins/module_utils/redmine_wiki.py, `pattern_full` and `pattern_rel`).

    Both patterns are applied by `re.sub`, scanning left to right; the project name is
    matched literally (`re.escape`). */
module WikiUrls {
  import opened Wrappers
  import opened Text
  import opened Resolve

  /** The characters outside `[^\s)'"\]]`, which ends a host and a title segment. */
  predicate IsUrlStop(c: char)
  {
    IsSpace(c) || c == ')' || c == '\'' || c == '"' || c == ']'
  }

  predicate NoUrlStop(s: string)
  {
    forall i :: 0 <= i < |s| ==> !IsUrlStop(s[i])
  }

  /** The literal path in front of the encoded title. */
  function WikiPath(project: string): string
  {
    "/projects/" + project + "/wiki/"
  }

  /** A match: the encoded title is `t[start..len]` and the match covers `t[..len]`. */
  datatype UrlMatch = UrlMatch(start: nat, len: nat)

  /** `t` starts with a title segment: one or more segment characters, and the greedy group
      takes all of them. */
  predicate IsSegmentMatch(t: string, start: nat, len: nat)
  {
    start < len <= |t| && NoUrlStop(t[start..len]) && (len == |t| || IsUrlStop(t[len]))
  }

  lemma {:induction false} SegmentMatchUnique(t: string, start: nat, len: nat)
    requires IsSegmentMatch(t, start, len)
    ensures RunLen(t[start..], IsUrlStop) == len - start
  {
    var u := t[start..];
    assert forall i :: 0 <= i < len - start ==> u[i] == t[start..len][i];
    RunLenUnique(u, IsUrlStop, len - start);
  }

  /** The segment after `start`, if non-empty. */
  function MatchSegment(t: string, start: nat): (r: Option<UrlMatch>)
    requires start <= |t|
    ensures r.Some? ==> r.value.start == start && IsSegmentMatch(t, start, r.value.len)
    ensures r.None? ==> start == |t| || IsUrlStop(t[start])
  {
    var n := RunLen(t[start..], IsUrlStop);
    if n == 0 then None
    else
      assert t[start..start + n] == t[start..][..n];
      Some(UrlMatch(start, start + n))
  }

  // ---------------------------------------------------------------------------------------
  // Site-relative links: `/projects/<project>/wiki/([^\)\s'"\]]+)`

  predicate IsRelativeMatch(t: string, project: string, m: UrlMatch)
  {
    StartsWith(t, WikiPath(project)) && m.start == |WikiPath(project)| && IsSegmentMatch(t, m.start, m.len)
  }

  function MatchRelative(t: string, project: string): (r: Option<UrlMatch>)
    ensures r.Some? ==> IsRelativeMatch(t, project, r.value)
    ensures r.None? ==> forall m :: !IsRelativeMatch(t, project, m)
  {
    if StartsWith(t, WikiPath(project)) then
      var r := MatchSegment(t, |WikiPath(project)|);
      forall m | IsRelativeMatch(t, project, m)
        ensures |WikiPath(project)| < |t| && !IsUrlStop(t[|WikiPath(project)|])
      {
        assert t[m.start..m.len][0] == t[m.start];
      }
      r
    else None
  }

  /** The match at the start of a relative link is the whole run of segment characters. */
  lemma {:induction false} MatchRelativeComplete(t: string, project: string, m: UrlMatch)
    requires IsRelativeMatch(t, project, m)
    ensures MatchRelative(t, project) == Some(m)
  {
    SegmentMatchUnique(t, m.start, m.len);
  }

  /** `pattern_rel.sub(...)`: each match becomes the file name resolved from its segment. */
  function RelativeUrlPass(t: string, project: string, mapping: map<string, string>, codec: UrlCodec): string
    decreases |t|
  {
    if t == [] then []
    else
      match MatchRelative(t, project)
      case Some(m) => ResolveUrlTitle(mapping, codec, t[m.start..m.len]) + RelativeUrlPass(t[m.len..], project, mapping, codec)
      case None => [t[0]] + RelativeUrlPass(t[1..], project, mapping, codec)
  }

  lemma RelativeUrlPassCopies(t: string, project: string, mapping: map<string, string>, codec: UrlCodec)
    requires t != [] && t[0] != '/'
    ensures RelativeUrlPass(t, project, mapping, codec) == [t[0]] + RelativeUrlPass(t[1..], project, mapping, codec)
  {
    assert !StartsWith(t, WikiPath(project)) by {
      assert WikiPath(project)[0] == '/';
    }
  }

  /** A stretch of text without `/` is copied and the scan resumes right after it. */
  lemma {:induction false} RelativeUrlPassPrefix(p: string, t: string, project: string, mapping: map<string, string>, codec: UrlCodec)
    requires '/' !in p
    ensures RelativeUrlPass(p + t, project, mapping, codec) == p + RelativeUrlPass(t, project, mapping, codec)
    decreases |p|
  {
    if p == [] {
      assert p + t == t;
    } else {
      var s := p + t;
      assert s[0] == p[0] && s[1..] == p[1..] + t;
      RelativeUrlPassCopies(s, project, mapping, codec);
      RelativeUrlPassPrefix(p[1..], t, project, mapping, codec);
      ConsSplit(p, RelativeUrlPass(t, project, mapping, codec));
    }
  }

  /** `/projects/<project>/wiki/<enc>` becomes the file resolved from `enc`, the segment
      running up to the next space, quote, `)` or `]`. */
  lemma {:induction false} RelativeUrlPassLink(project: string, enc: string, rest: string, mapping: map<string, string>, codec: UrlCodec)
    requires |enc| >= 1 && NoUrlStop(enc)
    requires rest == [] || IsUrlStop(rest[0])
    ensures RelativeUrlPass(WikiPath(project) + enc + rest, project, mapping, codec)
         == ResolveUrlTitle(mapping, codec, enc) + RelativeUrlPass(rest, project, mapping, codec)
  {
    var path := WikiPath(project);
    var s := path + enc + rest;
    var m := UrlMatch(|path|, |path| + |enc|);
    assert s[..|path|] == path;
    assert s[m.start..m.len] == enc;
    assert m.len < |s| ==> s[m.len] == rest[0];
    assert IsRelativeMatch(s, project, m);
    MatchRelativeComplete(s, project, m);
    assert s[m.len..] == rest;
  }

  // ---------------------------------------------------------------------------------------
  // Absolute links: `https?://[^\s)'"\]]+/projects/<project>/wiki/([^\)\s'"\]]+)`

  /** Length of the scheme `https://` or `http://` that `t` starts with, 0 if none. The two
      exclude each other (the fifth character is `s` or `:`), so `https?` backtracking never
      picks the other one. */
  function SchemeLen(t: string): nat
  {
    if StartsWith(t, "https://") then 8 else if StartsWith(t, "http://") then 7 else 0
  }

  /** The host of an absolute link may end at `h`: the host `t[a..h]` is one or more host
      characters, the wiki path follows, and the segment after it is not empty. */
  predicate IsHostSplit(t: string, a: nat, project: string, h: nat)
  {
    && a < h <= |t| && NoUrlStop(t[a..h])
    && StartsWith(t[h..], WikiPath(project))
    && h + |WikiPath(project)| < |t| && !IsUrlStop(t[h + |WikiPath(project)|])
  }

  /** The greedy host `[...]+` is tried longest first, so the regular-expression engine
      settles on the LAST host end at which the rest of the pattern matches. */
  predicate IsAbsoluteMatch(t: string, project: string, m: UrlMatch)
  {
    var a := SchemeLen(t);
    && a > 0
    && m.start >= |WikiPath(project)|
    && IsHostSplit(t, a, project, m.start - |WikiPath(project)|)
    && (forall h :: m.start - |WikiPath(project)| < h <= |t| ==> !IsHostSplit(t, a, project, h))
    && IsSegmentMatch(t, m.start, m.len)
  }

  /** The last host end in `(a, h]`, searching downwards from `h`. */
  function LastHostSplit(t: string, a: nat, project: string, h: nat): (r: Option<nat>)
    ensures r.Some? ==> a < r.value <= h && IsHostSplit(t, a, project, r.value)
    ensures r.Some? ==> forall g :: r.value < g <= h ==> !IsHostSplit(t, a, project, g)
    ensures r.None? ==> forall g :: a < g <= h ==> !IsHostSplit(t, a, project, g)
    decreases h
  {
    if h <= a then None
    else if IsHostSplit(t, a, project, h) then Some(h)
    else LastHostSplit(t, a, project, h - 1)
  }

  /** A host cannot extend past the first host-ending character after `a`. */
  lemma {:induction false} HostEndsAtRun(t: string, a: nat, project: string, g: nat)
    requires a <= |t|
    requires IsHostSplit(t, a, project, g)
    ensures g <= a + RunLen(t[a..], IsUrlStop)
  {
    assert forall i :: 0 <= i < g - a ==> t[a..][i] == t[a..g][i];
    RunLenAtLeast(t[a..], IsUrlStop, g - a);
  }

  /** Every host end lies within the run of host characters after the scheme. */
  lemma HostSplitsInRun(t: string, a: nat, project: string)
    requires a <= |t|
    ensures forall g: nat :: IsHostSplit(t, a, project, g) ==> g <= a + RunLen(t[a..], IsUrlStop)
  {
    forall g: nat | IsHostSplit(t, a, project, g) ensures g <= a + RunLen(t[a..], IsUrlStop) {
      HostEndsAtRun(t, a, project, g);
    }
  }

  function MatchAbsolute(t: string, project: string): (r: Option<UrlMatch>)
    ensures r.Some? ==> IsAbsoluteMatch(t, project, r.value)
    ensures r.None? ==> SchemeLen(t) == 0 || forall h :: !IsHostSplit(t, SchemeLen(t), project, h)
  {
    var a := SchemeLen(t);
    if a == 0 then None
    else
      match LastHostSplit(t, a, project, a + RunLen(t[a..], IsUrlStop))
      case None =>
        NoHostSplit(t, project);
        None
      case Some(h) =>
        NoLaterHostSplit(t, a, project, h);
        HostSplitFollowed(t, a, project, h);
        var r := MatchSegment(t, h + |WikiPath(project)|);
        AbsoluteMatchIntro(t, project, h, r.value);
        r
  }

  /** When no host end lies within the run of host characters, there is none at all. */
  lemma NoHostSplit(t: string, project: string)
    requires SchemeLen(t) > 0
    requires LastHostSplit(t, SchemeLen(t), project, SchemeLen(t) + RunLen(t[SchemeLen(t)..], IsUrlStop)).None?
    ensures forall h :: !IsHostSplit(t, SchemeLen(t), project, h)
  {
    HostSplitsInRun(t, SchemeLen(t), project);
  }

  /** A match whose segment starts right after the last host end and its wiki path. */
  lemma AbsoluteMatchIntro(t: string, project: string, h: nat, m: UrlMatch)
    requires SchemeLen(t) > 0 && m.start == h + |WikiPath(project)|
    requires IsHostSplit(t, SchemeLen(t), project, h)
    requires forall g :: h < g <= |t| ==> !IsHostSplit(t, SchemeLen(t), project, g)
    requires IsSegmentMatch(t, m.start, m.len)
    ensures IsAbsoluteMatch(t, project, m)
  {
  }

  /** The last host end within the run is the last host end of all. */
  lemma NoLaterHostSplit(t: string, a: nat, project: string, h: nat)
    requires a <= |t|
    requires LastHostSplit(t, a, project, a + RunLen(t[a..], IsUrlStop)) == Some(h)
    ensures IsHostSplit(t, a, project, h)
    ensures forall g :: h < g <= |t| ==> !IsHostSplit(t, a, project, g)
  {
    HostSplitsInRun(t, a, project);
  }

  /** A host end is followed by the wiki path and a segment character. */
  lemma HostSplitFollowed(t: string, a: nat, project: string, h: nat)
    requires IsHostSplit(t, a, project, h)
    ensures h + |WikiPath(project)| < |t| && !IsUrlStop(t[h + |WikiPath(project)|])
  {
  }

  /** `pattern_full.sub(...)`: each whole match, scheme and host included, becomes the file
      name resolved from its segment. */
  function AbsoluteUrlPass(t: string, project: string, mapping: map<string, string>, codec: UrlCodec): string
    decreases |t|
  {
    if t == [] then []
    else
      match MatchAbsolute(t, project)
      case Some(m) => ResolveUrlTitle(mapping, codec, t[m.start..m.len]) + AbsoluteUrlPass(t[m.len..], project, mapping, codec)
      case None => [t[0]] + AbsoluteUrlPass(t[1..], project, mapping, codec)
  }

  lemma AbsoluteUrlPassCopies(t: string, project: string, mapping: map<string, string>, codec: UrlCodec)
    requires t != [] && t[0] != 'h'
    ensures AbsoluteUrlPass(t, project, mapping, codec) == [t[0]] + AbsoluteUrlPass(t[1..], project, mapping, codec)
  {
    assert SchemeLen(t) == 0 by {
      assert !StartsWith(t, "https://") && !StartsWith(t, "http://");
    }
  }

  /** A stretch of text without `h` is copied and the scan resumes right after it. */
  lemma {:induction false} AbsoluteUrlPassPrefix(p: string, t: string, project: string, mapping: map<string, string>, codec: UrlCodec)
    requires 'h' !in p
    ensures AbsoluteUrlPass(p + t, project, mapping, codec) == p + AbsoluteUrlPass(t, project, mapping, codec)
    decreases |p|
  {
    if p == [] {
      assert p + t == t;
    } else {
      var s := p + t;
      assert s[0] == p[0] && s[1..] == p[1..] + t;
      AbsoluteUrlPassCopies(s, project, mapping, codec);
      AbsoluteUrlPassPrefix(p[1..], t, project, mapping, codec);
      ConsSplit(p, AbsoluteUrlPass(t, project, mapping, codec));
    }
  }

  /** A host end `h` at which the pattern matches lies inside the run of host characters
      together with the whole path and the first segment character, and the path's final
      `/` sits just before that character. */
  lemma {:induction false} HostSplitInsideRun(s: string, a: nat, project: string, h: nat)
    requires a <= |s| && NoUrlStop(WikiPath(project))
    requires IsHostSplit(s, a, project, h)
    ensures a + RunLen(s[a..], IsUrlStop) > h + |WikiPath(project)|
    ensures s[h + |WikiPath(project)| - 1] == '/'
  {
    var path := WikiPath(project);
    assert s[h..][..|path|] == path;
    assert s[h + |path| - 1] == s[h..][..|path|][|path| - 1];
    forall i | 0 <= i < h + |path| + 1 - a ensures !IsUrlStop(s[a..][i]) {
      if a + i < h {
        assert s[a..][i] == s[a..h][i];
      } else if a + i < h + |path| {
        assert s[a..][i] == s[h..][..|path|][a + i - h];
      }
    }
    RunLenAtLeast(s[a..], IsUrlStop, h + |path| + 1 - a);
  }

  /** In `scheme + host + path + enc + rest`, no host end after the given host works when the
      segment holds no `/`: any later match of the path would put the path's final `/` inside
      the segment. */
  lemma {:induction false} HostSplitBound(s: string, a: nat, project: string, h0: nat, len: nat)
    requires a <= h0 && h0 + |WikiPath(project)| < len <= |s|
    requires NoUrlStop(s[a..len]) && NoUrlStop(WikiPath(project))
    requires forall i :: h0 + |WikiPath(project)| <= i < len ==> s[i] != '/'
    requires len == |s| || IsUrlStop(s[len])
    ensures forall h: nat :: IsHostSplit(s, a, project, h) ==> h <= h0
  {
    RunLenUnique(s[a..], IsUrlStop, len - a) by {
      forall i | 0 <= i < len - a ensures !IsUrlStop(s[a..][i]) {
        assert s[a..][i] == s[a..len][i];
      }
    }
    forall h: nat | IsHostSplit(s, a, project, h) ensures h <= h0 {
      HostSplitInsideRun(s, a, project, h);
    }
  }

  /** The match at the start of an absolute link is the one at the last host end. */
  lemma {:induction false} MatchAbsoluteAt(s: string, project: string, h0: nat, len: nat)
    requires SchemeLen(s) > 0 && IsHostSplit(s, SchemeLen(s), project, h0)
    requires forall h: nat :: IsHostSplit(s, SchemeLen(s), project, h) ==> h <= h0
    requires IsSegmentMatch(s, h0 + |WikiPath(project)|, len)
    ensures MatchAbsolute(s, project) == Some(UrlMatch(h0 + |WikiPath(project)|, len))
  {
    var m := UrlMatch(h0 + |WikiPath(project)|, len);
    assert IsAbsoluteMatch(s, project, m);
    var r := MatchAbsolute(s, project);
    assert r.Some?;
    AbsoluteMatchUnique(s, project, r.value, m);
  }

  /** At most one absolute match starts at a position. */
  lemma AbsoluteMatchUnique(t: string, project: string, m1: UrlMatch, m2: UrlMatch)
    requires IsAbsoluteMatch(t, project, m1) && IsAbsoluteMatch(t, project, m2)
    ensures m1 == m2
  {
    var a := SchemeLen(t);
    var p := |WikiPath(project)|;
    assert m1.start - p <= |t| && m2.start - p <= |t|;
    assert IsHostSplit(t, a, project, m1.start - p) && IsHostSplit(t, a, project, m2.start - p);
    assert m1.start == m2.start;
    SegmentMatchUnique(t, m1.start, m1.len);
    SegmentMatchUnique(t, m2.start, m2.len);
  }

  lemma NoUrlStopConcat(x: string, y: string)
    requires NoUrlStop(x) && NoUrlStop(y)
    ensures NoUrlStop(x + y)
  {
    forall i | 0 <= i < |x + y| ensures !IsUrlStop((x + y)[i]) {
      if i >= |x| {
        assert (x + y)[i] == y[i - |x|];
      }
    }
  }

  lemma LinkSlices(scheme: string, host: string, path: string, enc: string, rest: string)
    ensures var s := scheme + host + path + enc + rest;
            var h0 := |scheme| + |host|;
            var st := h0 + |path|;
            var len := st + |enc|;
            && s[..|scheme|] == scheme && s[|scheme|..h0] == host && s[h0..st] == path
            && s[st..len] == enc && s[len..] == rest && s[|scheme|..len] == host + path + enc
  {
  }

  /** The facts about the link `s = scheme + host + path + enc + rest` that fix the match. */
  lemma {:induction false} LinkSplit(s: string, project: string, a: nat, h0: nat, len: nat)
    requires a < h0 && h0 + |WikiPath(project)| < len <= |s|
    requires NoUrlStop(s[a..h0]) && NoUrlStop(s[a..len]) && NoUrlStop(WikiPath(project))
    requires s[h0..h0 + |WikiPath(project)|] == WikiPath(project)
    requires '/' !in s[h0 + |WikiPath(project)|..len]
    requires len == |s| || IsUrlStop(s[len])
    ensures IsHostSplit(s, a, project, h0)
    ensures forall h: nat :: IsHostSplit(s, a, project, h) ==> h <= h0
    ensures IsSegmentMatch(s, h0 + |WikiPath(project)|, len)
  {
    var st := h0 + |WikiPath(project)|;
    assert s[h0..][..|WikiPath(project)|] == s[h0..st];
    assert s[st] == s[a..len][st - a];
    assert forall i :: st <= i < len ==> s[i] == s[st..len][i - st];
    HostSplitBound(s, a, project, h0, len);
    assert NoUrlStop(s[st..len]) by {
      assert forall i :: 0 <= i < len - st ==> s[st..len][i] == s[a..len][i + st - a];
    }
  }

  /** `http(s)://<host>/projects/<project>/wiki/<enc>` becomes the file resolved from `enc`
      alone, scheme and host dropped. Requires the usual shape of such a link: a project name
      and a segment without host-ending characters, and no `/` in the segment. */
  lemma {:induction false} AbsoluteUrlPassLink(scheme: string, host: string, project: string, enc: string, rest: string,
                                               mapping: map<string, string>, codec: UrlCodec)
    requires scheme == "https://" || scheme == "http://"
    requires |host| >= 1 && NoUrlStop(host) && NoUrlStop(WikiPath(project))
    requires |enc| >= 1 && NoUrlStop(enc) && '/' !in enc
    requires rest == [] || IsUrlStop(rest[0])
    ensures AbsoluteUrlPass(scheme + host + WikiPath(project) + enc + rest, project, mapping, codec)
         == ResolveUrlTitle(mapping, codec, enc) + AbsoluteUrlPass(rest, project, mapping, codec)
  {
    var path := WikiPath(project);
    var s := scheme + host + path + enc + rest;
    var a := |scheme|;
    var h0 := a + |host|;
    var st := h0 + |path|;
    var len := st + |enc|;
    LinkSlices(scheme, host, path, enc, rest);
    assert SchemeLen(s) == a by {
      if scheme == "http://" {
        assert s[4] == ':';
      }
    }
    NoUrlStopConcat(host, path);
    NoUrlStopConcat(host + path, enc);
    assert len < |s| ==> s[len] == rest[0];
    LinkSplit(s, project, a, h0, len);
    MatchAbsoluteAt(s, project, h0, len);
  }
}
