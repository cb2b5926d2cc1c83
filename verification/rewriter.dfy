/** `_rewrite_content` (plugins/module_utils/redmine_wiki.py): the three passes applied one
    after the other, absolute wiki URLs first, then site-relative ones, then `[[...]]` links.
    The Redmine base URL the source passes along is not used by any pass and is not a
    parameter here. */
module Rewriter {
  import opened Text
  import opened TitleCodec
  import opened LinkTable
  import opened Resolve
  import opened WikiLinks
  import opened WikiUrls

  function RewriteContent(content: string, project: string, mapping: map<string, string>, codec: UrlCodec): string
  {
    var afterFull := AbsoluteUrlPass(content, project, mapping, codec);
    var afterRel := RelativeUrlPass(afterFull, project, mapping, codec);
    WikiLinkPass(afterRel, mapping, codec)
  }

  /** No two adjacent `/` in `t`. */
  predicate NoDoubleSlash(t: string)
  {
    forall i :: 0 <= i < |t| - 1 ==> !(t[i] == '/' && t[i + 1] == '/')
  }

  lemma NoDoubleSlashJoin(x: string, y: string)
    requires NoDoubleSlash(x) && NoDoubleSlash(y)
    requires x == [] || y == [] || x[|x| - 1] != '/' || y[0] != '/'
    ensures NoDoubleSlash(x + y)
  {
    forall i | 0 <= i < |x + y| - 1 ensures !((x + y)[i] == '/' && (x + y)[i + 1] == '/') {
      if i + 1 < |x| {
        assert (x + y)[i] == x[i] && (x + y)[i + 1] == x[i + 1];
      } else if i >= |x| {
        assert (x + y)[i] == y[i - |x|] && (x + y)[i + 1] == y[i + 1 - |x|];
      }
    }
  }

  lemma NoSlashNoDoubleSlash(t: string)
    requires '/' !in t
    ensures NoDoubleSlash(t)
  {
  }

  /** Every scheme `http://` or `https://` contains `//`, so text without `//` has no
      absolute URL: the absolute pass copies it. */
  lemma {:induction false} AbsoluteUrlPassWithoutScheme(t: string, project: string, mapping: map<string, string>, codec: UrlCodec)
    requires NoDoubleSlash(t)
    ensures AbsoluteUrlPass(t, project, mapping, codec) == t
    decreases |t|
  {
    if t != [] {
      assert SchemeLen(t) == 0 by {
        if |t| >= 8 {
          assert !(t[6] == '/' && t[7] == '/');
        }
        if |t| >= 7 {
          assert !(t[5] == '/' && t[6] == '/');
        }
      }
      assert NoDoubleSlash(t[1..]) by {
        forall i | 0 <= i < |t[1..]| - 1 ensures !(t[1..][i] == '/' && t[1..][i + 1] == '/') {
          assert t[1..][i] == t[i + 1] && t[1..][i + 1] == t[i + 2];
        }
      }
      AbsoluteUrlPassWithoutScheme(t[1..], project, mapping, codec);
      assert t == [t[0]] + t[1..];
    }
  }

  /** Without a `/` the relative pass copies the text. */
  lemma {:induction false} RelativeUrlPassWithoutSlash(t: string, project: string, mapping: map<string, string>, codec: UrlCodec)
    requires '/' !in t
    ensures RelativeUrlPass(t, project, mapping, codec) == t
  {
    RelativeUrlPassPrefix(t, [], project, mapping, codec);
    assert t + [] == t;
  }

  /** Text with no `/` and no `[[` comes out of the rewrite unchanged. */
  lemma {:induction false} RewritePlainText(t: string, project: string, mapping: map<string, string>, codec: UrlCodec)
    requires '/' !in t && NoDoubleBracket(t)
    ensures RewriteContent(t, project, mapping, codec) == t
  {
    NoSlashNoDoubleSlash(t);
    AbsoluteUrlPassWithoutScheme(t, project, mapping, codec);
    RelativeUrlPassWithoutSlash(t, project, mapping, codec);
    WikiLinkPassWithoutBrackets(t, mapping, codec);
  }

  /** End to end, with the table built from the index: a `[[T]]` link to a page `T` of the
      index becomes a Markdown link to the very file that page is mirrored to. */
  lemma {:induction false} RewriteIndexedWikiLink(index: seq<IndexEntry>, ext: string, project: string, codec: UrlCodec, title: string)
    requires title in Titles(index) && Strip(title) == title
    requires NoStop(title, IsTitleStop) && '/' !in title
    ensures RewriteContent("[[" + title + "]]", project, BuildTable(index, ext), codec)
         == "[" + title + "](" + FilenameForTitle(title, ext) + ")"
  {
    var table := BuildTable(index, ext);
    assert '/' !in "[[" && '/' !in "]]";
    UrlPassesKeep("[[" + title + "]]", project, table, codec);
    BareLinkAlone(title, table, codec);
    IndexedTitleResolves(index, ext, codec, title);
  }

  /** A text that is just one bare wiki link becomes just the Markdown link. */
  lemma BareLinkAlone(title: string, mapping: map<string, string>, codec: UrlCodec)
    requires |title| >= 1 && NoStop(title, IsTitleStop) && Strip(title) == title
    ensures WikiLinkPass("[[" + title + "]]", mapping, codec)
         == "[" + title + "](" + ResolveWikiTitle(mapping, codec, title) + ")"
  {
    var s := "[[" + title + "]]";
    var link := "[" + title + "](" + ResolveWikiTitle(mapping, codec, title) + ")";
    AppendNothing(s);
    AppendNothing(link);
    WikiLinkPassBare(title, [], mapping, codec);
    assert WikiLinkPass([], mapping, codec) == [];
  }

  /** Both URL passes leave text without `/` as it is. */
  lemma UrlPassesKeep(t: string, project: string, mapping: map<string, string>, codec: UrlCodec)
    requires '/' !in t
    ensures RewriteContent(t, project, mapping, codec) == WikiLinkPass(t, mapping, codec)
  {
    NoSlashNoDoubleSlash(t);
    AbsoluteUrlPassWithoutScheme(t, project, mapping, codec);
    RelativeUrlPassWithoutSlash(t, project, mapping, codec);
  }

  /** End to end: a site-relative URL to a page of the index, ended by `)` as in a Markdown
      link, becomes the file that page is mirrored to, provided that file name holds no `[`
      for the last pass to pick up. */
  lemma {:induction false} RewriteIndexedRelativeUrl(index: seq<IndexEntry>, ext: string, project: string, codec: UrlCodec, enc: string)
    requires codec.unquote(enc) in Titles(index)
    requires |enc| >= 1 && NoUrlStop(enc) && '/' !in enc
    requires project != [] && '/' !in project
    requires '[' !in FilenameForTitle(codec.unquote(enc), ext)
    ensures RewriteContent(WikiPath(project) + enc + ")", project, BuildTable(index, ext), codec)
         == FilenameForTitle(codec.unquote(enc), ext) + ")"
  {
    var table := BuildTable(index, ext);
    var f := FilenameForTitle(codec.unquote(enc), ext);
    UrlPassesOnRelativeLink(project, enc, table, codec);
    IndexedUrlResolves(index, ext, codec, enc);
    NoBracketKept(f + ")", table, codec);
  }

  /** The absolute pass leaves a site-relative link alone and the relative pass resolves it. */
  lemma UrlPassesOnRelativeLink(project: string, enc: string, mapping: map<string, string>, codec: UrlCodec)
    requires |enc| >= 1 && NoUrlStop(enc) && '/' !in enc
    requires project != [] && '/' !in project
    ensures var u := WikiPath(project) + enc + ")";
            RelativeUrlPass(AbsoluteUrlPass(u, project, mapping, codec), project, mapping, codec)
              == ResolveUrlTitle(mapping, codec, enc) + ")"
  {
    RelativeLinkNoDoubleSlash(project, enc + ")");
    AbsoluteUrlPassWithoutScheme(WikiPath(project) + (enc + ")"), project, mapping, codec);
    assert WikiPath(project) + (enc + ")") == WikiPath(project) + enc + ")";
    RelativeUrlPassLink(project, enc, ")", mapping, codec);
    RelativeUrlPassWithoutSlash(")", project, mapping, codec);
  }

  /** The wiki-link pass leaves text without `[` as it is. */
  lemma NoBracketKept(t: string, mapping: map<string, string>, codec: UrlCodec)
    requires '[' !in t
    ensures WikiLinkPass(t, mapping, codec) == t
  {
    WikiLinkPassPrefix(t, [], mapping, codec);
    assert t + [] == t;
  }

  lemma RelativeLinkNoDoubleSlash(project: string, t: string)
    requires project != [] && '/' !in project && '/' !in t
    ensures NoDoubleSlash(WikiPath(project) + t)
  {
    NoDoubleSlashJoin("/projects/", project);
    NoDoubleSlashJoin("/projects/" + project, "/wiki/");
    NoDoubleSlashJoin("/projects/" + project + "/wiki/", t);
  }
}
