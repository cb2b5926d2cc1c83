/** Title codec of the wiki mirror: the local file name a wiki page title is written to. */
module TitleCodec {
  import opened Text

  /** The extension the rewriter's fallback uses, whatever extension the run is configured with. */
  const DefaultExtension: string := "md"

  /** The landing page keeps this upper-case stem so that repository hosts show it as the README. */
  const LandingStem: string := "README"

  /** The character a title character becomes in a generic file name. */
  function StemChar(c: char): (r: char)
    ensures r != ' ' && !IsUpper(r)
  {
    LowerChar(if c == ' ' then '_' else c)
  }

  /** `_default_filename`: spaces become underscores, the result is lower-cased, and `.ext`
      (not lower-cased) is appended. */
  function DefaultFilename(title: string, ext: string): (r: string)
    ensures |r| == |title| + 1 + |ext|
    ensures r[|title|..] == "." + ext
    ensures forall i :: 0 <= i < |title| ==> r[i] == StemChar(title[i])
    ensures forall i :: 0 <= i < |title| ==> r[i] != ' ' && !IsUpper(r[i])
    ensures !(' ' in ext) ==> !(' ' in r)
  {
    var stem := Lower(ReplaceChar(title, ' ', '_'));
    assert forall i :: 0 <= i < |title| ==> stem[i] == StemChar(title[i]);
    stem + "." + ext
  }

  /** The stem of a file name produced for extension `ext`. */
  function Stem(filename: string, ext: string): string
    requires |filename| >= |ext| + 1
  {
    filename[..|filename| - |ext| - 1]
  }

  /** A generic file name is stable: taking its stem back as a title yields the same file
      name, so a link that names a mirrored file by its stem falls back onto that very file. */
  lemma {:induction false} DefaultFilenameStable(title: string, ext: string)
    ensures Stem(DefaultFilename(title, ext), ext) == Lower(ReplaceChar(title, ' ', '_'))
    ensures DefaultFilename(Stem(DefaultFilename(title, ext), ext), ext) == DefaultFilename(title, ext)
  {
    var f := DefaultFilename(title, ext);
    var s := Stem(f, ext);
    assert |s| == |title|;
    assert forall i :: 0 <= i < |s| ==> s[i] == StemChar(title[i]);
    assert s == Lower(ReplaceChar(title, ' ', '_'));
    var g := DefaultFilename(s, ext);
    assert forall i :: 0 <= i < |s| ==> g[i] == StemChar(s[i]) == s[i];
    assert g[..|s|] == f[..|s|];
    assert g == g[..|s|] + g[|s|..];
    assert f == f[..|title|] + f[|title|..];
  }

  /** The main wiki page: a title that is `wiki` once trimmed and lower-cased. */
  predicate IsLandingTitle(title: string)
  {
    title != [] && Lower(Strip(title)) == "wiki"
  }

  function LandingFilename(ext: string): string
  {
    LandingStem + "." + ext
  }

  /** `_filename_for_title`: the landing page becomes `README.<ext>`, every other title its
      generic file name. */
  function FilenameForTitle(title: string, ext: string): (r: string)
    ensures IsLandingTitle(title) ==> r == LandingFilename(ext)
    ensures !IsLandingTitle(title) ==> r == DefaultFilename(title, ext)
    ensures EndsWith(r, "." + ext)
  {
    if IsLandingTitle(title) then LandingFilename(ext) else DefaultFilename(title, ext)
  }

  /** No title gets the generic name `README.<ext>`: the landing file name is produced for the
      landing title and for nothing else. */
  lemma {:induction false} LandingFilenameIff(title: string, ext: string)
    ensures FilenameForTitle(title, ext) == LandingFilename(ext) <==> IsLandingTitle(title)
  {
    assert LandingFilename(ext)[0] == 'R';
  }

  /** Trimming and lower-casing commute on titles, so the landing test is the same as
      `strip(lower(t)) == "wiki"`. */
  lemma {:induction false} LandingTestCommutes(title: string)
    ensures IsLandingTitle(title) <==> (title != [] && Strip(Lower(title)) == "wiki")
  {
    LowerStripCommute(title);
  }

  lemma {:induction false} LowerStripCommute(s: string)
    ensures Lower(Strip(s)) == Strip(Lower(s))
  {
    TrimStartLower(s);
    TrimEndLower(TrimStart(s));
  }

  lemma {:induction false} TrimStartLower(s: string)
    ensures Lower(TrimStart(s)) == TrimStart(Lower(s))
    decreases |s|
  {
    if s != [] && IsSpace(s[0]) {
      assert IsSpace(Lower(s)[0]);
      assert Lower(s)[1..] == Lower(s[1..]);
      TrimStartLower(s[1..]);
    } else if s != [] {
      assert !IsSpace(Lower(s)[0]);
    }
  }

  lemma {:induction false} TrimEndLower(s: string)
    ensures Lower(TrimEnd(s)) == TrimEnd(Lower(s))
    decreases |s|
  {
    if s != [] && IsSpace(s[|s| - 1]) {
      assert Lower(s)[..|s| - 1] == Lower(s[..|s| - 1]);
      TrimEndLower(s[..|s| - 1]);
    }
  }

  /** The landing test ignores surrounding whitespace and letter case. */
  lemma LandingTitleVariant()
    ensures IsLandingTitle(" WIKI\t")
  {
    VariantStripped();
    LowerWiki();
  }

  lemma LowerWiki()
    ensures Lower("WIKI") == "wiki"
  {
    var r := Lower("WIKI");
    assert r[0] == LowerChar('W') == 'w';
    assert r[1] == LowerChar('I') == 'i';
    assert r[2] == LowerChar('K') == 'k';
    assert r[3] == LowerChar('I') == 'i';
    assert r == [r[0], r[1], r[2], r[3]];
  }

  lemma VariantStripped()
    ensures Strip(" WIKI\t") == "WIKI"
  {
    VariantTrimStart();
    VariantTrimEnd();
  }

  lemma VariantTrimStart()
    ensures TrimStart(" WIKI\t") == "WIKI\t"
  {
    var s := " WIKI\t";
    assert s[0] == ' ' && s[1..] == "WIKI\t";
    TrimStartSkips(s);
    assert "WIKI\t"[0] == 'W';
    TrimStartStops("WIKI\t");
  }

  lemma VariantTrimEnd()
    ensures TrimEnd("WIKI\t") == "WIKI"
  {
    assert IsSpace('\t') && !IsSpace('I');
    assert "WIKI\t"[..4] == "WIKI";
  }

  /** A title that merely starts with `Wiki` is an ordinary page. */
  lemma OrdinaryTitle()
    ensures !IsLandingTitle("Wiki Page")
  {
    assert TrimStart("Wiki Page") == "Wiki Page" by {
      assert !IsSpace('W');
    }
    assert TrimEnd("Wiki Page") == "Wiki Page" by {
      assert !IsSpace('e');
    }
    assert Strip("Wiki Page") == "Wiki Page";
    assert |Lower("Wiki Page")| == 9;
  }
}
