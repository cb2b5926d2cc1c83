/** What a run of the mirror promises: which pages it writes, which files it deletes, that check
    mode reports what a real run does, and that a second run right after a real one changes
    nothing. */
module RunProperties {
  import opened Wrappers
  import opened Text
  import opened TitleCodec
  import opened LinkTable
  import opened Resolve
  import opened Reconcile

  lemma OldContentAt(d1: Disk, d2: Disk, name: string)
    requires At(d1, name) == At(d2, name)
    ensures OldContent(d1, name) == OldContent(d2, name)
  {
  }

  lemma {:induction false} DiskExt(d1: Disk, d2: Disk)
    requires forall n :: At(d1, n) == At(d2, n)
    ensures d1 == d2
  {
    forall n | n in d1 ensures n in d2 && d1[n] == d2[n] {
      assert At(d1, n) == At(d2, n);
    }
    forall n | n in d2 ensures n in d1 {
      assert At(d1, n) == At(d2, n);
    }
  }

  lemma {:induction false} FilenamesCons(entries: seq<IndexEntry>, ext: string)
    requires entries != []
    ensures HasTitle(entries[0]) ==>
              Filenames(entries, ext) == [FilenameForTitle(entries[0].title.value, ext)] + Filenames(entries[1..], ext)
    ensures !HasTitle(entries[0]) ==> Filenames(entries, ext) == Filenames(entries[1..], ext)
  {
  }

  /** Distinct file names carry over to the rest of the index, and the first entry's file is
      not produced again later. */
  lemma {:induction false} DistinctCons(entries: seq<IndexEntry>, ext: string)
    requires entries != [] && DistinctFilenames(entries, ext)
    ensures DistinctFilenames(entries[1..], ext)
    ensures HasTitle(entries[0]) ==> FilenameForTitle(entries[0].title.value, ext) !in Seen(entries[1..], ext)
  {
    FilenamesCons(entries, ext);
    var names := Filenames(entries, ext);
    var rest := Filenames(entries[1..], ext);
    if HasTitle(entries[0]) {
      assert forall i :: 0 <= i < |rest| ==> rest[i] == names[i + 1];
      assert forall j :: 0 <= j < |rest| ==> names[0] != rest[j];
    }
  }

  /** In check mode the disk never changes, so the page loop reports exactly the entries whose
      content differs from the directory as it was, whether or not file names collide. */
  lemma {:induction false} CheckModeSynced(entries: seq<IndexEntry>, cfg: Config, table: map<string, string>, codec: UrlCodec, st: State)
    requires cfg.checkMode
    ensures SyncPages(entries, cfg, table, codec, st).synced == st.synced + ChangedNames(entries, cfg, table, codec, st.disk)
    decreases |entries|
  {
    if entries != [] {
      var e := entries[0];
      var next := if HasTitle(e) then SyncPage(e, cfg, table, codec, st) else st;
      var head := if HasTitle(e) && NeedsWrite(st.disk, PageName(e, cfg), PageContent(e, cfg, table, codec)) then [PageName(e, cfg)] else [];
      SyncPagesCons(entries, cfg, table, codec, st);
      ChangedNamesCons(entries, cfg, table, codec, st.disk);
      CheckModeSynced(entries[1..], cfg, table, codec, next);
      Assoc(st.synced, head, ChangedNames(entries[1..], cfg, table, codec, st.disk));
    }
  }

  lemma Assoc<T>(a: seq<T>, b: seq<T>, c: seq<T>)
    ensures a + b + c == a + (b + c)
  {
  }

  /** One step of the page loop. */
  lemma SyncPagesCons(entries: seq<IndexEntry>, cfg: Config, table: map<string, string>, codec: UrlCodec, st: State)
    requires entries != []
    ensures var e := entries[0];
            var next := if HasTitle(e) then SyncPage(e, cfg, table, codec, st) else st;
            && SyncPages(entries, cfg, table, codec, st) == SyncPages(entries[1..], cfg, table, codec, next)
            && next.synced == st.synced + (if HasTitle(e) && NeedsWrite(st.disk, PageName(e, cfg), PageContent(e, cfg, table, codec)) then [PageName(e, cfg)] else [])
            && (cfg.checkMode ==> next.disk == st.disk)
  {
  }

  lemma ChangedNamesCons(entries: seq<IndexEntry>, cfg: Config, table: map<string, string>, codec: UrlCodec, disk: Disk)
    requires entries != []
    ensures var e := entries[0];
            ChangedNames(entries, cfg, table, codec, disk)
              == (if HasTitle(e) && NeedsWrite(disk, PageName(e, cfg), PageContent(e, cfg, table, codec)) then [PageName(e, cfg)] else [])
                 + ChangedNames(entries[1..], cfg, table, codec, disk)
  {
  }

  /** With pairwise distinct file names, each page is compared against the directory as it was
      before the run, so the page loop reports exactly the entries whose content differs from it. */
  lemma {:induction false} DistinctSynced(entries: seq<IndexEntry>, cfg: Config, table: map<string, string>, codec: UrlCodec, st: State, disk: Disk)
    requires DistinctFilenames(entries, cfg.ext)
    requires forall n :: n in Seen(entries, cfg.ext) ==> At(st.disk, n) == At(disk, n)
    ensures SyncPages(entries, cfg, table, codec, st).synced == st.synced + ChangedNames(entries, cfg, table, codec, disk)
    decreases |entries|
  {
    if entries != [] {
      var e := entries[0];
      var next := if HasTitle(e) then SyncPage(e, cfg, table, codec, st) else st;
      var head := if HasTitle(e) && NeedsWrite(disk, PageName(e, cfg), PageContent(e, cfg, table, codec)) then [PageName(e, cfg)] else [];
      SeenCons(entries, cfg.ext);
      DistinctCons(entries, cfg.ext);
      SyncPagesCons(entries, cfg, table, codec, st);
      ChangedNamesCons(entries, cfg, table, codec, disk);
      if HasTitle(e) {
        OldContentAt(st.disk, disk, PageName(e, cfg));
      }
      assert next.synced == st.synced + head;
      forall n | n in Seen(entries[1..], cfg.ext) ensures At(next.disk, n) == At(disk, n) {
        assert n in Seen(entries, cfg.ext);
      }
      DistinctSynced(entries[1..], cfg, table, codec, next, disk);
      Assoc(st.synced, head, ChangedNames(entries[1..], cfg, table, codec, disk));
    }
  }

  /** After the page loop of a real run with distinct file names, reading every page's file
      gives the page's content as `read_text` returns it. */
  lemma {:induction false} SyncedPagesMirrored(entries: seq<IndexEntry>, cfg: Config, table: map<string, string>, codec: UrlCodec, st: State)
    requires !cfg.checkMode && DistinctFilenames(entries, cfg.ext)
    ensures forall e :: e in entries && HasTitle(e) ==>
              OldContent(SyncPages(entries, cfg, table, codec, st).disk, PageName(e, cfg)) == Some(ReadBack(PageContent(e, cfg, table, codec)))
    decreases |entries|
  {
    if entries != [] {
      var e0 := entries[0];
      DistinctCons(entries, cfg.ext);
      var next := if HasTitle(e0) then SyncPage(e0, cfg, table, codec, st) else st;
      var r := SyncPages(entries[1..], cfg, table, codec, next);
      SyncedPagesMirrored(entries[1..], cfg, table, codec, next);
      forall e | e in entries && HasTitle(e)
        ensures OldContent(r.disk, PageName(e, cfg)) == Some(ReadBack(PageContent(e, cfg, table, codec)))
      {
        if e != e0 {
          assert e in entries[1..];
        } else {
          OldContentAt(r.disk, next.disk, PageName(e0, cfg));
        }
      }
    }
  }

  /** What the stale scan reports depends only on the listing, the seen names and the
      extension: not on the files' contents and not on check mode. */
  lemma {:induction false} DeleteStaleReport(listing: seq<string>, c1: Config, c2: Config, s1: State, s2: State)
    requires c1.ext == c2.ext && s1.seen == s2.seen && s1.deleted == s2.deleted
    ensures DeleteStale(listing, c1, s1).deleted == DeleteStale(listing, c2, s2).deleted
    decreases |listing|
  {
    if listing != [] {
      var n := listing[0];
      var stale := IsStale(n, s1.seen, c1.ext);
      var n1 :=
        if stale then State(if c1.checkMode then s1.disk else s1.disk - {n}, s1.seen, true, s1.synced, s1.deleted + [n])
        else s1;
      var n2 :=
        if stale then State(if c2.checkMode then s2.disk else s2.disk - {n}, s2.seen, true, s2.synced, s2.deleted + [n])
        else s2;
      assert DeleteStale(listing, c1, s1) == DeleteStale(listing[1..], c1, n1);
      assert DeleteStale(listing, c2, s2) == DeleteStale(listing[1..], c2, n2);
      DeleteStaleReport(listing[1..], c1, c2, n1, n2);
    }
  }

  /** A real run with distinct file names writes exactly the pages whose content differs from
      the directory before the run. */
  lemma {:induction false} RealRunSynced(index: seq<IndexEntry>, cfg: Config, codec: UrlCodec, disk: Disk, listing: seq<string>)
    requires IsListing(listing, disk) && DistinctFilenames(index, cfg.ext)
    ensures Mirror(index, cfg, codec, disk, listing).synced == ChangedNames(index, cfg, BuildTable(index, cfg.ext), codec, disk)
  {
    var st := State(disk, {}, false, [], []);
    DistinctSynced(index, cfg, BuildTable(index, cfg.ext), codec, st, disk);
  }

  /** Check mode reports the pages whose content differs from the directory before the run,
      whatever the file names. */
  lemma {:induction false} CheckRunSynced(index: seq<IndexEntry>, cfg: Config, codec: UrlCodec, disk: Disk, listing: seq<string>)
    requires IsListing(listing, disk) && cfg.checkMode
    ensures Mirror(index, cfg, codec, disk, listing).synced == ChangedNames(index, cfg, BuildTable(index, cfg.ext), codec, disk)
  {
    var st := State(disk, {}, false, [], []);
    CheckModeSynced(index, cfg, BuildTable(index, cfg.ext), codec, st);
  }

  /** With distinct file names, check mode reports exactly what the real run does: the same
      `changed` flag, the same written pages and the same deleted files, in the same order. */
  lemma {:induction false} CheckModeMatchesRun(index: seq<IndexEntry>, cfg: Config, codec: UrlCodec, disk: Disk, listing: seq<string>)
    requires IsListing(listing, disk) && DistinctFilenames(index, cfg.ext)
    ensures var dry := Mirror(index, cfg.(checkMode := true), codec, disk, listing);
            var wet := Mirror(index, cfg.(checkMode := false), codec, disk, listing);
            dry.changed == wet.changed && dry.synced == wet.synced && dry.deleted == wet.deleted
  {
    var dryCfg := cfg.(checkMode := true);
    var realCfg := cfg.(checkMode := false);
    var table := BuildTable(index, cfg.ext);
    var st := State(disk, {}, false, [], []);
    CheckRunSynced(index, dryCfg, codec, disk, listing);
    RealRunSynced(index, realCfg, codec, disk, listing);
    assert ChangedNames(index, dryCfg, table, codec, disk) == ChangedNames(index, realCfg, table, codec, disk) by {
      ChangedNamesIgnoresMode(index, dryCfg, realCfg, table, codec, disk);
    }
    var p1 := SyncPages(index, dryCfg, table, codec, st);
    var p2 := SyncPages(index, realCfg, table, codec, st);
    if cfg.deleteStale {
      DeleteStaleReport(listing, dryCfg, realCfg, p1, p2);
    }
  }

  lemma {:induction false} ChangedNamesIgnoresMode(entries: seq<IndexEntry>, c1: Config, c2: Config, table: map<string, string>, codec: UrlCodec, disk: Disk)
    requires c1 == c2.(checkMode := c1.checkMode)
    ensures ChangedNames(entries, c1, table, codec, disk) == ChangedNames(entries, c2, table, codec, disk)
    decreases |entries|
  {
    if entries != [] {
      ChangedNamesCons(entries, c1, table, codec, disk);
      ChangedNamesCons(entries, c2, table, codec, disk);
      ChangedNamesIgnoresMode(entries[1..], c1, c2, table, codec, disk);
    }
  }

  /** Two titles that differ only in letter case, on an empty directory. */
  function CaseTwins(): seq<IndexEntry>
  {
    [IndexEntry(Some("A"), "x"), IndexEntry(Some("a"), "x")]
  }

  function PlainRun(checkMode: bool): Config
  {
    Config("p", "md", false, checkMode, false)
  }

  /** Titles that differ only in letter case share a file name. Then the real run writes the
      file once and finds it up to date for the second title, while check mode, which writes
      nothing, reports the file twice. */
  lemma DuplicateTitlesDiverge(codec: UrlCodec)
    ensures Mirror(CaseTwins(), PlainRun(true), codec, map[], []).synced == ["a.md", "a.md"]
    ensures Mirror(CaseTwins(), PlainRun(false), codec, map[], []).synced == ["a.md"]
  {
    CaseTwinsCollide();
    CaseTwinsNames();
    var index := CaseTwins();
    var cfg := PlainRun(false);
    assert cfg.(checkMode := false) == cfg;
    CollidingPagesDiverge(index[0], index[1], cfg, codec);
    var dry := Mirror([index[0], index[1]], cfg.(checkMode := true), codec, map[], []);
    assert dry == Mirror(CaseTwins(), PlainRun(true), codec, map[], []);
    var n := PageName(index[0], cfg);
    assert n == "a.md";
    assert dry.synced == [n, n];
  }

  /** The two entries of `CaseTwins` meet the hypotheses of `CollidingPagesDiverge`. */
  lemma CaseTwinsCollide()
    ensures var index := CaseTwins();
            && index == [index[0], index[1]]
            && HasTitle(index[0]) && HasTitle(index[1])
            && index[0].text == index[1].text == "x" && '\r' !in index[0].text
            && !PlainRun(false).rewriteLinks
            && PlainRun(false).(checkMode := true) == PlainRun(true)
  {
  }

  lemma CaseTwinsNames()
    ensures PageName(CaseTwins()[0], PlainRun(false)) == "a.md"
    ensures PageName(CaseTwins()[1], PlainRun(false)) == "a.md"
  {
    AFiles();
  }

  /** Two pages with the same file name and the same non-empty text, on an empty directory:
      check mode reports the file once per page, a real run only once. */
  lemma CollidingPagesDiverge(e1: IndexEntry, e2: IndexEntry, cfg: Config, codec: UrlCodec)
    requires HasTitle(e1) && HasTitle(e2) && PageName(e1, cfg) == PageName(e2, cfg)
    requires !cfg.rewriteLinks && e1.text == e2.text && e1.text != [] && '\r' !in e1.text
    ensures Mirror([e1, e2], cfg.(checkMode := true), codec, map[], []).synced == [PageName(e1, cfg), PageName(e1, cfg)]
    ensures Mirror([e1, e2], cfg.(checkMode := false), codec, map[], []).synced == [PageName(e1, cfg)]
  {
    CollidingDry(e1, e2, cfg.(checkMode := true), codec);
    CollidingWet(e1, e2, cfg.(checkMode := false), codec);
  }

  lemma CollidingDry(e1: IndexEntry, e2: IndexEntry, cfg: Config, codec: UrlCodec)
    requires HasTitle(e1) && HasTitle(e2) && PageName(e1, cfg) == PageName(e2, cfg)
    requires !cfg.rewriteLinks && e1.text == e2.text && e1.text != [] && cfg.checkMode
    ensures Mirror([e1, e2], cfg, codec, map[], []).synced == [PageName(e1, cfg), PageName(e1, cfg)]
  {
    CheckRunSynced([e1, e2], cfg, codec, map[], []);
    CollidingChanged(e1, e2, cfg, BuildTable([e1, e2], cfg.ext), codec);
  }

  /** Against an empty directory, both colliding pages differ from what is there. */
  lemma CollidingChanged(e1: IndexEntry, e2: IndexEntry, cfg: Config, table: map<string, string>, codec: UrlCodec)
    requires HasTitle(e1) && HasTitle(e2) && PageName(e1, cfg) == PageName(e2, cfg)
    requires !cfg.rewriteLinks && e1.text == e2.text && e1.text != []
    ensures ChangedNames([e1, e2], cfg, table, codec, map[]) == [PageName(e1, cfg), PageName(e1, cfg)]
  {
    var index := [e1, e2];
    var n := PageName(e1, cfg);
    assert NeedsWrite(map[], n, PageContent(e1, cfg, table, codec));
    ChangedNamesCons(index, cfg, table, codec, map[]);
    assert index[1..] == [e2];
    ChangedNamesCons([e2], cfg, table, codec, map[]);
    assert [e2][1..] == [];
  }

  lemma CollidingWet(e1: IndexEntry, e2: IndexEntry, cfg: Config, codec: UrlCodec)
    requires HasTitle(e1) && HasTitle(e2) && PageName(e1, cfg) == PageName(e2, cfg)
    requires !cfg.rewriteLinks && e1.text == e2.text && e1.text != [] && '\r' !in e1.text && !cfg.checkMode
    ensures Mirror([e1, e2], cfg, codec, map[], []).synced == [PageName(e1, cfg)]
  {
    var index := [e1, e2];
    var n := PageName(e1, cfg);
    var table := BuildTable(index, cfg.ext);
    var st := State(map[], {}, false, [], []);
    SyncPagesCons(index, cfg, table, codec, st);
    var s1 := SyncPage(e1, cfg, table, codec, st);
    assert s1.synced == [n];
    assert OldContent(s1.disk, n) == Some(e1.text);
    assert index[1..] == [e2];
    SyncPagesCons([e2], cfg, table, codec, s1);
    var s2 := SyncPage(e2, cfg, table, codec, s1);
    assert s2.synced == [n];
    assert [e2][1..] == [];
  }

  /** Titles `A` and `a` both get the file `a.md`: the letter lower-cased, then `.md`. */
  lemma AFiles()
    ensures FilenameForTitle("A", "md") == "a.md"
    ensures FilenameForTitle("a", "md") == "a.md"
  {
    OneLetterTitle('A', "md");
    OneLetterTitle('a', "md");
    AStems();
  }

  lemma AStems()
    ensures DefaultFilename("A", "md") == "a.md"
    ensures DefaultFilename("a", "md") == "a.md"
  {
    OneLetterFile('A', "md");
    OneLetterFile('a', "md");
    assert StemChar('A') == 'a';
    assert StemChar('a') == 'a';
  }

  /** A one-letter title is never the landing title, so its file is the generic one. */
  lemma OneLetterTitle(c: char, ext: string)
    ensures FilenameForTitle([c], ext) == DefaultFilename([c], ext)
  {
    ShortTitleOrdinary([c]);
  }

  lemma OneLetterFile(c: char, ext: string)
    ensures DefaultFilename([c], ext) == [StemChar(c)] + "." + ext
  {
    var f := DefaultFilename([c], ext);
    assert f == [f[0]] + f[1..];
  }

  /** A title shorter than `wiki` cannot be the landing title. */
  lemma ShortTitleOrdinary(t: string)
    requires |t| < 4
    ensures !IsLandingTitle(t)
  {
    var u := Strip(t);
    assert |Lower(u)| == |u| <= |t|;
  }

  /** A titled entry's file is among the file names of the run. */
  lemma {:induction false} PageNameSeen(index: seq<IndexEntry>, cfg: Config, e: IndexEntry)
    requires e in index && HasTitle(e)
    ensures PageName(e, cfg) in Seen(index, cfg.ext)
  {
    var i :| 0 <= i < |index| && index[i] == e;
    assert e.title.value in Titles(index);
    FilenamesOfTitles(index, cfg.ext);
  }

  /** No file a page of the run is mirrored to is deleted as stale. */
  lemma {:induction false} PageFilesKept(index: seq<IndexEntry>, cfg: Config, codec: UrlCodec, disk: Disk, listing: seq<string>)
    requires IsListing(listing, disk)
    ensures forall e :: e in index && HasTitle(e) ==> PageName(e, cfg) !in Mirror(index, cfg, codec, disk, listing).deleted
  {
    forall e | e in index && HasTitle(e) ensures PageName(e, cfg) !in Mirror(index, cfg, codec, disk, listing).deleted {
      PageNameSeen(index, cfg, e);
    }
  }

  /** When the index has a landing page, `README.<ext>` is never deleted as stale. */
  lemma {:induction false} LandingFileKept(index: seq<IndexEntry>, cfg: Config, codec: UrlCodec, disk: Disk, listing: seq<string>, e: IndexEntry)
    requires IsListing(listing, disk)
    requires e in index && HasTitle(e) && IsLandingTitle(e.title.value)
    ensures LandingFilename(cfg.ext) !in Mirror(index, cfg, codec, disk, listing).deleted
  {
    PageFilesKept(index, cfg, codec, disk, listing);
    assert PageName(e, cfg) == LandingFilename(cfg.ext);
  }

  /** After a real run with distinct file names, reading every page's file gives that page's
      content, carriage returns read back as `\n`. */
  lemma {:induction false} RealRunMirrors(index: seq<IndexEntry>, cfg: Config, codec: UrlCodec, disk: Disk, listing: seq<string>)
    requires IsListing(listing, disk) && !cfg.checkMode && DistinctFilenames(index, cfg.ext)
    ensures forall e :: e in index && HasTitle(e) ==>
              OldContent(Mirror(index, cfg, codec, disk, listing).disk, PageName(e, cfg))
                == Some(ReadBack(PageContent(e, cfg, BuildTable(index, cfg.ext), codec)))
  {
    var table := BuildTable(index, cfg.ext);
    var pages := SyncPages(index, cfg, table, codec, State(disk, {}, false, [], []));
    var r := Mirror(index, cfg, codec, disk, listing);
    SyncedPagesMirrored(index, cfg, table, codec, State(disk, {}, false, [], []));
    forall e | e in index && HasTitle(e)
      ensures OldContent(r.disk, PageName(e, cfg)) == Some(ReadBack(PageContent(e, cfg, table, codec)))
    {
      PageNameSeen(index, cfg, e);
      OldContentAt(r.disk, pages.disk, PageName(e, cfg));
    }
  }

  /** Every file left after a real run was there before or is the file of a page, and a file
      with the run's extension that no page produced survives only when stale files are kept. */
  lemma {:induction false} RealRunFiles(index: seq<IndexEntry>, cfg: Config, codec: UrlCodec, disk: Disk, listing: seq<string>)
    requires IsListing(listing, disk) && !cfg.checkMode
    ensures forall n :: n in Mirror(index, cfg, codec, disk, listing).disk ==>
              (n in disk || n in Seen(index, cfg.ext)) && (cfg.deleteStale ==> !IsStale(n, Seen(index, cfg.ext), cfg.ext))
  {
    var table := BuildTable(index, cfg.ext);
    var pages := SyncPages(index, cfg, table, codec, State(disk, {}, false, [], []));
    var r := Mirror(index, cfg, codec, disk, listing);
    forall n | n in r.disk
      ensures (n in disk || n in Seen(index, cfg.ext)) && (cfg.deleteStale ==> !IsStale(n, Seen(index, cfg.ext), cfg.ext))
    {
      assert At(r.disk, n) != None;
      assert n in pages.disk;
      assert n !in Seen(index, cfg.ext) ==> At(pages.disk, n) == At(disk, n);
      assert n in disk ==> n in listing;
    }
  }

  /** A file that no page produces keeps its content through a run unless it is stale and stale
      files are deleted: with stale deletion off, or for a name without the run's extension, it
      is left untouched. */
  lemma OrphanKept(index: seq<IndexEntry>, cfg: Config, codec: UrlCodec, disk: Disk, listing: seq<string>, n: string)
    requires IsListing(listing, disk) && n in disk && n !in Seen(index, cfg.ext)
    requires !cfg.deleteStale || !EndsWith(n, "." + cfg.ext)
    ensures n in Mirror(index, cfg, codec, disk, listing).disk
    ensures Mirror(index, cfg, codec, disk, listing).disk[n] == disk[n]
  {
    assert !(cfg.deleteStale && IsStale(n, Seen(index, cfg.ext), cfg.ext));
    assert At(Mirror(index, cfg, codec, disk, listing).disk, n) == Some(disk[n]);
  }

  /** The pages, in index order, whose content holds a carriage return: those never read back
      as written. */
  function CarriageReturnPages(entries: seq<IndexEntry>, cfg: Config, table: map<string, string>, codec: UrlCodec): (names: seq<string>)
    ensures forall f :: f in names ==> f in Seen(entries, cfg.ext)
    ensures names == [] <==> forall e :: e in entries && HasTitle(e) ==> '\r' !in PageContent(e, cfg, table, codec)
    decreases |entries|
  {
    if entries == [] then []
    else
      var e := entries[0];
      SeenCons(entries, cfg.ext);
      var rest := CarriageReturnPages(entries[1..], cfg, table, codec);
      assert forall x :: x in entries <==> x == e || x in entries[1..];
      (if HasTitle(e) && '\r' in PageContent(e, cfg, table, codec) then [PageName(e, cfg)] else []) + rest
  }

  /** Against a directory where every page's file reads back as the page's content after a
      write, the pages that differ are exactly those holding a carriage return. */
  lemma {:induction false} ChangedAfterMirror(entries: seq<IndexEntry>, cfg: Config, table: map<string, string>, codec: UrlCodec, disk: Disk)
    requires forall e :: e in entries && HasTitle(e) ==> OldContent(disk, PageName(e, cfg)) == Some(ReadBack(PageContent(e, cfg, table, codec)))
    ensures ChangedNames(entries, cfg, table, codec, disk) == CarriageReturnPages(entries, cfg, table, codec)
    decreases |entries|
  {
    if entries != [] {
      var e := entries[0];
      ChangedNamesCons(entries, cfg, table, codec, disk);
      assert e in entries;
      if HasTitle(e) {
        ReadBackExact(PageContent(e, cfg, table, codec));
      }
      forall x | x in entries[1..] && HasTitle(x)
        ensures OldContent(disk, PageName(x, cfg)) == Some(ReadBack(PageContent(x, cfg, table, codec)))
      {
        assert x in entries;
      }
      ChangedAfterMirror(entries[1..], cfg, table, codec, disk);
    }
  }

  /** Writing a page again onto a file that already holds what the write would leave changes
      nothing on the disk. */
  lemma {:induction false} RewriteKeepsDisk(entries: seq<IndexEntry>, cfg: Config, table: map<string, string>, codec: UrlCodec, st: State)
    requires forall e :: e in entries && HasTitle(e) ==> OldContent(st.disk, PageName(e, cfg)) == Some(ReadBack(PageContent(e, cfg, table, codec)))
    ensures SyncPages(entries, cfg, table, codec, st).disk == st.disk
    decreases |entries|
  {
    if entries != [] {
      var e := entries[0];
      var next := if HasTitle(e) then SyncPage(e, cfg, table, codec, st) else st;
      SyncPagesCons(entries, cfg, table, codec, st);
      assert e in entries;
      if HasTitle(e) {
        SameWrite(st.disk, PageName(e, cfg), PageContent(e, cfg, table, codec));
      }
      assert next.disk == st.disk;
      forall x | x in entries[1..] && HasTitle(x)
        ensures OldContent(next.disk, PageName(x, cfg)) == Some(ReadBack(PageContent(x, cfg, table, codec)))
      {
        assert x in entries;
      }
      RewriteKeepsDisk(entries[1..], cfg, table, codec, next);
    }
  }

  /** A write is a no-op when the file already reads back as the written text, or when it is
      skipped. */
  lemma SameWrite(disk: Disk, name: string, content: string)
    requires OldContent(disk, name) == Some(ReadBack(content))
    ensures NeedsWrite(disk, name, content) ==> disk[name := Contents(ReadBack(content))] == disk
  {
    if NeedsWrite(disk, name, content) {
      assert content != [];
      assert name in disk;
    }
  }

  /** A second real run right after a real run, with distinct file names and the directory
      listed afresh: it deletes nothing and leaves the directory as it is, but it writes
      again, and so reports a change for, every page whose content holds a carriage return. */
  lemma {:induction false} SecondRun(index: seq<IndexEntry>, cfg: Config, codec: UrlCodec, disk: Disk, listing: seq<string>, listing2: seq<string>)
    requires IsListing(listing, disk) && !cfg.checkMode && DistinctFilenames(index, cfg.ext)
    requires IsListing(listing2, Mirror(index, cfg, codec, disk, listing).disk)
    ensures var first := Mirror(index, cfg, codec, disk, listing);
            var second := Mirror(index, cfg, codec, first.disk, listing2);
            && second.synced == CarriageReturnPages(index, cfg, BuildTable(index, cfg.ext), codec)
            && second.deleted == []
            && (second.changed <==> second.synced != [])
            && second.disk == first.disk
  {
    var table := BuildTable(index, cfg.ext);
    var first := Mirror(index, cfg, codec, disk, listing);
    var second := Mirror(index, cfg, codec, first.disk, listing2);
    RealRunMirrors(index, cfg, codec, disk, listing);
    RealRunFiles(index, cfg, codec, disk, listing);
    RealRunSynced(index, cfg, codec, first.disk, listing2);
    ChangedAfterMirror(index, cfg, table, codec, first.disk);
    var st := State(first.disk, {}, false, [], []);
    RewriteKeepsDisk(index, cfg, table, codec, st);
    var pages := SyncPages(index, cfg, table, codec, st);
    if cfg.deleteStale {
      forall n | n in listing2 ensures !IsStale(n, Seen(index, cfg.ext), cfg.ext) {
        assert n in first.disk;
      }
      DeleteStaleNoneStale(listing2, cfg, pages);
    }
  }

  /** When no page holds a carriage return, a second real run right after a real run writes
      nothing, deletes nothing and reports no change. */
  lemma {:induction false} SecondRunNoChange(index: seq<IndexEntry>, cfg: Config, codec: UrlCodec, disk: Disk, listing: seq<string>, listing2: seq<string>)
    requires IsListing(listing, disk) && !cfg.checkMode && DistinctFilenames(index, cfg.ext)
    requires IsListing(listing2, Mirror(index, cfg, codec, disk, listing).disk)
    requires forall e :: e in index && HasTitle(e) ==> '\r' !in PageContent(e, cfg, BuildTable(index, cfg.ext), codec)
    ensures var first := Mirror(index, cfg, codec, disk, listing);
            var second := Mirror(index, cfg, codec, first.disk, listing2);
            !second.changed && second.synced == [] && second.deleted == [] && second.disk == first.disk
  {
    SecondRun(index, cfg, codec, disk, listing, listing2);
  }

  /** A scan that meets no stale file changes nothing. */
  lemma {:induction false} DeleteStaleNoneStale(listing: seq<string>, cfg: Config, st: State)
    requires forall n :: n in listing ==> !IsStale(n, st.seen, cfg.ext)
    ensures DeleteStale(listing, cfg, st) == st
    decreases |listing|
  {
    if listing != [] {
      assert listing[0] in listing;
      assert forall n :: n in listing[1..] ==> n in listing;
      DeleteStaleNoneStale(listing[1..], cfg, st);
    }
  }

  /** When every page's file already holds its content, no page differs. */
  lemma {:induction false} NothingChanged(entries: seq<IndexEntry>, cfg: Config, table: map<string, string>, codec: UrlCodec, disk: Disk)
    requires forall e :: e in entries && HasTitle(e) ==> OldContent(disk, PageName(e, cfg)) == Some(PageContent(e, cfg, table, codec))
    ensures ChangedNames(entries, cfg, table, codec, disk) == []
    decreases |entries|
  {
    if entries != [] {
      ChangedNamesCons(entries, cfg, table, codec, disk);
      assert entries[0] in entries;
      forall e | e in entries[1..] && HasTitle(e) ensures OldContent(disk, PageName(e, cfg)) == Some(PageContent(e, cfg, table, codec)) {
        assert e in entries;
      }
      NothingChanged(entries[1..], cfg, table, codec, disk);
    }
  }
}
