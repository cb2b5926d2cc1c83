/** One run of `mirror_redmine_wiki` (plugins/module_utils/redmine_wiki.py) against an output
    directory: every titled page of the index is written when its file does not already hold
    exactly the page's content, then files with the configured extension that no page of the
    run produced are deleted. In check mode the run writes and deletes nothing; it reports as a
    real run does when the pages' file names are pairwise distinct.

    The output directory is a map from file name to what reading the file gives. The index,
    with each page's body already fetched, is an input: the HTTP requests are not modelled. */
module Reconcile {
  import opened Wrappers
  import opened Text
  import opened TitleCodec
  import opened LinkTable
  import opened Resolve
  import opened Rewriter

  /** Text as `read_text` returns it: universal-newline mode never yields a carriage return. */
  type ReadText = s: string | '\r' !in s

  /** A file of the output directory: its text, or a file that cannot be read as UTF-8. */
  datatype FileState = Unreadable | Contents(text: ReadText)

  /** The output directory: the files in it, by name, each as reading it gives it. A name that
      is not a key has no file. */
  type Disk = map<string, FileState>

  /** The options of a run that the page loop and the stale scan look at. */
  datatype Config = Config(project: string, ext: string, deleteStale: bool, checkMode: bool, rewriteLinks: bool)

  /** What a name holds on the disk, `None` when there is no such file. */
  function At(disk: Disk, name: string): Option<FileState>
  {
    if name in disk then Some(disk[name]) else None
  }

  /** `old_content`: `""` when the file does not exist, `None` when it cannot be read. */
  function OldContent(disk: Disk, name: string): (r: Option<string>)
    ensures name !in disk ==> r == Some([])
    ensures name in disk && disk[name].Unreadable? ==> r.None?
    ensures name in disk && disk[name].Contents? ==> r == Some(disk[name].text)
  {
    if name !in disk then Some([])
    else match disk[name]
      case Unreadable => None
      case Contents(t) => Some(t)
  }

  /** `old_content != content`. */
  predicate NeedsWrite(disk: Disk, name: string, content: string)
  {
    OldContent(disk, name) != Some(content)
  }

  /** A page is written exactly when its file is missing and the page is not empty, when its
      file cannot be read, or when its file holds different text. */
  lemma NeedsWriteIff(disk: Disk, name: string, content: string)
    ensures NeedsWrite(disk, name, content) <==>
              || (name !in disk && content != [])
              || (name in disk && disk[name] == Unreadable)
              || (name in disk && disk[name].Contents? && disk[name].text != content)
  {
  }

  /** What `read_text` gives back for a file that `write_text` wrote `s` to. On a POSIX system
      `write_text` writes the text unchanged. `read_text` reads in universal-newline mode, so
      `\r\n` and a lone `\r` both come back as `\n`. */
  function ReadBack(s: string): (r: string)
    ensures '\r' !in r
    ensures '\r' !in s ==> r == s
    ensures s != [] ==> r != []
    decreases |s|
  {
    if s == [] then []
    else if s[0] == '\r' then
      "\n" + ReadBack(if |s| > 1 && s[1] == '\n' then s[2..] else s[1..])
    else
      [s[0]] + ReadBack(s[1..])
  }

  /** A text reads back as written exactly when it holds no carriage return. */
  lemma ReadBackExact(s: string)
    ensures ReadBack(s) == s <==> '\r' !in s
    ensures ReadBack(ReadBack(s)) == ReadBack(s)
  {
  }

  /** A Windows line end and an old Mac line end both read back as one `\n`. */
  lemma ReadBackLineEnds()
    ensures ReadBack("a\r\nb") == "a\nb"
    ensures ReadBack("a\rb") == "a\nb"
  {
    assert "a\r\nb"[1..] == "\r\nb" && "\r\nb"[2..] == "b";
    assert "a\rb"[1..] == "\rb" && "\rb"[1..] == "b";
    assert ReadBack("b") == "b";
  }

  /** The file name of a titled entry. */
  function PageName(e: IndexEntry, cfg: Config): string
    requires HasTitle(e)
  {
    FilenameForTitle(e.title.value, cfg.ext)
  }

  /** The text written for an entry: its body, rewritten with the run's link table when link
      rewriting is on. */
  function PageContent(e: IndexEntry, cfg: Config, table: map<string, string>, codec: UrlCodec): string
  {
    if cfg.rewriteLinks then RewriteContent(e.text, cfg.project, table, codec) else e.text
  }

  /** The state threaded through a run: the directory, `seen_filenames`, `changed`,
      `synced_pages` and `deleted_pages`. */
  datatype State = State(disk: Disk, seen: set<string>, changed: bool, synced: seq<string>, deleted: seq<string>)

  /** The loop body for one titled entry. */
  function SyncPage(e: IndexEntry, cfg: Config, table: map<string, string>, codec: UrlCodec, st: State): (r: State)
    requires HasTitle(e)
    ensures r.seen == st.seen + {PageName(e, cfg)}
    ensures r.synced == st.synced + (if NeedsWrite(st.disk, PageName(e, cfg), PageContent(e, cfg, table, codec)) then [PageName(e, cfg)] else [])
    ensures r.changed <==> st.changed || NeedsWrite(st.disk, PageName(e, cfg), PageContent(e, cfg, table, codec))
    ensures r.deleted == st.deleted
    ensures cfg.checkMode ==> r.disk == st.disk
    ensures !NeedsWrite(st.disk, PageName(e, cfg), PageContent(e, cfg, table, codec)) ==> r.disk == st.disk
    ensures !cfg.checkMode ==> OldContent(r.disk, PageName(e, cfg)) == Some(ReadBack(PageContent(e, cfg, table, codec)))
    ensures forall n :: n != PageName(e, cfg) ==> At(r.disk, n) == At(st.disk, n)
    ensures st.disk.Keys <= r.disk.Keys
  {
    var name := PageName(e, cfg);
    var content := PageContent(e, cfg, table, codec);
    if !NeedsWrite(st.disk, name, content) then
      UpToDate(st.disk, name, content);
      State(st.disk, st.seen + {name}, st.changed, st.synced, st.deleted)
    else if cfg.checkMode then
      State(st.disk, st.seen + {name}, true, st.synced + [name], st.deleted)
    else
      var text := ReadBack(content);
      WriteFile(st.disk, name, text);
      State(st.disk[name := Contents(text)], st.seen + {name}, true, st.synced + [name], st.deleted)
  }

  /** A file that already holds the content holds it as it reads back. */
  lemma UpToDate(disk: Disk, name: string, content: string)
    requires !NeedsWrite(disk, name, content)
    ensures OldContent(disk, name) == Some(ReadBack(content))
  {
  }

  /** Writing one file: it then reads back as written, and every other file is as it was. */
  lemma WriteFile(disk: Disk, name: string, text: ReadText)
    ensures OldContent(disk[name := Contents(text)], name) == Some(text)
    ensures forall n :: n != name ==> At(disk[name := Contents(text)], n) == At(disk, n)
    ensures disk.Keys <= disk[name := Contents(text)].Keys
  {
  }

  /** The set of file names of the titled entries. */
  function Seen(entries: seq<IndexEntry>, ext: string): set<string>
  {
    set f | f in Filenames(entries, ext)
  }

  lemma SeenCons(entries: seq<IndexEntry>, ext: string)
    requires entries != []
    ensures Seen(entries, ext) == Seen(entries[1..], ext)
              + (if HasTitle(entries[0]) then {FilenameForTitle(entries[0].title.value, ext)} else {})
  {
  }

  /** The page loop `for entry in index`, entries without a title skipped. */
  function SyncPages(entries: seq<IndexEntry>, cfg: Config, table: map<string, string>, codec: UrlCodec, st: State): (r: State)
    ensures r.seen == st.seen + Seen(entries, cfg.ext)
    ensures Extends(st, r, cfg.checkMode, Seen(entries, cfg.ext))
    decreases |entries|
  {
    if entries == [] then
      NothingSeen(entries, cfg.ext);
      ExtendsItself(st, cfg.checkMode, Seen(entries, cfg.ext));
      st
    else
      var next := if HasTitle(entries[0]) then SyncPage(entries[0], cfg, table, codec, st) else st;
      FirstPageStep(entries, cfg, table, codec, st);
      var r := SyncPages(entries[1..], cfg, table, codec, next);
      StepsChain(st, next, r, cfg.checkMode, Seen(entries, cfg.ext));
      r
  }

  /** What one stretch of the page loop keeps from the state `st` it starts in: nothing is
      deleted, a check run writes nothing, a stretch that reports nothing writes nothing, only
      the files `names` are touched and none disappears, `changed` tracks the report, and the
      report only grows. */
  ghost predicate Extends(st: State, r: State, checkMode: bool, names: set<string>)
  {
    && r.deleted == st.deleted
    && (checkMode ==> r.disk == st.disk)
    && (|r.synced| == |st.synced| ==> r.disk == st.disk)
    && (forall n :: n !in names ==> At(r.disk, n) == At(st.disk, n))
    && st.disk.Keys <= r.disk.Keys
    && (r.changed <==> st.changed || |r.synced| > |st.synced|)
    && |r.synced| >= |st.synced| && r.synced[..|st.synced|] == st.synced
  }

  /** The first entry's step of the page loop touches only its own file and adds it to the
      names seen. */
  lemma FirstPageStep(entries: seq<IndexEntry>, cfg: Config, table: map<string, string>, codec: UrlCodec, st: State)
    requires entries != []
    ensures var next := if HasTitle(entries[0]) then SyncPage(entries[0], cfg, table, codec, st) else st;
            && next.seen + Seen(entries[1..], cfg.ext) == st.seen + Seen(entries, cfg.ext)
            && Extends(st, next, cfg.checkMode, Seen(entries, cfg.ext))
  {
    SeenCons(entries, cfg.ext);
    if !HasTitle(entries[0]) {
      ExtendsItself(st, cfg.checkMode, Seen(entries, cfg.ext));
    }
  }

  lemma ExtendsItself(st: State, checkMode: bool, names: set<string>)
    ensures Extends(st, st, checkMode, names)
  {
    assert st.synced[..|st.synced|] == st.synced;
  }

  lemma NothingSeen(entries: seq<IndexEntry>, ext: string)
    requires entries == []
    ensures Seen(entries, ext) == {}
  {
    assert Filenames(entries, ext) == [];
  }

  lemma StepsChain(st: State, next: State, r: State, checkMode: bool, names: set<string>)
    requires Extends(st, next, checkMode, names) && Extends(next, r, checkMode, names)
    ensures Extends(st, r, checkMode, names)
  {
    assert r.synced[..|st.synced|] == next.synced[..|st.synced|];
  }

  /** Independent description of what the page loop reports: the entries, in index order,
      whose content differs from what `disk` holds under their file name. */
  function ChangedNames(entries: seq<IndexEntry>, cfg: Config, table: map<string, string>, codec: UrlCodec, disk: Disk): (names: seq<string>)
    ensures forall f :: f in names ==> f in Seen(entries, cfg.ext)
  {
    if entries == [] then []
    else
      var e := entries[0];
      SeenCons(entries, cfg.ext);
      (if HasTitle(e) && NeedsWrite(disk, PageName(e, cfg), PageContent(e, cfg, table, codec)) then [PageName(e, cfg)] else [])
      + ChangedNames(entries[1..], cfg, table, codec, disk)
  }

  /** A file is stale when it has the run's extension and no page of the run produced it. */
  predicate IsStale(name: string, seen: set<string>, ext: string)
  {
    EndsWith(name, "." + ext) && name !in seen
  }

  /** The stale scan `for f in outdir.glob("*.<ext>")` over the names of the directory, in the
      order the directory lists them. */
  function DeleteStale(listing: seq<string>, cfg: Config, st: State): (r: State)
    ensures r.seen == st.seen && r.synced == st.synced
    ensures forall n :: n in r.deleted <==> n in st.deleted || (n in listing && IsStale(n, st.seen, cfg.ext))
    ensures |r.deleted| >= |st.deleted| && r.deleted[..|st.deleted|] == st.deleted
    ensures r.changed <==> st.changed || |r.deleted| > |st.deleted|
    ensures cfg.checkMode ==> r.disk == st.disk
    ensures !cfg.checkMode ==> forall n :: At(r.disk, n) == (if n in listing && IsStale(n, st.seen, cfg.ext) then None else At(st.disk, n))
    decreases |listing|
  {
    if listing == [] then st
    else
      var n := listing[0];
      var next :=
        if IsStale(n, st.seen, cfg.ext) then
          State(if cfg.checkMode then st.disk else st.disk - {n}, st.seen, true, st.synced, st.deleted + [n])
        else st;
      var r := DeleteStale(listing[1..], cfg, next);
      assert forall m :: m in listing <==> m == n || m in listing[1..];
      assert r.deleted[..|st.deleted|] == next.deleted[..|st.deleted|];
      r
  }

  /** `listing` enumerates the files of `disk`, each once. */
  predicate IsListing(listing: seq<string>, disk: Disk)
  {
    && (forall n :: n in listing ==> n in disk)
    && (forall n :: n in disk ==> n in listing)
    && (forall i, j :: 0 <= i < j < |listing| ==> listing[i] != listing[j])
  }

  /** One run. The stale scan lists the directory after the page loop; the files the loop can
      have added are all seen, so the scan deletes the same files as a scan of `listing`, the
      directory before the run. */
  function Mirror(index: seq<IndexEntry>, cfg: Config, codec: UrlCodec, disk: Disk, listing: seq<string>): (r: State)
    requires IsListing(listing, disk)
    ensures r.seen == Seen(index, cfg.ext)
    ensures r.changed <==> r.synced != [] || r.deleted != []
    ensures cfg.checkMode ==> r.disk == disk
    ensures !cfg.deleteStale ==> r.deleted == []
    ensures cfg.deleteStale ==> forall n :: n in r.deleted <==> n in disk && IsStale(n, Seen(index, cfg.ext), cfg.ext)
    ensures forall n :: n !in Seen(index, cfg.ext) && !(cfg.deleteStale && IsStale(n, Seen(index, cfg.ext), cfg.ext)) ==>
              At(r.disk, n) == At(disk, n)
  {
    var table := BuildTable(index, cfg.ext);
    var pages := SyncPages(index, cfg, table, codec, State(disk, {}, false, [], []));
    if cfg.deleteStale then DeleteStale(listing, cfg, pages) else pages
  }
}
