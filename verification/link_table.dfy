/** The page index of one wiki and the title -> file name table built from it before any page
    is mirrored (plugins/module_utils/redmine_wiki.py, `mirror_redmine_wiki`). */
module LinkTable {
  import opened Wrappers
  import opened TitleCodec

  /** One entry of the page index together with the body fetched for it. `title` is `None`
      when the entry has no title (missing or null); `text` is the page body, `""` when the
      page has none. */
  datatype IndexEntry = IndexEntry(title: Option<string>, text: string)

  /** Entries whose title is missing or empty are skipped everywhere (`if not t: continue`). */
  predicate HasTitle(e: IndexEntry)
  {
    e.title.Some? && e.title.value != []
  }

  /** The titles of the index that take part in a run. */
  function Titles(index: seq<IndexEntry>): set<string>
  {
    set i | 0 <= i < |index| && HasTitle(index[i]) :: index[i].title.value
  }

  lemma TitlesSnoc(index: seq<IndexEntry>, e: IndexEntry)
    ensures Titles(index + [e]) == Titles(index) + (if HasTitle(e) then {e.title.value} else {})
  {
    var s := index + [e];
    forall t | t in Titles(s) ensures t in Titles(index) + (if HasTitle(e) then {e.title.value} else {}) {
      var i :| 0 <= i < |s| && HasTitle(s[i]) && s[i].title.value == t;
      if i < |index| {
        assert index[i] == s[i];
      }
    }
    forall t | t in Titles(index) ensures t in Titles(s) {
      var i :| 0 <= i < |index| && HasTitle(index[i]) && index[i].title.value == t;
      assert s[i] == index[i];
    }
    if HasTitle(e) {
      assert s[|index|] == e;
    }
  }

  /** The table `title_to_filename`, filled by one pass over the index in order. Its keys are
      exactly the titles of the index, each mapped to the file name its page is written to. */
  function BuildTable(index: seq<IndexEntry>, ext: string): (table: map<string, string>)
    ensures table.Keys == Titles(index)
    ensures forall t :: t in table ==> table[t] == FilenameForTitle(t, ext)
    decreases |index|
  {
    if index == [] then map[]
    else
      var init := index[..|index| - 1];
      var e := index[|index| - 1];
      assert index == init + [e];
      TitlesSnoc(init, e);
      var table := BuildTable(init, ext);
      if HasTitle(e) then table[e.title.value := FilenameForTitle(e.title.value, ext)] else table
  }

  /** The file names of a run, one per titled entry, in index order (the `seen_filenames`). */
  function Filenames(index: seq<IndexEntry>, ext: string): (names: seq<string>)
    ensures |names| <= |index|
  {
    if index == [] then []
    else if HasTitle(index[0]) then [FilenameForTitle(index[0].title.value, ext)] + Filenames(index[1..], ext)
    else Filenames(index[1..], ext)
  }

  /** The file names a run writes are exactly the values of its link table: a link that the
      table resolves always points at a file the same run produces. */
  lemma {:induction false} FilenamesAreTableValues(index: seq<IndexEntry>, ext: string)
    ensures (set f | f in Filenames(index, ext)) == BuildTable(index, ext).Values
  {
    var table := BuildTable(index, ext);
    FilenamesOfTitles(index, ext);
    forall f | f in table.Values ensures f in Filenames(index, ext) {
      var t :| t in table && table[t] == f;
    }
  }

  lemma TitlesCons(index: seq<IndexEntry>)
    requires index != []
    ensures Titles(index) == Titles(index[1..]) + (if HasTitle(index[0]) then {index[0].title.value} else {})
  {
    var rest := index[1..];
    forall t | t in Titles(index) ensures t in Titles(rest) || (HasTitle(index[0]) && t == index[0].title.value) {
      var i :| 0 <= i < |index| && HasTitle(index[i]) && index[i].title.value == t;
      if i > 0 {
        assert rest[i - 1] == index[i];
      }
    }
    forall t | t in Titles(rest) ensures t in Titles(index) {
      var i :| 0 <= i < |rest| && HasTitle(rest[i]) && rest[i].title.value == t;
      assert index[i + 1] == rest[i];
    }
  }

  lemma {:induction false} FilenamesOfTitles(index: seq<IndexEntry>, ext: string)
    ensures forall f :: f in Filenames(index, ext) <==> exists t :: t in Titles(index) && f == FilenameForTitle(t, ext)
    decreases |index|
  {
    if index != [] {
      var rest := index[1..];
      FilenamesOfTitles(rest, ext);
      TitlesCons(index);
      forall f | f in Filenames(index, ext) ensures exists t :: t in Titles(index) && f == FilenameForTitle(t, ext) {
        if HasTitle(index[0]) && f == FilenameForTitle(index[0].title.value, ext) {
          assert index[0].title.value in Titles(index);
        } else {
          assert f in Filenames(rest, ext);
        }
      }
      forall f | exists t :: t in Titles(index) && f == FilenameForTitle(t, ext) ensures f in Filenames(index, ext) {
        var t :| t in Titles(index) && f == FilenameForTitle(t, ext);
        if !(t in Titles(rest)) {
          assert HasTitle(index[0]) && t == index[0].title.value;
        }
      }
    }
  }

  /** The index entries of a run map to pairwise different files. */
  predicate DistinctFilenames(index: seq<IndexEntry>, ext: string)
  {
    var names := Filenames(index, ext);
    forall i, j :: 0 <= i < j < |names| ==> names[i] != names[j]
  }
}
