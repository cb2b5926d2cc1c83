/** How each rewrite pass turns a title found in a link into a file name: a chain of table
    lookups ending in a fallback that always produces a name (plugins/module_utils/redmine_wiki.py,
    `_replace_full`, the site-relative lambda and `_wiki_link_replace`). */
module Resolve {
  import opened Wrappers
  import opened Text
  import opened TitleCodec
  import opened LinkTable

  /** Percent-encoding as `urllib.parse` does it: `quote(s, safe='')` and `unquote(s)`. Both are
      left uninterpreted; the model only passes them along. */
  datatype UrlCodec = UrlCodec(quote: string -> string, unquote: string -> string)

  /** `mapping.get(key)` used as a truth value: a missing key and a key mapped to `""` both
      make the `or` chain go on to its next alternative. */
  function Get(mapping: map<string, string>, key: string): (r: Option<string>)
    ensures r.Some? <==> key in mapping && mapping[key] != []
    ensures r.Some? ==> r.value == mapping[key]
  {
    if key in mapping && mapping[key] != [] then Some(mapping[key]) else None
  }

  /** Resolution of the percent-encoded title `enc` taken from a wiki URL: the decoded title
      first, then the encoded one, then the generic name of the decoded title with the
      default extension. */
  function ResolveUrlTitle(mapping: map<string, string>, codec: UrlCodec, enc: string): (r: string)
    ensures r != []
    ensures Get(mapping, codec.unquote(enc)).Some? ==> r == mapping[codec.unquote(enc)]
    ensures Get(mapping, codec.unquote(enc)).None? && Get(mapping, enc).Some? ==> r == mapping[enc]
    ensures Get(mapping, codec.unquote(enc)).None? && Get(mapping, enc).None? ==>
              r == DefaultFilename(codec.unquote(enc), DefaultExtension)
  {
    var title := codec.unquote(enc);
    match Get(mapping, title)
    case Some(f) => f
    case None =>
      match Get(mapping, enc)
      case Some(f) => f
      case None => DefaultFilename(title, DefaultExtension)
  }

  /** Resolution of a (stripped) `[[...]]` title: the title itself, then its percent-encoded
      form, then its generic name with the default extension. */
  function ResolveWikiTitle(mapping: map<string, string>, codec: UrlCodec, title: string): (r: string)
    ensures r != []
    ensures Get(mapping, title).Some? ==> r == mapping[title]
    ensures Get(mapping, title).None? && Get(mapping, codec.quote(title)).Some? ==> r == mapping[codec.quote(title)]
    ensures Get(mapping, title).None? && Get(mapping, codec.quote(title)).None? ==>
              r == DefaultFilename(title, DefaultExtension)
  {
    match Get(mapping, title)
    case Some(f) => f
    case None =>
      match Get(mapping, codec.quote(title))
      case Some(f) => f
      case None => DefaultFilename(title, DefaultExtension)
  }

  /** Every value of a built table is a non-empty file name, so a table hit is never skipped
      by the `or` chain. */
  lemma TableHit(index: seq<IndexEntry>, ext: string, t: string)
    requires t in Titles(index)
    ensures Get(BuildTable(index, ext), t) == Some(FilenameForTitle(t, ext))
  {
    var table := BuildTable(index, ext);
    assert EndsWith(table[t], "." + ext);
  }

  /** A link to a page of the index resolves to the file that page is mirrored to, whatever
      the codec does. */
  lemma {:induction false} IndexedTitleResolves(index: seq<IndexEntry>, ext: string, codec: UrlCodec, t: string)
    requires t in Titles(index)
    ensures ResolveWikiTitle(BuildTable(index, ext), codec, t) == FilenameForTitle(t, ext)
    ensures ResolveUrlTitle(BuildTable(index, ext), codec, t) == FilenameForTitle(codec.unquote(t), ext)
              || (codec.unquote(t) !in Titles(index) && ResolveUrlTitle(BuildTable(index, ext), codec, t) == FilenameForTitle(t, ext))
  {
    TableHit(index, ext, t);
    if codec.unquote(t) in Titles(index) {
      TableHit(index, ext, codec.unquote(t));
    }
  }

  /** A URL whose decoded title is a page of the index resolves to that page's file. */
  lemma {:induction false} IndexedUrlResolves(index: seq<IndexEntry>, ext: string, codec: UrlCodec, enc: string)
    requires codec.unquote(enc) in Titles(index)
    ensures ResolveUrlTitle(BuildTable(index, ext), codec, enc) == FilenameForTitle(codec.unquote(enc), ext)
  {
    TableHit(index, ext, codec.unquote(enc));
  }

  /** A dangling reference (neither the title nor its encoded form is a page) still resolves,
      to the generic name with extension `md`: with any other configured extension (one
      without a dot) it names no file of the mirror, even when a page differing only in
      letter case exists. */
  lemma {:induction false} DanglingTitleFallsBack(index: seq<IndexEntry>, ext: string, codec: UrlCodec, t: string)
    requires t !in Titles(index) && codec.quote(t) !in Titles(index)
    ensures ResolveWikiTitle(BuildTable(index, ext), codec, t) == DefaultFilename(t, DefaultExtension)
    ensures ext != DefaultExtension && '.' !in ext ==>
              forall u :: u in Titles(index) ==> ResolveWikiTitle(BuildTable(index, ext), codec, t) != FilenameForTitle(u, ext)
  {
    var r := ResolveWikiTitle(BuildTable(index, ext), codec, t);
    if ext != DefaultExtension && '.' !in ext {
      forall u | u in Titles(index) ensures r != FilenameForTitle(u, ext) {
        if r == FilenameForTitle(u, ext) {
          assert EndsWith(r, "." + DefaultExtension) by {
            assert r[|t|..] == "." + DefaultExtension;
          }
          ExtensionAfterLastDot(r, ext);
          ExtensionAfterLastDot(r, DefaultExtension);
        }
      }
    }
  }

  /** A case variant of a page title falls back onto that page's file exactly when the
      configured extension is `md` (and the page is not the landing page). */
  lemma {:induction false} CaseVariantFallsBack(index: seq<IndexEntry>, codec: UrlCodec, t: string, u: string)
    requires u in Titles(index) && !IsLandingTitle(u)
    requires t !in Titles(index) && codec.quote(t) !in Titles(index)
    requires Lower(ReplaceChar(t, ' ', '_')) == Lower(ReplaceChar(u, ' ', '_'))
    ensures ResolveWikiTitle(BuildTable(index, DefaultExtension), codec, t) == FilenameForTitle(u, DefaultExtension)
  {
    DefaultFilenameStable(t, DefaultExtension);
    DefaultFilenameStable(u, DefaultExtension);
    var s := Lower(ReplaceChar(t, ' ', '_'));
    assert DefaultFilename(t, DefaultExtension) == DefaultFilename(s, DefaultExtension) == DefaultFilename(u, DefaultExtension);
  }
}
