# Redmine wiki mirror and variable consolidation, modelled in Dafny

This project models two parts of an Ansible collection.

**The Redmine wiki mirror** (`plugins/module_utils/redmine_wiki.py`) copies the pages of a
project's wiki into a directory, one file per page. The model covers four parts of it:

- The title codec. A page title becomes a file name: spaces become `_`, the name is
  lower-cased and `.<ext>` is appended. The landing page, whose trimmed and lower-cased
  title is `wiki`, becomes `README.<ext>`.
- The title → file name table, built from the page index.
- The link rewriter. It makes three `re.sub` passes, in this order:
  1. absolute wiki URLs (`https://host/projects/<p>/wiki/<t>`);
  2. site-relative wiki paths (`/projects/<p>/wiki/<t>`);
  3. wiki links (`[[Title]]` and `[[Title|Label]]`).

  Each pass is modelled as the scanner `re.sub` performs: left to right, a match is
  replaced and skipped, otherwise one character is copied. A declarative description of
  the match comes with a proof that the scanner finds exactly that match. For the
  absolute pattern this is the match that regex backtracking settles on: the greedy host
  ends at the last place where the rest of the pattern still matches.
- The run itself, as a fold over the index. The fold threads a directory, modelled as a
  map from file name to file state. A page is written when its file does not hold its
  content. After the pages, files with the run's extension that no page produced are
  deleted. In check mode nothing is written or deleted, and the run reports as a real run
  does when the pages' file names are pairwise distinct.
- What the directory holds is what `read_text` gives back. `read_text` reads in
  universal-newline mode, so a file never reads back with a `\r`: writing a page leaves its
  file reading as the page's content with `\r\n` and lone `\r` turned into `\n`. A page whose
  content holds a `\r` therefore differs from its file on every run.

**Variable consolidation** (`plugins/modules/consolidate_variable.py`) works over YAML files
that are already loaded. The model covers:

- the merge rule of `merge_variables` and `load_role_vars`: a mapping laid over a mapping
  is merged one level deep, anything else is replaced;
- the flat `update` fold of `load_inventory_vars`;
- the concatenation of the target list variable in `consolidate_target_var`;
- the shape-preserving `_render_recursive`, with the Jinja2 renderer as a parameter;
- the bounded fixed-point loop of `render_variables`.

Modules, one per file except `text.dfy`, which holds two:

- `Wrappers`: the `Option` type.
- `Text`: Python string primitives (`isspace`, `lower`, `strip`).
- `TitleCodec`, `LinkTable` and `Resolve`: the title codec, the table, and the lookup
  chains.
- `WikiLinks`, `WikiUrls` and `Rewriter`: the passes and their composition.
- `Reconcile` and `RunProperties`: the run and what it promises.
- `Variables`, `Render` and `Consolidate`: the variable side.

## Model

| member | source | states |
|---|---|---|
| `TitleCodec.DefaultFilename` | plugins/module_utils/redmine_wiki.py:57-59 | the name is one character per title character, then `.` and the extension unchanged; a title character becomes `_` for a space and its lower-case form otherwise, so the stem has no space and no capital |
| `TitleCodec.DefaultFilenameStable` | plugins/module_utils/redmine_wiki.py:57-59 | the stem of a generic name is the lower-cased, underscored title, and using that stem as a title gives back the same file name |
| `TitleCodec.FilenameForTitle` | plugins/module_utils/redmine_wiki.py:62-71 | the landing title gives `README.<ext>` with `README` in capitals; any other title gives its generic name; either way the name ends in `.<ext>` |
| `TitleCodec.LandingFilenameIff` | plugins/module_utils/redmine_wiki.py:69-71 | a title is written to `README.<ext>` if and only if it is the landing title: no generic name can be `README.<ext>`, because a generic stem has no capitals |
| `TitleCodec.LandingTestCommutes` | plugins/module_utils/redmine_wiki.py:69 | trimming then lower-casing gives the same test as lower-casing then trimming (`strip(lower(t)) == "wiki"`) |
| `TitleCodec.LandingTitleVariant` | plugins/module_utils/redmine_wiki.py:69-70 | `" WIKI\t"` is the landing title: surrounding whitespace and letter case are ignored |
| `TitleCodec.OrdinaryTitle` | plugins/module_utils/redmine_wiki.py:69-71 | `"Wiki Page"` is not the landing title |
| `LinkTable.BuildTable` | plugins/module_utils/redmine_wiki.py:139-144 | the table's keys are exactly the non-empty titles of the index, each mapped to that title's file name; entries with a missing or empty title are skipped |
| `LinkTable.FilenamesOfTitles` | plugins/module_utils/redmine_wiki.py:157-164 | a name is among the run's file names if and only if it is the file name of some non-empty title of the index |
| `LinkTable.FilenamesAreTableValues` | plugins/module_utils/redmine_wiki.py:139-164 | the files the run writes are exactly the values of the link table, so a link that resolves through the table points at a file the same run produces |
| `Resolve.Get` | plugins/module_utils/redmine_wiki.py:88 | used in an `or` chain, a lookup hits only for a present key with a non-empty value; a value of `""` counts as a miss |
| `Resolve.ResolveUrlTitle` | plugins/module_utils/redmine_wiki.py:85-89 | a URL segment resolves to the table entry of its decoded form, else the entry of the segment as written, else the generic name of the decoded form with extension `md`; the result is never empty |
| `Resolve.ResolveWikiTitle` | plugins/module_utils/redmine_wiki.py:104 | a `[[...]]` title resolves to its table entry, else the entry of its percent-encoded form, else its generic name with extension `md`; the result is never empty |
| `Resolve.TableHit` | plugins/module_utils/redmine_wiki.py:139-144 | a title of the index hits in the table (its file name is never empty) and gives that title's file name |
| `Resolve.IndexedTitleResolves` | plugins/module_utils/redmine_wiki.py:104 | a `[[...]]` link to a page of the index resolves to that page's file, whatever the percent-encoding does |
| `Resolve.IndexedUrlResolves` | plugins/module_utils/redmine_wiki.py:85-89 | a URL whose decoded segment is a page of the index resolves to that page's file |
| `Resolve.DanglingTitleFallsBack` | plugins/module_utils/redmine_wiki.py:104 | a title outside the table falls back to the generic name with extension `md`; when the run uses another extension without a dot, that name is no file of the mirror, even when a page differing only in case exists |
| `Resolve.CaseVariantFallsBack` | plugins/module_utils/redmine_wiki.py:104 | with extension `md`, a title that differs from a non-landing page only in letter case, or in space versus `_`, falls back onto that page's file |
| `WikiLinks.MatchWikiLink` | plugins/module_utils/redmine_wiki.py:99 | a match found is `[[`, a title of one or more characters other than `]` and `\|`, an optional `\|` with a caption of one or more characters other than `]`, then `]]` |
| `WikiLinks.MatchWikiLinkComplete` | plugins/module_utils/redmine_wiki.py:99 | every way the pattern can match at a position is the match found: the match is unique, so the engine's search order does not matter |
| `WikiLinks.WikiLinkPass` | plugins/module_utils/redmine_wiki.py:99-110 | the `re.sub` scan of the wiki-link pattern, replacing each match by its Markdown link; what it computes is stated by `WikiLinkPassCopies`, `WikiLinkPassPrefix`, `WikiLinkPassBare` and `WikiLinkPassCaptioned` |
| `WikiLinks.LinkReplacement` | plugins/module_utils/redmine_wiki.py:101-105 | the replacement of one match: `[shown](file)`, where `shown` is the caption as written or else the trimmed title, and `file` is resolved from the trimmed title; the two cases are stated by `WikiLinkPassBare` and `WikiLinkPassCaptioned` |
| `WikiLinks.WikiLinkPassCopies` | plugins/module_utils/redmine_wiki.py:110 | a position that does not start with `[[` is copied and the scan goes on at the next character |
| `WikiLinks.WikiLinkPassWithoutBrackets` | plugins/module_utils/redmine_wiki.py:110 | text with no two adjacent `[` is left exactly as it is |
| `WikiLinks.WikiLinkPassPrefix` | plugins/module_utils/redmine_wiki.py:110 | a stretch of text without `[` is copied unchanged and the scan resumes right after it |
| `WikiLinks.WikiLinkPassBare` | plugins/module_utils/redmine_wiki.py:99-110 | `[[T]]` becomes `[strip(T)](f)`, with `f` resolved from `strip(T)`, and the scan resumes after `]]`; `T` may contain `[` |
| `WikiLinks.WikiLinkPassCaptioned` | plugins/module_utils/redmine_wiki.py:99-110 | `[[T\|L]]` becomes `[L](f)`, with `L` kept as written (not stripped) and `f` resolved from `strip(T)` |
| `WikiUrls.SegmentMatchUnique` | plugins/module_utils/redmine_wiki.py:94 | a title segment ends at the first space, quote, `)` or `]`, or at the end of the text: the greedy group takes the whole run |
| `WikiUrls.MatchSegment` | plugins/module_utils/redmine_wiki.py:94 | the segment found is non-empty, free of those characters, and ends where the greedy group ends; no segment is found only when one of them comes first |
| `WikiUrls.MatchRelative` | plugins/module_utils/redmine_wiki.py:94 | a relative match is `/projects/<p>/wiki/` followed by a full segment; when none is found, no relative match exists at that position |
| `WikiUrls.MatchRelativeComplete` | plugins/module_utils/redmine_wiki.py:94 | every relative match at a position is the one found |
| `WikiUrls.RelativeUrlPass` | plugins/module_utils/redmine_wiki.py:94-96 | the `re.sub` scan of the relative pattern, replacing each match by the file resolved from its segment; what it computes is stated by `RelativeUrlPassCopies`, `RelativeUrlPassPrefix` and `RelativeUrlPassLink` |
| `WikiUrls.RelativeUrlPassCopies` | plugins/module_utils/redmine_wiki.py:96 | a position that does not start with `/` is copied |
| `WikiUrls.RelativeUrlPassPrefix` | plugins/module_utils/redmine_wiki.py:96 | a stretch without `/` is copied unchanged and the scan resumes right after it |
| `WikiUrls.RelativeUrlPassLink` | plugins/module_utils/redmine_wiki.py:94-96 | `/projects/<p>/wiki/<enc>` followed by a segment end is replaced by the file resolved from `enc` alone |
| `WikiUrls.LastHostSplit` | plugins/module_utils/redmine_wiki.py:83 | the host end found is the largest one at or below the bound at which the path and a segment follow, and none is found only when there is none |
| `WikiUrls.HostEndsAtRun` | plugins/module_utils/redmine_wiki.py:83 | a host cannot reach past the first space, quote, `)` or `]` after the scheme |
| `WikiUrls.MatchAbsolute` | plugins/module_utils/redmine_wiki.py:83 | an absolute match has an `https://` or `http://` scheme and a host ending at the LAST place where the path and a non-empty segment follow (the greedy host backtracks only as far as needed); when none is found, no host end works |
| `WikiUrls.HostSplitInsideRun` | plugins/module_utils/redmine_wiki.py:83 | any working host end lies, together with the path and the segment's first character, inside the run of host characters |
| `WikiUrls.HostSplitBound` | plugins/module_utils/redmine_wiki.py:83 | in `scheme + host + path + enc`, where `enc` has no `/`, no host end after the given host works |
| `WikiUrls.MatchAbsoluteAt` | plugins/module_utils/redmine_wiki.py:83 | when a host end works and no later one does, the match found starts its segment right after that host's path and ends with the segment |
| `WikiUrls.AbsoluteUrlPass` | plugins/module_utils/redmine_wiki.py:83-91 | the `re.sub` scan of the absolute pattern: a match is replaced by the file resolved from its segment and skipped, otherwise one character is copied; what it computes is stated by `AbsoluteUrlPassCopies`, `AbsoluteUrlPassPrefix` and `AbsoluteUrlPassLink` |
| `WikiUrls.AbsoluteMatchUnique` | plugins/module_utils/redmine_wiki.py:83 | at a given position at most one absolute match fits the pattern's greedy reading, so the match found is the one the engine takes |
| `WikiUrls.AbsoluteUrlPassCopies` | plugins/module_utils/redmine_wiki.py:91 | a position that does not start with `h` is copied |
| `WikiUrls.AbsoluteUrlPassPrefix` | plugins/module_utils/redmine_wiki.py:91 | a stretch without `h` is copied unchanged and the scan resumes right after it |
| `WikiUrls.AbsoluteUrlPassLink` | plugins/module_utils/redmine_wiki.py:83-91 | `http(s)://<host>/projects/<p>/wiki/<enc>` is replaced by the file resolved from `enc` alone, with scheme and host dropped |
| `Rewriter.RewriteContent` | plugins/module_utils/redmine_wiki.py:74-112 | the three passes in the source's order: absolute URLs, then relative paths, then wiki links; what it computes is stated by `RewritePlainText`, `UrlPassesKeep`, `RewriteIndexedWikiLink` and `RewriteIndexedRelativeUrl` |
| `Rewriter.UrlPassesKeep` | plugins/module_utils/redmine_wiki.py:83-96 | text without `/` goes through both URL passes unchanged, so the rewrite is the wiki-link pass alone |
| `Rewriter.UrlPassesOnRelativeLink` | plugins/module_utils/redmine_wiki.py:83-96 | `/projects/<p>/wiki/<enc>)` is left alone by the absolute pass, and the relative pass turns it into the file resolved from `enc` followed by `)` |
| `Rewriter.NoBracketKept` | plugins/module_utils/redmine_wiki.py:99-110 | text without `[` goes through the wiki-link pass unchanged |
| `Rewriter.BareLinkAlone` | plugins/module_utils/redmine_wiki.py:99-110 | a text that is exactly `[[T]]`, with `T` trimmed, becomes exactly `[T](f)` with `f` resolved from `T` |
| `Rewriter.AbsoluteUrlPassWithoutScheme` | plugins/module_utils/redmine_wiki.py:83-91 | text without `//` contains no absolute URL and passes the first pass unchanged |
| `Rewriter.RelativeUrlPassWithoutSlash` | plugins/module_utils/redmine_wiki.py:94-96 | text without `/` passes the second pass unchanged |
| `Rewriter.RewritePlainText` | plugins/module_utils/redmine_wiki.py:74-112 | text with no `/` and no `[[` comes out of the whole rewrite unchanged |
| `Rewriter.RewriteIndexedWikiLink` | plugins/module_utils/redmine_wiki.py:99-112 | end to end, `[[T]]` for a trimmed page title `T` of the index that holds no `]`, `\|` or `/` becomes `[T](file of T)`, the very file that page is mirrored to |
| `Rewriter.RewriteIndexedRelativeUrl` | plugins/module_utils/redmine_wiki.py:94-112 | end to end, `/projects/<p>/wiki/<enc>)` for a page of the index becomes that page's file name followed by `)`, when the project and `enc` hold no `/` and the file name holds no `[` |
| `Reconcile.OldContent` | plugins/module_utils/redmine_wiki.py:181-186 | the old content is `""` for a missing file, absent for an unreadable one, and the file's text otherwise |
| `Reconcile.NeedsWriteIff` | plugins/module_utils/redmine_wiki.py:181-188 | a page is written exactly when its file is missing and the page is non-empty, the file is unreadable, or the file holds different text; so an empty page with no file is neither written nor listed |
| `Reconcile.ReadBack` | plugins/module_utils/redmine_wiki.py:184-191 | what reading a written file gives: never a `\r`; a text without `\r` reads back as written; a non-empty text reads back non-empty |
| `Reconcile.ReadBackExact` | plugins/module_utils/redmine_wiki.py:184-191 | a text reads back as written if and only if it holds no `\r`; reading back twice is reading back once |
| `Reconcile.ReadBackLineEnds` | plugins/module_utils/redmine_wiki.py:184 | `a\r\nb` and `a\rb` both read back as `a\nb` |
| `Reconcile.PageContent` | plugins/module_utils/redmine_wiki.py:171-177 | the text written for a page: its body, passed through the link rewrite when `rewrite_links` is on; what the rewrite does is stated by the `Rewriter` lemmas |
| `Reconcile.UpToDate` | plugins/module_utils/redmine_wiki.py:181-188 | a file that is not rewritten already reads as the page's content reads back |
| `Reconcile.WriteFile` | plugins/module_utils/redmine_wiki.py:191 | after a write the file reads as the written text, and every other file is as it was |
| `Reconcile.SyncPage` | plugins/module_utils/redmine_wiki.py:163-195 | one page: its file name is seen; it is listed and `changed` is set exactly when it needs writing; after a real run the file reads as the page's content reads back; check mode and an up-to-date file leave the directory as it was; no other file is touched |
| `Reconcile.SyncPages` | plugins/module_utils/redmine_wiki.py:157-195 | the page loop: the seen names are the run's file names; only those files are touched and none is removed; check mode touches nothing; `changed` is set exactly when something was listed; the list only grows |
| `Reconcile.ChangedNames` | plugins/module_utils/redmine_wiki.py:188-193 | every name listed as differing is a file name of the run |
| `Reconcile.DeleteStale` | plugins/module_utils/redmine_wiki.py:198-205 | the stale scan lists exactly the listed names that end in `.<ext>` and are not seen; a real run removes exactly those files; check mode removes none; `changed` is set exactly when something was listed |
| `Reconcile.Mirror` | plugins/module_utils/redmine_wiki.py:151-207 | a run: `changed` holds exactly when something was written or deleted; with `delete_stale` off nothing is deleted; with it on, exactly the `*.<ext>` files that no page produced are deleted; check mode writes and deletes nothing; every file that is neither a page's file nor deleted as stale is left as it was |
| `RunProperties.CheckModeSynced` | plugins/module_utils/redmine_wiki.py:188-193 | in check mode every page is compared with the directory as it was, so the pages listed are exactly those that differ from it, even when file names collide |
| `RunProperties.DistinctSynced` | plugins/module_utils/redmine_wiki.py:181-193 | when file names are pairwise distinct, a real run also compares each page with the directory as it was before the run |
| `RunProperties.SyncedPagesMirrored` | plugins/module_utils/redmine_wiki.py:184-191 | after the page loop of a real run with distinct file names, every page's file reads as that page's content reads back |
| `RunProperties.DeleteStaleReport` | plugins/module_utils/redmine_wiki.py:198-205 | what the stale scan lists depends neither on the files' contents nor on check mode |
| `RunProperties.RealRunSynced` | plugins/module_utils/redmine_wiki.py:157-195 | a real run with distinct file names lists exactly the pages, in index order, whose content differs from the directory before the run |
| `RunProperties.CheckRunSynced` | plugins/module_utils/redmine_wiki.py:188-195 | check mode lists exactly the pages, in index order, whose content differs from the directory before the run |
| `RunProperties.CheckModeMatchesRun` | plugins/module_utils/redmine_wiki.py:188-205 | with distinct file names, check mode reports the same `changed`, the same written pages and the same deleted files, in the same order, as a real run |
| `RunProperties.DuplicateTitlesDiverge` | plugins/module_utils/redmine_wiki.py:181-193 | titles `A` and `a` share `a.md`: on an empty directory the real run lists `a.md` once, but check mode lists it twice |
| `RunProperties.CollidingPagesDiverge` | plugins/module_utils/redmine_wiki.py:181-193 | two pages with one file name and the same non-empty text without `\r`, on an empty directory: check mode lists the file twice, a real run once |
| `RunProperties.PageNameSeen` | plugins/module_utils/redmine_wiki.py:157-164 | the file of every titled entry is among the run's seen file names |
| `RunProperties.PageFilesKept` | plugins/module_utils/redmine_wiki.py:198-205 | no file that a page of the run is mirrored to is ever deleted as stale |
| `RunProperties.LandingFileKept` | plugins/module_utils/redmine_wiki.py:198-205 | when the index has a landing page, `README.<ext>` survives the stale scan |
| `RunProperties.RealRunMirrors` | plugins/module_utils/redmine_wiki.py:179-205 | after a real run with distinct file names, every page's file reads as the page's content (rewritten when link rewriting is on) reads back |
| `RunProperties.RealRunFiles` | plugins/module_utils/redmine_wiki.py:179-205 | after a real run, every file was there before or is a page's file; with `delete_stale` on, no `*.<ext>` file that no page produced is left |
| `RunProperties.OrphanKept` | plugins/module_utils/redmine_wiki.py:157-205 | a file in the directory that no page produces survives a run with its content unchanged when stale deletion is off or its name lacks the run's extension |
| `RunProperties.CarriageReturnPages` | plugins/module_utils/redmine_wiki.py:184-191 | the pages, in index order, whose content holds a `\r`; there are none exactly when no page's content holds one |
| `RunProperties.ChangedAfterMirror` | plugins/module_utils/redmine_wiki.py:181-193 | against a directory where every page's file reads as its content reads back, the pages that differ are exactly the pages holding a `\r`, in index order |
| `RunProperties.RewriteKeepsDisk` | plugins/module_utils/redmine_wiki.py:188-191 | rewriting pages onto files that already read as their content reads back leaves the directory as it was |
| `RunProperties.SecondRun` | plugins/module_utils/redmine_wiki.py:151-205 | a second real run right after a real run, with distinct file names, deletes nothing and leaves the directory as it is, but lists again, and reports `changed` for, exactly the pages whose content holds a `\r` |
| `RunProperties.SecondRunNoChange` | plugins/module_utils/redmine_wiki.py:151-205 | when no page's content holds a `\r`, a second real run right after a real run, with distinct file names, writes nothing, deletes nothing, reports `changed = false` and leaves the directory as it is |
| `RunProperties.NothingChanged` | plugins/module_utils/redmine_wiki.py:188 | when every page's file already holds its content, no page differs |
| `RunProperties.DeleteStaleNoneStale` | plugins/module_utils/redmine_wiki.py:198-205 | a stale scan that meets no stale file deletes nothing and changes nothing |
| `Variables.Overlay` | plugins/modules/consolidate_variable.py:117-121 | keys are the union; keys only in the base keep their value; a new value replaces the old unless both are mappings; two mappings are merged one level deep, the new inner keys overriding and the others kept |
| `Variables.MergeVariables` | plugins/modules/consolidate_variable.py:197-207 | the key-by-key loop over the inventory variables gives keys from both sides, role-only values kept, inventory values winning unless both values are mappings, and then the mappings' shallow union with inventory keys winning |
| `Variables.OverlaySelf` | plugins/modules/consolidate_variable.py:197-207 | laying a variable space over itself changes nothing |
| `Variables.OverlayEmpty` | plugins/modules/consolidate_variable.py:197-207 | an empty variable space is neutral on either side of the merge |
| `Variables.OverlayNotAssociative` | plugins/modules/consolidate_variable.py:117-121 | the merge is shallow and order-dependent: merging three files left to right differs from merging the last two first when a scalar sits between two mappings |
| `Variables.RoleVars` | plugins/modules/consolidate_variable.py:99-123 | the role variables are exactly the keys defined by some role file |
| `Variables.Defining` | plugins/modules/consolidate_variable.py:113-121 | a key has no definitions exactly when no file defines it |
| `Variables.RoleVarsByKey` | plugins/modules/consolidate_variable.py:113-121 | each role variable is determined by its own definitions in file order: a non-mapping replaces what came before, and a mapping is merged into a mapping before it |
| `Variables.RoleVarsLastScalar` | plugins/modules/consolidate_variable.py:117-121 | when the last file defining a role variable gives it a non-mapping value, that value is the result, whatever came before |
| `Variables.InventoryVars` | plugins/modules/consolidate_variable.py:125-158 | the inventory variables are exactly the keys defined by some inventory file |
| `Variables.InventoryLastFileWins` | plugins/modules/consolidate_variable.py:146-156 | an inventory variable has the value the last file defining it gives, mappings included: an earlier mapping is replaced wholesale, not merged |
| `Variables.ConsolidateTargetVar` | plugins/modules/consolidate_variable.py:160-195 | every item of the result comes from a list that some file gives the target variable |
| `Variables.ConsolidateAppend` | plugins/modules/consolidate_variable.py:160-195 | consolidating two runs of files one after the other concatenates their lists, in order |
| `Variables.ConsolidateComplete` | plugins/modules/consolidate_variable.py:183-193 | every item of every list given to the target variable is in the result |
| `Variables.ConsolidateIgnoresNonLists` | plugins/modules/consolidate_variable.py:183-193 | files in which the target variable is missing or not a list contribute nothing |
| `Render.RenderRecursive` | plugins/modules/consolidate_variable.py:217-233 | rendering keeps the shape (list lengths and order, mapping keys, non-string values); a string becomes its rendering, or stays as it was when rendering fails |
| `Render.RenderListAppend` | plugins/modules/consolidate_variable.py:228-229 | rendering commutes with list concatenation: the rendered `xs + ys` is the rendered `xs` followed by the rendered `ys` |
| `Render.IterateListAppend` | plugins/modules/consolidate_variable.py:209-233 | any number of rendering steps also commutes with list concatenation |
| `Render.RenderIdentity` | plugins/modules/consolidate_variable.py:217-233 | a renderer that returns every string unchanged leaves every value unchanged |
| `Render.RenderAllFail` | plugins/modules/consolidate_variable.py:224-227 | a renderer that fails on every string leaves every value unchanged |
| `Render.SameShapeTrans` | plugins/modules/consolidate_variable.py:209-215 | same shape is transitive, so any number of rendering steps keeps the shape |
| `Render.Iterate` | plugins/modules/consolidate_variable.py:209-215 | the value after any number of rendering steps has the shape of the start value |
| `Render.FixedPointStays` | plugins/modules/consolidate_variable.py:209-215 | once a rendering step changes nothing, no later step does |
| `Render.StepChanges` | plugins/modules/consolidate_variable.py:210-215 | a step from a value that is not a fixed point gives the next iterate, and no fixed point has been met up to it |
| `Render.RenderVariables` | plugins/modules/consolidate_variable.py:209-215 | at most `max_iterations` steps are taken (none when it is below one); the result is the first value a step leaves unchanged when there is one within the bound, and the value after `max_iterations` steps otherwise; its shape is the input's |
| `Render.RenderVariablesIdentity` | plugins/modules/consolidate_variable.py:209-215 | with a renderer that changes nothing, the value comes back unchanged |
| `Consolidate.ConsolidateVariable` | plugins/modules/consolidate_variable.py:256-267 | the module's result is a list with one item per consolidated item, each of the same shape as the item it renders |

## Left out

- HTTP and JSON. The index and page requests, the API-key header and the `fail_json`
  paths (plugins/module_utils/redmine_wiki.py:24-54, 132-136, 168-171) are not modelled.
  The index, with each page's body already fetched, is an input. A page whose body is
  missing counts as `""`. A JSON `null` body is not modelled.
- Filesystem plumbing. `mkdir`, `exists`, `unlink`, `glob`, `os.walk`, `os.listdir` and
  YAML loading are not modelled. The directory is a map from file name to what reading
  the file gives; variable files are already-loaded mappings. Of `read_text` and
  `write_text`, only the newline translation is modelled (`Reconcile.ReadBack`): text is
  written unchanged, as on a POSIX system, and read in universal-newline mode. Encoding
  errors make a file `Unreadable`.
- RunProperties.SecondRunNoChange: holds only when no page's content holds a `\r`. A page
  with a `\r` (Redmine stores text typed into a form with `\r\n`) reads back differently
  from its content, so the source rewrites it, lists it and reports `changed` on every run;
  `RunProperties.SecondRun` states that general case.
- RunProperties.RealRunMirrors: a page's file reads as the page's content with its line
  ends turned into `\n`, not as the content itself, when the content holds a `\r`.
- RunProperties.SyncedPagesMirrored: as for `RealRunMirrors`, the file reads as the
  content reads back, which differs from the content when it holds a `\r`.
- Reconcile.Mirror: the stale scan reads a `listing` of the directory as it was before
  the run. The source globs after the page loop. The only files the loop can add are
  page files, and a stale file is never a page file, so the deleted set is the same. The
  order of the `deleted` list is the directory's listing order, which is a parameter.
- Reconcile.Mirror: `outdir.mkdir(parents=True, exist_ok=True)` (plugins/module_utils/redmine_wiki.py:147)
  runs before any check-mode test, so check mode still creates the output directory and its
  parents. The model has no directories, so it does not show this.
- Reconcile.Mirror: `synced` and `deleted` hold file names relative to the output
  directory; the source returns `str(outdir / name)`.
- Reconcile.Mirror: directories whose names end in `.<ext>` are not modelled (the source's
  `unlink` would fail on them), and neither are titles containing `/`, which the source
  would write into a subdirectory.
- Reconcile.IsStale: the glob pattern `*.<ext>` is taken literally. Glob metacharacters in
  the extension are not interpreted, and a name matches when it ends in `.<ext>`.
- The debug log (`_debug`, `log`): its messages are not modelled.
- The exception fallback around the rewrite (plugins/module_utils/redmine_wiki.py:173-177).
  The modelled rewrite is total, so the fallback never fires.
- The `base` argument of `_rewrite_content`: no pass uses it, so it is not a parameter.
- Text.Lower: `str.lower` is modelled on ASCII letters only. Other letters keep their
  case, so the landing test and generic names with non-ASCII capitals differ from Python.
- Resolve.ResolveUrlTitle: `quote` and `unquote` are uninterpreted functions of a
  `UrlCodec`. Nothing is proved that depends on percent-encoding itself.
- The landing page name. The `rewrite_links` documentation
  (plugins/modules/redmine_wiki_mirror.py:52) says the landing page is written as
  `index.md`. The code writes `README.<ext>` (plugins/module_utils/redmine_wiki.py:70),
  and the model follows the code.
- Jinja2: `Template(value).render(variables)` is a parameter, `string -> Option<string>`.
  `None` stands for any exception.
- Consolidate.ConsolidateVariable: only the shape of the result is stated. The rendered
  strings depend on the renderer.
- Variables: the order in which the files are read is not modelled; it comes from sorted
  directory listings and `os.walk`. Each function takes the files in the order the
  module reads them, and the inventory fold and the list fold read the same files in the
  same order.
- Variables: YAML anchors that make two keys share one mapping object are not modelled.
  The source's in-place `update` would change both keys. Nor is the source's in-place
  mutation of the role variables' nested mappings, which nothing reads afterwards.
- Variables: mapping keys are strings. Dict insertion order, floats and other YAML
  scalars are not modelled. Python's `==` in the fixed-point test compares a value with
  its own rendering, and the two always have the same shape; for such pairs `==` agrees
  with the datatype's equality.
- `main` of `consolidate_variable` and the module wrapper `redmine_wiki_mirror.py`
  (argument parsing, path resolution, `exit_json`) are not modelled, except for the
  composition in `Consolidate.ConsolidateVariable`.
