# linkupdate — a verified model of the sidebar link updater

`linkupdate.js` is a one-shot batch script. It runs over every HTML page matched by
`<lab_root>/src/lab/exp*/*.html`. In each page it finds the first element of class
`sidebar-col-2` and replaces that element's children with one rendered navigation link per
configured link name. It writes the patched page back and records the page's path in a
`{ success, fail }` report, which it rewrites after every page.

This project models the logic of that pipeline in Dafny and proves properties of it:

- `UtilFormat` (format.dfy) models Node's `util.format` for string arguments: `%s` takes the
  next argument verbatim, `%%` gives `%`, unconsumed arguments are appended after a space,
  and a call with no arguments returns the template untouched.
- `Links` (links.dfy) models `create_link`. It fills the two templates of the source through
  `UtilFormat` and proves the exact resulting string.
- `Dom` (dom.dfy) models the parsed document as an immutable tree. Nodes are addressed by
  child-index paths. It defines `querySelector(".cls")` as a pre-order search and proves
  that the search finds the unique first match in document order. It also defines the
  replacement of one element's children and proves frame lemmas about it.
- `SidebarPatch` (sidebar.dfy) models `Sidebar` and `replaceSidebarContents`: the
  `innerHTML = ""` clear followed by one `appendChild` per rendered fragment.
- `Report` (report.dfy) models the in-memory `log`, the logging decision of
  `updateHtmlandLog` (JavaScript truthiness of the patch result), and the report after a
  sequence of processed files.
- `Driver` (driver.dfy) models `applyPatch` and the `glob` callback's `forEach` as a fold of
  the report over the sequence of matched files.
- `Seqs` (seqs.dfy) holds the order-preserving subsequence predicate.
- `Wrappers` (wrappers.dfy) holds `Option`, which stands for a value or JavaScript `null`.

A parsed link fragment is an opaque `Fragment(markup)` node holding the `create_link`
string. The class search does not look inside such nodes. Fragment nodes only appear
below the sidebar after a patch, and pre-order search reaches the sidebar before anything
below it, so this never changes which element is found. The serializer
`dom.serialize()` is a parameter `serialize: Node -> string`.

Two behaviours of the code worth knowing:

- A page counts as a success only when the patch result is truthy, so an empty
  serialisation would be logged in `fail`.
- When several elements carry the class, only the first in document order is patched.

## Model

| member | source | states |
|---|---|---|
| Links.CreateLink | linkupdate.js:8-12 | The link is exactly `<a href="` + name + `.html?domain=` + domain + `&lab=` + lab + `" class="sidebar-a"> <h3 class="text-h3-darkblue" style="margin-top: 2px;"> ` + name + ` </h3> </a>`. Every input is spliced in verbatim, with no escaping. |
| UtilFormat.FormatLiteral | linkupdate.js:9-11 | `Format`, the model of `util.format`: a template without directives comes back followed by every argument, each after a space. With no arguments, that is the template untouched. |
| UtilFormat.FillOne | linkupdate.js:9-11 | Formatting a one-`%s` template between two literal pieces with one argument puts the argument in the slot and nothing else. |
| UtilFormat.FillFour | linkupdate.js:10-11 | Formatting a four-`%s` template with four arguments puts each argument in its own slot, in order, and appends nothing. |
| UtilFormat.ExpandLiteral | linkupdate.js:11 | Template text without `%` is copied verbatim and consumes no argument. |
| Dom.QuerySelector | linkupdate.js:26 | The search returns `None` exactly when no node carries the class. Otherwise it returns a valid path to a node carrying the class that is the first in document order. |
| Dom.FirstMatchUnique | linkupdate.js:26 | Only one path can be the first match in document order. |
| Dom.QuerySelectorFindsFirst | linkupdate.js:26 | The search returns `p` if and only if `p` is the first match in document order. |
| Dom.SetChildren | linkupdate.js:32-36 | Afterwards, the addressed element has exactly the given children and keeps its tag and classes. |
| Dom.SetChildrenSame | linkupdate.js:32-36 | Putting back an element's current children gives back the same document. |
| Dom.SetChildrenTwice | linkupdate.js:32-36 | A second replacement at the same element overrides the first: the old children leave no trace. |
| Dom.SetChildrenFrame | linkupdate.js:32-36 | Every node that is neither an ancestor nor a descendant of the replaced element is unchanged. |
| Dom.SetChildrenAncestors | linkupdate.js:32-36 | The ancestors of the replaced element keep their tag, their classes and their number of children. |
| Dom.SetChildrenKeepsFirstMatch | linkupdate.js:26-36 | After the first match's children are replaced, the same element is still the first match. |
| SidebarPatch.Sidebar | linkupdate.js:26 | There is no sidebar exactly when no element has class `sidebar-col-2`. Otherwise the result is the first such element in document order. |
| SidebarPatch.LinkFragments | linkupdate.js:33-35 | There is one fragment per link name, in the order of the names, and fragment i holds the link rendered for name i with the shared domain and lab. |
| SidebarPatch.AppendChild | linkupdate.js:36 | The addressed element keeps its tag and classes, and its children become its old children followed by the new node. Every node that is neither an ancestor nor a descendant of it is unchanged. |
| SidebarPatch.AppendAll | linkupdate.js:33-36 | Appending fragments one by one leaves the element with its old children followed by all the fragments, in order. |
| SidebarPatch.ReplaceSidebarContents | linkupdate.js:29-38 | The result is `null` exactly when the document has no sidebar. Otherwise the first sidebar keeps its tag and classes, and its children are exactly one rendered link per name, in order. So there are `\|linknames\|` children however many there were before. |
| SidebarPatch.ReplaceIsSetChildren | linkupdate.js:32-36 | The patched document is the input document with only the first sidebar's children replaced by the rendered links. |
| SidebarPatch.ReplaceKeepsSidebar | linkupdate.js:26-36 | In the patched document, the sidebar found is the same element as before. |
| SidebarPatch.ReplaceChangesNothingElse | linkupdate.js:30-36 | Only the first sidebar is modified. Every node that is neither its ancestor nor its descendant is unchanged, including any later `sidebar-col-2` element outside the first sidebar. One nested inside the first sidebar is removed with the rest of its children (linkupdate.js:32). Its ancestors keep their shape. |
| SidebarPatch.ReplaceIdempotent | linkupdate.js:32-36 | Patching an already patched document with the same names, domain and lab gives the identical document. |
| Report.UpdateHtmlAndLog | linkupdate.js:14-23 | Truthy content appends the path to `success`. `null` or `""` appends it to `fail`. Exactly one list grows, by exactly that path, and the other is unchanged. |
| Report.LogAllAppends | linkupdate.js:58-59 | Logging a sequence of outcomes appends to each list exactly the paths whose content picks that list, in input order. |
| Report.SelectedIsSubsequence | linkupdate.js:58-59 | Each of the two selections is an order-preserving subsequence of the input paths. |
| Report.SelectedPartition | linkupdate.js:58-59 | Together, the two selections hold every input path as often as it occurs. |
| Report.LogAllPartitions | linkupdate.js:58-59 | From the empty report, `success` and `fail` partition the input paths as a multiset, and each keeps input order. Their lengths add up to the number of files. Truthy outcomes are in `success` and falsy ones in `fail`. |
| Report.SelectedComesFrom | linkupdate.js:14-21 | Every path in a selection comes from an outcome whose content picks that list. |
| Report.LogAllSidesExactly | linkupdate.js:14-21 | When no path repeats, a path is in `success` if and only if its content is truthy, and in `fail` if and only if it is falsy. |
| Report.LogAllSnoc | linkupdate.js:45-46 | The report after one more file is the previous report with that file logged. |
| Driver.PatchResult | linkupdate.js:40-44 | The patch result for a file is `null` exactly when its document has no sidebar. Otherwise it is the serialisation of the patched document. |
| Driver.ApplyPatch | linkupdate.js:40-47 | Exactly one list grows, by the file's path. A truthy patch result sends the path to `success`, and a falsy one to `fail`. A file without a sidebar goes to `fail`, and `success` grows only for a file that has a sidebar. |
| Driver.RunFrom | linkupdate.js:58-59 | Each file adds exactly one entry, and everything already logged stays, as a prefix, at the front of its list. |
| Driver.Run | linkupdate.js:49-59 | From the empty `log`, a run logs the files' outcomes in enumeration order, one entry per file. |
| Driver.RunFromLogsOutcomes | linkupdate.js:40-47 | The driver loop equals logging each file's patch outcome in enumeration order. |
| Driver.RunPartitionsPaths | linkupdate.js:58-59 | After a run, every matched path is logged exactly once, and `success` and `fail` each keep enumeration order. `\|success\| + \|fail\|` equals the number of files. Every file without a sidebar is in `fail`. |
| Driver.RunSuccessIffSidebar | linkupdate.js:15-37 | Assume the matched paths are distinct and the serializer never yields `""`. Then a file's path is in `success` if and only if its document has a sidebar, and in `fail` if and only if it has none. |
| Driver.RunPrefix | linkupdate.js:45-46 | The report rewritten after the k-th file is the run over the first k+1 files, i.e. the previous report with file k logged. |

## Left out

- File I/O is left out because it is side effects, not logic: reading each page, writing
  the patched page back (linkupdate.js:16), and rewriting `report.json` (linkupdate.js:46).
  The model keeps only the in-memory log. `RunPrefix` states what each rewrite of the
  report holds.
- Console output (linkupdate.js:22, 41) is left out because it is output only.
- Loading the configuration with `JSON.parse` (linkupdate.js:54-55) is left out. The
  configuration is a `Config` value given to the run. Its `labRoot` feeds only the glob
  pattern, which is not modelled.
- `glob` enumeration and `path.join` (linkupdate.js:57-59) are left out because they are an
  external library with unspecified traversal order. The matched files are an input
  sequence. When `glob` reports an error, `html_paths` is undefined, so `html_paths.forEach` (linkupdate.js:58) throws before any file is processed. That crash is not modelled.
- jsdom parsing of a page and of each link fragment is left out because the library's HTML
  semantics are not visible. A page is given as its parsed `Node` tree, and a fragment is an
  opaque `Fragment` node holding the rendered markup.
- jsdom's `dom.serialize()` is the parameter `serialize`. Its output is not modelled beyond
  the assumption in `RunSuccessIffSidebar` that it is never empty.
- Dom.HasClass: compares class tokens exactly. In quirks-mode documents (pages without a
  doctype), the HTML standard matches class selectors ASCII case-insensitively, and this
  model does not, because the parser's mode is not modelled.
- SidebarPatch.ReplaceSidebarContents: a rendered link is added as one opaque child.
  `appendChild` with a `DocumentFragment` inserts the fragment's top-level nodes instead.
  So "one child per name" and "`|linknames|` children" hold in jsdom only while each
  rendered link parses to a single `<a>` element. Markup in an unescaped name, domain or
  lab can break that, and parsing fragment markup is not modelled.
- Element attributes other than `class` are not modelled, because the class selector
  reads only the class tokens.
- UtilFormat.Format models only the `%s` and `%%` directives and copies any other `%x`
  unchanged. Node would consume an argument for `%d`, `%j`, `%o` and the like. The two
  templates here contain no such directive.
- A crash mid-run (an uncaught parse or I/O error that stops the loop) is not modelled.
  `RunPrefix` covers the report as it stands after any prefix of the files.
