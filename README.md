# Import synthesizer and index builder, modelled in Dafny

This project models the two code generators of a pug-to-React authoring pipeline.

**`addImportStatements(txt)`** (`lib/addImportStatements.js`) finds every React component tag in a generated JSX text. A tag is `<` followed by a capital letter and the longest run of `[A-Za-z0-9_]`. The function dedupes the tags, keeping the order in which they first appear, and puts an import block in front of the text:
- a React import line first, which also binds `Fragment` exactly when some tag is `Fragment`;
- then `import X from '../../X'` for every other tag;
- then a newline, then the unchanged text.

A text with no tag makes `match` return `null`, so the call throws. The model returns `Failure(NoTagMatch)` in that case.

**`indexBuildDir(dir)`** (`lib/indexBuildDir.js`) writes `index.js` aggregation files into a two-level build tree.
- The root gets an index that imports and re-exports every directory entry of the root. The entries appear in listing order, without sorting.
- Then every group (locale) directory gets an index re-exporting its page files:
  - the `.js` files (the extension matched case-insensitively) other than the exact name `index.js`;
  - their extensions stripped;
  - sorted;
  - each exported under its lower-cased name.
- Before a group's index is generated, its page names are validated. The name must be non-empty, contain only `[A-Za-z0-9_]`, and start with `A`-`Z`. The first failing check throws its fixed message and ends the run, and every file written before it stays in place.

Modules:
- `Results`: Option and Result.
- `Text`: character classes, `Join` and counts.
- `Seqs`: first-appearance dedupe, `Filter`, `Map`, and their permutation lemmas.
- `ImportStatements`: the tag scan, the import block, and the `AddImportStatements` method with its loop over the matches.
- `NameOrder`: the default `sort()` order, and insertion sort proved sorted, a permutation and unique.
- `PageValidation`: the three checks and the validation loop.
- `IndexCode`: `COMMA_OR_NOT` and the two code generators.
- `IndexBuild`: the build directory as a snapshot of entries, the reference function `Run` for a whole run, and the class `BuildDir`. `BuildDir` holds the current listing and the writes performed so far, and its methods update them step by step.

## Model

| member | source | states |
|---|---|---|
| ImportStatements.Tags | lib/addImportStatements.js:2-14 | Definition of the `RE` scan with `substr(1)`: the tag names, left to right, repeats included. Each scan resumes where the previous match ended. Its properties are stated by `TagsExact`, `TagsEmpty` and `FragmentXIsNotFragment`. |
| ImportStatements.Synthesize | lib/addImportStatements.js:8-35 | Definition of what `addImportStatements` returns: `Failure(NoTagMatch)` when the scan is empty, and otherwise the import block joined by `\n`, then a newline, then the text. Its properties are stated by `SynthesizeSpec` and `ImportBlockSpec`, and `AddImportStatements` is proved equal to it. |
| ImportStatements.AddImportStatements | lib/addImportStatements.js:8-35 | Its loop over the matches (the ordered set, the `Fragment` flag, the collected lines, `unshift`, the final join) returns exactly `Synthesize(txt)`. It fails exactly when the text has no `<[A-Z]`. |
| ImportStatements.TagsExact | lib/addImportStatements.js:2-14 | A name is scanned iff some `<` followed by a capital begins at a position whose maximal word run is that name. |
| ImportStatements.TagsEmpty | lib/addImportStatements.js:10-14 | The scan is empty iff no `<` is followed by `A`-`Z`; that is the case in which `match` yields `null` and the call throws. |
| ImportStatements.FragmentXIsNotFragment | lib/addImportStatements.js:2-14 | `<FragmentX/>` yields the tag `FragmentX`, not `Fragment`. |
| ImportStatements.TagImportsLines | lib/addImportStatements.js:22-29 | The per-tag lines are the import lines of the tags other than `Fragment`, in the same order and count. |
| ImportStatements.ImportBlockFirstLine | lib/addImportStatements.js:9-31 | The first line is the React import, and it binds `Fragment` iff some tag is `Fragment`. |
| ImportStatements.ImportBlockLine | lib/addImportStatements.js:16-29 | `import t from '../../t'` follows the React line iff `t` was scanned and is not `Fragment`. |
| ImportStatements.ImportBlockDistinct | lib/addImportStatements.js:16-20 | No import line is repeated. |
| ImportStatements.FragmentNotImported | lib/addImportStatements.js:23-29 | `Fragment` never gets an import line of its own. |
| ImportStatements.ImportBlockCount | lib/addImportStatements.js:22-31 | The block has 1 + (number of distinct tags other than `Fragment`) lines. |
| ImportStatements.ImportBlockSpec | lib/addImportStatements.js:9-31 | The first-line, membership, distinctness and count properties, together. |
| ImportStatements.ImportLinesAt | lib/addImportStatements.js:16-31 | Line `i + 1` of the block imports the `i`-th deduplicated tag other than `Fragment`. |
| ImportStatements.ImportOrder | lib/addImportStatements.js:16-21 | The imported tags are in order of first appearance in the text; a repeated tag adds nothing. |
| ImportStatements.ImportLineInjective | lib/addImportStatements.js:27 | Different tags give different import lines. |
| ImportStatements.SynthesizeSpec | lib/addImportStatements.js:31-34 | With a tag present, the output is a header followed by the unchanged text. The header starts with the React line and a newline, ends with a newline, and holds exactly 1 + (distinct non-`Fragment` tags) newlines. |
| ImportStatements.RepeatedTagsExample | lib/addImportStatements.js:16-31 | `<Foo/><Bar/><Foo/>` gives the React line, then `Foo`, then `Bar`. |
| ImportStatements.FragmentExample | lib/addImportStatements.js:23-31 | `<Fragment><Link/></Fragment>` gives the `Fragment`-binding React line and one line, for `Link`. |
| Seqs.Dedupe | lib/addImportStatements.js:16-21 | Definition of filling a `Set` in order and reading it back: each element kept at its first appearance only. `DedupeSpec` states its properties. |
| Seqs.DedupeSpec | lib/addImportStatements.js:16-20 | Adding to a `Set` in order keeps each element once, the same members, in order of first appearance. |
| IndexCode.CommaOrNot | lib/indexBuildDir.js:77 | The separator is empty iff the index is the last one, and is `,` otherwise. |
| IndexCode.ObjectBodyAllCommas | lib/indexBuildDir.js:125-128 | Before the last index, every member line ends in a comma. |
| IndexCode.ObjectBodyJoin | lib/indexBuildDir.js:116-130 | The object body is the indented members joined by `,\n`, plus a final `\n`. |
| IndexCode.ImportLinesJoin | lib/indexBuildDir.js:120-123 | The import part is the `import p from './p'` lines joined by `\n`, plus a final `\n`. |
| IndexCode.EmptyIndex | lib/indexBuildDir.js:116-158 | Both generators produce `\nexport default {\n}\n` for an empty list. |
| IndexCode.MakeRootIndex | lib/indexBuildDir.js:116-130 | Definition of `makeCode__RootIndex`: each group name becomes an import line and a member of the exported object, in the given order. Its text is stated by `RootIndexShape`, `EmptyIndex` and `RootIndexOfTwo`. |
| IndexCode.RootIndexShape | lib/indexBuildDir.js:116-130 | The root index of a non-empty list is the import lines, a blank line, `export default {`, the names joined by `,\n`, and `}`, in the given order. |
| IndexCode.RootIndexOfTwo | lib/indexBuildDir.js:116-130 | For two groups, the root index is the documented two-import, two-member text. |
| IndexCode.RootIndexExample | lib/indexBuildDir.js:9-18 | The documented `en`/`ru` root index. |
| IndexCode.MakeLocaleIndex | lib/indexBuildDir.js:141-158 | The group index is produced iff every name is valid. Otherwise the result is the error of the first invalid name. |
| IndexCode.LocaleIndexShape | lib/indexBuildDir.js:141-158 | The group index of a valid non-empty list is the import lines, then `lower(p): p` members joined by `,\n`. |
| IndexCode.LocaleIndexOfThree | lib/indexBuildDir.js:141-158 | For three valid names, the group index is the documented three-import, three-member text. |
| IndexCode.LocaleIndexExample | lib/indexBuildDir.js:29-39 | The documented `About`/`Contact`/`Skills` group index. |
| IndexCode.LowerChar | lib/indexBuildDir.js:154 | `toLowerCase` maps `A`-`Z` to `a`-`z` and leaves the other characters of a valid name alone. |
| IndexCode.LowerValidName | lib/indexBuildDir.js:154 | The key of a valid name has the same length, only word characters and no capital. |
| IndexCode.KeysCanCollide | lib/indexBuildDir.js:154 | The valid names `ABout` and `About` both get the key `about`. |
| PageValidation.IsNotEmpty | lib/indexBuildDir.js:182-184 | Definition of `isNotEmpty` as the code behaves: the name is not `""`. The trimmed template literal `$name` is never blank, so `" "` passes. `BlankNameIsIllegalSymbols` states the consequence. |
| PageValidation.ConsistsOfAllowedSymbols | lib/indexBuildDir.js:186-188 | Definition of `consistsOfAllowedSymbols`: every character is in `[A-Za-z0-9_]`, and the empty name passes. `CheckName` states which error it yields. |
| PageValidation.StartsWithLatinCapital | lib/indexBuildDir.js:190-192 | Definition of `startsWithLatinCapital`: the first character is `A`-`Z` and no later character is a line terminator. `CheckName` and `LowerCaseNameNeedsCapital` state its effect. |
| PageValidation.CheckName | lib/indexBuildDir.js:164-192 | No error iff the name is valid. `EmptyName` iff the name is `""`. `IllegalSymbols` iff it is non-empty with a symbol outside `[A-Za-z0-9_]`. `NoLatinCapital` iff it passes that but does not start with `A`-`Z`. |
| PageValidation.ValidationError.Message | lib/indexBuildDir.js:166-171 | Each error has its fixed, non-empty message. |
| PageValidation.FirstInvalidIndex | lib/indexBuildDir.js:164-174 | The position of the first name that fails: every earlier name is valid, and that name is not. |
| PageValidation.FirstInvalid | lib/indexBuildDir.js:164-174 | No error iff all names are valid; otherwise the error is that of the first invalid name. |
| PageValidation.AssertPageNamesHaveValidFormat | lib/indexBuildDir.js:164-180 | The `for` loop stops at the first failing check with that check's error, and ends without one iff every name is valid. |
| PageValidation.BlankNameIsIllegalSymbols | lib/indexBuildDir.js:182-188 | `" "` is not reported as empty; it fails with illegal symbols. |
| PageValidation.LowerCaseNameNeedsCapital | lib/indexBuildDir.js:190-192 | `about` fails the third check. |
| NameOrder.LessEq | lib/indexBuildDir.js:101 | Definition of the default `sort()` comparison: character by character, a proper prefix first. `LessEqTotal`, `LessEqAntisymmetric` and `LessEqTransitive` state that it is a total order. |
| NameOrder.Sort | lib/indexBuildDir.js:101 | Definition of `sort()` as insertion sort under `LessEq`. Its contract keeps the multiset of names. `SortSpec` and `SortMembers` state the rest. |
| NameOrder.LessEqTotal | lib/indexBuildDir.js:101 | Any two names are comparable in the `sort()` order. |
| NameOrder.LessEqAntisymmetric | lib/indexBuildDir.js:101 | Names that sort no later than each other are equal. |
| NameOrder.LessEqTransitive | lib/indexBuildDir.js:101 | The `sort()` order is transitive. |
| NameOrder.SortMembers | lib/indexBuildDir.js:101 | Sorting keeps exactly the names it is given. |
| NameOrder.SortSpec | lib/indexBuildDir.js:101 | The sort is sorted and a permutation, and it does not depend on the input order. |
| IndexBuild.HasJsExtension | lib/indexBuildDir.js:74 | Definition of `REGEX_JS_EXT.test`: the name ends in `.` followed by `j` or `J`, then `s` or `S`. `ExtensionCases` states what it accepts and rejects. |
| IndexBuild.PageNames | lib/indexBuildDir.js:93-101 | Definition of the page-name pipeline: drop `index.js`, keep the `.js` names, strip the extension, sort. `PageNamesSpec`, `PageNamesMembers`, `PageNamesIgnoreOrder` and `PageNamesIgnoreIndex` state its properties. |
| IndexBuild.StripJsExtension | lib/indexBuildDir.js:100 | A name with the extension loses exactly its last three characters; any other name is unchanged. |
| IndexBuild.PageFileMembers | lib/indexBuildDir.js:95-98 | The two filters keep exactly the `.js` names other than `index.js`. |
| IndexBuild.PageNamesMembers | lib/indexBuildDir.js:93-101 | A name is a page name iff some kept file, with its extension stripped, is that name. |
| IndexBuild.PageNamesSpec | lib/indexBuildDir.js:93-101 | The page names are sorted, there is one per kept file, and they are exactly the stripped kept files. |
| IndexBuild.PageNamesIgnoreOrder | lib/indexBuildDir.js:93-101 | The order `readdirSync` lists a group in does not change its page names. |
| IndexBuild.PageNamesIgnoreIndex | lib/indexBuildDir.js:95-96 | Adding `index.js` to a group does not change its page names. |
| IndexBuild.PageNamesInsertIndex | lib/indexBuildDir.js:95-96 | Adding `index.js` at any position among a group's entries leaves its page names unchanged. |
| IndexBuild.ExtensionCases | lib/indexBuildDir.js:93-101 | `Index.js` is a page, `About.JS` is the page `About`, `.js` gives the empty name, and `.jsx` and `.js.map` files are not pages. |
| IndexBuild.BareExtensionFails | lib/indexBuildDir.js:92-105 | A group with a file named `.js` fails with the empty-name error. |
| IndexBuild.LocaleDirs | lib/indexBuildDir.js:54-56 | Definition of the `localeDirs` listing: the names of the root entries that are directories, in listing order. `LocaleDirsMembers`, `LocaleDirsAppend` and `LocaleDirsInsertFile` state its properties. |
| IndexBuild.LocaleDirsMembers | lib/indexBuildDir.js:54-56 | The groups are exactly the root entries `lstat` reports as directories. |
| IndexBuild.LocaleDirsAppend | lib/indexBuildDir.js:54-56 | An entry added at the end is listed last if it is a directory and not at all otherwise, so the root's own `index.js` is never a group. |
| IndexBuild.LocaleDirsInsertFile | lib/indexBuildDir.js:54-56 | A file entry inserted at any position in the root listing changes neither the groups nor any group's entries. |
| IndexBuild.GroupWrites | lib/indexBuildDir.js:62-64 | Definition of the `forEach` over the groups: each group's index write in order, stopping at the first group whose page names fail validation, with that failure. `GroupWritesShape` and `GroupWritesSucceed` state its properties. |
| IndexBuild.Run | lib/indexBuildDir.js:53-65 | Definition of a whole run on a snapshot: the root index write, then `GroupWrites`. `RunShape` and `RerunIsIdentical` state its properties, and `BuildDir.IndexBuildDir` is proved equal to it. |
| IndexBuild.GroupWritesShape | lib/indexBuildDir.js:62-64 | Each group's write is its valid index. A failing group and every later group are not written. The failure is that group's first invalid name. |
| IndexBuild.RunShape | lib/indexBuildDir.js:53-65 | The root index is written first, then the groups in order. A successful run writes one file more than there are groups. A failed run keeps what it wrote before the failure. |
| IndexBuild.GroupWritesSucceed | lib/indexBuildDir.js:62-64 | A run succeeds iff every page name of every group is valid. |
| IndexBuild.ApplyWritesListing | lib/indexBuildDir.js:83-101 | Writing `index.js` files changes neither the groups nor any group's page names. |
| IndexBuild.RerunIsIdentical | lib/indexBuildDir.js:53-105 | Running again on the tree a run left behind performs the same writes with the same contents, and ends the same way. |
| IndexBuild.BuildDir.WriteIndexFile | lib/indexBuildDir.js:83-85 | One write is recorded, and an `index.js` entry now exists in the target. |
| IndexBuild.BuildDir.InsertRootIndex | lib/indexBuildDir.js:87-90 | Writes the root index of the given groups to the root. |
| IndexBuild.BuildDir.InsertLocaleIndex | lib/indexBuildDir.js:92-105 | On a valid group, writes its index generated from its page names. On an invalid one, returns the error and leaves the listing and the writes untouched. |
| IndexBuild.BuildDir.InsertLocaleIndexes | lib/indexBuildDir.js:62-64 | The `forEach` performs exactly the group writes of the reference run, and stops with its failure. |
| IndexBuild.BuildDir.IndexBuildDir | lib/indexBuildDir.js:53-65 | The writes, the failure and the final listing are those of the reference run `Run`. |

## Left out

- Real file system: `readdirSync`, `lstatSync`, `writeFileSync`, `path.resolve` and the utf8 encoding are replaced by a snapshot and a record of writes. I/O errors (a missing directory, a write that fails, for instance on a directory named `index.js`) are not modelled, nor is anything path resolution does beyond naming a group by its entry.
  A symbolic link is not among these: `lstat` does not follow it, so the model holds it as an entry whose `isDir` is false, which is never a group.
- A write of `index.js` is modelled as adding the entry at the end of its directory's listing. The code does not fix where a new entry appears in a later `readdirSync`; the model assumes only that the existing entries keep their relative order. `IndexBuild.LocaleDirsInsertFile` and `IndexBuild.PageNamesInsertIndex` show that the groups, each group's entries and the page names are the same wherever the new entry appears. `IndexBuild.RerunIsIdentical` itself is stated for the appended position.
- Only a failure of page-name validation is modelled as ending a run. It is the only exception the code itself raises.
- `gulpfile.js` and `lib/reactTemplate.js` are not part of this model. They only wire the generators into a build and hold constant template text.
- NameOrder.LessEq compares characters by code point. JavaScript's default `sort()` compares UTF-16 code units, so the two orders differ only between characters outside the Basic Multilingual Plane and characters at or above U+E000.
- IndexCode.LowerChar lowers only `A`-`Z`; Unicode case mapping is not modelled. Lowering is applied only to names that validation has already restricted to ASCII.
- The regular expressions are modelled by direct scans that match what each pattern accepts. No general regex engine is modelled, and the `m` flag of the tag pattern has no effect on it.
- Concurrent runs against the same tree are not modelled.
- A text with no tag: the code throws, and the model follows it with `Failure(NoTagMatch)` rather than prepending the plain React line.
- Keys of a group index are not unique: `IndexCode.KeysCanCollide` shows two valid names with one key, and `About.js` and `About.JS` even give the same page name twice. The model states what the code emits, duplicates included.
- The validation messages do not name the failing page; the model keeps them as fixed messages.
- IndexCode.RootIndexExample and IndexCode.LocaleIndexExample state the documented outputs as concatenations of their lines, not as one literal.
