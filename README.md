# goimportssort, modelled in Dafny

goimportssort rewrites the imports of a Go file into one grouped `import ( … )`
statement. The imports are split into three tiers, in this order: standard
library ("builtin"), third-party ("external") and the project's own packages
("local"). Each tier is sorted by path, then by local name. The repository
holds two copies of this logic:

- the root tool, `goimportssort.go`. It works on the syntax tree, reprints
  the file without its import declarations and puts the new block after the
  first occurrence of the text `package <name>` in it. That is normally the
  package clause, but a comment holding the same text earlier in the file
  would receive the block instead;
- the older tool, `src/go_imports_sorting.go`. It classifies by the number of
  slashes in the path and puts the block back with a chain of regular-expression
  rewrites over the source text.

Both are modelled side by side. The shared import model `String()` lives in
`src/imp_model.go`, with a copy at `goimportssort.go:46`.

The modules:

- `Wrappers`: `Option` and `Result`.
- `Text`: Go's `strings`/`bytes` helpers on `seq<char>`: `Count`,
  `Contains`, `HasPrefix`, `HasSuffix`, `Trim` and `Replace` with n = 1.
- `ImpModel`: the import value and its rendering.
- `Ordering`: the sort order and a reference sort.
- `Sorting`: the in-place sort on arrays.
- `Tiers`: classification, with the tier rule as a parameter.
- `Rendering`: the rendered lines and their parser.
- `Patterns`: the three regular expressions of the older tool, as scanners.
- `Files`: `isGoFile`.
- `RootTool` and `OlderTool`: the two tools.

Go's `<` on strings compares bytes. Here it is the explicit lexicographic
`Ordering.Less`; for UTF-8 text, comparing code points gives the same order.

The `-local` flag's help text calls it a comma-separated list
(`goimportssort.go:34`). Both tools use it as one substring (`strings.Count`).
The model follows the code and takes a single prefix.

## Model

| member | source | states |
|---|---|---|
| ImpModel.Render | src/imp_model.go:10-16 | without a local name the text is the path; with one it is the name, a space, then the path; it always ends with the path; its length is `|path|` or `|name| + 1 + |path|` |
| ImpModel.RenderRoundTrip | goimportssort.go:46-52 | for a path and name without spaces, line breaks or `)`, the path and the name are read back from the rendered text, so rendering loses nothing |
| Files.IsGoFileMeans | src/go_imports_sorting.go:95-98 | an entry is a Go file exactly when it is not a directory, its name does not start with `.` and it ends with `.go`, so the name has at least four characters (the root tool's copy at `goimportssort.go:119-122` is the same predicate) |
| Text.CountPositive | goimportssort.go:304 | the guard `strings.Count(path, prefix) > 0` holds exactly when the prefix occurs in the quoted path |
| Text.CountChar | src/go_imports_sorting.go:247 | `strings.Count(path, "/")` is the number of slashes in the path |
| Text.TrimQuotedLiteral | goimportssort.go:295 | `strings.Trim(literal, "\"")` on a quoted path gives the path between the quotes |
| Text.ReplaceFirst | goimportssort.go:240 | `bytes.Replace(…, 1)`: when the pattern occurs, its first occurrence is replaced and every other byte is kept; when it does not, the text is unchanged |
| Text.ReplaceEmpty | src/go_imports_sorting.go:178 | `bytes.Replace` with an empty pattern puts the replacement in front of the whole text |
| Ordering.LessIsLexBefore | goimportssort.go:252-256 | the string comparison is the textbook lexicographic order: a common prefix, then a smaller byte or the end of the first string |
| Ordering.ImpLessTotal | goimportssort.go:251-257 | the comparison passed to `sort.Slice` is total: two different imports are never tied |
| Ordering.ImpLessTransitive | goimportssort.go:251-257 | the comparison is transitive |
| Ordering.UnaliasedFirst | goimportssort.go:256 | for the same path, the unaliased import (`""`) sorts before every aliased one |
| Ordering.AliasExample | goimportssort.go:256 | for the same path, alias `APA` sorts before alias `APZ` |
| Ordering.SortSeq | goimportssort.go:249-261 | the reference sort: its result is sorted by (path, local name) and is a permutation of its input |
| Ordering.SortedUnique | goimportssort.go:251 | two sorted permutations of the same imports are equal, so the result of the unstable `sort.Slice` is determined |
| Sorting.SortTier | goimportssort.go:251-257 | sorts one tier in place: afterwards the array is sorted and a permutation of what it held |
| Sorting.SortImports | goimportssort.go:249-261 | `sortImports` keeps the number of tiers; each tier comes out sorted and a permutation of what went in, equal to the reference sort of that tier (the older tool's copy at `src/go_imports_sorting.go:195-207` is the same) |
| Sorting.SortAllKeepsEntries | goimportssort.go:249-261 | sorting every tier keeps all imports and their number |
| Tiers.ClassifyConserves | goimportssort.go:293-311 | every import lands in exactly one tier: the tiers together hold exactly the input imports, and their total size is the number of imports |
| RootTool.TierChoice | goimportssort.go:304-310 | tier priority: local exactly when the prefix is non-empty and occurs in the quoted path, even for a standard package; otherwise builtin exactly when the unquoted path is in the standard set; otherwise external |
| RootTool.ConvertImportsToSlice | goimportssort.go:290-314 | the loop appends each spec, path and local name kept, to the tier the rule picks, in input order |
| RootTool.EmptyPrefixNoLocal | goimportssort.go:304 | with an empty prefix the local tier is always empty |
| RootTool.ClassifyPlacesImport | goimportssort.go:293-311 | an import is in tier k exactly when it is one of the input imports and the rule picks k |
| RootTool.CountImports | goimportssort.go:281-287 | the count is the total number of imports in all tiers; it is 0 exactly when every tier is empty |
| RootTool.ConvertImportsToGo | goimportssort.go:264-278 | the appending loops produce `import (`, one group per non-empty tier, then `)` |
| RootTool.BlockLayout | goimportssort.go:264-278 | the block is `import (`, then (if some tier is non-empty) a line break and the non-empty tiers' lines in tier order, with one blank line between consecutive tiers, then `)`; empty tiers leave no trace |
| RootTool.BlockNewlines | goimportssort.go:264-278 | the block has one line break per import plus one per non-empty tier |
| RootTool.BlockRoundTrip | goimportssort.go:264-278 | reading the block's lines back gives exactly the imports of the tiers, tier after tier, each as the line `\t` + `string()` |
| RootTool.Splice | goimportssort.go:240 | when `package <name>` does not occur, the text is unchanged |
| RootTool.SpliceAfterHeader | goimportssort.go:240 | when `package <name>` first occurs at i, the result is the text up to and including it, a blank line, the block, then the rest of the text, every byte kept in order |
| RootTool.NewBlockKeepsImports | goimportssort.go:208-211 | the block written for a file lists every import of the file: none is lost or added |
| RootTool.Process | goimportssort.go:187-215 | errors from loading the standard set, parsing or printing are passed on; a file without imports is returned unchanged; otherwise the sorted block is spliced after the first occurrence of the text `package <name>` in the reprinted file (see `RootTool.SpliceAfterHeader`) |
| OlderTool.TierChoice | src/go_imports_sorting.go:245-251 | tier priority: local exactly when the prefix is non-empty and occurs in the quoted path; otherwise builtin exactly when the path has at most one `/`; otherwise external |
| OlderTool.ImportSpecsMembers | src/go_imports_sorting.go:229-234 | a spec is classified exactly when it belongs to some import declaration; other declarations contribute nothing |
| OlderTool.ConvertImportsToSlice | src/go_imports_sorting.go:226-256 | the nested loops append every spec of every import declaration to the tier its rule picks, in file order |
| OlderTool.AppendSpecs | src/go_imports_sorting.go:234-252 | the inner loop appends the specs of one declaration, each to its tier, after what the earlier declarations contributed |
| OlderTool.ClassifyPlacesImport | src/go_imports_sorting.go:229-253 | an import is in tier k exactly when it comes from an import declaration and the rule picks k |
| OlderTool.ConvertImportsToGo | src/go_imports_sorting.go:210-223 | the appending loops produce `import (`, then a line break and the lines of every tier (empty tiers too), then `)` |
| OlderTool.BlockAllNewlines | src/go_imports_sorting.go:210-223 | the block has one line break per tier, empty or not, plus one per import: 3 + (number of imports) for the three tiers |
| OlderTool.BlockAllRoundTrip | src/go_imports_sorting.go:210-223 | reading the block's lines back gives exactly the imports of the tiers, tier after tier |
| OlderTool.BlocksAgree | src/go_imports_sorting.go:210-223 | when no tier is empty, the older block equals the root tool's block |
| OlderTool.BlockAllIsBlock | src/go_imports_sorting.go:177 | the new block is one whole match of `import \(.*\)`: its only `)` is its last character |
| Patterns.MatchAt | src/go_imports_sorting.go:174 | at a position, `import ".*"` (ungreedy) matches exactly when `import "` starts there and a `"` comes before the next line break; the match ends at that quote |
| Patterns.Find | src/go_imports_sorting.go:178 | `Find` returns the leftmost match; nothing matches before it |
| Patterns.ReplaceAllWeaves | src/go_imports_sorting.go:174 | `ReplaceAll` keeps the text between the matches, in order, and puts the replacement where each match was |
| Patterns.SingleImportsAbsent | src/go_imports_sorting.go:174 | text without `import "` passes the single-import deletion unchanged |
| Patterns.Reassemble | src/go_imports_sorting.go:181 | the text is its gaps with the matches `FindAll` returns put back between them, in order |
| Patterns.OneBlock | src/go_imports_sorting.go:177-181 | a text with one grouped import has that one match, and the text before and after it as gaps |
| Patterns.TwoBlocks | src/go_imports_sorting.go:177-181 | a text with two grouped imports has those two matches, in order, and the texts around them as gaps |
| Patterns.CollapseIsSquash | src/go_imports_sorting.go:189 | the `\n{2,}` → `\n\n` pass equals a character-by-character description: every maximal run of two or more line breaks becomes exactly two, and everything else is kept |
| Patterns.CollapseNoTriple | src/go_imports_sorting.go:189 | after the pass no `\n\n\n` is left |
| Patterns.CollapseFixed | src/go_imports_sorting.go:189 | text without `\n\n\n` passes unchanged |
| Patterns.CollapseIdempotent | src/go_imports_sorting.go:189 | running the pass twice gives what running it once gives |
| Patterns.CollapseKeepsOthers | src/go_imports_sorting.go:189 | the characters other than line breaks survive the pass, in order |
| Patterns.CollapseKeepsPrefix | src/go_imports_sorting.go:189 | a prefix without line breaks survives the pass unchanged |
| OlderTool.FirstBlockText | src/go_imports_sorting.go:178 | the text `Find` returns is empty (nil) when there is no grouped import; otherwise it is the matched text, and its first occurrence is where it matched |
| OlderTool.ReplaceImports | src/go_imports_sorting.go:172-192 | the method runs the passes in order: single imports deleted, the first grouped import replaced by the new block, the first occurrence of each later matched text deleted one by one, then line-break runs collapsed; what that yields is stated by `OlderTool.ManyBlocksAgree` |
| OlderTool.ManyBlocksAgree | src/go_imports_sorting.go:172-192 | for any number of grouped imports `b`, `m1`, …, `mn` with gaps `p`, `g0`, …, `gn`: when no later one has the new block's text and no `import (` stands outside them (nor in the new block after its head), the passes as written yield the collapse of `p`, the new block, then `g0`…`gn` joined, so every later grouped import is deleted where it stood; the intended placement yields the same text |
| OlderTool.RemoveLater | src/go_imports_sorting.go:181-186 | the removal loop, over later grouped imports whose text differs from the new block's, deletes each one where it stands and keeps the text between them, in order |
| Patterns.ManyBlocks | src/go_imports_sorting.go:181 | a text made of gaps without `import (` and grouped imports between them has exactly those grouped imports as `FindAll` matches, and those gaps |
| Patterns.LaterBlockFirst | src/go_imports_sorting.go:184 | after the new block, the first occurrence of a later grouped import's text is that grouped import itself, when its text differs from the new block's |
| OlderTool.AsWrittenAfterFirst | src/go_imports_sorting.go:181-189 | once the first grouped import is replaced: with at most one grouped import left only the collapse follows; with two, one step unfolds, deleting the first occurrence of the second match's text before the collapse |
| OlderTool.OneBlockAgrees | src/go_imports_sorting.go:172-192 | with exactly one grouped import, the passes as written and the intended placement agree: that import becomes the new block and the rest of the text is kept |
| OlderTool.PlaceBlocksLayout | src/go_imports_sorting.go:177-186 | the intended placement: the text before the first grouped import, then the new block, then the rest with every later grouped import removed by position; without a grouped import the block follows the first occurrence of `package <name>` |
| OlderTool.CorrectedWithBlocks | src/go_imports_sorting.go:177-189 | with grouped imports present, the intended result is the collapse of the first gap, the new block and the remaining gaps |
| OlderTool.BlockBeforePackageClause | src/go_imports_sorting.go:177-178 | as written: without a grouped import the new block is put in front of the whole text, before the package clause; the intended result starts with the package clause, so the two differ |
| OlderTool.NoBlockCorrected | src/go_imports_sorting.go:177-178 | intended: without a grouped import the package clause still comes first |
| OlderTool.SameTextRemovesNewBlock | src/go_imports_sorting.go:183-185 | as written: when the second grouped import has the new block's text, the new block is deleted and the later copy stays after the text between them; the intended result keeps the block in the first place, and the two differ |
| OlderTool.NewBlockKeepsImports | src/go_imports_sorting.go:162-164 | the new block is one grouped import that lists every import of the file, none lost or added, with 3 + (number of imports) line breaks |
| OlderTool.Process | src/go_imports_sorting.go:155-169 | a parse error is passed on; otherwise classify, sort, render and place the block in the source text (the intended placement) |
| Rendering.WriteGroup | src/go_imports_sorting.go:214-217 | the inner loop of both `convertImportsToGo` functions appends a line break and one line `\t` + `String()` + `\n` per import of the tier |

## Left out

- File and directory I/O: `main`, flag parsing, `walkDir`, `processFile`, the `-l` and `-w` output choices, and `GOMAXPROCS`. None of these decides the content of the output.
- `loadStandardPackages` (`packages.Load`): the standard-package set is a parameter. Its failure is the `Failure` case of `RootTool.Process`.
- Module-name lookup (`getModuleName`, via go.mod or `go env`): it only feeds the default prefix, which is a parameter here.
- Go parsing and printing (`go/parser`, `decorator.ParseFile`, `decorator.Fprint`) and the `dstutil.Apply` deletion of import declarations. The parsed imports, the package name and the printed text are inputs.
- Comments attached to imports and trailing-newline handling: both come from the printer.
- The comma-separated form of `-local`: only one prefix substring is modelled, as the code uses it.
- A general regular-expression engine: only the three expressions at `src/go_imports_sorting.go:174`, `177` and `189` are written out, as scanners.
- Go's `sort.Slice` algorithm is not visible here. An insertion sort stands for it, and `Ordering.SortedUnique` shows that every correct sort gives the same result.
- Byte-level text: strings are sequences of characters, and comparison is by character. For UTF-8 text this is the same order as by bytes.
- OlderTool.Process: it places the block with the intended placement, `OlderTool.ReplaceImportsCorrected`. The passes as written are `OlderTool.ReplaceImports`, which is compared with it under "Findings".
- OlderTool.AsWrittenAfterFirst: it only unfolds the removal loop for one or two grouped imports. It does not say where the deleted text stood; `OlderTool.ManyBlocksAgree` does, for any number of grouped imports.
- OlderTool.ReplaceImports: its outcome is stated (by `OlderTool.ManyBlocksAgree`) only when no `import (` stands outside the grouped imports and none stands in the new block after its head. Without that, deleting one grouped import could join the text around it into a new `import (`. For a later grouped import with the new block's text, see `OlderTool.SameTextRemovesNewBlock`.
- Errors from the older tool's `convertImportsToSlice` are left out: it always returns nil.

## Findings

| source | as written | input that shows it | evidently intended | confidence | as-written member | corrected member |
|---|---|---|---|---|---|---|
| src/go_imports_sorting.go:177-178 | `bytes.Replace(output, Find(output), newImports, 1)`. When the file has no grouped import, `Find` returns nil, and `bytes.Replace` with an empty pattern inserts the block at byte 0 | `package main` + `\n\n` + `import "fmt"` + `\n`: the output starts with `import (` and the package clause comes after it | the block goes after the package clause, as the root tool does at `goimportssort.go:240` | not executed | OlderTool.BlockBeforePackageClause | OlderTool.NoBlockCorrected |
| src/go_imports_sorting.go:183-185 | each later grouped import is deleted at the first occurrence of its text. When a later block has the same text as the new block, the new block at the front is deleted instead | `package main\n\nimport ()\n\n// c\nimport (\n\t"fmt"\n\n\n)\n`: the second block is exactly the new block, so the result has the block after the comment instead of in the first block's place | each later match is deleted where it was found, by position | not executed | OlderTool.SameTextRemovesNewBlock | OlderTool.PlaceBlocksLayout |
