# svgenio: a verified model of the SVG-to-React pipeline

svgenio turns SVG markup into a React component module. The pipeline has
three stages:

- **Attribute rewrite** (`transformSvg` and `transformAttributes`). Every
  `svg` element and every element inside one has its attributes renamed for
  JSX: `class` becomes `className`, anything else goes through `camelCase`,
  and `xmlns` and `version` are dropped. Then `width` and `height` are
  stripped from every `svg` element.
- **Component emission** (`generateReactComponent`). ` {...props}` is put
  into the first `<svg` tag, and the markup is wrapped in a typed or untyped
  `export const <Name> = (props) => (...)` module.
- **Entry points.** The Node package's `convert` validates one `.svg` file
  and derives the component name from the file name. Its `batch` converts
  every `.svg` file of a folder and optionally writes a barrel
  `index.ts`/`index.js`. The browser package's `convertSvg`,
  `convertMultiple`, `convertMultipleAsync`, `convertToCode`,
  `convertToMarkup`, `handleFileInput` and `handleDropEvent` do the same on
  strings and `File` records.

The Dafny model follows the form of each source file:

- `transformer.dfy` is imperative. A `Node` class has a mutable attribute
  list and a constant kind. A `Document` class has a constant node table and
  constant parent links. `Node.TransformAttributes` loops over a snapshot of
  the entries, as `Object.entries` does. The `Document` passes are loops over
  the nodes a selector matches. Each method is proved against a pure
  specification function (`RewriteAttrs`, `StripSize`, `TransformedAttrs`),
  and the rules, collisions and idempotence are lemmas about those functions.
- `generator.dfy` is pure. It also reads a generated module back
  (`ParseComponent`) to prove that nothing is lost.
- `core.dfy` is mixed. `Convert` is a function. `Batch` and its loop
  `ConvertAll` are methods. They return the file writes in the order they
  happen and the error thrown, if any.
- `client.dfy` is mixed. The `map`/`filter` helpers are functions.
  `ConvertMultipleAsync` is a loop that appends results.
- Shared pieces:
  - `text.dfy`: JavaScript `trim`, `toLowerCase`, `endsWith` and `join`.
  - `sequences.dfy`: `filter`, and a lemma pairing results with their inputs index by index.
  - `wrappers.dfy`: `Option`, `Result`, and the leading run of successes of
    a fail-fast loop.
  - `api.dfy`: the option and result records.

Third-party code is a parameter, so every property holds for any behaviour
of it:

- `Externals.Library` holds `toPascalCase`, `camelCase`, and cheerio on
  both sides of the rewrite. `parse` turns text into a document value
  (`Transformer.Tree`: node kinds, parent links, attribute lists); it stands
  for `parseSvg` followed by the reload at the start of `transformSvg`.
  `serialise` turns a document value back into text; it stands for
  `$("svg").toString()`.
- The markup a conversion wraps is `serialise(TransformTree(camelCase,
  parse(text)))`. `Transformer.TransformTree` is the rewrite on the document
  value, and `Document.TransformSvg` is proved to turn the document into
  exactly that value. An element's attributes are the keys of an object in
  cheerio, so a document value has distinct attribute names on every node,
  and the rewrite keeps them distinct.

Where properties need something of `camelCase`, they say so in a `requires`:

- `Transformer.CamelCaseAssumptions` asks that `camelCase` is idempotent,
  fixes `className`, and produces `class` from no name other than `class`.
- The third condition cannot be dropped, and the real package does not meet
  it. The `camelcase` package maps `Class` to `class`, and
  `Transformer.RewriteNotIdempotentWhenClassProduced` shows that a lone
  `Class` attribute then becomes `class` on the first run and `className` on
  the second. `Transformer.NestedSvgDiffersWhenClassProduced` shows the same
  effect inside one run: a root `svg` keeps `class`, a nested `svg` ends with
  `className`.

Where the code and its documentation differ, the model follows the code:

- Parsing does not reject non-SVG text.
- No error is raised for an invalid component name.
- `batch` fails when no entry ends in `.svg` after filtering, which covers
  an empty folder.
- An explicit `componentName` is used verbatim by `convert`, with no
  PascalCasing.
- A failing `batch` keeps the files it already wrote and writes no barrel.
- A renamed attribute does not keep its position among the attributes.
  `attr(newKey, value)` appends the new name, and `removeAttr(key)` then
  deletes the old one, so the renamed attribute moves behind every attribute
  that stays where it is (`Transformer.RenamedMovesToEnd`).

## Model

| member | source | states |
|---|---|---|
| Transformer.SetAttr | packages/client/src/transformer.ts:14 | `attr(name, value)`: afterwards the name maps to the value and every other name keeps its value; a new name is appended at the end, an existing one is overwritten in place (same length, same name order) |
| Transformer.SetAttrKeepsDistinct | packages/client/src/transformer.ts:14 | setting an attribute never creates a duplicate name |
| Transformer.RemoveAttr | packages/client/src/transformer.ts:12-15 | `removeAttr(name)`: the name maps to nothing afterwards, every other name keeps its value, and names stay distinct |
| Transformer.RemoveAttrIsFilter | packages/client/src/transformer.ts:12 | `removeAttr(name)` keeps every other attribute, in the order it had: the result is the list filtered by name |
| Transformer.RewriteAttrs | packages/client/src/transformer.ts:7-18 | transformAttributes, as the loop over the entries taken before it starts: names stay distinct, and a list every name of which the rule leaves in place is unchanged |
| Transformer.ApplyAllKeepsDistinct | packages/client/src/transformer.ts:9-17 | every prefix of the loop keeps the attribute names distinct |
| Transformer.Step | packages/client/src/transformer.ts:10-16 | one loop iteration: the renamed value appears under the converted name; the original name is gone when it is dropped or renamed away; every other name keeps its value, so a dropped attribute is replaced by nothing; names stay distinct |
| Transformer.ApplyAllUntouched | packages/client/src/transformer.ts:9-17 | a name that no snapshot entry writes or deletes keeps its value through the whole loop |
| Transformer.ApplyAllLastTouch | packages/client/src/transformer.ts:9-17 | a name ends with what the last entry touching it did: the renamed value, or nothing when that entry is the attribute itself being dropped or renamed away |
| Transformer.ClassBecomesClassName | packages/client/src/transformer.ts:10-15 | `class` ends up as `className` with the same value and `class` is gone, unless a later attribute is renamed onto either name; a later `className` that stays in place is overwritten, as `attr` does |
| Transformer.ClassOverwritesClassName | packages/client/src/transformer.ts:13-15 | `[class=v, className=w]` becomes `className=v` with no `class`: the rename overwrites the `className` that stays in place |
| Transformer.DroppedAttrRemoved | packages/client/src/transformer.ts:11-12 | an attribute whose converted name is `xmlns` or `version` is absent afterwards, unless a later attribute is renamed onto its name |
| Transformer.StableAttrKept | packages/client/src/transformer.ts:13 | an attribute whose converted name is its own name keeps its name and value, unless another attribute is renamed onto it |
| Transformer.RenameWinsCollision | packages/client/src/transformer.ts:14-15 | when a renamed attribute lands on the name of an attribute that stays in place, the renamed value replaces the existing one, whichever comes first |
| Transformer.AssumptionsGiveStableTargets | packages/client/src/transformer.ts:10 | under the camelCase assumptions every name an attribute can be renamed onto is itself left in place by the rule |
| Transformer.RewriteAllStable | packages/client/src/transformer.ts:9-17 | after the loop every attribute present is one the rule leaves in place |
| Transformer.RewriteIdempotent | packages/client/src/transformer.ts:9-16 | rewriting an attribute list twice equals rewriting it once, under the camelCase assumptions |
| Transformer.RewriteSingleRenamed | packages/client/src/transformer.ts:14-15 | a lone attribute that the rule renames ends up alone under its converted name with its value |
| Transformer.RenamedMovesToEnd | packages/client/src/transformer.ts:13-15 | a renamed attribute followed by one that stays in place ends up after it, under its new name: the rewrite does not keep relative positions |
| Transformer.RewriteNotIdempotentWhenClassProduced | packages/client/src/transformer.ts:10 | with a camelCase that is idempotent and fixes `className` but maps `Class` to `class`, one rewrite gives `class` and a second gives `className`: idempotence needs the third assumption |
| Transformer.StripSize | packages/client/src/transformer.ts:30 | `removeAttr("width").removeAttr("height")`: neither name is present afterwards and every other name keeps its value |
| Transformer.StripSizeTwice | packages/client/src/transformer.ts:30 | stripping the size twice equals stripping it once |
| Transformer.StripSizeIsFilter | packages/client/src/transformer.ts:30 | stripping the size keeps every attribute other than `width` and `height`, in the order it had |
| Transformer.TransformedAttrs | packages/client/src/transformer.ts:26-30 | one node after the three passes: an `svg` element has no `width` or `height`, a node that is neither an `svg` nor inside one keeps its attributes, and names stay distinct |
| Transformer.Target | packages/client/src/transformer.ts:10 | the converted name: `className` for `class`, `camelCase(key)` for any other key |
| Transformer.InsideSvgAt | packages/client/src/transformer.ts:27 | `$("svg").find("*")`: an element some ancestor of which is an `svg` element, found by following parent links |
| Transformer.SvgAncestorInChain | packages/client/src/transformer.ts:27 | the recursive ancestor test is true exactly when some node in the chain of ancestors is an `svg` element |
| Transformer.InsideSvgIffSvgAncestor | packages/client/src/transformer.ts:27 | `.find("*")` under `$("svg")` matches exactly the elements with an `svg` element among their ancestors |
| Transformer.SameRuleAtEveryDepth | packages/client/src/transformer.ts:26-27 | under the camelCase assumptions, an `svg` element and an element inside an `svg` both end up rewritten exactly once, so the double visit of a nested `svg` is harmless |
| Transformer.NestedSvgDiffersWhenClassProduced | packages/client/src/transformer.ts:26-27 | with a camelCase that maps `Class` to `class`, a root `svg` with `Class` ends with `class` and a nested one ends with `className` |
| Transformer.TransformIdempotent | packages/client/src/transformer.ts:23-33 | transforming the attributes of any node a second time changes nothing, under the camelCase assumptions |
| Transformer.TransformedClassBecomesClassName | packages/client/src/transformer.ts:26-27 | under the camelCase assumptions, on an `svg` element or an element inside one, `class` ends as `className` with its value and no `class` is left, unless a later attribute is renamed onto `className` (an existing `className` that stays in place is overwritten) |
| Transformer.TreeClassBecomesClassName | packages/client/src/transformer.ts:23-31 | the same for every rewritten node of a document, whose attribute names are distinct by the document type |
| Transformer.TransformTree | packages/client/src/transformer.ts:23-31 | transformSvg on a document value: kinds and parent links are kept, every node's attributes become `TransformedAttrs` for its place, no `svg` element has `width` or `height`, nodes outside every `svg` keep their attributes, and every node's attribute names stay distinct |
| Transformer.TransformTreeIdempotent | packages/client/src/transformer.ts:23-31 | transforming a transformed document changes nothing, under the camelCase assumptions |
| Externals.Library.TransformedMarkup | packages/core/src/index.ts:37-38 | the markup stage of a conversion: `transformSvg(parseSvg(text))`, the serialisation of `TransformTree` applied to the parsed document |
| Transformer.Node.RewriteEntry | packages/client/src/transformer.ts:10-16 | the loop body changes the element's attributes exactly as one `Step` for the entry |
| Transformer.Node.TransformAttributes | packages/client/src/transformer.ts:7-18 | iterating over the snapshot taken before the loop rewrites the live list into `RewriteAttrs` of the old list |
| Transformer.Node.RemoveSize | packages/client/src/transformer.ts:30 | one element's attributes become `StripSize` of the old ones |
| Transformer.Document.EachTransform | packages/client/src/transformer.ts:26-27 | `.each(transformAttributes)`: every matched node is rewritten, every other node keeps its attributes |
| Transformer.Document.SvgPass | packages/client/src/transformer.ts:26 | every `svg` element is rewritten and every other node is unchanged |
| Transformer.Document.FindPass | packages/client/src/transformer.ts:27 | every element with an `svg` ancestor is rewritten and every other node is unchanged |
| Transformer.Document.EachRemoveSize | packages/client/src/transformer.ts:30 | every matched node loses `width` and `height`, every other node is unchanged |
| Transformer.Document.StripPass | packages/client/src/transformer.ts:30 | every `svg` element loses `width` and `height`, every other node is unchanged |
| Transformer.Document.TransformSvg | packages/client/src/transformer.ts:23-31 | the document afterwards, as a value, is `TransformTree` of the document before: every node's attributes become `TransformedAttrs` of its old ones, and no `svg` element, root or nested, has a `width` or `height`; tags, texts and parent links are constants, so only attributes change; attribute names, distinct before as the keys of cheerio's `attribs` object are, stay distinct |
| Generator.IndexOf | packages/client/src/generator.ts:14 | `indexOf`: the result is a position where the pattern occurs and no earlier position has it, or there is no occurrence at all |
| Generator.ReplaceFirst | packages/client/src/generator.ts:14 | `replace` with a string pattern: text without the pattern is returned unchanged; otherwise the first occurrence is replaced by the replacement, with the text before and after it kept, so the length changes by the replacement's length less the pattern's |
| Generator.SpreadProps | packages/client/src/generator.ts:14 | the markup changes exactly when it contains `<svg` |
| Generator.SpreadPropsAtFirstSvg | packages/client/src/generator.ts:14 | ` {...props}` goes right after the first `<svg` and the markup before and after is kept |
| Generator.SpreadPropsWithoutSvg | packages/client/src/generator.ts:14 | markup with no `<svg` passes through unchanged |
| Generator.SpreadPropsRoundTrip | packages/client/src/generator.ts:14 | removing the first ` {...props}` from the spread markup gives the original markup back |
| Generator.GenerateReactComponent | packages/client/src/generator.ts:7-31 | the module starts with the React import, a blank line and `export const <name>`, ends with the spread markup and `\n);\n`, and carries the `React.FC<React.SVGProps<SVGSVGElement>>` annotation exactly when `typescript` is absent or true |
| Generator.ParseComponentShape | packages/client/src/generator.ts:17-29 | a module of the typed or untyped template is read back into its name, its variant and its unspread body |
| Generator.GeneratedComponentParses | packages/client/src/generator.ts:7-31 | for any markup and any name without `:` or a space, the generated module reads back as that name, the variant `typescript ?? true`, and exactly that markup |
| Text.Trim | packages/core/src/index.ts:33 | `trim` never lengthens, leaves no whitespace at either end, and leaves a string without whitespace at its ends as it is |
| Text.IsBlank | packages/core/src/index.ts:33 | `!s.trim()` holds exactly when every character is JavaScript whitespace |
| Text.TrimStartSuffix | packages/core/src/index.ts:33 | `trimStart` removes exactly the leading whitespace |
| Text.TrimEndPrefix | packages/core/src/index.ts:33 | `trimEnd` removes exactly the trailing whitespace |
| Text.BlankIffAllWhitespace | packages/core/src/index.ts:33 | trimming leaves nothing exactly when every character is JavaScript whitespace |
| Text.HasSvgExtension | packages/core/src/index.ts:26 | `toLowerCase().endsWith(".svg")` accepts exactly the names whose last four characters are `.`, `s`/`S`, `v`/`V`, `g`/`G` |
| Text.HasSvgExtensionCases | packages/core/src/index.ts:26 | a lower-cased name ends in `.svg` exactly when its last four characters are `.`, `s`/`S`, `v`/`V`, `g`/`G` in the original |
| Text.ToLower | packages/core/src/index.ts:26 | `toLowerCase` on ASCII: the same length |
| Text.ToLowerAsciiOnly | packages/core/src/index.ts:26 | each ASCII capital becomes its lower-case letter and every other character is kept |
| Text.LowerSuffixHasSvgExtension | packages/core/src/index.ts:62 | a name ending in lower-case `.svg` passes the case-insensitive test |
| Text.JoinWith | packages/core/src/index.ts:77 | `join`: no parts give the empty string, otherwise the result starts with the first part and ends with the last |
| Text.JoinedLinesTerminated | packages/core/src/index.ts:77 | for a non-empty list, `join("\n") + "\n"` ends every line with a line feed |
| Wrappers.OkPrefix | packages/core/src/index.ts:68-73 | the results a fail-fast loop gets through: all successes, and the next result, if any, is the first error |
| Wrappers.OkPrefixStep | packages/core/src/index.ts:68-73 | a success met at the current position extends the run, and an error ends it |
| Sequences.Filter | packages/core/src/index.ts:62 | `filter`: the kept elements are exactly the elements that pass the test |
| Sequences.FilterAppend | packages/core/src/index.ts:62 | filtering distributes over concatenation, so the listing order is kept |
| Core.AfterLastSlash | packages/core/src/index.ts:40 | the result is the suffix of the path after its last `/` |
| Core.Basename | packages/core/src/index.ts:40 | `basename(p, ".svg")` contains no `/`, is a prefix of the last path segment, is that whole segment when the path does not end in lower-case `.svg`, and is the segment without its `.svg` suffix otherwise (unless the segment is just `.svg`) |
| Core.Join | packages/core/src/index.ts:69-70 | `join(dir, name)` starts with `dir`, ends with `name`, and has at most one `/` between them |
| Core.FileResult | packages/core/src/index.ts:69 | the `convert(join(folderPath, file), options)` call of the loop: the file exists, holds the listed text, and no explicit component name is passed |
| Core.ComponentWrite | packages/core/src/index.ts:70-71 | the component's module: `join(outDir, <Name>.tsx or .jsx)` holding its code |
| Core.BarrelWrite | packages/core/src/index.ts:76-77 | the barrel: `join(outDir, index.ts or index.js)` holding the export lines joined by line feeds plus one more |
| Core.WritesInOutDir | packages/core/src/index.ts:70-77 | every write lands in the output folder: a component's path ends in `<Name>.tsx` (or `.jsx`) and holds its code, and the barrel's path ends in `index.ts` (or `index.js`) |
| Core.BasenameOfJoin | packages/core/src/index.ts:40 | `basename(join(dir, stem + ".svg"), ".svg")` is `stem`, whatever the folder |
| Core.Convert | packages/core/src/index.ts:19-47 | checked in source order: a missing file gives FileNotFound; an existing file without a case-insensitive `.svg` extension gives InvalidFileType; an existing `.svg` file with whitespace-only content gives EmptyFile; otherwise it succeeds, named by the explicit `componentName` verbatim or by `toPascalCase` of the base name |
| Core.ConvertedModuleExportsName | packages/core/src/index.ts:40-46 | for a component name without `:` or a space, the returned module exports the returned name, typed unless `typescript` is false, around the transformed markup |
| Core.ConvertAll | packages/core/src/index.ts:68-73 | the loop writes one `<outDir>/<Name>.tsx` (or `.jsx`) per file and collects one barrel line per file, in order, up to the first failure, and returns that failure |
| Core.Batch | packages/core/src/index.ts:49-79 | a missing folder fails with FolderNotFound; no `.svg` entry fails with NoSvgFiles; otherwise the writes are the components of the leading successes, in listing order, under `outDir ?? folderPath` with `.tsx` unless `typescript` is false, followed by the barrel only when there was no failure and `barrelFile` is set; the failure is the first error |
| Core.ListedFileFailsOnlyWhenBlank | packages/core/src/index.ts:62-69 | a listed `.svg` entry always passes the existence and extension checks, so it fails exactly when its content is blank, with EmptyFile |
| Core.ConvertedStopsAtFirstBlank | packages/core/src/index.ts:68-73 | the batch converts every entry before the first blank one and stops exactly there |
| Core.ComponentNameFromFileName | packages/core/src/index.ts:40-42 | a listed `<stem>.svg` file with content becomes the component `toPascalCase(stem)` |
| Core.BarrelExportsEveryComponent | packages/core/src/index.ts:72-78 | for at least one component, `barrelExports.join("\n") + "\n"` ends every export line with a line feed, in conversion order |
| Core.SvgFiles | packages/core/src/index.ts:62 | the processed entries are exactly the listed ones whose names end in lower-case `.svg` |
| Core.SvgFilesAreTheListedSvgEntries | packages/core/src/index.ts:62 | the filter keeps the listing order: filtering a listing in two parts gives the two filtered parts one after the other |
| Client.ConvertSvg | packages/client/src/index.ts:40-55 | fails with EmptyContent exactly on whitespace-only content; otherwise the name is `componentName ?? "SvgComponent"` |
| Client.ConvertSvgExportsName | packages/client/src/index.ts:50-54 | for a component name without `:` or a space, the returned name is the one the module exports, in the variant `typescript ?? true`, around the transformed markup |
| Client.ItemOptions | packages/client/src/index.ts:81-84 | each input's options keep the caller's `typescript`; a non-empty input name replaces `componentName` by its PascalCase, and otherwise the caller's options are used as they are |
| Client.Truthy | packages/client/src/index.ts:82 | `if (name)`: the name is present and not the empty string |
| Client.ConvertMultiple | packages/client/src/index.ts:76-87 | succeeds exactly when no input is blank, with one result per input, in input order, each the `convertSvg` of that input with its own options |
| Client.ConvertMultipleNames | packages/client/src/index.ts:81-84 | a non-empty item name gives `toPascalCase(name)`, an empty or absent one leaves `componentName ?? "SvgComponent"`, and `typescript` is the caller's for every item |
| Client.ConvertMultipleAsync | packages/client/src/index.ts:92-108 | converting one input after the other, appending each result and stopping at the first failure, gives exactly what `convertMultiple` gives |
| Client.ConvertedOneMore | packages/client/src/index.ts:98-105 | appending the next input's result keeps every result the conversion of its own input |
| Client.ConvertMultipleFailsOnBlank | packages/client/src/index.ts:80-86 | any blank input makes the whole call fail with EmptyContent |
| Client.ConvertMultipleFromResults | packages/client/src/index.ts:80-86 | per-input results of the right conversions, in order, are exactly the result of the call |
| Client.ConvertToCode | packages/client/src/index.ts:113-121 | fails with EmptyContent exactly on blank content |
| Client.ConvertToCodeExports | packages/client/src/index.ts:113-121 | for a component name without `:` or a space, the module exports `toPascalCase(name)` when a non-empty name is given and `SvgComponent` otherwise, typed unless `typescript` is false |
| Client.ConvertToMarkup | packages/client/src/index.ts:134-141 | fails with EmptyContent exactly on blank content, and otherwise returns the serialisation of `TransformTree` applied to the parsed document |
| Client.CodeWrapsMarkup | packages/client/src/index.ts:134-141 | for a component name without `:` or a space, the module `convertSvg` returns wraps exactly the markup `convertToMarkup` returns |
| Client.StripSvgSuffix | packages/client/src/index.ts:156 | a trailing `.svg`, in any case, is removed, and nothing else is |
| Client.StripSvgSuffixOfExtension | packages/client/src/index.ts:156 | `stem + ext`, where `ext` is any casing of `.svg`, loses exactly `ext` |
| Client.FileItems | packages/client/src/index.ts:155-156 | one input per file, in order, with the file's text and its name without `.svg` |
| Client.HandleFileInput | packages/client/src/index.ts:154-158 | the result is `convertMultiple` of the files' inputs |
| Client.FileInputNames | packages/client/src/index.ts:156 | each component is named `toPascalCase` of its file name without `.svg`, or falls back to `componentName ?? "SvgComponent"` when that is empty |
| Client.IsSvgFile | packages/client/src/index.ts:168-170 | a dropped file is kept exactly when its type is `image/svg+xml` or its name's last four characters are `.svg` in any case |
| Client.HandleDropEvent | packages/client/src/index.ts:163-177 | no file list gives NoFilesInDrop; no file with type `image/svg+xml` or a name ending in `.svg` in any case gives NoSvgFilesInDrop; otherwise the result is that of `handleFileInput` on exactly those files, in order |

## Left out

- The command-line package (packages/cli) and its file helpers: argument
  parsing, console output and `process.exit` are not part of this model.
- Filesystem effects: `existsSync` and `readFileSync` are inputs (a flag,
  an optional text, a listing), and `writeFileSync` calls are the returned
  list of writes.
- `mkdirSync` for a missing `outDir` is not modelled. It runs before the
  `.svg` filter, so a failing `batch` can still have created that folder.
- The order of `readdirSync`: the listing is taken as given.
- A directory whose name ends in `.svg` is treated like a file in the
  listing.
- cheerio's parsing and XML serialisation (escaping, which nodes
  `$("svg").toString()` prints) are not part of this model: they are the
  `parse` and `serialise` parameters. Selector matching is modelled only as
  "`svg` elements and the elements below them".
- `toPascalCase` and `camelCase` (the `camelcase` package) are uninterpreted
  functions.
- Input decoding (`normalizeSvgInput`: Buffer, File and Blob) and the
  `DragEvent` object: a file is a `{name, type, content}` record holding
  its text, and a drop is its optional file list.
- The one-line wrappers of packages/client/src/index.ts. `convert` forwards
  its arguments to `convertSvg` unchanged. `convertAsync`,
  `convertToCodeAsync` and `convertToMarkupAsync` decode their input first
  and then call the modelled functions.
- Synchronous throws and rejected promises are both an `Err`. Error message
  texts are not modelled; each error is a constructor that names its path.
- JavaScript orders integer-like object keys before the others. The model
  keeps attributes in insertion order.
- Node.RewriteEntry: `removeAttr` with a name containing spaces removes
  each space-separated name in cheerio; the model removes the one name.
- Text.ToLower: only ASCII letters are lower-cased; other case mappings of
  `toLowerCase` are not modelled.
- Core.Basename: models `path.basename(p, ".svg")` for `/`-separated paths
  without trailing separators or `.`/`..` normalisation.
- Core.Join: puts a single `/` between folder and name and does no other
  normalisation (no `.`/`..` resolution, no collapsing of repeated `/`
  inside either part).
- Generator.GeneratedComponentParses: requires a component name with no `:`
  and no space, the characters where reading back takes the name to end;
  other names are emitted as given but not read back by this lemma.
- Transformer.ClassBecomesClassName: requires that no later attribute is
  renamed onto `className` or `class`, because the source's loop then lets
  that later rename win (Transformer.RenameWinsCollision). A later attribute
  that stays in place under one of those names is allowed.
- Transformer.DroppedAttrRemoved: requires that no later attribute is
  renamed onto the dropped name, for the same reason.
- Transformer.StableAttrKept: requires that no other attribute is renamed
  onto the kept name, for the same reason.
- Transformer.RewriteIdempotent: holds under the stated camelCase
  assumptions only. Transformer.RewriteNotIdempotentWhenClassProduced shows
  a camelCase, behaving like the real package on `Class`, for which it fails.
- Transformer.SameRuleAtEveryDepth: holds under the camelCase assumptions
  only, which the real `camelcase` package does not meet. With it, a
  `Class` attribute ends as `className` on a nested `svg` and as `class` on
  a root `svg` (Transformer.NestedSvgDiffersWhenClassProduced), so the
  double visit is not harmless there.
- Transformer.TransformedClassBecomesClassName: requires the camelCase
  assumptions, which cover a nested `svg` visited twice, and requires that
  no later attribute is renamed onto `className`.
- Transformer.TreeClassBecomesClassName: the same requirements, node by node.
- Transformer.TransformTreeIdempotent: holds under the camelCase
  assumptions only, which the real `camelcase` package does not meet; with
  it, a `Class` attribute on an `svg` element becomes `class` on the first
  run and `className` on the second. Serialising and re-parsing between the
  runs is not modelled.
- Transformer.TransformIdempotent: states idempotence per node, for the same
  assumptions. Serialising and re-parsing the markup between the runs is
  not modelled.
