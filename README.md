# dinossr core, modelled in Dafny

dinossr is a server-side rendering framework for Svelte that runs on Deno. At start-up it walks a `routes/` folder and bundles every route with esbuild. Small acorn passes take `export`s apart, and Svelte components marked `island` are wrapped for client hydration. The result is a generated manifest. The routes are then registered on a router, next to a security-policy middleware and a trailing-slash redirect, and every request is answered with a page rendered from an HTML template.

This project models that core in Dafny and proves properties of the model. There is one Dafny module per source file, plus shared helper modules:

- **Shared helpers**
  - `Text`: search, the JavaScript `split`/`join`/`trim` and ASCII case.
  - `Tables`: insertion-ordered maps, standing for JavaScript `Map`s and objects.
  - `Paths`: POSIX `basename`, `extname`, `dirname` and `join`.
  - `Spans` and `Cuts`: cutting source ranges out of a text, shared by the three acorn passes.
  - `Ast`: the top-level nodes that acorn returns.
- **Bundling**
  - `ParseExports`, `ParseImports`, `StripExports` and `FindExport`: the acorn passes under `src/bundle/acorn/`.
  - `Scripts`: the `Script` class of `src/bundle/script.ts`.
  - `EsbuildUtils`: component names, import keys, metadata and `<script>` tags.
  - `SvelteIslands`: the shared island map and the esbuild hooks for Svelte.
  - `Resolver`, `DeferredCode` and `FetchTokens`: resolution, loading, the cache of deferred compiles and the authorisation headers of remote imports.
- **Routing**
  - `Utils`, `Routing` and `RoutesMod`: the directory walk, route patterns and handler registration.
  - `RoutesLegacy`: the older `src/routes.ts`.
  - `ManifestGen` and `ManifestFile`: building the manifest and writing `manifest.js`.
- **Serving**
  - `Render`: importing a module and rendering a component page.
  - `Template`, `Policy`, `Redirects` and `CookieStore`: the remaining request-time pieces.
- **Client and documentation helpers**
  - `IslandLoader`: the `dinossr-island` custom element.
  - `DocsIndex`: the three demo and docs helpers.

The source works on state in three ways, and the model follows each:

- Where it updates objects in place, the model has classes with `modifies` frames:
  - the cookie store;
  - the `Script`;
  - the island map;
  - the deferred cache;
  - the template cache;
  - the island registry.
- Where it walks or accumulates in a loop, the model has methods with loop invariants, proved against reference functions. Examples are the policy loops, the manifest writer, the route collection and the cookie parser.
- Pure code is modelled as functions and lemmas.

Everything outside the process is an input: the file system (directory listings, file text, modification times), environment variables, the clock, the hash function (`encodeHash`, `server.hash`), the esbuild and Svelte compilers, and the acorn parser itself. The parser is a function from source text to top-level nodes, and it is required to be sound: every node it returns covers a range of the text and names what that range declares.

Some behaviour of the code that a reader might not expect, which the model keeps:

- A route file `[slug].svelte` keeps `[slug]` as the last segment of its pattern. The rewrite of `[name]` into `:name` is applied to the whole relative path, but `path.dirname` then drops the file name. The basename appended afterwards comes from the unconverted entry path (`src/routes/mod.ts:49-58`). A folder `[slug]/` does become `:slug/`.
- `src/manifest.ts` stores an un-awaited promise as the deploy hash, and `src/routes.ts` calls `hasTemplate` with one argument where `src/template.ts` expects two (see Findings).

## Model

| member | source | states |
|---|---|---|
| Text.IndexOf | src/cookies.ts:102-107 | the result is -1 or an occurrence at or after the start, and no occurrence comes between the start and it |
| Text.IndexOfChar | src/cookies.ts:102-107 | the result is -1 or the position of the character at or after the start, and none comes before it |
| Text.LastIndexOfChar | src/cookies.ts:112 | the result is -1 or the position of the character at or before the bound, and none comes after it up to the bound |
| Text.JoinSplit | src/utils.ts:61-68 | joining the parts of `split` with the same separator gives the text back |
| Text.SplitAbsent | src/utils.ts:61-63 | a separator that does not occur leaves a single part, the whole text |
| Text.SplitFirst | src/utils.ts:66 | the first part is the text before the first separator, and the other parts are the parts of what follows it |
| Text.ReplaceFirst | src/routes.ts:91-92 | without an occurrence the text is unchanged; with one the length changes by the difference of the two lengths |
| Text.TrimStart | src/cookies.ts:115-118 | the result is a suffix of the text, empty or starting with a non-space |
| Text.TrimEnd | src/cookies.ts:115-118 | the result is a prefix of the text, empty or ending with a non-space |
| Text.TrimStartSpaces | src/cookies.ts:115-118 | every character `trimStart` removes is white space, so with `Text.TrimStart` exactly the leading white space goes |
| Text.TrimEndSpaces | src/cookies.ts:115-118 | every character `trimEnd` removes is white space, so with `Text.TrimEnd` exactly the trailing white space goes |
| Tables.LookupMeaning | src/cookies.ts:54-60 | `get` finds a value exactly for the keys `has` reports, and the value is one stored under that key |
| Tables.SetLookup | src/cookies.ts:66-70 | after `set(k, v)`, `k` holds `v` and every other key is unchanged |
| Tables.SetKeys | src/cookies.ts:66-70 | `set` keeps the iteration order: an existing key stays in place, a new key goes last |
| Tables.SetUnique | src/cookies.ts:66-70 | `set` never duplicates a key |
| Tables.SetTwice | src/cookies.ts:66-70 | setting a key twice is setting it to the second value |
| Tables.RemoveLookup | src/cookies.ts:41-44 | after `delete(k)`, `k` is absent and every other key is unchanged |
| Tables.RemoveKeys | src/cookies.ts:41-44 | deleting removes the key, keeps the other keys and their uniqueness, and deleting an absent key changes nothing |
| Tables.SetAllLookup | src/cookies.ts:18-22 | after a run of `set` calls every key holds the value it was last set to, and a key never set keeps its old value |
| Tables.SetAllUnique | src/cookies.ts:18-22 | a run of `set` calls keeps keys unique |
| Tables.SetAllFresh | src/cookies.ts:18-22 | setting pairs with distinct keys into an empty map keeps their order |
| Paths.Basename | src/middleware/manifest.ts:41-42 | the basename holds no `/` unless it is `/` itself |
| Paths.Extname | src/bundle/script.ts:84 | the extension is empty or starts with `.`, and ends the basename |
| Paths.BasenameWithout | src/middleware/manifest.ts:42 | the result starts the basename |
| Paths.Dirname | src/routes.ts:43 | the directory part is never empty |
| Paths.Join | src/routes.ts:53 | joining onto an empty part leaves the other part |
| Paths.ExtnameSimple | src/middleware/manifest.ts:41-42 | a plain name with one extension is its own basename, and its extension is that extension |
| Paths.BasenameJoin | src/middleware/manifest.ts:26-41 | a name without `/` joined onto a folder is the basename of the result |
| Paths.DirnameRooted | src/routes.ts:43 | a rooted path has a rooted directory part |
| Paths.DirnameOf | src/routes.ts:43 | the directory part of a rooted folder with a name is that folder without its last `/`, or `/` |
| Spans.RemoveLength | src/bundle/acorn/strip-exports.ts:38-41 | cutting ordered spans removes exactly their total length |
| Spans.RemoveSplit | src/bundle/acorn/strip-exports.ts:38-41 | spans that end by a position only touch the text before it |
| Spans.ShiftedCut | src/bundle/acorn/strip-exports.ts:38-41 | cutting one more span at its offset-adjusted range in the already-cut text equals cutting all spans from the original |
| Spans.Kept | src/bundle/acorn/strip-exports.ts:38-41 | text that no span touches survives, moved left by the total length of the spans before it |
| Spans.TotalBound | src/bundle/acorn/strip-exports.ts:41 | the removed length never exceeds the bound nor the end of the last span |
| CookieStore.Decode | src/cookies.ts:90-96 | text without `%` is returned as is; where `decodeURIComponent` throws the text is returned as is; otherwise the decoded text |
| CookieStore.Unquote | src/cookies.ts:119-122 | a value opening with `"` loses its first and last character (a lone `"` becomes empty); any other value is unchanged |
| CookieStore.ParseStep | src/cookies.ts:101-126 | one turn of the parse loop either stops or moves the index strictly forward, also when it backtracks past a `;` |
| CookieStore.ResumeAfter | src/cookies.ts:110-113 | the backtracking step resumes just after the last `;` before the `=`, which is after the `;` found first and at or before the `=` |
| CookieStore.ReadPairFirstWins | src/cookies.ts:115-124 | reading one pair keeps the keys unique and leaves the value of every key read before unchanged |
| CookieStore.StepFirstWins | src/cookies.ts:101-126 | one loop turn keeps the keys unique and never overwrites a key already read |
| CookieStore.ParseFirstWins | src/cookies.ts:98-128 | the whole parse stores no key twice, and a key keeps the first value it was read with |
| CookieStore.ParseNoPair | src/cookies.ts:102-106 | text without a further `=` adds no pair |
| CookieStore.ParseOnePair | src/cookies.ts:98-128 | a header holding one `key=value` gives exactly that pair, key trimmed, value trimmed, unquoted and decoded |
| CookieStore.Parse | src/cookies.ts:98-128 | the `while` loop computes exactly the reference scan `ParseHeader` |
| CookieStore.ParseTurn | src/cookies.ts:102-125 | one turn of the loop: stop without `=`, backtrack on an earlier `;`, otherwise read the pair and go on after its `;` |
| CookieStore.ParsePair | src/cookies.ts:115-125 | the pair's key and value trimmed, a quoted value unquoted and decoded, stored only under a key not read before |
| CookieStore.NatText | src/cookies.ts:144 | `String(n)` of a whole number is a non-empty string of decimal digits |
| CookieStore.NatTextValue | src/cookies.ts:144 | reading the digits back gives the number |
| CookieStore.SerializedMeaning | src/cookies.ts:130-216 | `serialize` throws exactly when the name, the encoded value, a given domain or path fails the field-content pattern, or a given priority or same-site option is not a keyword; otherwise the text starts with `name=` and the encoded value |
| CookieStore.AttributesOrdered | src/cookies.ts:139-214 | the attributes come in the fixed order Max-Age, Domain, Path, Expires, HttpOnly, Secure, Partitioned, Priority, SameSite, none twice |
| CookieStore.AttributePresent | src/cookies.ts:139-214 | an attribute is present exactly when its option asks for it |
| CookieStore.FlagsPresent | src/cookies.ts:165-173 | HttpOnly, Secure and Partitioned are present exactly when their flag is set |
| CookieStore.ValuesPresent | src/cookies.ts:139-163 | a maximum age and a non-empty domain, path or expiry each give their attribute |
| CookieStore.KeywordsPresent | src/cookies.ts:174-214 | a valid priority or same-site option gives its keyword attribute |
| CookieStore.KeywordsIgnoreCase | src/cookies.ts:175-200 | priority and same-site strings match in any case, and `sameSite: true` means `Strict` |
| CookieStore.Serialize | src/cookies.ts:130-216 | the method computes exactly the reference `Serialized`: the name and value checks, then the attributes |
| CookieStore.SerializeOptions | src/cookies.ts:139-214 | the first failing option gives its error; otherwise the text gains exactly the attributes' texts in order |
| CookieStore.SerializeLocation | src/cookies.ts:139-157 | an invalid domain, then an invalid path, gives its error; otherwise Max-Age, Domain and Path are appended as asked |
| CookieStore.SerializeFlags | src/cookies.ts:158-173 | Expires, HttpOnly, Secure and Partitioned are appended as asked and cannot fail |
| CookieStore.SerializeKeywords | src/cookies.ts:174-214 | an unknown priority, then an unknown same-site mode, gives its error; otherwise both keywords are appended as asked |
| CookieStore.SerializePriority | src/cookies.ts:174-192 | an unknown priority level gives `option priority is invalid`; otherwise its attribute is appended as asked |
| CookieStore.SerializeSameSite | src/cookies.ts:193-214 | an unknown same-site mode gives `option sameSite is invalid`; otherwise its attribute is appended as asked |
| CookieStore.AllOkMeaning | src/cookies.ts:78-82 | a loop of calls that may throw gives every value in order when none throws, and otherwise the error of the first call that throws |
| CookieStore.MarkedMember | src/cookies.ts:78-81 | an entry is sent exactly when it is in the map and its name was set |
| CookieStore.NothingMarked | src/cookies.ts:76-84 | with no name set, parsed cookies alone send nothing |
| CookieStore.SetCookiesMeaning | src/cookies.ts:76-84 | every sent entry gives exactly one `set-cookie` value, in order, its serialization; a failure is that of the first failing entry |
| CookieStore.HeadersNext | src/cookies.ts:78-82 | one more map entry is skipped when its name was not set, and otherwise serialized after the earlier ones |
| CookieStore.ErrorStays | src/cookies.ts:78-82 | an error among the first entries is the error of the whole run |
| CookieStore.FromPairs | src/cookies.ts:19-21 | storing each parsed pair as a cookie without options keeps the order and the unique keys |
| CookieStore.Cookies.constructor | src/cookies.ts:18-22 | the map holds the parsed pairs as cookies without options, and no name is marked as set |
| CookieStore.Cookies.GetHas | src/cookies.ts:54-60 | `get` finds a cookie exactly for the names `has` reports, and it is the one stored under that name |
| CookieStore.Cookies.Clear | src/cookies.ts:36-39 | the map and the set of set names are both emptied |
| CookieStore.Cookies.Delete | src/cookies.ts:41-44 | the name leaves both the map and the set; the answer is whether the map had it |
| CookieStore.Cookies.SetCookie | src/cookies.ts:66-70 | the name is marked as set and stored with the cookie; every other entry is unchanged and keys stay unique |
| CookieStore.Cookies.Headers | src/cookies.ts:76-84 | the result is the serialization of exactly the set entries still in the map, in map order, or the first error |
| Ast.NodeBeforeNext | src/bundle/acorn/parse-exports.ts:13 | a top-level node ends before the next one starts, and the pass's next cut position is its start |
| Cuts.CutStep | src/bundle/acorn/parse-exports.ts:13-22 | visiting one more node appends its cut, keeping the cuts ordered up to the start of the next node |
| Cuts.PassStart | src/bundle/acorn/parse-exports.ts:9-11 | the pass starts with the original text and offset 0 |
| Cuts.PassSkip | src/bundle/acorn/parse-exports.ts:14-16 | a node without a cut leaves the text and the offset unchanged |
| Cuts.PassCut | src/bundle/acorn/parse-exports.ts:17-22 | cutting a node's span at its position shifted by the negative offset is in range and gives the text with every cut so far removed, the offset lowered by the cut's length |
| Cuts.CutShifted | src/bundle/acorn/strip-exports.ts:38-41 | the offset-adjusted cut from the already-cut text equals cutting one more span from the original |
| Cuts.CutOut | src/bundle/acorn/parse-imports.ts:18-21 | `code.substring(0, start + offset) + code.substring(end + offset)` and `offset -= end - start` keep the pass invariant |
| Cuts.PassEnd | src/bundle/acorn/parse-exports.ts:79 | at the end of the pass the text is the original with every cut removed |
| Cuts.CutSpansOrdered | src/bundle/acorn/parse-exports.ts:13 | the cuts of the first nodes are ordered and end by the start of the next node |
| Cuts.CutSpansAppend | src/bundle/acorn/parse-exports.ts:13 | the cuts of consecutive node lists concatenate |
| Cuts.CutsOrdered | src/bundle/acorn/parse-exports.ts:13-22 | all cuts are ordered within the text |
| Cuts.KeptText | src/bundle/acorn/parse-exports.ts:13-22 | text inside a node after its own cut survives the pass, moved left by the cuts before it |
| ParseExports.SpecPairs | src/bundle/acorn/parse-exports.ts:58-69 | each specifier records (exported, local), in order |
| ParseExports.FirstFailMeaning | src/bundle/acorn/parse-exports.ts:26-77 | the outcome is an error exactly when some export statement fails, and then it is the first such statement's error |
| ParseExports.FirstFailPrefix | src/bundle/acorn/parse-exports.ts:13-78 | once a statement has thrown, later statements do not change the error |
| ParseExports.NonExport | src/bundle/acorn/parse-exports.ts:14-16 | a statement that is not an export is not cut, records nothing and cannot fail |
| ParseExports.PairsStep | src/bundle/acorn/parse-exports.ts:29-68 | one more statement appends its pairs and sets them into the table |
| ParseExports.SetSpecifiers | src/bundle/acorn/parse-exports.ts:58-69 | the specifier loop sets each `exported → local` pair in turn |
| ParseExports.RecordExport | src/bundle/acorn/parse-exports.ts:24-77 | an export statement fails exactly as `Failure` says (a non-identifier default, a declaration without identifier, `export *`), and otherwise sets its pairs |
| ParseExports.VisitExport | src/bundle/acorn/parse-exports.ts:17-71 | one export statement errs exactly when it fails; otherwise the pass invariant and the table are carried one node further |
| ParseExports.ParseExports | src/bundle/acorn/parse-exports.ts:5-80 | an error exactly when a statement fails, the first one's; otherwise the text with every export cut (only the keyword of an exported declaration) and the table of every pair set in order |
| ParseExports.ExportLookup | src/bundle/acorn/parse-exports.ts:29-68 | each exported name holds the local name of its last export, and a name never exported holds nothing |
| ParseExports.ExportKeysUnique | src/bundle/acorn/parse-exports.ts:9 | no exported name appears twice in the table |
| ParseExports.KeptStatement | src/bundle/acorn/parse-exports.ts:14-16 | a statement that is not an export survives verbatim, moved left by the cuts before it |
| ParseExports.KeptDeclaration | src/bundle/acorn/parse-exports.ts:48-53 | of an exported declaration only the `export` keyword goes: the declaration survives verbatim |
| ParseExports.SpecifierExample | src/bundle/acorn/parse-exports.ts:58-69 | `export {A, B as C}` records `A → A` and `C → B` |
| ParseExports.LaterWinsExample | src/bundle/acorn/parse-exports.ts:29-68 | `export default a; export {b as default}` records `default → b` |
| ParseImports.SupportedMeaning | src/bundle/acorn/parse-imports.ts:26-54 | a specifier list is supported exactly when every specifier gives a binding |
| ParseImports.AllSupportedMeaning | src/bundle/acorn/parse-imports.ts:13-55 | a module is supported exactly when no import has a string-literal named specifier |
| ParseImports.BindingsStep | src/bundle/acorn/parse-imports.ts:26-48 | one more supported specifier appends its binding |
| ParseImports.BindingsMeaning | src/bundle/acorn/parse-imports.ts:26-54 | every specifier gives exactly one binding, in order: `default`, `*` or the imported name, with the local name |
| ParseImports.AddBindings | src/bundle/acorn/parse-imports.ts:23-54 | the module's list is created on first sight and extended by the bindings; a string-literal specifier throws |
| ParseImports.TableSkip | src/bundle/acorn/parse-imports.ts:14-16 | a statement that is not an import changes neither the table nor support |
| ParseImports.TableAdd | src/bundle/acorn/parse-imports.ts:18-54 | an import appends its bindings under its module |
| ParseImports.UnsupportedPrefix | src/bundle/acorn/parse-imports.ts:53 | once an import throws, the whole module is refused |
| ParseImports.VisitImport | src/bundle/acorn/parse-imports.ts:17-54 | one import is cut out whole and its bindings added, or it throws exactly when it is unsupported |
| ParseImports.ParseImports | src/bundle/acorn/parse-imports.ts:5-57 | an error exactly when some import is unsupported; otherwise the text with every import cut out and the table of their bindings |
| ParseImports.SourcesMeaning | src/bundle/acorn/parse-imports.ts:23-24 | the listed modules are exactly those some import names |
| ParseImports.ImportLookup | src/bundle/acorn/parse-imports.ts:23-24 | each imported module holds the bindings of all its imports in source order; a module never imported holds nothing |
| ParseImports.ImportKeys | src/bundle/acorn/parse-imports.ts:23-24 | the table's keys are the imported modules in order of first import, each once |
| ParseImports.ImportExample | src/bundle/acorn/parse-imports.ts:26-48 | `import a, * as b from "m"; import {c as d} from "m"` records `default → a`, `* → b`, `c → d` under `m` |
| ParseImports.BareImportExample | src/bundle/acorn/parse-imports.ts:23-24 | `import "n"` records the module with no bindings |
| ParseImports.StringNameExample | src/bundle/acorn/parse-imports.ts:49-53 | `import {"a-b" as x} from "m"` is refused |
| ParseImports.KeptStatement | src/bundle/acorn/parse-imports.ts:14-16 | every statement other than an import survives verbatim, moved left by the imports before it |
| StripExports.Swapped | src/bundle/acorn/strip-exports.ts:18 | each entry's sides are swapped, in order |
| StripExports.InvertExports | src/bundle/acorn/strip-exports.ts:17-18 | the `forEach` builds exactly the inverted table |
| StripExports.LastValueSwapped | src/bundle/acorn/strip-exports.ts:18 | the value last set for a local in the inverted table is its last alias |
| StripExports.InvertLookup | src/bundle/acorn/strip-exports.ts:18-35 | a local maps to the alias it was exported under last |
| StripExports.LastAliasMeaning | src/bundle/acorn/strip-exports.ts:18 | the last alias belongs to the last entry with that local, and there is none when no entry has it |
| StripExports.ShouldStrip | src/bundle/acorn/strip-exports.ts:31-43 | the locals loop stops for removal exactly when some declared name is an exported local whose alias is not allowed |
| StripExports.StripExports | src/bundle/acorn/strip-exports.ts:6-46 | an error exactly when extracting the exports fails; otherwise the export-free text with every such declaration cut whole |
| StripExports.StripsMeaning | src/bundle/acorn/strip-exports.ts:20-43 | a node is stripped exactly when one of its declared names has a last alias that is not allowed |
| StripExports.KeptUnexported | src/bundle/acorn/strip-exports.ts:21-33 | a declaration none of whose names is exported is kept |
| StripExports.NonDeclarationKept | src/bundle/acorn/strip-exports.ts:20-30 | a statement other than a variable, function or class declaration is never cut, whatever is exported or allowed |
| StripExports.KeptNode | src/bundle/acorn/strip-exports.ts:19-44 | every node that is not stripped survives verbatim |
| StripExports.LaterAliasExample | src/bundle/acorn/strip-exports.ts:18 | `export {v as x, v as y}` inverts to `v → y` |
| FindExport.LastConst | src/bundle/acorn/find-export.ts:20-29 | the remembered node is a `const` whose first declarator binds the name to a literal, and one of the nodes seen |
| FindExport.ConstStep | src/bundle/acorn/find-export.ts:21-29 | a later matching `const` replaces the remembered one; any other node keeps it |
| FindExport.FindExport | src/bundle/acorn/find-export.ts:12-70 | the answer is that of the first node that answers for the name (an exported declaration of the name, or a specifier list exporting the name after a remembered `const`), or the `undefinedExport` symbol when none does |
| FindExport.HitValue | src/bundle/acorn/find-export.ts:20-82 | a value read from the answering node is a literal that a declaration of the name really holds |
| FindExport.FindExportValue | src/bundle/acorn/find-export.ts:73-83 | the value is the literal of the first declarator of the first answering node, which some declaration of the name holds; with no answering node, `undefinedExport` |
| FindExport.ConstThenSpecifierExample | src/bundle/acorn/find-export.ts:38-52 | `const island = true; export {island};` answers a fake node wrapping the const, value `true` |
| FindExport.DeclarationExample | src/bundle/acorn/find-export.ts:56-67 | `export const island = 1` answers itself with value `1`; `export let other = 1` does not answer for `island` |
| FindExport.ExportedNameOnlyExample | src/bundle/acorn/find-export.ts:21-42 | only the exported name of a specifier is compared: after `const island = true;`, `export {other as island}` answers for `island` with that const, though the export then names `other` |
| Scripts.ModuleEntries | src/bundle/script.ts:43 | each selected entry renders as `name`, or `name as alias` when they differ |
| Scripts.FunctionEntries | src/bundle/script.ts:58 | each selected entry renders as `name`, or `alias : name` when they differ |
| Scripts.SelectedStep | src/bundle/script.ts:38-45 | one more table entry is kept exactly when the option selects its alias |
| Scripts.Script.constructor | src/bundle/script.ts:17-19 | a script holds the given code and no imports or exports yet |
| Scripts.Script.Parse | src/bundle/script.ts:21-24 | imports are extracted first and exports from the import-free code; a throw from either leaves the fields assigned before it |
| Scripts.Script.SerializeModule | src/bundle/script.ts:35-47 | `false` gives `export {};`; otherwise `export { … };` of the selected entries in table order |
| Scripts.Script.SerializeFunction | src/bundle/script.ts:50-62 | `false` gives `return {};`; otherwise `return { … };` of the selected entries in table order |
| Scripts.Script.SerializeTail | src/bundle/script.ts:72-79 | a truthy option appends the module or the function statement, each between newlines; otherwise nothing |
| Scripts.Script.Serialize | src/bundle/script.ts:65-81 | a list strips the unlisted declarations first (which fails exactly when export extraction does); then the combined statement is appended |
| Scripts.SelectedMeaning | src/bundle/script.ts:38-45 | an entry is selected exactly when it is in the table and the option selects its alias |
| Scripts.SelectedAll | src/bundle/script.ts:40 | `true` selects the whole table in order |
| Scripts.SelectedListOrder | src/bundle/script.ts:41 | only which aliases are listed matters, not their order or repetition |
| Scripts.SelectedUnset | src/bundle/script.ts:36-81 | an absent or `false` option selects nothing and adds no tail, though the serialisers still give an empty statement |
| Scripts.SelectedNone | src/bundle/script.ts:38-45 | an option that selects no alias selects no entry |
| Scripts.SerializeExample | src/bundle/script.ts:43-58 | `{default → App, x → x}` gives `App as default, x` and `default : App, x`; listing `x` and `nope` keeps only `x` |
| Scripts.SupportedTypeOf | src/bundle/script.ts:83-86 | a simple name is supported exactly when its extension is `.svelte`, `.ts`, `.js` or `.json` |
| Scripts.DotFileExample | src/bundle/script.ts:83-86 | `.ts` has no extension, so it is not supported |
| EsbuildUtils.Capitalise | src/bundle/esbuild/utils.ts:11 | only the first character can change: a lower-case ASCII letter becomes its capital, any other character stays, and the rest and the length are kept |
| EsbuildUtils.ComponentName | src/bundle/esbuild/utils.ts:5-18 | a component name is never all digits |
| EsbuildUtils.Numbered | src/bundle/esbuild/utils.ts:14-16 | an all-digit name gets the prefix `Component`, so no result is all digits |
| EsbuildUtils.SplitNoSeparator | src/bundle/esbuild/utils.ts:10 | no part of `split('-')` holds a `-` |
| EsbuildUtils.PascalCaseNoHyphen | src/bundle/esbuild/utils.ts:9-12 | the PascalCase name holds no `-` |
| EsbuildUtils.SvelteNameHasNoHyphen | src/bundle/esbuild/utils.ts:5-18 | a `.svelte` component name holds no `-` |
| EsbuildUtils.TwoPartName | src/bundle/esbuild/utils.ts:9-12 | `a-b` becomes `a` and `b` capitalised and run together |
| EsbuildUtils.OnePartName | src/bundle/esbuild/utils.ts:5-18 | a one-part `.svelte` name not starting with a digit only has its first letter raised |
| EsbuildUtils.NormalizeKey | src/bundle/esbuild/utils.ts:20-32 | a key with a scheme prefix is returned as it is; any other key is made relative to the folder, from `/key` when that starts with the folder and otherwise from the key resolved against the working directory |
| EsbuildUtils.SchemeKeyUnchanged | src/bundle/esbuild/utils.ts:21-24 | `scheme:rest` is left alone, whatever the path helpers do |
| EsbuildUtils.PlainKeyRelative | src/bundle/esbuild/utils.ts:25-31 | a key without `:` is always made relative to the folder |
| EsbuildUtils.NormInput | src/bundle/esbuild/utils.ts:40-44 | the cloned input keeps its size and its imports' kinds and originals, and every import path is normalised |
| EsbuildUtils.InputPairs | src/bundle/esbuild/utils.ts:39-45 | the first loop sets each input under its normalised key, in order |
| EsbuildUtils.OutputPairs | src/bundle/esbuild/utils.ts:46-56 | the second loop sets each output under its own key, normalised |
| EsbuildUtils.NormalizeMeta | src/bundle/esbuild/utils.ts:36-59 | the loops build exactly the normalised metafile, and the argument is not changed |
| EsbuildUtils.NormalizeOutput | src/bundle/esbuild/utils.ts:47-55 | one output gets its non-empty entry point normalised and each input key deleted and set again normalised |
| EsbuildUtils.OutputKeysKept | src/bundle/esbuild/utils.ts:46-48 | the output keys are copied as they are, in order |
| EsbuildUtils.InputKeysNormalized | src/bundle/esbuild/utils.ts:39-45 | the input keys are exactly the normalised old keys, each holding the normalised input of the last old key normalising to it |
| EsbuildUtils.RekeyAllKeys | src/bundle/esbuild/utils.ts:52-55 | after the rekeying loop every key is an old key not visited, or the normalised key of a visited entry |
| EsbuildUtils.OutputInputsNormalized | src/bundle/esbuild/utils.ts:52-55 | every input key of a normalised output is the normalised key of one of its old inputs |
| EsbuildUtils.IndexOfFolded | src/bundle/esbuild/utils.ts:62 | the first occurrence ignoring ASCII case at or after the start, or -1 when none |
| EsbuildUtils.MatchEnd | src/bundle/esbuild/utils.ts:61-63 | a match of `<tag\b[^>]*>.*?</tag>` from a position ends after its opening and closing tags, inside the text |
| EsbuildUtils.FindMatch | src/bundle/esbuild/utils.ts:69 | `exec` finds the leftmost match at or after the start, and none when no position matches |
| EsbuildUtils.MatchText | src/bundle/esbuild/utils.ts:71-72 | the matched text is never empty and occurs at the match |
| EsbuildUtils.ExtractTagFacts | src/bundle/esbuild/utils.ts:68-73 | extracting one tag removes exactly the text it pushes and leaves no match of it |
| EsbuildUtils.ExtractTagsFacts | src/bundle/esbuild/utils.ts:65-76 | over all tags the pushed blocks and the remaining text are as long as the original, and no match of the last tag remains |
| EsbuildUtils.TagExtract | src/bundle/esbuild/utils.ts:65-76 | the loop over the tags computes exactly `ExtractTags` |
| EsbuildUtils.ExtractMatches | src/bundle/esbuild/utils.ts:68-73 | the `while (true)` loop for one tag computes exactly `ExtractTag` |
| EsbuildUtils.ExtractFirst | src/bundle/esbuild/utils.ts:69-72 | without a match the loop stops with nothing left to extract; with one the text gets shorter and the match is pushed first |
| DeferredCode.StepMeaning | src/bundle/esbuild/mod.ts:16-34 | a present key returns its deferred and starts no callback; a missing one starts exactly one callback and is stored; a non-empty entry with a new modification time is recorded and evicts the key first; other keys are untouched |
| DeferredCode.StaleRecompiles | src/bundle/esbuild/mod.ts:21-32 | a changed modification time is recorded and the callback runs again |
| DeferredCode.NullEntryNeverEvicts | src/bundle/esbuild/mod.ts:21 | without an entry path nothing is evicted or recorded, and a stored key answers as before |
| DeferredCode.RepeatShares | src/bundle/esbuild/mod.ts:28-33 | a second call with the same key and time shares the first deferred, even when the first callback failed |
| DeferredCode.DeferredCache.constructor | src/bundle/esbuild/mod.ts:13-14 | the maps start empty and no callback has run |
| DeferredCode.DeferredCache.Get | src/bundle/esbuild/mod.ts:16-34 | `deferredCode` changes the maps and answers as `Step` says |
| DeferredCode.KeysSeparate | src/bundle/esbuild/mod.ts:79-117 | compile and file keys of different flavours never collide, and keys of different kinds never collide |
| DeferredCode.KeysInjective | src/bundle/esbuild/mod.ts:79-117 | within one kind and flavour different paths get different keys |
| DeferredCode.FetchLoader | src/bundle/esbuild/mod.ts:80-100 | the loader is `js`, `ts` or `json`, and the extension itself when it is `ts` or `json` |
| DeferredCode.LoadRemote | src/bundle/esbuild/mod.ts:78-106 | a remote module is fetched under `fetch:` and never evicted; a failed fetch stays pending; a `.svelte` one is then compiled under its flavour's key with loader `js`; others keep the fetched text with their loader |
| DeferredCode.LoadSvelte | src/bundle/esbuild/mod.ts:107-115 | a local `.svelte` file is compiled under `compile:FLAVOUR:path`, evicted when the file changes |
| DeferredCode.LoadFile | src/bundle/esbuild/mod.ts:116-125 | a local script file is read under `file:FLAVOUR:path`, evicted when it changes, with its extension as loader |
| Resolver.SvelteResolver | src/bundle/esbuild/resolver.ts:8-16 | exactly an `@dinossr/NAME` specifier answers, with the built-in `NAME.svelte` URL in the `fetch` namespace |
| Resolver.CreateResolver | src/bundle/esbuild/resolver.ts:18-55 | the answer is in the `fetch` namespace exactly for a `file:` or `https:` URL, a `svelte…` specifier or an importer in that namespace |
| Resolver.EsmUrlFirstOnly | src/bundle/esbuild/resolver.ts:29-32 | only the leading `svelte` gets the version; the rest of the specifier is copied as it is |
| Resolver.SvelteBeforeFetchNamespace | src/bundle/esbuild/resolver.ts:28-43 | a `svelte…` specifier goes to esm.sh even from the `fetch` namespace |
| Resolver.PassThrough | src/bundle/esbuild/resolver.ts:21-49 | remote URLs and absolute paths outside `fetch` are passed through unchanged |
| Resolver.OnResolve | src/bundle/esbuild/mod.ts:70-77 | the hook gives no answer exactly for `npm:` and `node:` specifiers |
| Resolver.BuiltinFirst | src/bundle/esbuild/mod.ts:73-74 | a built-in specifier is answered by the built-in resolver, in the `fetch` namespace |
| FetchTokens.TokenPairs | src/bundle/esbuild/fetch.ts:4-7 | one pair for each `;`-separated part |
| FetchTokens.ParseTokens | src/bundle/esbuild/fetch.ts:1-11 | the load-time loop fills exactly `Tokens`: empty without the variable, otherwise each `host → token` set in turn |
| FetchTokens.LaterTokenWins | src/bundle/esbuild/fetch.ts:8-10 | a host's token is the one of the last entry naming it |
| FetchTokens.TokensUnique | src/bundle/esbuild/fetch.ts:1 | the table never holds a host twice |
| FetchTokens.FirstPrefixMeaning | src/bundle/esbuild/fetch.ts:16-21 | the token is that of the first entry whose host (or `undefined`) starts the URL's host, and there is none exactly when no entry matches |
| FetchTokens.FetchHeaders | src/bundle/esbuild/fetch.ts:13-23 | at most one header: `authorization: Bearer TOKEN` for the first matching host, none without a match |
| SvelteIslands.IslandMap.constructor | src/bundle/esbuild/svelte.ts:7 | the module-level island map starts empty, once |
| SvelteIslands.IslandGroup.constructor | src/bundle/esbuild/svelte.ts:12 | a group keeps the server's folder and hash function and the entry, and works on the shared island map |
| SvelteIslands.IslandGroup.IslandExport | src/bundle/esbuild/svelte.ts:14-34 | a module script exporting `island = true` gets the `_$island` export with the file's hash and is recorded in the shared map, or throws when the file is the top-level route entry; every other script is unchanged and records nothing |
| SvelteIslands.IslandGroup.IslandImport | src/bundle/esbuild/svelte.ts:37-48 | an instance script (no truthy `context`) of a recorded file gets the wrapper import prepended; anything else is unchanged |
| SvelteIslands.IslandGroup.IslandMarkup | src/bundle/esbuild/svelte.ts:51-66 | markup of a file recorded with a non-empty hash is wrapped, its pre blocks before and its `<style>` blocks after; any other markup is unchanged |
| SvelteIslands.ImportAcrossGroups | src/bundle/esbuild/svelte.ts:7-43 | a file recorded by one group's export hook gets the wrapper import from a later group for another entry, because the map is shared and never cleared |
| SvelteIslands.MarkupKeepsText | src/bundle/esbuild/svelte.ts:56-59 | the extracted blocks and the remaining markup are as long as the original, and no `<style>` block is left inside the wrapper |
| SvelteIslands.ExtractTwice | src/bundle/esbuild/svelte.ts:58-59 | two extractions in a row account for every character and leave no match of the last tag |
| SvelteIslands.MarkupFrame | src/bundle/esbuild/svelte.ts:60-63 | the wrapped markup opens with the pre blocks and closes with the post blocks |
| Utils.ReplaceAbsent | src/utils.ts:61-64 | a search text that does not occur leaves the subject unchanged |
| Utils.ReplaceOnce | src/utils.ts:65-68 | with `all` false only the first occurrence is replaced, and the replacement goes in literally |
| Utils.JoinSplitReplaces | src/utils.ts:61-68 | joining the parts of a split with the replacement replaces every non-overlapping occurrence, leftmost first |
| Utils.ReplaceEvery | src/utils.ts:55-69 | with `all` true every non-overlapping occurrence is replaced literally |
| Utils.ReplaceAllSelf | src/utils.ts:55-69 | replacing a text by itself changes nothing |
| Utils.Traverse | src/utils.ts:27-48 | the loop with its recursive calls computes the reference walk `Walk`: the callbacks in listing order, or the depth error |
| Utils.WalkPrune | src/utils.ts:36-39 | hidden entries, and everything beneath a hidden directory however deep, make no difference to the walk |
| Utils.WalkTooDeep | src/utils.ts:32-41 | the walk throws exactly when a visible directory lies ten levels below the starting depth's folder |
| Utils.WalkVisibleTooDeep | src/utils.ts:32-41 | the same, measured by the height of the visible directories alone |
| Utils.WalkReported | src/utils.ts:35-47 | a successful walk calls back exactly for the files the listing shows with no hidden entry on the way |
| Utils.ReportedVisible | src/utils.ts:36-39 | no file called back has a hidden name |
| Utils.WalkEntriesTooDeep | src/utils.ts:32-41 | walking throws exactly when a visible directory reaches depth ten |
| Utils.VisibleHeightPrune | src/utils.ts:36-39 | measuring only the visible directories is the same as measuring the pruned listing |
| Routing.CollectFiles | src/routes/mod.ts:15-36 | the traversal loop computes the reference `Collect`: directories recurse first, entries that are not files are skipped, kept files are pushed |
| Routing.CollectTooDeep | src/routes/mod.ts:17-25 | the traversal throws exactly when a directory, even an empty one, is nested ten levels below the starting depth's folder |
| Routing.CollectListed | src/routes/mod.ts:20-35 | a successful traversal collects exactly the paths of kept files anywhere in the listing |
| Routing.ListedKept | src/routes/mod.ts:31-32 | every collected path names a file the filter accepts |
| Routing.ConcatMember | src/routes/mod.ts:44-74 | an item is made exactly when it is made of some collected file |
| Routing.EnsureSlash | src/routes/mod.ts:52-54 | the result ends with `/` |
| Routing.DerivePattern | src/routes/mod.ts:45-58 | the pattern built by reassignment is the reference `FilePattern` of the route file |
| Routing.DropGroup | src/routes/mod.ts:47 | a `(name)/` folder is removed, separator included |
| Routing.ConvertParam | src/routes/mod.ts:49 | a `[p]/` folder becomes `:p/` |
| Routing.NamedParamsName | src/routes/mod.ts:49 | converting parameters keeps a non-empty name non-empty and adds no separator |
| Routing.RemoveGroupsFolders | src/routes/mod.ts:47 | along a well-formed path, group folders vanish and every other folder stays |
| Routing.NamedParamsFolders | src/routes/mod.ts:49 | along a path without groups, every `[p]/` folder becomes `:p/` and plain folders stay |
| Routing.FolderPatternUngrouped | src/routes/mod.ts:47 | group folders contribute nothing to the folder pattern |
| Routing.FolderPatternShape | src/routes/mod.ts:47-54 | a well-formed folder pattern is empty or ends with a single `/` after a name |
| Routing.RewriteFolders | src/routes/mod.ts:45-49 | both rewrites along a well-formed path: `/`, the folder pattern, then the converted file name |
| Routing.EnsureSlashDirname | src/routes/mod.ts:51-54 | the directory part of a rooted folder path followed by a name, with the `/` put back, is that folder path |
| Routing.DirPatternOfFolders | src/routes/mod.ts:45-54 | the folder part of a route's pattern is `/` followed by its folders as a URL pattern |
| Routing.PatternOfFolders | src/routes/mod.ts:45-58 | a route file's pattern is `/`, its folders as a URL pattern, then its name without extension unless the name contains `index.` |
| Routing.GroupTransparent | src/routes/mod.ts:47 | a group folder in front of a path changes nothing in its pattern |
| Routing.InsertByOrder | src/routes/mod.ts:90 | inserting a route keeps every route and adds exactly that one |
| Routing.InsertSorted | src/routes/mod.ts:90 | inserting into routes sorted by `order ?? 0` keeps them sorted |
| Routing.InsertWithOrder | src/routes/mod.ts:90 | the inserted route goes after every route of its own order |
| Routing.SortByOrderMeaning | src/routes/mod.ts:90 | the sort orders the routes by `order ?? 0`, keeps every route, and keeps the routes of each order in their original relative order (a stable sort) |
| Routing.SortSorted | src/routes/mod.ts:90 | the sorted routes are ordered by `order ?? 0` |
| Routing.SortPermutes | src/routes/mod.ts:90 | the sorted routes are a permutation of the input |
| Routing.SortStable | src/routes/mod.ts:90 | the routes of each order keep their relative order |
| Routing.Toggle | src/routes/mod.ts:116-121 | the alternative pattern always differs from the pattern |
| Routing.ToggleTwice | src/routes/mod.ts:116-121 | toggling twice gives the pattern back unless it ends with two slashes, and toggling flips whether it ends with `/` |
| Routing.CollectEntriesTooDeep | src/routes/mod.ts:17-25 | listing the entries throws exactly when some directory lies ten levels below the start |
| RoutesMod.Overridden | src/routes/mod.ts:65-74 | one module's routes are pushed one for one |
| RoutesMod.LatestNone | src/routes/mod.ts:60-69 | while no route of the module has brought its own pattern, the derived pattern is in force |
| RoutesMod.LatestLast | src/routes/mod.ts:67-69 | otherwise the pattern in force is the one the most recent such route brought |
| RoutesMod.OverriddenAt | src/routes/mod.ts:65-74 | the k-th pushed route is the module's k-th route carrying the pattern in force after it, so a route's own pattern also applies to every later route of the module |
| RoutesMod.Generate | src/routes/mod.ts:39-77 | the method computes the reference `Generated`: traverse, then for each route file push its routes with the pattern reassigned as the loop does |
| RoutesMod.AllModuleRoutesNext | src/routes/mod.ts:44-75 | one more route file appends its module's routes after the earlier ones |
| RoutesMod.OverrideRoutes | src/routes/mod.ts:65-74 | the inner loop, with `pattern` reassigned by every route that brings one, pushes exactly `Overridden` |
| RoutesMod.OverriddenNext | src/routes/mod.ts:66-73 | one more route: it reassigns the pattern when it brings one, and is pushed with the pattern then in force |
| RoutesMod.GeneratedMember | src/routes/mod.ts:39-77 | a route is generated exactly when it is a route of some route file in the listing |
| RoutesMod.KeepMember | src/routes/mod.ts:91-99 | a filtered run holds exactly the routes the filter accepts |
| RoutesMod.KeepSorted | src/routes/mod.ts:90-104 | filtering routes sorted by order keeps them sorted |
| RoutesMod.DispatchPartition | src/routes/mod.ts:91-104 | the error, no-match and ordinary routes together are all the routes, each once |
| RoutesMod.CandidatesMeaning | src/routes/mod.ts:105-110 | the `redirects` Set holds each GET pattern that does not look like a file or wildcard, once |
| RoutesMod.RedirectsMeaning | src/routes/mod.ts:114-131 | a redirect from `alt` to `p` is registered exactly when `p` is a candidate other than `/`, `alt` is `p` toggled, and `alt` is not a candidate |
| RoutesMod.Dispatch | src/routes/mod.ts:91-145 | both loops together register exactly the reference `Registered` of the sorted routes |
| RoutesMod.Classify | src/routes/mod.ts:91-111 | the first loop sends `/_500` routes to the error handler, `/_404` routes to the no-match handler, and registers the rest in order, collecting redirect candidates |
| RoutesMod.KeepNext | src/routes/mod.ts:91-111 | one more route extends exactly the filters that accept it |
| RoutesMod.CandidatesNext | src/routes/mod.ts:105-110 | one more route adds its pattern when it is a GET pattern not yet in the Set and not file-like |
| RoutesMod.AltRoutes | src/routes/mod.ts:114-145 | the second loop registers exactly the redirects `Redirects` of the candidates |
| RoutesMod.AddRoutes | src/routes/mod.ts:79-146 | `addRoutes` is the reference `AddedRoutes`: nothing without a routes folder, otherwise generate, sort by order, register |
| RoutesMod.RegisteredShape | src/routes/mod.ts:89-145 | after sorting, error, no-match and ordinary routes partition the routes; ordinary routes are sorted and never `/_500` or `/_404`; the redirects are exactly the toggles of the candidates that are not candidates themselves |
| RoutesMod.Answer | src/routes/mod.ts:131-144 | the redirect handler always answers 308 |
| RoutesMod.RedirectReturns | src/routes/mod.ts:131-144 | a request at a registered alternative path is redirected to the same URL at the candidate's path |
| Redirects.AddedConcat | src/middleware/redirect.ts:9-18 | adding two runs of routes is adding their concatenation |
| Redirects.AddedMeaning | src/middleware/redirect.ts:9-18 | the Set stays without repeats and holds exactly the old patterns and the redirectable GET patterns added |
| Redirects.CollectRedirects | src/middleware/redirect.ts:8-18 | the nested loops over the modules and their routes compute exactly the candidates |
| Redirects.RegisterRedirects | src/middleware/redirect.ts:19-51 | the loop registers exactly `RegistrationsIn` the candidates |
| Redirects.RegistrationsMeaning | src/middleware/redirect.ts:19-35 | a handler is registered at `alt` for `p` exactly when `p` is a candidate, `alt` is `p` toggled and `alt` is not a candidate |
| Redirects.NoAltIsCandidate | src/middleware/redirect.ts:26-32 | no redirect is registered at a path that is itself a candidate |
| Redirects.ToggleInjective | src/middleware/redirect.ts:20-25 | two candidates share a redirect path only when one of them ends with two slashes |
| Redirects.Handle | src/middleware/redirect.ts:36-49 | an ignored request passes through with the response unchanged; any other answer is a 308 redirect |
| Redirects.RedirectLeadsHome | src/middleware/redirect.ts:36-49 | a request at a registered alternative path is redirected to the same URL at the candidate's path |
| Redirects.CandidatesMeaning | src/middleware/redirect.ts:4-18 | the candidates are the GET patterns, other than `/`, `/_404` and `/_500`, that do not look like files, each once |
| Redirects.RedirectMiddleware | src/middleware/redirect.ts:6-52 | the whole middleware registers the handlers `RegistrationsIn` of the manifest's candidates |
| ManifestGen.FindIslands | src/middleware/manifest.ts:75-89 | the metafile loop yields exactly `IslandsIn`: one island per input that imports `@dinossr/island`, in input order |
| ManifestGen.Generate | src/middleware/manifest.ts:16-98 | `generate` is the reference `Generated`: no routes folder is an error, then traverse, keep route files, and yield a module per file that has routes |
| ManifestGen.CollectPaths | src/middleware/manifest.ts:23-28 | the traverse callback pushes exactly the joined paths of the route files called back |
| ManifestGen.BuildModules | src/middleware/manifest.ts:29-97 | the module loop yields exactly `Modules`: one entry per route file, skipping files without routes |
| ManifestGen.ModulesNext | src/middleware/manifest.ts:91-96 | one more path adds its module exactly when it has routes |
| ManifestGen.ModuleFor | src/middleware/manifest.ts:30-91 | one iteration builds the pattern, the `ssr` hash, the routes, and the islands of a bundled Svelte route |
| ManifestGen.GeneratedFails | src/middleware/manifest.ts:19-24 | `generate` fails exactly when the routes folder is missing, or a visible folder lies ten levels deep; it fails in no other way |
| ManifestGen.RoutePathsMember | src/middleware/manifest.ts:24-28 | a path is collected exactly when it joins a called-back directory and a route file's name |
| ManifestGen.KeptMember | src/middleware/manifest.ts:91-96 | a module is yielded exactly for a collected path with routes, and is the module made of it |
| ManifestGen.KeptReported | src/middleware/manifest.ts:23-96 | over a successful walk, a module is yielded exactly for a route file in a visible folder that has routes |
| ManifestGen.GeneratedModules | src/middleware/manifest.ts:16-98 | a module is yielded exactly for a visible route file of the routes folder with routes, as `ModuleOf` builds it |
| ManifestGen.ModulePattern | src/middleware/manifest.ts:30-43 | a module's pattern is `/`, its folders as a URL pattern, then the file name without extension unless it holds `index.` |
| ManifestGen.IslandsInMember | src/middleware/manifest.ts:76-88 | an island is found exactly for an input importing the wrapper, hashed with `dom` and served at `/_/immutable/<hash>.js` |
| ManifestGen.IslandsFrom | src/middleware/manifest.ts:76-88 | an island is found exactly for an input importing the wrapper |
| ManifestGen.DirectHasNoIslands | src/middleware/manifest.ts:47-75 | routes imported without the bundler, and every route that is not a Svelte component, bring no island |
| ManifestGen.ServerManifest.constructor | src/types.ts:104-112 | a manifest holds the given deployment hash, modules and islands |
| ManifestGen.ServerManifest.GenerateManifest | src/middleware/manifest.ts:100-133 | on success the modules gain the yielded modules, the islands gain the distinct islands, and the routes are the island routes then the sorted module routes; on failure the manifest is unchanged |
| ManifestGen.ServerManifest.AddModules | src/middleware/manifest.ts:102-130 | the routes returned are `ManifestRoutes`; modules and islands are extended, the deployment hash kept |
| ManifestGen.ServerManifest.PushModules | src/middleware/manifest.ts:105-109 | the `for await` loop appends the modules, collects every module route and fills the islands Map by hash |
| ManifestGen.ServerManifest.UnshiftIslands | src/middleware/manifest.ts:111-130 | each island of the Map is unshifted onto the manifest and its GET route onto the routes, so both end up in reverse Map order |
| ManifestGen.SetIslands | src/middleware/manifest.ts:108 | setting each island under its hash is `SetAll` of the pairs |
| ManifestGen.PairsOfKeyed | src/middleware/manifest.ts:108 | every pair set is keyed by its island's hash |
| ManifestGen.NewIslandsDistinct | src/middleware/manifest.ts:104-112 | the islands added to the manifest have pairwise different hashes, however many modules import one |
| ManifestGen.NewIslandsComplete | src/middleware/manifest.ts:104-112 | a hash gets an island in the manifest exactly when some module has an island with it, and that island is the one set last under the hash |
| ManifestGen.RoutesShape | src/middleware/manifest.ts:110-130 | island routes first, one GET route per island in order, then the other routes sorted stably by `order`, a permutation of them |
| ManifestGen.IslandRouteAt | src/middleware/manifest.ts:118-129 | the k-th island route is the GET route of the k-th island at its pattern and hash |
| ManifestGen.ManifestRoutesShape | src/middleware/manifest.ts:102-131 | the router receives one GET route per new island, then every module route sorted by `order`, ties in module order, none lost |
| ManifestFile.DeploySourcePriority | src/manifest.ts:14-20 | the argument, then `DINOSSR_DEPLOY_ID`, then `DENO_DEPLOYMENT_ID`, then the start time: each is used exactly when every one before it is absent, so an empty string still wins |
| ManifestFile.GetManifestAsWritten | src/manifest.ts:9-27 | during a build, or without a stored manifest, a fresh empty manifest whose deploy hash is the un-awaited promise of the chosen source's hash; otherwise the stored manifest untouched |
| ManifestFile.FreshHashIgnoresSource | src/manifest.ts:11-23 | as written, a fresh manifest never holds a hash string, and its deploy hash reads `[object Promise]` whatever the deploy id or start time |
| ManifestFile.GetManifest | src/manifest.ts:9-27 | the corrected `getManifest`: a fresh manifest carries the awaited hash of the chosen source; a stored one is returned untouched |
| ManifestFile.FreshHashFollowsSource | src/manifest.ts:11-23 | corrected, two fresh manifests read differently whenever the hashes of their sources differ |
| ManifestFile.StoredIgnoresArgument | src/manifest.ts:11-26 | outside a build a stored manifest is returned whatever the argument, and during a build nothing stored matters |
| ManifestFile.ModuleBlock | src/manifest.ts:40-51 | a module gives eight lines: its import, `MODULES.push({`, entry, hash, pattern, module, metafile, `});` |
| ManifestFile.IslandBlock | src/manifest.ts:52-62 | an island gives seven lines: `ISLANDS.push({`, entry, hash, pattern, code, metafile, `});` |
| ManifestFile.FlattenAt | src/manifest.ts:40-62 | blocks of `n` lines each: block `k` fills lines `n*k` to `n*k+n` |
| ManifestFile.ModulesAt | src/manifest.ts:34-51 | module `k` fills the eight lines from `3 + 8k` |
| ManifestFile.IslandsAt | src/manifest.ts:52-62 | island `j` fills the seven lines after the header and every module block |
| ManifestFile.ManifestLayout | src/manifest.ts:34-63 | the file has `4 + 8M + 7I` lines for `M` modules and `I` islands, starts with the three header lines and ends with the export line |
| ManifestFile.ManifestModuleEnds | src/manifest.ts:34-64 | the text starts with the `dir` line and ends with the export line after a newline |
| ManifestFile.PushModule | src/manifest.ts:41-50 | one module's block is pushed line by line |
| ManifestFile.PushIsland | src/manifest.ts:53-61 | one island's block is pushed line by line |
| ManifestFile.PushModules | src/manifest.ts:40-51 | the `forEach` over the modules appends their blocks in order |
| ManifestFile.PushIslands | src/manifest.ts:52-62 | the `forEach` over the islands appends their blocks in order |
| ManifestFile.SetManifest | src/manifest.ts:29-66 | the text written to `manifest.js` is exactly `ManifestModule` of the manifest |
| Render.DomCode | src/render.ts:29-36 | no client bundle is made unless the module asks for client rendering and is a `.svelte` file |
| Render.Handlers | src/render.ts:11-102 | a module gives at most two handlers |
| Render.HandlersMeaning | src/render.ts:9-102 | a default function gives exactly one GET handler; every handler carries `mod.pattern ?? ''`; no method twice; a GET handler exists exactly for a default function, a component or `get`; a POST handler exactly for `post` without a default function; a component's handler renders it with its client bundle |
| Render.ImportModule | src/render.ts:4-103 | the if-chain pushes exactly `Handlers` |
| Render.ComponentReply | src/render.ts:41-79 | the response is HTML (`text/html; charset=utf-8`) with the component's head and CSS; the data is `load`'s result or `{}`; without client rendering the body is the rendered HTML, with it the HTML followed by the bootstrap script holding the base64 bundle, the URL, the pattern and the JSON of the parameters and the data |
| Render.BlobCodeReadBack | src/render.ts:53-56 | the base64 bundle is read back from the script exactly: the first `"` after `const blobCode = "` is the one that closes it |
| Render.ReadBack | src/render.ts:55 | a value free of a delimiter and followed by it is the text up to its first occurrence |
| RoutesLegacy.Step | src/routes.ts:52-58 | one handler's step ends with `/` |
| RoutesLegacy.Stacked | src/routes.ts:50-63 | as written, every handler of a module is pushed once |
| RoutesLegacy.StepTwice | src/routes.ts:52-58 | two steps with the same plain pattern `g` from the folder `b`: `b/g/`, then `b/g/g/` |
| RoutesLegacy.PairShape | src/routes.ts:50-63 | for two handlers, as written the second starts from the first's pattern; corrected both start from the folder's |
| RoutesLegacy.StackedTwice | src/routes.ts:50-63 | as written two handlers sharing the pattern `g` land at `b/g/` and `b/g/g/`; corrected both land at `b/g/` |
| RoutesLegacy.BlogHandlers | src/render.ts:9-101 | a module exporting `get`, `post` and `pattern = 'x'` gives a GET and a POST handler, both with pattern `x` |
| RoutesLegacy.Placed | src/routes.ts:50-63 | corrected, every handler of a module is pushed once |
| RoutesLegacy.PlacedAt | src/routes.ts:50-63 | corrected, the k-th handler is pushed unchanged but for its pattern, its own step from the folder, ending with `/` |
| RoutesLegacy.PlacedShared | src/routes.ts:50-63 | handlers sharing a pattern are placed at one pattern |
| RoutesLegacy.ModulePlacedTogether | src/routes.ts:50-63 | corrected, all handlers of one module end up at the same pattern |
| RoutesLegacy.PlacedMember | src/routes.ts:50-63 | a placed handler is exactly a handler of the module at its step |
| RoutesLegacy.EnsureSlashTwice | src/routes.ts:56-58 | adding a trailing `/` twice is adding it once |
| RoutesLegacy.StackedAgrees | src/routes.ts:50-63 | while no handler brings a pattern, the loop as written agrees with the corrected one and stays at the folder's pattern with a `/` |
| RoutesLegacy.StepSegment | src/routes.ts:52-58 | a plain handler pattern from a folder without trailing `/` gets one separator between them and one after |
| RoutesLegacy.StepAfterSlash | src/routes.ts:52-58 | a plain handler pattern after a pattern ending with one `/` is appended with a `/` |
| RoutesLegacy.BaseOfFolders | src/routes.ts:37-43 | a route file's folder pattern is `/` and its folders as a URL pattern, without the last `/` |
| RoutesLegacy.StepFromFolder | src/routes.ts:52-58 | from such a folder pattern a handler lands at the folder pattern with its own pattern and a `/` appended |
| RoutesLegacy.PatternOfFolders | src/routes.ts:37-58 | a handler of a well-formed route file is served at `/`, the folders as a URL pattern, then its own pattern and a `/` when it has one |
| RoutesLegacy.AllPlacedNext | src/routes.ts:36-64 | corrected, one more route file appends its handlers placed at its folder |
| RoutesLegacy.AllStackedNext | src/routes.ts:36-64 | as written, one more route file appends its handlers stacked from its folder |
| RoutesLegacy.DeriveBase | src/routes.ts:37-43 | the folder pattern built by reassignment is `BasePattern` |
| RoutesLegacy.AllStackedAgrees | src/routes.ts:50-63 | handlers without their own pattern are pushed the same as written and corrected |
| RoutesLegacy.GeneratedAgrees | src/routes.ts:31-66 | `generate` as written differs from the corrected one only where handlers bring a pattern |
| RoutesLegacy.StackHandlers | src/routes.ts:50-63 | the inner loop as written, `pattern` carried from one handler to the next, pushes exactly `Stacked` |
| RoutesLegacy.StackedNext | src/routes.ts:50-63 | as written, one more handler steps from the running pattern and is pushed at it |
| RoutesLegacy.PlacedNext | src/routes.ts:50-63 | corrected, one more handler is pushed at its own step from the folder |
| RoutesLegacy.NextPattern | src/routes.ts:52-58 | the loop body's update is `Step` |
| RoutesLegacy.PlaceHandlers | src/routes.ts:50-63 | the corrected inner loop pushes exactly `Placed` |
| RoutesLegacy.GenerateAsWritten | src/routes.ts:31-66 | the loop as written computes `GeneratedAsWritten` |
| RoutesLegacy.Generate | src/routes.ts:31-66 | the corrected loop computes `Generated` |
| RoutesLegacy.GeneratedMember | src/routes.ts:7-66 | a handler is generated exactly for a handler of a listed `mod` file, at its step from the folder, and every pattern ends with `/` |
| RoutesLegacy.RegistrationsMeaning | src/routes.ts:69-122 | `addRoutes` registers every handler with the template, and a redirect from a GET pattern without its last `/` exactly when the pattern ends with `/` and is not `/` |
| RoutesLegacy.AppendSlash | src/routes.ts:72-80 | the redirect handler always answers with a 308 redirect |
| RoutesLegacy.RedirectLeadsHome | src/routes.ts:69-82 | a registered redirect comes from its pattern without the last `/` and leads to the same URL at the pattern |
| RoutesLegacy.PageFor | src/routes.ts:130-154 | no custom page without its file; with the file, the module's first handler, or a page that fails when the module has none |
| RoutesLegacy.RegisterAll | src/routes.ts:113-122 | the registration loop gives exactly `Registrations` |
| RoutesLegacy.AddRoutes | src/routes.ts:100-169 | `addRoutes` computes `AddedRoutes`: nothing without a routes folder, else the generated handlers registered, then the two custom pages |
| RoutesLegacy.RegisteredShape | src/routes.ts:113-122 | registered handlers keep their patterns and the template; every redirect is from a pattern without its last `/`, never to `/` |
| RoutesLegacy.AddedRoutesShape | src/routes.ts:100-122 | every registered handler is served at a pattern ending with `/`, and every redirect is from that pattern without it |
| RoutesLegacy.SubstitutionPlain | src/routes.ts:91-92 | a replacement without `$` goes in literally, even with the native `replace` |
| RoutesLegacy.NativeReplacePlain | src/routes.ts:91-92 | without `$` the native `replace` is the literal replacement of the first occurrence |
| RoutesLegacy.WrapAsWrittenExpands | src/routes.ts:91 | with the native `replace`, a page whose text is `$&` comes out as `%BODY%`; inserted literally it is `$&` |
| RoutesLegacy.BodyFirst | src/routes.ts:91 | in a template with `%HEAD%` before `%BODY%`, the first `%BODY%` is found after the head marker |
| RoutesLegacy.HeadFirst | src/routes.ts:92 | the first `%HEAD%` after text without `%` is right after it |
| RoutesLegacy.WrapPage | src/routes.ts:91-92 | with both texts inserted literally, the page is the template with the head and the rendered text in the markers' places, whatever they hold |
| RoutesLegacy.Respond | src/routes.ts:85-97 | a page is made exactly for a GET handler whose response wants the template (the page `Wrap` builds); every other response passes unchanged |
| RoutesLegacy.RespondAsWritten | src/routes.ts:85-97 | as written, a page is made for exactly the same responses, with the native `replace` |
| RoutesLegacy.RespondAgrees | src/routes.ts:89-94 | both wrap a page the same way when neither the text nor the head holds `$` |
| RoutesLegacy.RespondAsWrittenDiffers | src/routes.ts:91 | a GET page whose text is `$&` is answered with `%BODY%` as written and with `$&` corrected |
| RoutesLegacy.CreateHandleAsWritten | src/routes.ts:85-98 | as written, a GET handler throws the TypeError from reading the undefined `response`'s headers, and any other handler passes its response on |
| RoutesLegacy.CreateHandle | src/routes.ts:85-98 | `createHandle` with `hasTemplate(request, response)`: only a GET response can become a page |
| RoutesLegacy.CreateHandleAsWrittenNoPage | src/routes.ts:89 | as written no handler ever answers with a page, and every GET response the corrected handle would wrap throws instead |
| RoutesLegacy.CreateHandleWraps | src/routes.ts:89-94 | corrected, a GET response becomes a page exactly when it is not served by Deno and is HTML, or plain text away from a `.txt` path; the page is the template with the text put in literally |
| RoutesLegacy.FallbackFor | src/routes.ts:125-168 | without a custom page the router's default answers; a request not for HTML gets an empty response with the status; otherwise the rendered page with that status, or a failure when the module has no handler |
| Policy.XNameInjective | src/middleware/policy.ts:29 | different directives read different `x-` headers |
| Policy.PoliciesAt | src/middleware/policy.ts:23-37 | each directive keeps its name and a fresh copy of its defaults, followed by the trimmed comma-separated sources of its `x-` header when the response has one |
| Policy.ConsumedLookup | src/middleware/policy.ts:30-33 | every `x-` header of a default directive is deleted, and every other header is as it was |
| Policy.GetPolicies | src/middleware/policy.ts:23-37 | the loop builds exactly `Policies` and leaves exactly `Consumed` |
| Policy.KeptMember | src/middleware/policy.ts:47-52 | a directive is kept exactly when it is not redundant |
| Policy.KeptSnoc | src/middleware/policy.ts:47-52 | one more directive is kept exactly when it is not redundant |
| Policy.KeptDefault | src/middleware/policy.ts:48 | `default-src` is never removed |
| Policy.KeptTwice | src/middleware/policy.ts:46-53 | removing redundant directives twice removes no more |
| Policy.PrunedMeaning | src/middleware/policy.ts:46-53 | when `default-src` holds `'self'`, exactly the redundant directives go; `default-src` keeps its sources; pruning twice changes nothing |
| Policy.VersionsCompared | src/routes/policy.ts:45-52 | the legacy version removes at least what the middleware one removes, and a non-fetch directive holding only `'self'` only in the legacy one |
| Policy.RemoveOnly | src/middleware/policy.ts:50 | deleting a key held by one entry removes only that entry |
| Policy.RemoveStep | src/middleware/policy.ts:47-52 | one loop turn deletes exactly a redundant entry and keeps the others |
| Policy.RemoveRedundant | src/middleware/policy.ts:47-52 | the loop leaves exactly `Kept` |
| Policy.NotBefore | src/middleware/policy.ts:47 | the kept entries before a position do not share its key |
| Policy.NotAfter | src/middleware/policy.ts:47 | the entries after a position do not share its key |
| Policy.Prune | src/middleware/policy.ts:46-53 | the pruning step computes exactly `Pruned` |
| Policy.SecuredHeaders | src/middleware/policy.ts:54-61 | the response carries the serialised policy and `referrer-policy: same-origin`, the middleware version also `x-content-type-options: nosniff`; the consumed `x-` headers are gone and every other header is untouched |
| Policy.Handle | src/middleware/policy.ts:39-67 | an ignored request or a missing response passes unchanged; otherwise the response's headers become `SecuredWith` of the default policies |
| Policy.PoliciesDistinct | src/middleware/policy.ts:25-28 | the built policy names each directive once |
| Policy.DefaultsDistinct | src/middleware/policy.ts:4-21 | the default policies name each directive once |
| Template.HasTemplateMeaning | src/template.ts:20-33 | a response uses the template exactly when it is not served by `deno`, has a content type, and is HTML, or plain text for a path not ending with `.txt` |
| Template.TemplateCache.constructor | src/template.ts:3 | the cache starts empty |
| Template.TemplateCache.ReadTemplate | src/template.ts:6-17 | without a folder, the first cached template or `''`; a cached folder's template without reading; otherwise the file's text, or `''` when it cannot be read, stored and returned |
| IslandLoader.ConnectMeaning | src/bundle/svelte/island.js:7-34 | a new element is recorded, raises its id's count by one and leaves other ids' counts; it is skipped exactly when nested; otherwise it hydrates in the browser context with the JSON payload that follows its count, or `{}` when there is none |
| IslandLoader.ConnectOnce | src/bundle/svelte/island.js:8-11 | connecting an element again changes nothing |
| IslandLoader.ConnectAllPayloads | src/bundle/svelte/island.js:19-26 | distinct new elements of one id mount in turn with the payloads that follow the id's current count |
| IslandLoader.IslandRegistry.constructor | src/bundle/svelte/island.js:1-2 | the set of handled elements and the counts start empty |
| IslandLoader.IslandRegistry.ConnectedCallback | src/bundle/svelte/island.js:7-34 | `connectedCallback` updates the registry and acts as `Connect` says |
| DocsIndex.DemoIndex | demo/lib/helpers.ts:2-11 | the index of the first page whose `href` is the URL's path, or 0 when none is, also for a nullish URL |
| DocsIndex.MenuIndex | docs/lib/helpers.ts:2-11 | the index of the first entry whose `href` is the path, or 0; with a nullish URL, the first entry without `href` |
| DocsIndex.DemoIndexJs | demo/lib/helpers.js:2-11 | the index of the first page whose `href` strictly equals the path, or 0; with a nullish URL, the first `undefined` one |

## Left out

- Start-up and serving plumbing (`src/mod.ts`, `src/serve.ts`, `src/build.ts`, the demo and docs `mod.ts`) is outside the model. It wires the pieces modelled here to `Deno.serve`.
- The hashes `encodeHash` and `encodeCrypto` (FNV-1a and SHA-256 through `crypto.subtle`) are uninterpreted functions from text to text, because they are foreign code. The artifact id `server.hash(value, salt)` is the hash of `value + salt + deployHash`.
- The acorn parser, the esbuild transform and the Svelte compiler are inputs (`parse-script.ts`, `typescript.ts`, `bumble.ts`, `import.ts` and the body of `esbuildBundle` are not part of this model). The parser is a function from text to top-level nodes that is required to be sound. Declarations and export specifiers are plain identifiers and no destructuring is modelled.
- ParseExports.ParseExports: acorn's own syntax errors are not modelled, since the parser is an input. The string-literal export specifiers of `src/bundle/acorn/parse-exports.ts:59-68` are read as identifiers, so their warning path is not distinguished.
- The file system, environment variables and the clock are inputs:
  - directory listings, in the order `Deno.readDir` gives them;
  - file text;
  - modification times;
  - `Deno.env`;
  - the start time.
- DeferredCode.DeferredCache.Get: the modification time comes in as an `Option`, so the error `Deno.statSync` throws for a missing file is not modelled (`src/bundle/esbuild/mod.ts:22`).
- Promises are modelled as calls run one at a time. `deferredCode` counts its callback invocations instead of sharing a pending promise, and the `await`s of the route and bundle loops are sequential steps. Interleavings that the concurrent source allows are not modelled.
- `console.log`, `console.warn` and the timing logs are left out, because they only write to the terminal. The returned values around the `console.warn` calls are modelled.
- CookieStore.Parse: an object lookup `obj[key]` in the source also sees the prototype chain (`src/cookies.ts:99,117`), so a pair named `constructor` or `toString` is skipped there. The model's table has no prototype and stores such a pair.
- CookieStore.Cookies.constructor: JavaScript objects list integer-like keys first, in ascending order, before all other keys (`src/cookies.ts:19`). The model keeps plain insertion order, so a header `b=1; 2=x; 1=y` lists `b, 2, 1` where the source lists `1, 2, b`.
- CookieStore.Serialize: `maxAge` is an integer. The `- 0` coercion, the `TypeError` for `NaN` or `Infinity` and the `Math.floor` of `src/cookies.ts:139-145` are left out, because the model has no floating point.
- CookieStore.Serialize: `expires` is a preformatted date string. The `Date` conversion and its invalid-date error (`src/cookies.ts:158-163`) are left out, because the model has no dates.
- `encodeURIComponent` and `decodeURIComponent` are treated as uninterpreted codecs, and a decoding failure leaves the value as it was.
- Policy.Handle: the `try`/`catch` around immutable response headers (`src/middleware/policy.ts:41,62-64`) is left out. The model's headers are always writable.
- Policy.Handle: Fetch `Headers` join several values of one header with `, `. The model keeps one value per header.
- Policy.Handle: for an ignored request the legacy router's handler (`src/routes/policy.ts:41`) returns `undefined` rather than the response. The model returns the headers unchanged in both versions, because the router then keeps the response as it was.
- Paths.Extname: a name made only of dots before an extension, such as `..ts`, gives `""`. The standard path module gives `.ts`. No route or module name in the core has that shape.
- Paths.Join: the segments are joined with `/` without normalising `.` and `..`. Only `Paths.Dirname`, `Paths.Basename` and trailing slashes are handled as the standard path module does.
- The DOM APIs used by `island.js` (`closest`, `querySelectorAll`, document fragments) are inputs: an ancestor flag and the list of JSON payloads.
- The superseded Svelte preprocessors, the proxy and static middlewares, the cache and error handlers, and the type-only modules are not part of this model. They either call into the router and native fetch, or hold no logic.
- ManifestFile.SetManifest: only the importable `manifest.js` text is modelled. The JSON copy written beside it (`src/manifest.ts:31-32`) and `JSON.parse` reading it back are left out, because they are file I/O. JSON of the un-awaited deploy-hash promise would be `{}`.
- RoutesLegacy.Generate and RoutesLegacy.AddRoutes follow the corrected handler loop of `src/routes.ts:52-54`. RoutesLegacy.GenerateAsWritten models the loop as written (see Findings).
- RoutesLegacy.Respond inserts the rendered text literally. RoutesLegacy.RespondAsWritten models the native `replace` of `src/routes.ts:91-92` (see Findings).
- RoutesLegacy.Respond: its `wrap` input stands for the intended answer of `hasTemplate(request, response)`. `src/routes.ts:89` calls it with the response alone, which `src/template.ts:20` does not accept (see Findings). RoutesLegacy.CreateHandle ties `wrap` to `Template.HasTemplate`, and RoutesLegacy.CreateHandleAsWritten models the call as written.
- RoutesLegacy.RespondAsWritten: it takes the same intended `wrap`. With the `hasTemplate` call as written no page is built, so the native `replace` matters only once that call is corrected.
- EsbuildUtils.Capitalise: only ASCII letters are raised. JavaScript's `toUpperCase` also maps other letters, such as `ü` to `Ü`, and can lengthen the text, such as `ß` to `SS`. So a `.svelte` file `über-uns` gives `überUns` in the model where the source gives `ÜberUns`. Unicode case tables are not modelled.
- Utils.Traverse: a walk that throws gives `Err(TooDeep)` with no callbacks. In the source the callbacks made before the throw have already run (`src/utils.ts:32-44`).
- ManifestFile.GetManifest awaits the deploy hash. ManifestFile.GetManifestAsWritten models the un-awaited promise of `src/manifest.ts:12` (see Findings).

## Findings

| source | as written | input that shows it | evidently intended | confidence | as-written member | corrected member |
|---|---|---|---|---|---|---|
| src/routes.ts:52-54 | `pattern = path.join(pattern, handler.pattern)` reassigns the module's pattern inside the handler loop, so each handler starts from the previous one's pattern | `routes/blog/mod.ts` exporting `get`, `post` and `pattern = 'x'`: GET is served at `/blog/x/` and POST at `/blog/x/x/` | every handler of a module is placed at the folder's pattern joined with its own, so both are at `/blog/x/` | not executed | RoutesLegacy.GenerateAsWritten, RoutesLegacy.StackedTwice | RoutesLegacy.Generate, RoutesLegacy.ModulePlacedTogether |
| src/routes.ts:91-92 | the native `String.prototype.replace` inserts the rendered text, so `$&`, `` $` ``, `$'` and `$$` in it are expanded | a page whose rendered text is `$&`, with the template `%BODY%`: the answer is `%BODY%` | the rendered text goes into the template literally, giving `$&` | not executed | RoutesLegacy.RespondAsWritten, RoutesLegacy.RespondAsWrittenDiffers | RoutesLegacy.Respond, RoutesLegacy.WrapPage |
| src/manifest.ts:12 | `deployHash = encodeHash(...)` without `await` stores a `Promise<string>` in a field typed `string` | any fresh manifest: its deploy hash reads `[object Promise]` whatever the deploy id or start time | the awaited hash of the chosen deploy source | not executed | ManifestFile.GetManifestAsWritten, ManifestFile.FreshHashIgnoresSource | ManifestFile.GetManifest, ManifestFile.FreshHashFollowsSource |
| src/routes.ts:89 | `hasTemplate(response)` passes the response as the `request` parameter of `hasTemplate(request, response)` (`src/template.ts:20`), so `response` is undefined and `response.headers.get('server')` (`src/template.ts:22`) throws a TypeError | any GET handler: its handle throws instead of answering, so no page is ever put into `app.html` | `hasTemplate(request, response)` with the handle's request, wrapping HTML and non-`.txt` plain-text responses | not executed | RoutesLegacy.CreateHandleAsWritten, RoutesLegacy.CreateHandleAsWrittenNoPage | RoutesLegacy.CreateHandle, RoutesLegacy.CreateHandleWraps |
