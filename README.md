# Element Plus playground: project store, CDN links and settings

This project is a Dafny model of the core of the Element Plus playground, a
browser editor for Vue single-file components. It covers three parts of
the playground:

- **The project store** (`src/composables/store.ts`). It reads the page's
  query parameters and a saved project. From them it derives the display
  options, the preview deployment `pr` and the initial versions. It loads
  the saved files under normalised paths and adds the glue files: the
  Element Plus set-up, the Pinia set-up and `tsconfig.json`. It hands
  `setVersion` and `toggleNightly` to its callers with the store.
  `useStore` also defines `setActive`, `addFile`, `renameFile` and
  `deleteFile` as local functions. The returned store does not expose
  them (it carries `@vue/repl`'s own methods of those names), and only
  `addFile` and `deleteFile` call `setActive`. They are modelled as
  written, as methods of the store. The model is in `store.dfy`, module
  `Store`:
  - The pure derivations are functions.
  - `initFiles` and the start-up sequence are methods proved against those
    functions.
  - The store object is the class `ProjectStore`. Its methods update
    `files`, `active`, `hasActive`, `errors`, `versions` and `typescriptVersion` in
    place.
- **The CDN link builders and the built-in import map**
  (`src/utils/dependency.ts`). These are pure functions in
  `dependency.dfy`, module `Dependency`. The CDN setting is a parameter of
  type `Cdn`.
- **The settings store** (`src/store/app.ts`). It holds the CDN choice,
  which is mirrored in local storage, and the Element Plus and Pinia
  features. It is the class `App.AppStore` in `app.dfy`.

Two support modules model the JavaScript built-ins the source relies on:

- `records.dfy`, module `Records`, models a JavaScript object used as a
  dictionary. Its key order is insertion order; assigning to an existing
  key keeps its place, and `delete` drops the key.
- `text.dfy`, module `Text`, models `String.prototype.replace` with a
  string pattern, including the `$$`, `$&`, `` $` `` and `$'` patterns of
  the replacement. It also models `trim` with ECMAScript's white-space set,
  `toLowerCase` for the letters A to Z, `startsWith` and
  `split(sep, 2)[1]`.

Where the code differs from the playground's documented behaviour, the
model follows the code:

- `setActive` on a name with no file throws in the source, because it
  reads `hidden` of `undefined`. The model reports this as
  `ok == false` and changes nothing.
- After the confirmation, `deleteFile` reads the active file's name. When
  there is no active file, this throws and nothing is deleted. That
  happens when a project without `src/App.vue` was loaded and no later
  `setActive` has succeeded. A file that was deleted while active still
  counts: `store.activeFile` keeps that object, so later deletions go
  ahead.
- `deleteFile` on the active file first calls `setActive('src/App.vue')`.
  - If that file is hidden, the active name stays the deleted name.
  - If that file is missing, the call throws and nothing is deleted.
- `renameFile` does not check whether the new name is taken. When it is,
  the rebuilt object has one file fewer, and the file that came later in
  the old order wins (`Store.RenameOntoExisting`).
- The start-up code reads no CDN parameter from the query string. The CDN
  is the persisted setting.
- `userOptions.styleSource` is never set from the query. The glue code
  therefore always links the package's own stylesheet
  (`Store.StartupGlueFiles`).

## Model

| member | source | states |
|---|---|---|
| Records.Set | src/composables/store.ts:267 | Assigning a key maps it to the value. A new key is appended to the key order; an existing key keeps its place. Validity (distinct keys listing exactly the domain) is preserved. |
| Records.Remove | src/composables/store.ts:334 | `delete` removes exactly that key from the entries and from the key order. |
| Records.RemoveValid | src/composables/store.ts:334 | Deleting keeps the object valid, and its listed keys are the old ones minus the deleted key. |
| Records.WithoutAt | src/composables/store.ts:334 | Deleting the key at position `i` of a distinct key list leaves the other keys in their order. |
| Records.PutAllEntries | src/composables/store.ts:219-230 | A loop of assignments leaves the old entries overridden by the pairs' map. |
| Records.PutAll | src/composables/store.ts:219-230 | The loop `for (const [k, v] of ps) obj[k] = v`: each pair assigned with `Records.Set`, in order. Its properties are the `PutAll` lemmas in this table. |
| Records.PutAllValid | src/composables/store.ts:219-230 | A loop of assignments keeps a valid object valid. |
| Records.PairsToMapLast | src/composables/store.ts:219-230 | When several assignments hit one key, the last one wins. |
| Records.PutAllFreshKeys | src/composables/store.ts:296-305 | Assigning new, distinct keys to an object appends them in assignment order. |
| Records.PairsToMapKeys | src/composables/store.ts:219-230 | A key is present after the assignments iff some assignment names it. |
| Text.FindFrom | src/composables/store.ts:159 | The search returns the least index at or after `from` where the pattern occurs, or none if there is none. |
| Text.ReplaceFirstAt | src/composables/store.ts:159 | With its first occurrence at `i` and a replacement without `$`, `replace` substitutes exactly that occurrence. |
| Text.ReplaceFirst | src/composables/store.ts:159 | `replace` with a string pattern: without an occurrence of the pattern it returns the text unchanged. With one, `Text.ReplaceFirstAt` says what it returns. |
| Text.ReplaceFirstAfter | src/composables/store.ts:169-171 | An occurrence preceded by no other occurrence is the one replaced. |
| Text.ExpandLiteral | src/composables/store.ts:169-171 | A replacement string without `$` is inserted verbatim. |
| Text.ReplaceEachTwo | src/composables/store.ts:169-171 | The `replace(...).replace(...)` chain is the second replacement applied to the result of the first. |
| Text.TrimSlice | src/composables/store.ts:241 | `trim` returns a contiguous slice of its input with only white space before and after it. |
| Text.Trim | src/composables/store.ts:241 | The trimmed text is no longer than the input and neither starts nor ends with white space. |
| Text.TrimIdempotent | src/composables/store.ts:136 | Trimming an already trimmed text changes nothing. |
| Text.ToLower | src/composables/store.ts:69 | The lower-cased text has the same length and is lower-cased character by character. |
| Text.ToLowerIsSameIgnoringCase | src/composables/store.ts:69 | Comparing the lower-cased parameter with a lower-case word is a case-insensitive comparison, in both directions. |
| Text.SecondField | src/composables/store.ts:54 | `split('-', 2)[1]` is absent exactly when the text has no `-`. Otherwise it is the text between the first `-` and the next one, or the end, and holds no `-`. |
| Text.FieldAfterUnique | src/composables/store.ts:54 | The first separator and the field after it are determined by the text. |
| Dependency.VersionSuffix | src/utils/dependency.ts:47 | The version part is empty exactly for an absent or empty version, and `@version` otherwise. |
| Dependency.GenCdnLink | src/utils/dependency.ts:42-56 | Each provider's link is that provider's origin followed by the package, the version part and the path. `Dependency.ParseGenCdnLink` is its inverse. |
| Dependency.ParseGenCdnLink | src/utils/dependency.ts:42-56 | Each link starts with its provider's origin and can be parsed back to that provider and to `pkg + version part + path`. |
| Dependency.ParseOrigin | src/utils/dependency.ts:48-55 | The three origins are mutually exclusive prefixes: an origin followed by any text parses to that provider and that text. |
| Dependency.GenCdnLinkInjective | src/utils/dependency.ts:42-56 | Equal links come from the same provider and the same `pkg + version part + path` text. |
| Dependency.GenUnpkgLink | src/utils/dependency.ts:58-65 | The link is the unpkg link whatever the CDN setting. |
| Dependency.GenJsdelivrLink | src/utils/dependency.ts:67-74 | The link is the jsDelivr link whatever the CDN setting. |
| Dependency.GenVueLink | src/utils/dependency.ts:76-91 | Both links are on the current provider and name the compiler-sfc and runtime-dom packages at the given version with their browser builds. |
| Dependency.Deps | src/utils/dependency.ts:97-133 | The dependency table lists exactly the nine specifiers, in source order. |
| Dependency.LinkEntries | src/utils/dependency.ts:137-140 | Mapping the table to links keeps the keys in order. |
| Dependency.SpecifiersDistinct | src/utils/dependency.ts:97-133 | No specifier appears twice in the table. |
| Dependency.GenImportMap | src/utils/dependency.ts:93-143 | The keys of the import map are the nine specifiers in table order, for every provider, version and nightly flag. |
| Dependency.GenImportMapValid | src/utils/dependency.ts:135-142 | The import map is a valid object: each specifier once, and exactly the specifiers as keys. |
| Dependency.GenImportMapAt | src/utils/dependency.ts:135-142 | Each specifier maps to `genCdnLink(dep.pkg ?? key, dep.version, dep.path)` of its table entry. |
| Dependency.ProviderChangesValuesOnly | src/utils/dependency.ts:135-142 | Changing the provider keeps the keys, and in each value only the origin changes. |
| Dependency.NightlyOnlyElementPlus | src/utils/dependency.ts:107-111 | The nightly flag changes no entry other than `element-plus`. |
| Dependency.DepsNightlyAt | src/utils/dependency.ts:107-111 | Only the third table entry depends on the nightly flag. |
| Dependency.ElementPlusEntries | src/utils/dependency.ts:107-116 | `element-plus` points to the nightly or the release package. `element-plus/` points to the root of the release package. |
| Dependency.UnversionedEntries | src/utils/dependency.ts:117-132 | The icon and Pinia-related entries carry no version and use their specifier as the package. |
| Dependency.VersionsReachFourEntries | src/utils/dependency.ts:117-132 | The version selection cannot change the last five entries. |
| Dependency.VueEntries | src/utils/dependency.ts:98-106 | `vue` is the runtime-dom link of `genVueLink` for the same version. `@vue/shared` is that package at that version. |
| Store.QueryOptions | src/composables/store.ts:61-87 | The options are set as follows. `debug` sets `showHidden`. The output panes are off iff their parameter equals `false` ignoring case. The layout is vertical iff `layout` equals `vertical` ignoring case. Every other field is absent. |
| Store.ParamIsIgnoringCase | src/composables/store.ts:69 | `query.get(n)?.toLowerCase() === w` holds iff the parameter is present and equals `w` ignoring case. |
| Store.QueryOptionsExample | src/composables/store.ts:68-87 | `FALSE` and `Vertical` are recognised; `no` leaves the default. |
| Store.Pr | src/composables/store.ts:52-54 | A non-empty `pr` parameter wins. Otherwise the result is the second `-`-separated field of the saved style source, present iff that source has a `-`. |
| Store.PrFromPreviewStyle | src/composables/store.ts:52-54 | A style source `https://preview-<n>-...` yields `pr == n`. |
| Store.SecondFieldAfter | src/composables/store.ts:54 | For `a-x-rest` where neither `a` nor `x` contains `-`, the second field is `x`. |
| Store.InitialVersions | src/composables/store.ts:55-60 | Every version starts at `latest`, except that Element Plus is `preview` iff `pr` is truthy. |
| Store.NormalizePath | src/composables/store.ts:220-228 | The loaded name is under `src/`, or is the import map or `tsconfig.json`, and is never the legacy import-map name. The result is `import-map.json` iff the input is one of the three import-map spellings. Otherwise it is the input, or `src/` followed by the input. Already-normalised names are kept. |
| Store.NormalizePathIdempotent | src/composables/store.ts:220-228 | Normalising twice is normalising once. |
| Store.ElementPlusStyle | src/composables/store.ts:158-164 | Without a style source the style is a link on the current provider to `/dist/index.css` of the release or nightly package at the version. A style source without `#VERSION#` is used as it is. |
| Store.DarkStyle | src/composables/store.ts:165-168 | A style without `/dist/index.css` is its own dark style. `Store.DefaultDarkStyle` covers the default style. |
| Store.GenerateElementPlusCode | src/composables/store.ts:157-172 | A template without placeholders comes back unchanged. `Store.GenerateElementPlusCodeFills` says where the two styles go in a template that has them. |
| Store.FillBothPlaceholders | src/composables/store.ts:169-171 | A template holding `#STYLE#` and then `#DARKSTYLE#` gets the two texts in those places. |
| Store.GenerateElementPlusCodeFills | src/composables/store.ts:157-172 | The glue code is the template with the style in place of `#STYLE#` and the dark style in place of `#DARKSTYLE#`. |
| Store.DefaultDarkStyle | src/composables/store.ts:160-168 | Without a style source, the dark style is the theme's `css-vars.css` of the same package, version and provider. |
| Store.DarkOfDefaultShape | src/composables/store.ts:165-168 | In a style that ends in its only `/dist/index.css`, the dark style swaps that ending. |
| Store.DefaultStyleShape | src/composables/store.ts:160-164 | The default style is the package prefix followed by `/dist/index.css`, and the prefix contains no `/d`. |
| Store.Omit | src/composables/store.ts:219 | `objectOmit(saved, ['_o'])` keeps exactly the pairs not keyed `_o`. Properties without an `_o` key come back unchanged, in their order. |
| Store.OmitConcat | src/composables/store.ts:219 | Omitting distributes over concatenation, so the kept pairs stay in their relative order. |
| Store.AddIfMissing | src/composables/store.ts:234-245 | `if (!files[k]) files[k] = f` adds `k` only when absent. It keeps every existing entry and the key order. |
| Store.InitFiles | src/composables/store.ts:216-247 | The loop loads every saved file under its normalised name, or the welcome file when nothing is saved. It then adds the missing glue files. The result equals `InitialFiles`. |
| Store.InitialFiles | src/composables/store.ts:216-247 | The loaded names are those of the saved project (or the welcome file) plus the two glue files and `tsconfig.json`. |
| Store.InitialFilesWellFormed | src/composables/store.ts:216-247 | The loaded object is valid, every file is stored under its own name, and every name is normalised. |
| Store.InitialFilesGlue | src/composables/store.ts:231-245 | The two glue files and `tsconfig.json` are always present, as is the welcome file when nothing is saved. Each one that was missing gets its default content. |
| Store.FillGlueAdds | src/composables/store.ts:234-245 | Filling the glue adds the three files that were missing, with their default content. |
| Store.InitialFilesKeepStart | src/composables/store.ts:234-245 | Filling in the glue overwrites no loaded file, and the loaded files keep their order at the front. |
| Store.FillGlueKeeps | src/composables/store.ts:234-245 | The glue filler leaves every existing file and the key order in place. |
| Store.InitialFilesLoadSaved | src/composables/store.ts:219-230 | Each saved file is loaded, visible and with its content, unless a later saved file has the same normalised name. |
| Store.LoadedLast | src/composables/store.ts:219-230 | For each normalised name, the last saved file with that name is the one loaded. |
| Store.LegacyImportMapMigrated | src/composables/store.ts:226-228 | A legacy `import_map.json` is loaded as `import-map.json`, and nothing remains under the legacy name. |
| Store.RenameRefusal | src/composables/store.ts:274-292 | The rename goes ahead iff the file exists, the new name is non-empty and different, and the file is neither hidden nor protected. Each refusal carries the source's message, checked in the source's order. |
| Store.RenamePairs | src/composables/store.ts:296-305 | The assignments of the rebuilding loop: every old key in order, with the renamed file in the old name's place. Its properties are the `Rename` lemmas in this table. |
| Store.Renamed | src/composables/store.ts:296-305 | The object the rebuilding loop produces from those assignments. |
| Store.RenamedValid | src/composables/store.ts:294-307 | The rebuilt object is valid, and each file is stored under its own name. |
| Store.RenameFresh | src/composables/store.ts:294-307 | With a fresh new name, the new name takes the old name's index, and the renamed file is the only entry that changes. |
| Store.RenameFreshKeys | src/composables/store.ts:299-305 | The rebuilding loop assigns the old keys with the new name at the old index, all distinct. |
| Store.RenameFreshEntries | src/composables/store.ts:299-305 | With a fresh name, the entries are the old ones minus the old name plus the renamed file. |
| Store.RenameOntoExisting | src/composables/store.ts:294-307 | Renaming onto a taken name loses a key, and the file that came later in the old order is the one kept. |
| Store.RenameOntoExistingKeys | src/composables/store.ts:299-305 | Renaming onto a taken name leaves the old keys minus the old name. |
| Store.SetHidden | src/composables/store.ts:123-125 | On a present file only its hidden flag changes, and the key order stays. On an absent file nothing changes. Validity and keying are kept. |
| Store.SetCode | src/composables/store.ts:133-136 | On a present file only its code changes, and the key order stays. On an absent file nothing changes. Validity and keying are kept. |
| Store.HideFiles | src/composables/store.ts:89 | `hideFile`: neither development nor `showHidden`. |
| Store.HideFilesFromQuery | src/composables/store.ts:89 | The files are hidden iff not in development and the query has no `debug` parameter. |
| Store.HideGlue | src/composables/store.ts:123-125 | The two glue files and the main file get the flag, if present. Every other file, the key order, validity and keying are kept. |
| Store.ReplDefaults | src/composables/store.ts:104-122 | `useReplStore` keeps every file it is given. It adds `src/PlaygroundMain.vue` with the main template and `import-map.json` with the built-in import map when they are missing. |
| Store.StartupFiles | src/composables/store.ts:104-142 | The files after loading, the REPL's defaults, flagging and the two immediate watchers. Its properties are the `Startup` lemmas in this table. |
| Store.StartupFilesWellFormed | src/composables/store.ts:104-142 | The files of a new store are valid and well keyed. |
| Store.StartupGlueFiles | src/composables/store.ts:123-142 | At start-up both glue files hold their trimmed code, and are hidden iff `hideFile`. The style source is absent. |
| Store.StartupMainFile | src/composables/store.ts:104-125 | At start-up `src/PlaygroundMain.vue` is present and hidden iff `hideFile`. Its code is the loaded one, or the main template when the project had none. |
| Store.StartupMainFileGuarded | src/composables/store.ts:125 | So on a new store renaming the main file is refused with `Cannot rename src/PlaygroundMain.vue`, and in development the main file is visible. |
| Store.StartupImportMap | src/composables/store.ts:104-122 | At start-up `import-map.json` is present: the loaded one, or the built-in one when the project had none. |
| Store.ImportMapAfterStartup | src/composables/store.ts:123-142 | Flagging and writing the glue code leave the import map as the REPL's defaults left it. |
| Store.StartupImportMapGuarded | src/composables/store.ts:271-291 | So on a new store renaming the import map is refused with `Cannot rename import-map.json`, as a protected file, not as a missing one. |
| Store.GlueAfterStartup | src/composables/store.ts:123-142 | Hiding the glue files and then writing their code leaves each one with the flag and the new code. |
| Store.LoadStartupFiles | src/composables/store.ts:104-142 | The files of the start-up sequence are `StartupFiles`, valid and well keyed. The sequence is loading, the REPL's defaults, flagging, and the immediate watchers. |
| Store.UseStore | src/composables/store.ts:48-142 | A new store has these values: `pr`, the initial versions, the query options, TypeScript at `latest`, nightly off, `src/App.vue` active, no errors, and the start-up files. There is an active file iff the start-up files hold `src/App.vue`. |
| Store.ProjectStore.constructor | src/composables/store.ts:104-122 | The store holds the given files, versions and options, with the App file active and no errors. There is an active file iff the given files hold `src/App.vue`. |
| Store.ProjectStore.SetActive | src/composables/store.ts:256-260 | A missing file is reported. A hidden file does not become active. Any other file does, and the store then has an active file. |
| Store.ProjectStore.AddFile | src/composables/store.ts:262-269 | The file is stored under its name, in place if the name exists and at the end otherwise. It becomes active unless hidden. |
| Store.ProjectStore.AddNewFile | src/composables/store.ts:262-269 | A new, empty, visible file is stored under the name and becomes active. |
| Store.ProjectStore.RenameFile | src/composables/store.ts:271-309 | A refusal sets exactly one error and changes no file. Otherwise the files are the order-preserving rebuild with the renamed file, and an active renamed file stays active under its new name. |
| Store.ProjectStore.DeleteFile | src/composables/store.ts:311-336 | A file is deleted iff it is unprotected, the user confirms, the store has an active file (which may be a file deleted earlier), and `src/App.vue` exists when the file is active. Whether there is an active file does not change. The active role passes to `src/App.vue` unless that file is hidden. Otherwise nothing changes. |
| Store.ProjectStore.SetVersion | src/composables/store.ts:346-361 | Exactly the named version changes. TypeScript goes to `store.typescriptVersion`. Vue changes only when its compiler has loaded. |
| Store.ProjectStore.ToggleNightly | src/composables/store.ts:91 | The nightly flag flips. |
| App.InitialFeature | src/store/app.ts:21-30 | A feature starts disabled at `latest`. |
| App.StartCdn | src/store/app.ts:15 | The initial CDN is the persisted choice, or `unpkg`. |
| App.Toggled | src/store/app.ts:40-45 | Toggling flips the enabled flag and keeps the name and version. |
| App.WithVersion | src/store/app.ts:46-51 | Setting a version changes only the version. |
| App.ToggledTwice | src/store/app.ts:40-45 | Toggling twice restores the feature. |
| App.WithVersionLast | src/store/app.ts:46-51 | Of two version settings, the later one wins. |
| App.ToggledWithVersionCommute | src/store/app.ts:40-51 | Toggling and setting the version commute. |
| App.AppStore.constructor | src/store/app.ts:15-31 | The store starts with the persisted or default CDN, in sync with local storage, and both features off at `latest`. |
| App.AppStore.IsElementPlusEnabled | src/store/app.ts:34 | The getter reads the Element Plus flag. The action rows state it through this getter. |
| App.AppStore.IsPiniaEnabled | src/store/app.ts:35 | The getter reads the Pinia flag. |
| App.AppStore.ElementPlusVersion | src/store/app.ts:36 | The getter reads the Element Plus version. |
| App.AppStore.PiniaVersion | src/store/app.ts:37 | The getter reads the Pinia version. |
| App.AppStore.ToggleElementPlus | src/store/app.ts:40-42 | The Element Plus flag flips, as its getter shows. Nothing else changes. |
| App.AppStore.TogglePinia | src/store/app.ts:43-45 | The Pinia flag flips, as its getter shows. Nothing else changes. |
| App.AppStore.SetElementPlusVersion | src/store/app.ts:46-48 | The Element Plus version becomes the argument, as its getter shows. Nothing else changes. |
| App.AppStore.SetPiniaVersion | src/store/app.ts:49-51 | The Pinia version becomes the argument, as its getter shows. Nothing else changes. |
| App.AppStore.SetCdn | src/store/app.ts:52-55 | The CDN and the persisted value both become the argument, and the features do not change. |

## Left out

- Reactivity is not modelled: the `watch`/`computed` machinery and the store proxy of `@vue/repl`. The two watchers that run immediately at start-up are applied once, in order, by `Store.UseStore`.
- Store.ProjectStore.SetVersion: does not apply the watchers that a later change of the Element Plus or Pinia version triggers (they regenerate that glue file's code) or that a change of the built-in import map triggers (it rewrites `import-map.json`), because those effects run through the reactive scheduler.
- Store.ProjectStore.ToggleNightly: the import-map rewrite that follows it is likewise not modelled.
- Store.UseStore: the asynchronous `compileFile` results written to `errors`, and the initial `setVueVersion` call, are not modelled, because they complete after `useStore` returns.
- `compileFile`, `init` and `reloadLanguageTools` are left out: they are calls into the compiler and the language tools.
- `setVueVersion`'s dynamic import of the compiler is the boolean `compilerLoaded` of `SetVersion`.
- `serialize` and `deserialize` (base64 and JSON encoding) are left out. A decoded saved project is the value `Saved`: its string properties in order plus the `_o` options.
- `mergeImportMap` is left out, and so are the preview-deployment override of the built-in import map and `getTsConfig`. They are JSON handling and a library function.
- `getVersions`, `getSupportedVueVersions` and `getSupportedEpVersions` are left out: they fetch version lists over the network.
- `ElMessage.warning` is left out, and the `ElMessageBox.confirm` dialog is the boolean `confirmed`.
- `location.search` is the map `Query` of each parameter's first value, and `IS_DEV` is the boolean `isDev`.
- `useLocalStorage` is the field `persistedCdn` and the constructor argument `stored`. Changes made to the storage from another tab are not modelled.
- The template files (`element-plus.js`, `pinia.js`, `tsconfig.json`, `welcome.vue`, `main.vue`) are the parameter `Templates`; `main.vue` is its field `main`. The text the REPL writes for the built-in import map is its field `importMap`.
- Store.ReplDefaults: `useReplStore` is library code that is not part of this model. The model takes from the source what it relies on: the main file exists (`store.ts:125` sets its flag unguarded) and so does the import map (`store.ts:147` reads it unguarded, and `store.ts:313-320` protects it). It does not model the merge of a loaded import map with the built-in one, nor the order in which the two default files are added.
- The CDN setting is the enum `Cdn`. A persisted value outside the three provider names, for which `genCdnLink` returns `undefined`, is not modelled.
- `store.activeFile` is modelled by its file name and the flag `hasActive` (whether it holds a file at all). Aliasing between the active `File` object and the object in `files` is not modelled, beyond the renamed active file keeping its role.
- `Records` does not list integer-like keys first, as JavaScript objects do.
- `Text.ToLower` lower-cases only A to Z. The words the source compares with (`false`, `vertical`) are ASCII.
- Store.GenerateElementPlusCodeFills: stated only for a style without `#` or `$`, and a template whose text before the placeholders has no `#`. The function itself models every input, including the `$` patterns of `replace`.
- Store.DefaultDarkStyle: stated for a version without `/`.
- Store.ProjectStore.SetActive: a missing file throws in the source, while the model returns `ok == false`.
- `src/download/download.ts`, `src/main.ts` and `vite.config.ts` are not part of this model: they are the download feature, the application bootstrap and the build configuration.
