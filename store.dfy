/** The playground's project store (src/composables/store.ts).

    The store keeps the project's files as a JavaScript object from file name
    to file (`Records.Rec`, which keeps the keys' insertion order), the name of
    the active file, the error list shown to the user, the selected versions
    and the options read from the page's query string. The pure parts (query
    options, `pr`, path normalisation, glue-code generation) are functions;
    `initFiles` and the file operations are methods proved against functions
    that state their result. */
module Store {
  import opened Text
  import opened Records
  import opened Dependency

  // ---------------------------------------------------------------------
  // File names the playground depends on

  const MainFile: string := "src/PlaygroundMain.vue"
  const AppFile: string := "src/App.vue"
  const ElementPlusFile: string := "src/element-plus.js"
  const LegacyImportMap: string := "src/import_map.json"
  const ImportMapFile: string := "import-map.json"
  const TsConfig: string := "tsconfig.json"
  const PiniaFile: string := "src/pinia.js"

  /** The key under which a saved project holds its options. */
  const OptionsKey: string := "_o"

  /** The files that can be neither renamed nor deleted. (`renameFile` and
      `deleteFile` list the same five names in different orders.) */
  const Protected: set<string> := {AppFile, MainFile, ElementPlusFile, PiniaFile, ImportMapFile}

  // ---------------------------------------------------------------------
  // Data model

  /** A project file: its name, its text and whether the file list hides it. */
  datatype File = File(filename: string, code: string, hidden: bool)

  datatype Layout = Horizontal | Vertical

  /** Display options; every field may be absent. */
  datatype UserOptions = UserOptions(
    styleSource: Option<string>,
    showHidden: Option<bool>,
    showOutput: Option<bool>,
    showCompileOutput: Option<bool>,
    layout: Option<Layout>)

  /** A decoded saved project: its string-valued properties in order, and the
      options object stored under `_o`, if there is one. */
  datatype Saved = Saved(props: seq<(string, string)>, options: Option<UserOptions>)

  datatype Versions = Versions(vue: string, elementPlus: string, typescript: string, pinia: string)

  datatype VersionKey = Vue | ElementPlus | Typescript | Pinia

  /** The texts of the template files bundled with the playground; `main`
      is the main component handed to the REPL as its welcome component, and
      `importMap` is the text the REPL writes for the built-in import map
      when a project has none. */
  datatype Templates = Templates(elementPlus: string, pinia: string, tsconfig: string, welcome: string, main: string,
                                 importMap: string)

  /** The page's query parameters: each name with its first value. */
  type Query = map<string, string>

  /** A JavaScript string used as a condition: present and not empty. */
  predicate Truthy(s: Option<string>) {
    s.Some? && s.value != []
  }

  /** Every file is stored under its own name. */
  ghost predicate WellKeyed(r: Rec<File>) {
    forall k :: k in r.entries ==> r.entries[k].filename == k
  }

  // ---------------------------------------------------------------------
  // Options from the query string

  /** `query.get(name)?.toLowerCase() === word`. */
  predicate ParamIs(query: Query, name: string, word: string) {
    name in query && ToLower(query[name]) == word
  }

  /** A parameter compared lower-cased with a lower-case word. */
  lemma ParamIsIgnoringCase(query: Query, name: string, word: string)
    requires forall i :: 0 <= i < |word| ==> Lower(word[i]) == word[i]
    ensures ParamIs(query, name, word) <==> name in query && SameIgnoringCase(query[name], word)
  {
    if name in query {
      ToLowerIsSameIgnoringCase(query[name], word);
    }
  }

  /** The options the store derives from the query string: `debug` reveals
      hidden files; the two output panes are shown unless their parameter
      says `false` in any case; the layout is vertical only when asked for
      in any case. The style source is never set from the query. */
  function QueryOptions(query: Query): (o: UserOptions)
    ensures o.styleSource.None?
    ensures o.showHidden == (if "debug" in query then Some(true) else None)
    ensures o.showOutput.Some? && o.showCompileOutput.Some? && o.layout.Some?
    ensures !o.showOutput.value <==> "showOutput" in query && SameIgnoringCase(query["showOutput"], "false")
    ensures !o.showCompileOutput.value
            <==> "showCompileOutput" in query && SameIgnoringCase(query["showCompileOutput"], "false")
    ensures o.layout.value == Vertical <==> "layout" in query && SameIgnoringCase(query["layout"], "vertical")
  {
    ParamIsIgnoringCase(query, "showOutput", "false");
    ParamIsIgnoringCase(query, "showCompileOutput", "false");
    ParamIsIgnoringCase(query, "layout", "vertical");
    UserOptions(
      None,
      if "debug" in query then Some(true) else None,
      Some(!ParamIs(query, "showOutput", "false")),
      Some(!ParamIs(query, "showCompileOutput", "false")),
      Some(if ParamIs(query, "layout", "vertical") then Vertical else Horizontal))
  }

  /** Upper- and mixed-case spellings are recognised; any other value, and
      an absent parameter, leaves the defaults. */
  lemma QueryOptionsExample()
    ensures var o := QueryOptions(map["showOutput" := "FALSE", "layout" := "Vertical", "showCompileOutput" := "no"]);
      && o.showOutput == Some(false) && o.layout == Some(Vertical)
      && o.showCompileOutput == Some(true) && o.showHidden.None?
  {
    var q := map["showOutput" := "FALSE", "layout" := "Vertical", "showCompileOutput" := "no"];
    assert ToLower("FALSE") == "false";
    assert ToLower("Vertical") == "vertical";
    assert ToLower("no") != "false" by { assert |ToLower("no")| == 2; }
  }

  // ---------------------------------------------------------------------
  // The preview deployment and the initial versions

  /** The style source of the saved options, if any. */
  function SavedStyle(saved: Option<Saved>): Option<string> {
    if saved.Some? && saved.value.options.Some? then saved.value.options.value.styleSource else None
  }

  /** `pr`: the `pr` query parameter when it is not empty, and otherwise the
      text between the first and the second `-` of the saved style source. */
  function Pr(query: Query, saved: Option<Saved>): (r: Option<string>)
    ensures "pr" in query && query["pr"] != [] ==> r == Some(query["pr"])
    ensures !("pr" in query && query["pr"] != []) ==>
      (r.Some? <==> SavedStyle(saved).Some? && '-' in SavedStyle(saved).value)
    ensures !("pr" in query && query["pr"] != []) && r.Some? ==>
      '-' !in r.value && exists i :: FieldAfter(SavedStyle(saved).value, '-', i, r.value)
  {
    if "pr" in query && query["pr"] != [] then Some(query["pr"])
    else if SavedStyle(saved).Some? then SecondField(SavedStyle(saved).value, '-')
    else None
  }

  /** A project saved while a preview deployment was in use names that
      deployment in its style source; `pr` recovers the deployment's number. */
  lemma PrFromPreviewStyle(pr: string, rest: string, saved: Saved)
    requires '-' !in pr
    requires saved.options.Some?
    requires saved.options.value.styleSource == Some("https://preview-" + pr + "-" + rest)
    ensures Pr(map[], Some(saved)) == Some(pr)
  {
    var a := "https://preview";
    assert '-' !in a;
    assert "https://preview-" == a + "-";
    SecondFieldAfter(a, pr, rest);
  }

  /** The field after the first separator of `a-x-rest`, when neither `a`
      nor `x` holds one, is `x`. */
  lemma SecondFieldAfter(a: string, x: string, rest: string)
    requires '-' !in a && '-' !in x
    ensures SecondField(a + "-" + x + "-" + rest, '-') == Some(x)
  {
    var s := a + "-" + x + "-" + rest;
    var n := |a|;
    assert s[..n] == a;
    assert s[n + 1..] == x + "-" + rest;
    assert s[n + 1..][..|x|] == x;
    assert s[n + 1 + |x|] == '-';
    assert FieldAfter(s, '-', n, x);
    var i :| FieldAfter(s, '-', i, SecondField(s, '-').value);
    FieldAfterUnique(s, '-', i, SecondField(s, '-').value, n, x);
  }

  /** The versions the store starts with: all `latest`, except that Element
      Plus is `preview` exactly when a preview deployment is named. */
  function InitialVersions(pr: Option<string>): (v: Versions)
    ensures v.vue == "latest" && v.typescript == "latest" && v.pinia == "latest"
    ensures v.elementPlus == "preview" <==> Truthy(pr)
    ensures !Truthy(pr) ==> v.elementPlus == "latest"
  {
    Versions("latest", if Truthy(pr) then "preview" else "latest", "latest", "latest")
  }

  // ---------------------------------------------------------------------
  // Path normalisation of a saved project

  /** Where a loaded file may live: the import map or the TypeScript
      configuration at the top level, everything else under `src/`. */
  predicate IsNormalized(name: string) {
    name == ImportMapFile || name == TsConfig || StartsWith(name, "src/")
  }

  /** The name a saved file is loaded under: prefixed with `src/` unless it
      is a top-level special file or already there, and with the legacy
      import map renamed to the current one. */
  function NormalizePath(filename: string): (r: string)
    ensures IsNormalized(r) && r != LegacyImportMap
    ensures r == ImportMapFile
            <==> filename == ImportMapFile || filename == "import_map.json" || filename == LegacyImportMap
    ensures r != ImportMapFile ==> r == filename || (!StartsWith(filename, "src/") && r == "src/" + filename)
    ensures IsNormalized(filename) && filename != LegacyImportMap ==> r == filename
  {
    var prefixed :=
      if filename != ImportMapFile && filename != TsConfig && !StartsWith(filename, "src/")
      then "src/" + filename else filename;
    assert StartsWith("src/" + filename, "src/") && ("src/" + filename)[4..] == filename;
    assert LegacyImportMap[4..] == "import_map.json" && "src/" + "import_map.json" == LegacyImportMap;
    assert ("src/" + filename)[0] == 's' && ImportMapFile[0] == 'i';
    assert "import_map.json"[0] == 'i';
    if prefixed == LegacyImportMap then ImportMapFile else prefixed
  }

  /** Normalising a normalised name changes nothing. */
  lemma NormalizePathIdempotent(filename: string)
    ensures NormalizePath(NormalizePath(filename)) == NormalizePath(filename)
  {
  }

  // ---------------------------------------------------------------------
  // The Element Plus glue file

  /** The stylesheet path of the Element Plus package and of its dark theme. */
  const IndexCss := "/dist/index.css"
  const DarkCss := "/theme-chalk/dark/css-vars.css"

  /** The stylesheet of Element Plus: the style source with its first
      `#VERSION#` replaced, or, without a style source, the package's
      `/dist/index.css` on the current CDN. */
  function ElementPlusStyle(cdn: Cdn, version: string, styleSource: Option<string>, nightly: bool): (r: string)
    ensures !Truthy(styleSource) ==>
      ParseCdnLink(r) == Some((cdn, (if nightly then "@element-plus/nightly" else "element-plus")
                                    + VersionSuffix(Some(version)) + IndexCss))
    ensures Truthy(styleSource) && (forall j :: !OccursAt(styleSource.value, "#VERSION#", j)) ==> r == styleSource.value
  {
    ParseGenCdnLink(cdn, if nightly then "@element-plus/nightly" else "element-plus", Some(version), IndexCss);
    if Truthy(styleSource) then ReplaceFirst(styleSource.value, "#VERSION#", version)
    else GenCdnLink(cdn, if nightly then "@element-plus/nightly" else "element-plus", Some(version), IndexCss)
  }

  /** The dark-theme stylesheet: the first `/dist/index.css` of the style
      replaced by the theme's CSS variables. */
  function DarkStyle(style: string): (r: string)
    ensures (forall j :: !OccursAt(style, IndexCss, j)) ==> r == style
  {
    ReplaceFirst(style, IndexCss, DarkCss)
  }

  /** `generateElementPlusCode`: the template with its first `#STYLE#` and
      then its first `#DARKSTYLE#` replaced. A template without placeholders
      comes back unchanged. */
  function GenerateElementPlusCode(template: string, cdn: Cdn, version: string,
                                   styleSource: Option<string>, nightly: bool): (r: string)
    ensures '#' !in template ==> r == template
  {
    var style := ElementPlusStyle(cdn, version, styleSource, nightly);
    var r := ReplaceEach(template, [("#STYLE#", style), ("#DARKSTYLE#", DarkStyle(style))]);
    if '#' in template then r
    else
      ReplaceEachTwo(template, "#STYLE#", style, "#DARKSTYLE#", DarkStyle(style));
      NoPlaceholder(template, "#STYLE#");
      NoPlaceholder(template, "#DARKSTYLE#");
      r
  }

  /** A pattern cannot occur in a text that lacks its first character. */
  lemma NoPlaceholder(s: string, pat: string)
    requires pat != [] && pat[0] !in s
    ensures forall j :: !OccursAt(s, pat, j)
  {
    NoOccurrenceBefore(s, pat, []);
    assert s + [] == s;
  }

  /** No occurrence of a pattern can start inside a text that lacks the
      pattern's first character. */
  lemma NoOccurrenceBefore(pre: string, pat: string, rest: string)
    requires pat != [] && pat[0] !in pre
    ensures forall j :: 0 <= j < |pre| ==> !OccursAt(pre + rest, pat, j)
  {
    forall j | 0 <= j < |pre| ensures !OccursAt(pre + rest, pat, j) {
      assert (pre + rest)[j] == pre[j] && pre[j] in pre;
      assert j + |pat| <= |pre + rest| ==> (pre + rest)[j..j + |pat|][0] == (pre + rest)[j];
    }
  }

  /** A text without a dollar sign keeps none after a literal replacement. */
  lemma ReplaceFirstNoDollar(s: string, pat: string, rep: string)
    requires '$' !in s && '$' !in rep
    ensures '$' !in ReplaceFirst(s, pat, rep)
  {
    match IndexOf(s, pat)
    case None =>
    case Some(i) =>
      ExpandLiteral(rep, pat, s[..i], s[i + |pat|..]);
      assert ReplaceFirst(s, pat, rep) == s[..i] + rep + s[i + |pat|..];
      assert forall c :: c in s[..i] || c in s[i + |pat|..] ==> c in s;
  }

  /** A placeholder preceded by text without its first character is the
      first occurrence, and only it is replaced. */
  lemma FillPlaceholder(pre: string, pat: string, post: string, rep: string)
    requires pat != [] && pat[0] !in pre && '$' !in rep
    ensures ReplaceFirst(pre + pat + post, pat, rep) == pre + rep + post
  {
    NoOccurrenceBefore(pre, pat, pat + post);
    assert pre + (pat + post) == pre + pat + post;
    ReplaceFirstAfter(pre, pat, post, rep);
  }

  /** Filling the two placeholders of a template that holds them in order. */
  lemma FillBothPlaceholders(pre: string, mid: string, post: string, style: string, dark: string)
    requires '#' !in pre && '#' !in mid && '#' !in style
    requires '$' !in style && '$' !in dark
    ensures ReplaceEach(pre + "#STYLE#" + mid + "#DARKSTYLE#" + post, [("#STYLE#", style), ("#DARKSTYLE#", dark)])
            == pre + style + mid + dark + post
  {
    var t := pre + "#STYLE#" + mid + "#DARKSTYLE#" + post;
    ReplaceEachTwo(t, "#STYLE#", style, "#DARKSTYLE#", dark);
    FillStyle(pre, mid, post, style);
    var before := pre + style + mid;
    assert '#' !in before;
    FillPlaceholder(before, "#DARKSTYLE#", post, dark);
    assert before + dark + post == pre + style + mid + dark + post;
  }

  /** Filling the first placeholder leaves the second in place. */
  lemma FillStyle(pre: string, mid: string, post: string, style: string)
    requires '#' !in pre && '$' !in style
    ensures ReplaceFirst(pre + "#STYLE#" + mid + "#DARKSTYLE#" + post, "#STYLE#", style)
            == (pre + style + mid) + "#DARKSTYLE#" + post
  {
    var rest := mid + "#DARKSTYLE#" + post;
    assert pre + "#STYLE#" + mid + "#DARKSTYLE#" + post == pre + "#STYLE#" + rest;
    FillPlaceholder(pre, "#STYLE#", rest, style);
    assert pre + style + rest == (pre + style + mid) + "#DARKSTYLE#" + post;
  }

  /** For a template that holds the two placeholders in order, the glue
      code is the template with the style and the dark style in their
      places. */
  lemma GenerateElementPlusCodeFills(pre: string, mid: string, post: string, cdn: Cdn,
                                     version: string, styleSource: Option<string>, nightly: bool)
    requires '#' !in pre && '#' !in mid
    requires var style := ElementPlusStyle(cdn, version, styleSource, nightly);
      '#' !in style && '$' !in style
    ensures var style := ElementPlusStyle(cdn, version, styleSource, nightly);
      GenerateElementPlusCode(pre + "#STYLE#" + mid + "#DARKSTYLE#" + post, cdn, version, styleSource, nightly)
      == pre + style + mid + DarkStyle(style) + post
  {
    var style := ElementPlusStyle(cdn, version, styleSource, nightly);
    ReplaceFirstNoDollar(style, IndexCss, DarkCss);
    FillBothPlaceholders(pre, mid, post, style, DarkStyle(style));
  }

  /** No `/` of `s` is followed by a `d`. */
  predicate NoSlashD(s: string) {
    forall j :: 0 <= j < |s| - 1 ==> !(s[j] == '/' && s[j + 1] == 'd')
  }

  lemma NoSlashDConcat(a: string, b: string)
    requires NoSlashD(a) && NoSlashD(b)
    requires a != [] && b != [] ==> !(a[|a| - 1] == '/' && b[0] == 'd')
    ensures NoSlashD(a + b)
  {
    forall j | 0 <= j < |a + b| - 1 ensures !((a + b)[j] == '/' && (a + b)[j + 1] == 'd') {
      if j + 1 < |a| {
        assert (a + b)[j] == a[j] && (a + b)[j + 1] == a[j + 1];
      } else if j >= |a| {
        assert (a + b)[j] == b[j - |a|] && (a + b)[j + 1] == b[j + 1 - |a|];
      }
    }
  }

  /** `/dist/index.css` cannot start inside a text where no `/` is followed
      by `d`. */
  lemma DistNotBefore(p: string, post: string)
    requires NoSlashD(p)
    ensures forall j :: 0 <= j < |p| ==> !OccursAt(p + IndexCss + post, IndexCss, j)
  {
    var s := p + IndexCss + post;
    forall j | 0 <= j < |p| ensures !OccursAt(s, IndexCss, j) {
      assert j + 1 < |p| ==> p[j] == s[j] && p[j + 1] == s[j + 1];
      assert j + 1 == |p| ==> s[j + 1] == '/';
      assert !(s[j] == '/' && s[j + 1] == 'd');
      assert s[j..j + 15][0] == s[j] && s[j..j + 15][1] == s[j + 1];
    }
  }

  lemma OriginNoSlashD(cdn: Cdn)
    ensures NoSlashD(Origin(cdn))
  {
    match cdn
    case Jsdelivr => JsdelivrNoSlashD();
    case JsdelivrFastly => FastlyNoSlashD();
    case Unpkg => UnpkgNoSlashD();
  }

  lemma JsdelivrNoSlashD()
    ensures NoSlashD(JsdelivrOrigin)
  {
  }

  lemma FastlyNoSlashD()
    ensures NoSlashD(FastlyOrigin)
  {
  }

  lemma UnpkgNoSlashD()
    ensures NoSlashD(UnpkgOrigin)
  {
  }

  lemma PackageNoSlashD(nightly: bool)
    ensures NoSlashD(if nightly then "@element-plus/nightly" else "element-plus")
  {
  }

  lemma VersionNoSlashD(version: string)
    requires '/' !in version
    ensures NoSlashD(VersionSuffix(Some(version)))
  {
    var v := VersionSuffix(Some(version));
    assert v == [] || v == "@" + version;
    forall j | 0 <= j < |v| - 1 ensures v[j] != '/' {
      assert j > 0 ==> v[j] == version[j - 1] && version[j - 1] in version;
    }
  }

  /** The default style is its prefix followed by `/dist/index.css`, and the
      prefix has no `/d`. */
  lemma DefaultStyleShape(cdn: Cdn, version: string, nightly: bool)
    requires '/' !in version
    ensures var pkg := if nightly then "@element-plus/nightly" else "element-plus";
      var p := Origin(cdn) + pkg + VersionSuffix(Some(version));
      && NoSlashD(p)
      && ElementPlusStyle(cdn, version, None, nightly) == p + IndexCss + ""
      && GenCdnLink(cdn, pkg, Some(version), DarkCss) == p + DarkCss
  {
    var pkg := if nightly then "@element-plus/nightly" else "element-plus";
    OriginNoSlashD(cdn);
    PackageNoSlashD(nightly);
    VersionNoSlashD(version);
    NoSlashDConcat(Origin(cdn), pkg);
    NoSlashDConcat(Origin(cdn) + pkg, VersionSuffix(Some(version)));
  }

  /** Without a style source, and for a version without `/`, the dark style
      is the theme's CSS variables of the same package and version on the
      same CDN. */
  lemma DefaultDarkStyle(cdn: Cdn, version: string, nightly: bool)
    requires '/' !in version
    ensures var pkg := if nightly then "@element-plus/nightly" else "element-plus";
      DarkStyle(ElementPlusStyle(cdn, version, None, nightly)) == GenCdnLink(cdn, pkg, Some(version), DarkCss)
  {
    var pkg := if nightly then "@element-plus/nightly" else "element-plus";
    DefaultStyleShape(cdn, version, nightly);
    DarkOfDefaultShape(Origin(cdn) + pkg + VersionSuffix(Some(version)));
  }

  /** The dark style of a style that ends in the only `/dist/index.css`
      swaps that ending for the theme's CSS variables. */
  lemma DarkOfDefaultShape(p: string)
    requires NoSlashD(p)
    ensures DarkStyle(p + IndexCss + "") == p + DarkCss
  {
    DistNotBefore(p, "");
    ReplaceFirstAfter(p, IndexCss, "", DarkCss);
    assert p + DarkCss + "" == p + DarkCss;
  }

  // ---------------------------------------------------------------------
  // Loading the project (initFiles)

  /** `objectOmit(saved, ['_o'])`: the saved properties other than the
      options, in order. */
  function Omit(props: seq<(string, string)>): (r: seq<(string, string)>)
    ensures forall p :: p in r <==> p in props && p.0 != OptionsKey
    ensures |r| <= |props|
    ensures (forall i :: 0 <= i < |props| ==> props[i].0 != OptionsKey) ==> r == props
  {
    if props == [] then []
    else if props[0].0 == OptionsKey then Omit(props[1..])
    else
      assert forall i :: 0 <= i < |props[1..]| ==> props[1..][i] == props[i + 1];
      assert props == [props[0]] + props[1..];
      [props[0]] + Omit(props[1..])
  }

  /** Omitting works piecewise: the kept properties of a concatenation are
      those of each part, in order. */
  lemma {:induction false} OmitConcat(a: seq<(string, string)>, b: seq<(string, string)>)
    ensures Omit(a + b) == Omit(a) + Omit(b)
    decreases |a|
  {
    if a == [] {
      assert a + b == b;
    } else {
      assert (a + b)[0] == a[0];
      assert (a + b)[1..] == a[1..] + b;
      OmitConcat(a[1..], b);
    }
  }

  /** The file each saved property becomes, under its normalised name. */
  function LoadPairs(props: seq<(string, string)>): seq<(string, File)> {
    seq(|props|, i requires 0 <= i < |props| =>
      (NormalizePath(props[i].0), File(NormalizePath(props[i].0), props[i].1, false)))
  }

  /** The files before the glue files are filled in: the saved files, or
      the welcome component when nothing was saved. */
  function StartFiles(saved: Option<Saved>, t: Templates): Rec<File> {
    if saved.Some? then PutAll(Empty(), LoadPairs(Omit(saved.value.props)))
    else Set(Empty(), AppFile, File(AppFile, t.welcome, false))
  }

  /** `if (!files[k]) files[k] = f`: adds `f` under `k` only when there is
      no file there, keeping every existing entry and the order. */
  function AddIfMissing(r: Rec<File>, k: string, f: File): (r': Rec<File>)
    ensures r.Valid() ==> r'.Valid()
    ensures WellKeyed(r) && f.filename == k ==> WellKeyed(r')
    ensures r'.entries.Keys == r.entries.Keys + {k}
    ensures forall x :: x in r.entries ==> r'.entries[x] == r.entries[x]
    ensures k !in r.entries ==> r'.entries[k] == f
    ensures |r.keys| <= |r'.keys| && r'.keys[..|r.keys|] == r.keys
  {
    if k in r.entries then r else Set(r, k, f)
  }

  /** Adds each glue file that is missing. */
  function FillGlue(r: Rec<File>, epCode: string, t: Templates, hideFile: bool): Rec<File> {
    var r1 := AddIfMissing(r, ElementPlusFile, File(ElementPlusFile, epCode, false));
    var r2 := AddIfMissing(r1, PiniaFile, File(PiniaFile, Trim(t.pinia), hideFile));
    AddIfMissing(r2, TsConfig, File(TsConfig, t.tsconfig, false))
  }

  /** The files `initFiles` returns; `epCode` is the generated Element Plus
      glue code it uses when the saved project has none. */
  function InitialFiles(saved: Option<Saved>, epCode: string, t: Templates, hideFile: bool): (r: Rec<File>)
    ensures r.entries.Keys == StartFiles(saved, t).entries.Keys + {ElementPlusFile, PiniaFile, TsConfig}
  {
    FillGlue(StartFiles(saved, t), epCode, t, hideFile)
  }

  /** `initFiles`: loads the saved files under their normalised names, or
      the welcome component, then adds the missing glue files. */
  method InitFiles(saved: Option<Saved>, epCode: string, t: Templates, hideFile: bool)
    returns (files: Rec<File>)
    ensures files == InitialFiles(saved, epCode, t, hideFile)
  {
    files := Empty();
    if saved.Some? {
      var props := Omit(saved.value.props);
      var i := 0;
      while i < |props|
        invariant 0 <= i <= |props|
        invariant files == PutAll(Empty(), LoadPairs(props[..i]))
      {
        var filename := NormalizePath(props[i].0);
        files := Set(files, filename, File(filename, props[i].1, false));
        assert LoadPairs(props[..i + 1])[..i] == LoadPairs(props[..i]);
        i := i + 1;
      }
      assert props[..i] == props;
    } else {
      files := Set(files, AppFile, File(AppFile, t.welcome, false));
    }
    assert files == StartFiles(saved, t);
    ghost var start := files;
    if ElementPlusFile !in files.entries {
      files := Set(files, ElementPlusFile, File(ElementPlusFile, epCode, false));
    }
    assert files == AddIfMissing(start, ElementPlusFile, File(ElementPlusFile, epCode, false));
    ghost var withElementPlus := files;
    if PiniaFile !in files.entries {
      files := Set(files, PiniaFile, File(PiniaFile, Trim(t.pinia), hideFile));
    }
    assert files == AddIfMissing(withElementPlus, PiniaFile, File(PiniaFile, Trim(t.pinia), hideFile));
    if TsConfig !in files.entries {
      files := Set(files, TsConfig, File(TsConfig, t.tsconfig, false));
    }
  }

  lemma {:induction false} PutAllWellKeyed(r: Rec<File>, ps: seq<(string, File)>)
    requires WellKeyed(r)
    requires forall i :: 0 <= i < |ps| ==> ps[i].1.filename == ps[i].0
    ensures WellKeyed(PutAll(r, ps))
    decreases |ps|
  {
    if ps != [] {
      PutAllWellKeyed(r, ps[..|ps| - 1]);
    }
  }

  /** Loading yields a valid object whose files sit under their own names,
      all of them normalised: the legacy import-map name never survives. */
  lemma InitialFilesWellFormed(saved: Option<Saved>, epCode: string, t: Templates, hideFile: bool)
    ensures var r := InitialFiles(saved, epCode, t, hideFile);
      r.Valid() && WellKeyed(r) && AllNormalized(r)
  {
    StartFilesWellFormed(saved, t);
    var start := StartFiles(saved, t);
    var r1 := AddIfMissing(start, ElementPlusFile, File(ElementPlusFile, epCode, false));
    var r2 := AddIfMissing(r1, PiniaFile, File(PiniaFile, Trim(t.pinia), hideFile));
    GlueNamesNormalized();
    AddIfMissingNormalized(start, ElementPlusFile, File(ElementPlusFile, epCode, false));
    AddIfMissingNormalized(r1, PiniaFile, File(PiniaFile, Trim(t.pinia), hideFile));
    AddIfMissingNormalized(r2, TsConfig, File(TsConfig, t.tsconfig, false));
  }

  /** Every file sits where a loaded file may, and none under the legacy
      import-map name. */
  ghost predicate AllNormalized(r: Rec<File>) {
    forall k :: k in r.entries ==> IsNormalized(k) && k != LegacyImportMap
  }

  lemma GlueNamesNormalized()
    ensures IsNormalized(ElementPlusFile) && ElementPlusFile != LegacyImportMap
    ensures IsNormalized(PiniaFile) && PiniaFile != LegacyImportMap
    ensures IsNormalized(TsConfig) && TsConfig != LegacyImportMap
  {
    assert ElementPlusFile[..4] == "src/" && PiniaFile[..4] == "src/";
    assert ElementPlusFile[4] != LegacyImportMap[4] && PiniaFile[4] != LegacyImportMap[4];
  }

  lemma AddIfMissingNormalized(r: Rec<File>, k: string, f: File)
    requires r.Valid() && WellKeyed(r) && AllNormalized(r) && f.filename == k
    requires IsNormalized(k) && k != LegacyImportMap
    ensures var r' := AddIfMissing(r, k, f); r'.Valid() && WellKeyed(r') && AllNormalized(r')
  {
  }

  lemma StartFilesWellFormed(saved: Option<Saved>, t: Templates)
    ensures var r := StartFiles(saved, t);
      r.Valid() && WellKeyed(r) && AllNormalized(r)
  {
    if saved.Some? {
      var ps := LoadPairs(Omit(saved.value.props));
      PutAllValid(Empty(), ps);
      PutAllWellKeyed(Empty(), ps);
      PutAllDomain(Empty(), ps);
      forall k | k in StartFiles(saved, t).entries ensures IsNormalized(k) && k != LegacyImportMap {
        var i :| 0 <= i < |ps| && KeysOf(ps)[i] == k;
      }
    } else {
      assert AppFile[..4] == "src/" && AppFile[4] != LegacyImportMap[4];
    }
  }

  /** The glue files and the TypeScript configuration are always there;
      without a saved project so is the welcome component. Each missing
      one is added with its default content. */
  lemma InitialFilesGlue(saved: Option<Saved>, epCode: string, t: Templates, hideFile: bool)
    ensures var r := InitialFiles(saved, epCode, t, hideFile);
      var start := StartFiles(saved, t);
      && ElementPlusFile in r.entries && PiniaFile in r.entries && TsConfig in r.entries
      && (saved.None? ==> AppFile in r.entries && r.entries[AppFile] == File(AppFile, t.welcome, false))
      && (ElementPlusFile !in start.entries ==> r.entries[ElementPlusFile] == File(ElementPlusFile, epCode, false))
      && (PiniaFile !in start.entries ==> r.entries[PiniaFile] == File(PiniaFile, Trim(t.pinia), hideFile))
      && (TsConfig !in start.entries ==> r.entries[TsConfig] == File(TsConfig, t.tsconfig, false))
  {
    var start := StartFiles(saved, t);
    FillGlueAdds(start, epCode, t, hideFile);
    FillGlueKeeps(start, epCode, t, hideFile);
    if saved.None? {
      assert start.entries[AppFile] == File(AppFile, t.welcome, false);
    }
  }

  lemma FillGlueAdds(r: Rec<File>, epCode: string, t: Templates, hideFile: bool)
    ensures var r' := FillGlue(r, epCode, t, hideFile);
      && ElementPlusFile in r'.entries && PiniaFile in r'.entries && TsConfig in r'.entries
      && (ElementPlusFile !in r.entries ==> r'.entries[ElementPlusFile] == File(ElementPlusFile, epCode, false))
      && (PiniaFile !in r.entries ==> r'.entries[PiniaFile] == File(PiniaFile, Trim(t.pinia), hideFile))
      && (TsConfig !in r.entries ==> r'.entries[TsConfig] == File(TsConfig, t.tsconfig, false))
  {
    var r1 := AddIfMissing(r, ElementPlusFile, File(ElementPlusFile, epCode, false));
    var r2 := AddIfMissing(r1, PiniaFile, File(PiniaFile, Trim(t.pinia), hideFile));
    assert ElementPlusFile != PiniaFile && ElementPlusFile != TsConfig && PiniaFile != TsConfig;
  }

  /** Filling in the glue files overwrites no loaded file and keeps the
      loaded files' order in front. */
  lemma InitialFilesKeepStart(saved: Option<Saved>, epCode: string, t: Templates, hideFile: bool)
    ensures var r := InitialFiles(saved, epCode, t, hideFile);
      var start := StartFiles(saved, t);
      && (forall k :: k in start.entries ==> k in r.entries && r.entries[k] == start.entries[k])
      && |start.keys| <= |r.keys| && r.keys[..|start.keys|] == start.keys
  {
    FillGlueKeeps(StartFiles(saved, t), epCode, t, hideFile);
  }

  lemma FillGlueKeeps(r: Rec<File>, epCode: string, t: Templates, hideFile: bool)
    ensures var r' := FillGlue(r, epCode, t, hideFile);
      && (forall k :: k in r.entries ==> k in r'.entries && r'.entries[k] == r.entries[k])
      && |r.keys| <= |r'.keys| && r'.keys[..|r.keys|] == r.keys
  {
    var r1 := AddIfMissing(r, ElementPlusFile, File(ElementPlusFile, epCode, false));
    var r2 := AddIfMissing(r1, PiniaFile, File(PiniaFile, Trim(t.pinia), hideFile));
    var r3 := AddIfMissing(r2, TsConfig, File(TsConfig, t.tsconfig, false));
    PrefixOfPrefix(r.keys, r1.keys, r2.keys);
    PrefixOfPrefix(r.keys, r2.keys, r3.keys);
  }

  lemma PrefixOfPrefix(a: seq<string>, b: seq<string>, c: seq<string>)
    requires |a| <= |b| && b[..|a|] == a
    requires |b| <= |c| && c[..|b|] == b
    ensures c[..|a|] == a
  {
    assert c[..|a|] == c[..|b|][..|a|];
  }

  /** A saved file is loaded, with its content and not hidden, under its
      normalised name, unless a later saved file has the same normalised
      name (the later one wins). */
  lemma InitialFilesLoadSaved(saved: Saved, epCode: string, t: Templates, hideFile: bool, i: nat)
    requires var props := Omit(saved.props);
      i < |props| &&
      forall j :: i < j < |props| ==> NormalizePath(props[j].0) != NormalizePath(props[i].0)
    ensures var props := Omit(saved.props);
      var name := NormalizePath(props[i].0);
      var r := InitialFiles(Some(saved), epCode, t, hideFile);
      name in r.entries && r.entries[name] == File(name, props[i].1, false)
  {
    LoadedLast(Omit(saved.props), i);
    InitialFilesKeepStart(Some(saved), epCode, t, hideFile);
  }

  /** Loading properties puts the last one of each normalised name in place. */
  lemma LoadedLast(props: seq<(string, string)>, i: nat)
    requires i < |props|
    requires forall j :: i < j < |props| ==> NormalizePath(props[j].0) != NormalizePath(props[i].0)
    ensures var name := NormalizePath(props[i].0);
      var r := PutAll(Empty(), LoadPairs(props));
      name in r.entries && r.entries[name] == File(name, props[i].1, false)
  {
    var ps := LoadPairs(props);
    PutAllEmptyEntries(ps);
    PairsToMapLast(ps, i);
  }

  /** A project saved with the legacy import map, as `src/import_map.json`
      or as `import_map.json`, loads it as `import-map.json`, and no entry
      remains under the legacy name. */
  lemma LegacyImportMapMigrated(saved: Saved, epCode: string, t: Templates, hideFile: bool, i: nat)
    requires var props := Omit(saved.props);
      && i < |props| && (props[i].0 == LegacyImportMap || props[i].0 == "import_map.json")
      && forall j :: i < j < |props| ==> NormalizePath(props[j].0) != ImportMapFile
    ensures var props := Omit(saved.props);
      var r := InitialFiles(Some(saved), epCode, t, hideFile);
      && ImportMapFile in r.entries && r.entries[ImportMapFile].code == props[i].1
      && LegacyImportMap !in r.entries
  {
    InitialFilesLoadSaved(saved, epCode, t, hideFile, i);
    InitialFilesWellFormed(Some(saved), epCode, t, hideFile);
  }

  // ---------------------------------------------------------------------
  // Renaming

  /** The error message `renameFile` reports, or `None` when the rename
      goes ahead. The checks come in the source's order: a missing file,
      then an empty or unchanged name, then a hidden or protected file. */
  function RenameRefusal(r: Rec<File>, oldName: string, newName: string): (e: Option<string>)
    ensures e.None? <==> && oldName in r.entries && newName != [] && newName != oldName
                         && !r.entries[oldName].hidden && oldName !in Protected
    ensures oldName !in r.entries ==> e == Some("Could not rename \"" + oldName + "\", file not found")
    ensures oldName in r.entries && (newName == [] || newName == oldName)
            ==> e == Some("Cannot rename \"" + oldName + "\" to \"" + newName + "\"")
    ensures oldName in r.entries && newName != [] && newName != oldName
            && (r.entries[oldName].hidden || oldName in Protected)
            ==> e == Some("Cannot rename " + oldName)
  {
    if oldName !in r.entries then Some("Could not rename \"" + oldName + "\", file not found")
    else if newName == [] || oldName == newName then Some("Cannot rename \"" + oldName + "\" to \"" + newName + "\"")
    else if r.entries[oldName].hidden || oldName in Protected then Some("Cannot rename " + oldName)
    else None
  }

  /** The assignments of the rename loop: every key in order, with the
      renamed file in the old name's place. */
  function RenamePairs(r: Rec<File>, oldName: string, newName: string): seq<(string, File)>
    requires forall k :: k in r.keys ==> k in r.entries
    requires oldName in r.entries
  {
    seq(|r.keys|, i requires 0 <= i < |r.keys| =>
      if r.keys[i] == oldName then (newName, r.entries[oldName].(filename := newName))
      else (r.keys[i], r.entries[r.keys[i]]))
  }

  /** The object the rename loop builds. */
  function Renamed(r: Rec<File>, oldName: string, newName: string): Rec<File>
    requires forall k :: k in r.keys ==> k in r.entries
    requires oldName in r.entries
  {
    PutAll(Empty(), RenamePairs(r, oldName, newName))
  }

  lemma RenamedValid(r: Rec<File>, oldName: string, newName: string)
    requires r.Valid() && WellKeyed(r) && oldName in r.entries
    ensures Renamed(r, oldName, newName).Valid() && WellKeyed(Renamed(r, oldName, newName))
  {
    PutAllValid(Empty(), RenamePairs(r, oldName, newName));
    PutAllWellKeyed(Empty(), RenamePairs(r, oldName, newName));
  }

  /** Renaming to a fresh name puts the new name at the old name's index,
      moves the file there under its new name, and leaves every other
      entry as it was. */
  lemma RenameFresh(r: Rec<File>, oldName: string, newName: string)
    requires r.Valid() && oldName in r.entries && newName !in r.entries
    ensures var r' := Renamed(r, oldName, newName);
      && (forall i :: 0 <= i < |r.keys| && r.keys[i] == oldName ==> r'.keys == r.keys[i := newName])
      && r'.entries == (r.entries - {oldName})[newName := r.entries[oldName].(filename := newName)]
  {
    var i :| 0 <= i < |r.keys| && r.keys[i] == oldName;
    var ps := RenamePairs(r, oldName, newName);
    RenameFreshKeys(r, oldName, newName, i);
    PutAllFreshKeys(Empty(), ps);
    RenameFreshEntries(r, oldName, newName, i);
    forall j | 0 <= j < |r.keys| && r.keys[j] == oldName ensures j == i {
      assert r.keys[j] == r.keys[i];
    }
  }

  /** The keys the rename loop assigns, for a fresh new name: the old keys
      with the new name at the old name's index, all distinct. */
  lemma RenameFreshKeys(r: Rec<File>, oldName: string, newName: string, i: nat)
    requires r.Valid() && i < |r.keys| && r.keys[i] == oldName && newName !in r.entries
    ensures KeysOf(RenamePairs(r, oldName, newName)) == r.keys[i := newName]
    ensures Distinct(r.keys[i := newName])
  {
    var ks := r.keys[i := newName];
    forall a, b | 0 <= a < b < |ks| ensures ks[a] != ks[b] {
      assert r.keys[a] != r.keys[b];
      assert r.keys[a] in r.entries && r.keys[b] in r.entries;
    }
  }

  /** The entries after renaming to a fresh name. */
  lemma RenameFreshEntries(r: Rec<File>, oldName: string, newName: string, i: nat)
    requires r.Valid() && i < |r.keys| && r.keys[i] == oldName && newName !in r.entries
    ensures Renamed(r, oldName, newName).entries
            == (r.entries - {oldName})[newName := r.entries[oldName].(filename := newName)]
  {
    var ps := RenamePairs(r, oldName, newName);
    var want := (r.entries - {oldName})[newName := r.entries[oldName].(filename := newName)];
    var m := PairsToMap(ps);
    PutAllEmptyEntries(ps);
    RenameFreshValues(r, oldName, newName, i);
    RenameFreshDomain(r, oldName, newName, i);
    assert forall k :: k in m <==> k in want;
    assert m == want;
  }

  lemma RenameFreshValues(r: Rec<File>, oldName: string, newName: string, i: nat)
    requires r.Valid() && i < |r.keys| && r.keys[i] == oldName && newName !in r.entries
    ensures var ps := RenamePairs(r, oldName, newName);
      var want := (r.entries - {oldName})[newName := r.entries[oldName].(filename := newName)];
      forall k | k in want :: k in PairsToMap(ps) && PairsToMap(ps)[k] == want[k]
  {
    var ps := RenamePairs(r, oldName, newName);
    var ks := r.keys[i := newName];
    var want := (r.entries - {oldName})[newName := r.entries[oldName].(filename := newName)];
    RenameFreshKeys(r, oldName, newName, i);
    forall k | k in want ensures k in PairsToMap(ps) && PairsToMap(ps)[k] == want[k] {
      var j := if k == newName then i else RenameIndexOf(r, k);
      assert ks[j] == k;
      PairsToMapDistinct(ps, j);
    }
  }

  lemma RenameFreshDomain(r: Rec<File>, oldName: string, newName: string, i: nat)
    requires r.Valid() && i < |r.keys| && r.keys[i] == oldName && newName !in r.entries
    ensures forall k | k in PairsToMap(RenamePairs(r, oldName, newName)) ::
              k == newName || (k in r.entries && k != oldName)
  {
    var ps := RenamePairs(r, oldName, newName);
    var ks := r.keys[i := newName];
    RenameFreshKeys(r, oldName, newName, i);
    PairsToMapDomain(ps);
    forall k | k in PairsToMap(ps) ensures k == newName || (k in r.entries && k != oldName) {
      var j :| 0 <= j < |ks| && ks[j] == k;
      assert j != i ==> r.keys[j] in r.entries && r.keys[j] != oldName;
    }
  }

  /** The index of a listed key. */
  ghost function RenameIndexOf(r: Rec<File>, k: string): (j: nat)
    requires r.Valid() && k in r.entries
    ensures j < |r.keys| && r.keys[j] == k
  {
    var j :| 0 <= j < |r.keys| && r.keys[j] == k; j
  }

  /** Renaming onto an existing name loses a file: the object ends up with
      one key fewer, and whichever of the two files comes later in the old
      order is the one kept under the new name. */
  lemma RenameOntoExisting(r: Rec<File>, oldName: string, newName: string, io: nat, iN: nat)
    requires r.Valid() && oldName != newName
    requires io < |r.keys| && r.keys[io] == oldName
    requires iN < |r.keys| && r.keys[iN] == newName
    ensures var r' := Renamed(r, oldName, newName);
      && r'.entries.Keys == r.entries.Keys - {oldName}
      && r'.entries[newName] == if io > iN then r.entries[oldName].(filename := newName) else r.entries[newName]
  {
    var ps := RenamePairs(r, oldName, newName);
    PutAllEmptyEntries(ps);
    RenameOntoExistingKeys(r, oldName, newName);
    var last := if io > iN then io else iN;
    forall j | last < j < |ps| ensures ps[j].0 != ps[last].0 {
      assert r.keys[j] != r.keys[io] && r.keys[j] != r.keys[iN];
    }
    PairsToMapLast(ps, last);
  }

  /** The keys left after renaming onto an existing name. */
  lemma RenameOntoExistingKeys(r: Rec<File>, oldName: string, newName: string)
    requires r.Valid() && oldName in r.entries && newName in r.entries && oldName != newName
    ensures PairsToMap(RenamePairs(r, oldName, newName)).Keys == r.entries.Keys - {oldName}
  {
    var ps := RenamePairs(r, oldName, newName);
    PairsToMapDomain(ps);
    forall k ensures k in KeysOf(ps) <==> k in r.entries && k != oldName {
      if k in r.entries && k != oldName {
        var j :| 0 <= j < |r.keys| && r.keys[j] == k;
        assert KeysOf(ps)[j] == k;
      }
      if k in KeysOf(ps) {
        var j :| 0 <= j < |ps| && KeysOf(ps)[j] == k;
        assert r.keys[j] in r.keys;
      }
    }
  }

  // ---------------------------------------------------------------------
  // The store

  /** `hideFile`: the glue files are hidden unless in development or in
      debug mode. */
  predicate HideFiles(isDev: bool, o: UserOptions) {
    !isDev && o.showHidden != Some(true)
  }

  /** Sets the hidden flag of file `k`, if there is one: only that flag
      changes, and the key order stays. */
  function SetHidden(r: Rec<File>, k: string, h: bool): (r': Rec<File>)
    ensures r.Valid() ==> r'.Valid()
    ensures WellKeyed(r) ==> WellKeyed(r')
    ensures r'.entries.Keys == r.entries.Keys
    ensures k in r.entries ==> r'.keys == r.keys && r'.entries == r.entries[k := r.entries[k].(hidden := h)]
    ensures k !in r.entries ==> r' == r
  {
    if k in r.entries then
      var r' := Set(r, k, r.entries[k].(hidden := h));
      assert r'.keys == r'.keys[..|r.keys|];
      r'
    else r
  }

  /** Replaces the code of file `k`, if there is one: only that code
      changes, and the key order stays. */
  function SetCode(r: Rec<File>, k: string, code: string): (r': Rec<File>)
    ensures r.Valid() ==> r'.Valid()
    ensures WellKeyed(r) ==> WellKeyed(r')
    ensures r'.entries.Keys == r.entries.Keys
    ensures k in r.entries ==> r'.keys == r.keys && r'.entries == r.entries[k := r.entries[k].(code := code)]
    ensures k !in r.entries ==> r' == r
  {
    if k in r.entries then
      var r' := Set(r, k, r.entries[k].(code := code));
      assert r'.keys == r'.keys[..|r.keys|];
      r'
    else r
  }

  /** The files whose flag the store sets after loading. */
  const FlaggedFiles: set<string> := {ElementPlusFile, PiniaFile, MainFile}

  /** The flags the store sets once the files are loaded: each of the
      flagged files that is there gets the flag, and nothing else changes. */
  function HideGlue(r: Rec<File>, h: bool): (r': Rec<File>)
    ensures r.Valid() ==> r'.Valid()
    ensures WellKeyed(r) ==> WellKeyed(r')
    ensures r'.keys == r.keys && r'.entries.Keys == r.entries.Keys
    ensures forall k :: k in r.entries ==>
      r'.entries[k] == if k in FlaggedFiles then r.entries[k].(hidden := h) else r.entries[k]
  {
    assert ElementPlusFile != PiniaFile && ElementPlusFile != MainFile && PiniaFile != MainFile;
    SetHiddenThree(r, ElementPlusFile, PiniaFile, MainFile, h);
    SetHidden(SetHidden(SetHidden(r, ElementPlusFile, h), PiniaFile, h), MainFile, h)
  }

  /** Flagging three different files changes those three flags and nothing
      else. */
  lemma SetHiddenThree(r: Rec<File>, a: string, b: string, c: string, h: bool)
    requires a != b && a != c && b != c
    ensures var r' := SetHidden(SetHidden(SetHidden(r, a, h), b, h), c, h);
      forall k :: k in r.entries ==>
        r'.entries[k] == if k == a || k == b || k == c then r.entries[k].(hidden := h) else r.entries[k]
  {
    var r1 := SetHidden(r, a, h);
    var r2 := SetHidden(r1, b, h);
    forall k | k in r.entries
      ensures SetHidden(r2, c, h).entries[k]
              == if k == a || k == b || k == c then r.entries[k].(hidden := h) else r.entries[k]
    {
      SetHiddenEntry(r, a, h, k);
      SetHiddenEntry(r1, b, h, k);
      SetHiddenEntry(r2, c, h, k);
    }
  }

  /** Flagging one file leaves every other entry as it was. */
  lemma SetHiddenEntry(r: Rec<File>, k: string, h: bool, x: string)
    requires x in r.entries
    ensures x in SetHidden(r, k, h).entries
    ensures SetHidden(r, k, h).entries[x] == if x == k then r.entries[x].(hidden := h) else r.entries[x]
  {
  }

  /** `hideFile` in terms of the page: the glue files are hidden outside
      development unless the query has a `debug` parameter. */
  lemma HideFilesFromQuery(isDev: bool, query: Query)
    ensures HideFiles(isDev, QueryOptions(query)) <==> !isDev && "debug" !in query
  {
  }

  /** The Element Plus glue code the store generates at start-up: for the
      initial version, without the nightly build. */
  function StartupGlueCode(query: Query, saved: Option<Saved>, cdn: Cdn, t: Templates): string {
    GenerateElementPlusCode(t.elementPlus, cdn, InitialVersions(Pr(query, saved)).elementPlus,
                            QueryOptions(query).styleSource, false)
  }

  /** What the REPL store does with the files it is given: when the main
      file is missing it adds it, with the welcome component it was handed,
      and when the import map is missing it adds the built-in one. Every file
      it is given is kept. */
  function ReplDefaults(r: Rec<File>, t: Templates): (r': Rec<File>)
    ensures r.Valid() ==> r'.Valid()
    ensures WellKeyed(r) ==> WellKeyed(r')
    ensures r'.entries.Keys == r.entries.Keys + {MainFile, ImportMapFile}
    ensures forall x :: x in r.entries ==> r'.entries[x] == r.entries[x]
    ensures MainFile !in r.entries ==> r'.entries[MainFile] == File(MainFile, t.main, false)
    ensures ImportMapFile !in r.entries ==> r'.entries[ImportMapFile] == File(ImportMapFile, t.importMap, false)
  {
    var withMain := AddIfMissing(r, MainFile, File(MainFile, t.main, false));
    AddIfMissing(withMain, ImportMapFile, File(ImportMapFile, t.importMap, false))
  }

  /** The files of a new store: the loaded files with the REPL's defaults, with
      the glue files and the main file hidden or shown, and then the code the
      two immediate version watchers write: the trimmed Element Plus glue
      code and the trimmed Pinia template. */
  function StartupFiles(query: Query, saved: Option<Saved>, isDev: bool, cdn: Cdn, t: Templates): Rec<File> {
    var hidden := HideFiles(isDev, QueryOptions(query));
    var epCode := StartupGlueCode(query, saved, cdn, t);
    var loaded := HideGlue(ReplDefaults(InitialFiles(saved, epCode, t, hidden), t), hidden);
    SetCode(SetCode(loaded, ElementPlusFile, Trim(epCode)), PiniaFile, Trim(t.pinia))
  }

  lemma StartupFilesWellFormed(query: Query, saved: Option<Saved>, isDev: bool, cdn: Cdn, t: Templates)
    ensures StartupFiles(query, saved, isDev, cdn, t).Valid() && WellKeyed(StartupFiles(query, saved, isDev, cdn, t))
  {
    var hidden := HideFiles(isDev, QueryOptions(query));
    var epCode := StartupGlueCode(query, saved, cdn, t);
    InitialFilesWellFormed(saved, epCode, t, hidden);
  }

  /** A new store always holds the main file, hidden exactly when `hideFile`
      says so; its code is the loaded one, or the bundled main component when
      the loaded project has none. */
  lemma StartupMainFile(query: Query, saved: Option<Saved>, isDev: bool, cdn: Cdn, t: Templates)
    ensures var r := StartupFiles(query, saved, isDev, cdn, t);
      var hidden := HideFiles(isDev, QueryOptions(query));
      var loaded := InitialFiles(saved, StartupGlueCode(query, saved, cdn, t), t, hidden);
      && MainFile in r.entries
      && r.entries[MainFile].hidden == hidden
      && r.entries[MainFile].code == if MainFile in loaded.entries then loaded.entries[MainFile].code else t.main
  {
    var hidden := HideFiles(isDev, QueryOptions(query));
    var epCode := StartupGlueCode(query, saved, cdn, t);
    MainAfterStartup(InitialFiles(saved, epCode, t, hidden), t, hidden, Trim(epCode), Trim(t.pinia));
  }

  /** The main file after it is added if missing, flagged, and the glue
      code is written. */
  lemma MainAfterStartup(r: Rec<File>, t: Templates, h: bool, epCode: string, piniaCode: string)
    ensures var r' := SetCode(SetCode(HideGlue(ReplDefaults(r, t), h), ElementPlusFile, epCode), PiniaFile, piniaCode);
      && MainFile in r'.entries
      && r'.entries[MainFile].hidden == h
      && r'.entries[MainFile].code == if MainFile in r.entries then r.entries[MainFile].code else t.main
  {
    var w := ReplDefaults(r, t);
    var g := HideGlue(w, h);
    assert MainFile in FlaggedFiles && g.entries[MainFile] == w.entries[MainFile].(hidden := h);
    SetCodeEntry(g, ElementPlusFile, epCode, MainFile);
    SetCodeEntry(SetCode(g, ElementPlusFile, epCode), PiniaFile, piniaCode, MainFile);
  }

  /** Writing one file's code leaves every other entry as it was. */
  lemma SetCodeEntry(r: Rec<File>, k: string, code: string, x: string)
    requires x in r.entries && x != k
    ensures x in SetCode(r, k, code).entries && SetCode(r, k, code).entries[x] == r.entries[x]
  {
  }

  /** So on a new store the main file cannot be renamed, and in development
      it can be made the active file. */
  lemma StartupMainFileGuarded(query: Query, saved: Option<Saved>, isDev: bool, cdn: Cdn, t: Templates, newName: string)
    requires newName != [] && newName != MainFile
    ensures RenameRefusal(StartupFiles(query, saved, isDev, cdn, t), MainFile, newName) == Some("Cannot rename " + MainFile)
    ensures isDev ==> MainFile in StartupFiles(query, saved, isDev, cdn, t).entries
                      && !StartupFiles(query, saved, isDev, cdn, t).entries[MainFile].hidden
  {
    StartupMainFile(query, saved, isDev, cdn, t);
  }

  /** A new store always holds the import map: the loaded one, or the
      built-in one when the loaded project has none. */
  lemma StartupImportMap(query: Query, saved: Option<Saved>, isDev: bool, cdn: Cdn, t: Templates)
    ensures var r := StartupFiles(query, saved, isDev, cdn, t);
      var loaded := InitialFiles(saved, StartupGlueCode(query, saved, cdn, t), t, HideFiles(isDev, QueryOptions(query)));
      && ImportMapFile in r.entries
      && r.entries[ImportMapFile] == if ImportMapFile in loaded.entries then loaded.entries[ImportMapFile]
                                     else File(ImportMapFile, t.importMap, false)
  {
    var hidden := HideFiles(isDev, QueryOptions(query));
    var epCode := StartupGlueCode(query, saved, cdn, t);
    ImportMapAfterStartup(InitialFiles(saved, epCode, t, hidden), t, hidden, Trim(epCode), Trim(t.pinia));
  }

  /** The import map after the defaults are added, the files are flagged
      and the glue code is written: none of these steps but the first
      touches it. */
  lemma ImportMapAfterStartup(r: Rec<File>, t: Templates, h: bool, epCode: string, piniaCode: string)
    ensures var r' := SetCode(SetCode(HideGlue(ReplDefaults(r, t), h), ElementPlusFile, epCode), PiniaFile, piniaCode);
      && ImportMapFile in r'.entries
      && r'.entries[ImportMapFile] == if ImportMapFile in r.entries then r.entries[ImportMapFile]
                                      else File(ImportMapFile, t.importMap, false)
  {
    var w := ReplDefaults(r, t);
    var g := HideGlue(w, h);
    assert ImportMapFile !in FlaggedFiles && g.entries[ImportMapFile] == w.entries[ImportMapFile];
    SetCodeEntry(g, ElementPlusFile, epCode, ImportMapFile);
    SetCodeEntry(SetCode(g, ElementPlusFile, epCode), PiniaFile, piniaCode, ImportMapFile);
  }

  /** So on a new store renaming the import map is refused because it is
      protected, not because it is missing. */
  lemma StartupImportMapGuarded(query: Query, saved: Option<Saved>, isDev: bool, cdn: Cdn, t: Templates, newName: string)
    requires newName != [] && newName != ImportMapFile
    ensures RenameRefusal(StartupFiles(query, saved, isDev, cdn, t), ImportMapFile, newName)
            == Some("Cannot rename " + ImportMapFile)
  {
    StartupImportMap(query, saved, isDev, cdn, t);
    var r := StartupFiles(query, saved, isDev, cdn, t);
    assert ImportMapFile in r.entries;
  }

  /** A new store holds both glue files, with the generated code trimmed and
      hidden exactly when `hideFile` says so; the style source is never set
      from the query, so the glue code uses the package's own stylesheet. */
  lemma StartupGlueFiles(query: Query, saved: Option<Saved>, isDev: bool, cdn: Cdn, t: Templates)
    ensures var r := StartupFiles(query, saved, isDev, cdn, t);
      var hidden := HideFiles(isDev, QueryOptions(query));
      && ElementPlusFile in r.entries && PiniaFile in r.entries
      && r.entries[ElementPlusFile] == File(ElementPlusFile, Trim(StartupGlueCode(query, saved, cdn, t)), hidden)
      && r.entries[PiniaFile] == File(PiniaFile, Trim(t.pinia), hidden)
      && QueryOptions(query).styleSource.None?
  {
    var hidden := HideFiles(isDev, QueryOptions(query));
    var epCode := StartupGlueCode(query, saved, cdn, t);
    InitialFilesWellFormed(saved, epCode, t, hidden);
    GlueAfterStartup(ReplDefaults(InitialFiles(saved, epCode, t, hidden), t), hidden, Trim(epCode), Trim(t.pinia));
  }

  /** Hiding the glue files and then writing their code leaves each under
      its name with the flag and the new code. */
  lemma GlueAfterStartup(r: Rec<File>, h: bool, epCode: string, piniaCode: string)
    requires WellKeyed(r) && ElementPlusFile in r.entries && PiniaFile in r.entries
    ensures var r' := SetCode(SetCode(HideGlue(r, h), ElementPlusFile, epCode), PiniaFile, piniaCode);
      && ElementPlusFile in r'.entries && PiniaFile in r'.entries
      && r'.entries[ElementPlusFile] == File(ElementPlusFile, epCode, h)
      && r'.entries[PiniaFile] == File(PiniaFile, piniaCode, h)
  {
    assert ElementPlusFile != PiniaFile && ElementPlusFile != MainFile && PiniaFile != MainFile;
    assert r.entries[ElementPlusFile].filename == ElementPlusFile;
    assert r.entries[PiniaFile].filename == PiniaFile;
  }

  /** Runs the loading loop of `initFiles`, lets the REPL store add its
      defaults, hides the glue files and the main file, and writes the glue
      code as the two immediate watchers do. */
  method LoadStartupFiles(query: Query, saved: Option<Saved>, isDev: bool, cdn: Cdn, t: Templates)
    returns (files: Rec<File>)
    ensures files == StartupFiles(query, saved, isDev, cdn, t)
    ensures files.Valid() && WellKeyed(files)
  {
    StartupFilesWellFormed(query, saved, isDev, cdn, t);
    var hidden := HideFiles(isDev, QueryOptions(query));
    var epCode := StartupGlueCode(query, saved, cdn, t);
    var loaded := InitFiles(saved, epCode, t, hidden);
    files := HideGlue(ReplDefaults(loaded, t), hidden);
    files := SetCode(files, ElementPlusFile, Trim(epCode));
    files := SetCode(files, PiniaFile, Trim(t.pinia));
  }

  class ProjectStore {
    /** `store.files` */
    var files: Rec<File>
    /** the name of `store.activeFile` */
    var active: string
    /** whether `store.activeFile` holds a file: it starts as the file under
        `src/App.vue`, which may be missing, and each `setActive` on a
        visible file sets it. A file that is deleted or renamed while it is
        active stays there, so only a store that never had one lacks it. */
    var hasActive: bool
    /** `store.errors` */
    var errors: seq<string>
    var versions: Versions
    /** `store.typescriptVersion`, which `setVersion` writes for TypeScript */
    var typescriptVersion: string
    var nightly: bool
    const pr: Option<string>
    const userOptions: UserOptions

    ghost predicate Valid()
      reads this
    {
      files.Valid() && WellKeyed(files)
    }

    /** The store `useReplStore` returns for the state `useStore` has put
        together: the initial file is active and there are no errors. */
    constructor (p: Option<string>, vs: Versions, opts: UserOptions, fs: Rec<File>)
      requires fs.Valid() && WellKeyed(fs)
      ensures Valid()
      ensures pr == p && versions == vs && userOptions == opts && files == fs
      ensures typescriptVersion == vs.typescript && !nightly && active == AppFile && errors == []
      ensures hasActive <==> AppFile in fs.entries
    {
      pr := p;
      versions := vs;
      userOptions := opts;
      files := fs;
      active := AppFile;
      hasActive := AppFile in fs.entries;
      errors := [];
      typescriptVersion := vs.typescript;
      nightly := false;
    }

    /** `setActive`: a hidden file does not become active. A missing file
        makes the source throw; here it reports `ok == false` and changes
        nothing. */
    method SetActive(filename: string) returns (ok: bool)
      modifies this`active, this`hasActive
      ensures ok <==> filename in files.entries
      ensures active == if ok && !files.entries[filename].hidden then filename else old(active)
      ensures hasActive <==> old(hasActive) || (ok && !files.entries[filename].hidden)
    {
      ok := filename in files.entries;
      if !ok {
        return;
      }
      if files.entries[filename].hidden {
        return;
      }
      active := filename;
      hasActive := true;
    }

    /** `addFile` with a file: stored under its name (replacing any file
        there, in its place), then made active unless hidden. */
    method AddFile(file: File)
      requires Valid()
      modifies this`files, this`active, this`hasActive
      ensures Valid()
      ensures files == Set(old(files), file.filename, file)
      ensures active == if file.hidden then old(active) else file.filename
      ensures hasActive <==> old(hasActive) || !file.hidden
    {
      files := Set(files, file.filename, file);
      var shown := SetActive(file.filename);
    }

    /** `addFile` with a name: a new empty, visible file. */
    method AddNewFile(filename: string)
      requires Valid()
      modifies this`files, this`active, this`hasActive
      ensures Valid()
      ensures files == Set(old(files), filename, File(filename, "", false))
      ensures active == filename && hasActive
    {
      AddFile(File(filename, "", false));
    }

    /** `renameFile`: refuses with one error message, changing no file, or
        rebuilds the object key by key with the renamed file in its old
        place; the active file, if it is the renamed one, follows it. */
    method RenameFile(oldName: string, newName: string) returns (ok: bool)
      requires Valid()
      modifies this`files, this`errors, this`active
      ensures Valid()
      ensures ok <==> RenameRefusal(old(files), oldName, newName).None?
      ensures ok ==> oldName !in Protected && !old(files).entries[oldName].hidden
      ensures !ok ==> files == old(files) && active == old(active)
                      && errors == [RenameRefusal(old(files), oldName, newName).value]
      ensures ok ==> files == Renamed(old(files), oldName, newName) && errors == old(errors)
      ensures ok ==> active == if old(active) == oldName then newName else old(active)
    {
      var refusal := RenameRefusal(files, oldName, newName);
      if refusal.Some? {
        errors := [refusal.value];
        return false;
      }
      var file := files.entries[oldName].(filename := newName);
      var ks := files.keys;
      var newFiles := Empty<File>();
      var i := 0;
      while i < |ks|
        invariant 0 <= i <= |ks|
        invariant newFiles == PutAll(Empty(), RenamePairs(files, oldName, newName)[..i])
      {
        var name := ks[i];
        assert name in ks;
        if name == oldName {
          newFiles := Set(newFiles, newName, file);
        } else {
          newFiles := Set(newFiles, name, files.entries[name]);
        }
        assert RenamePairs(files, oldName, newName)[..i + 1][..i] == RenamePairs(files, oldName, newName)[..i];
        i := i + 1;
      }
      assert RenamePairs(files, oldName, newName)[..i] == RenamePairs(files, oldName, newName);
      RenamedValid(files, oldName, newName);
      files := newFiles;
      if active == oldName {
        active := newName;
      }
      ok := true;
    }

    /** `deleteFile`: a protected file is refused with a warning, and a
        declined confirmation changes nothing. The source then reads the
        active file's name, which throws before anything is deleted when
        there is no active file. Otherwise an active file hands the active
        role to `src/App.vue` first (a missing App.vue throws as well) and the
        entry is removed. */
    method DeleteFile(filename: string, confirmed: bool) returns (deleted: bool)
      requires Valid()
      modifies this`files, this`active, this`hasActive
      ensures Valid()
      ensures deleted <==> && filename !in Protected && confirmed && old(hasActive)
                           && (old(active) == filename ==> AppFile in old(files).entries)
      ensures hasActive == old(hasActive)
      ensures !deleted ==> files == old(files) && active == old(active)
      ensures deleted ==> files == Remove(old(files), filename)
      ensures deleted ==> active == if old(active) == filename && !old(files).entries[AppFile].hidden
                                   then AppFile else old(active)
    {
      if filename in Protected || !confirmed {
        return false;
      }
      if !hasActive {
        return false;
      }
      if active == filename {
        var ok := SetActive(AppFile);
        if !ok {
          return false;
        }
      }
      RemoveValid(files, filename);
      files := Remove(files, filename);
      deleted := true;
    }

    /** `setVersion`: changes the one version the key names. For Vue the
        new compiler is loaded first; `compilerLoaded` says whether that
        load succeeded, and the version is kept when it did not. */
    method SetVersion(key: VersionKey, version: string, compilerLoaded: bool)
      modifies this`versions, this`typescriptVersion
      ensures key == Vue ==>
                typescriptVersion == old(typescriptVersion)
                && versions == if compilerLoaded then old(versions).(vue := version) else old(versions)
      ensures key == ElementPlus ==>
                typescriptVersion == old(typescriptVersion) && versions == old(versions).(elementPlus := version)
      ensures key == Typescript ==> typescriptVersion == version && versions == old(versions)
      ensures key == Pinia ==>
                typescriptVersion == old(typescriptVersion) && versions == old(versions).(pinia := version)
    {
      match key
      case Vue =>
        if compilerLoaded {
          versions := versions.(vue := version);
        }
      case ElementPlus =>
        versions := versions.(elementPlus := version);
      case Typescript =>
        typescriptVersion := version;
      case Pinia =>
        versions := versions.(pinia := version);
    }

    /** `toggleNightly`. */
    method ToggleNightly()
      modifies this`nightly
      ensures nightly == !old(nightly)
    {
      nightly := !nightly;
    }
  }

  /** `useStore`: reads the query and the saved project, loads the files,
      lets the REPL store add the main file and the import map, hides the
      glue files and the
      main file, creates the store and runs the two immediate
      watchers. `cdn` is the provider
      setting at start-up. */
  method UseStore(query: Query, saved: Option<Saved>, isDev: bool, cdn: Cdn, t: Templates)
    returns (store: ProjectStore)
    ensures fresh(store) && store.Valid()
    ensures store.pr == Pr(query, saved) && store.versions == InitialVersions(store.pr)
    ensures store.userOptions == QueryOptions(query)
    ensures store.typescriptVersion == "latest" && !store.nightly
    ensures store.active == AppFile && store.errors == []
    ensures store.hasActive <==> AppFile in StartupFiles(query, saved, isDev, cdn, t).entries
    ensures store.files == StartupFiles(query, saved, isDev, cdn, t)
  {
    var p := Pr(query, saved);
    var vs := InitialVersions(p);
    var loaded := LoadStartupFiles(query, saved, isDev, cdn, t);
    store := new ProjectStore(p, vs, QueryOptions(query), loaded);
  }
}
