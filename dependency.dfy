/** CDN links and the built-in import map (src/utils/dependency.ts).

    Every function here is a pure function of its arguments. The CDN setting,
    which the source reads from a module-level persisted reference, is an
    explicit parameter `cdn`. */
module Dependency {
  import opened Text
  import opened Records

  /** The CDN providers the setting can name. */
  datatype Cdn = Unpkg | Jsdelivr | JsdelivrFastly

  /** The version part of a link: nothing for an absent or empty version,
      `@<version>` otherwise. */
  function VersionSuffix(version: Option<string>): (r: string)
    ensures r == [] <==> version.None? || version.value == []
    ensures r != [] ==> r == "@" + version.value
  {
    if version.Some? && version.value != [] then "@" + version.value else ""
  }

  /** The origins (with the npm path prefix) of the three providers. */
  const JsdelivrOrigin: string := "https://cdn.jsdelivr.net/npm/"
  const FastlyOrigin: string := "https://fastly.jsdelivr.net/npm/"
  const UnpkgOrigin: string := "https://unpkg.com/"

  /** The switch of `genCdnLink`: the origin each provider's links start with. */
  function Origin(c: Cdn): string {
    match c
    case Jsdelivr => JsdelivrOrigin
    case JsdelivrFastly => FastlyOrigin
    case Unpkg => UnpkgOrigin
  }

  /** `genCdnLink`: the package file `path` of `pkg` at `version` on `cdn`.
      The link is the provider's origin, and after it exactly the package,
      the version part and the path. */
  function GenCdnLink(cdn: Cdn, pkg: string, version: Option<string>, path: string): (r: string)
    ensures r == Origin(cdn) + (pkg + VersionSuffix(version) + path)
  {
    var v := VersionSuffix(version);
    match cdn
    case Jsdelivr => JsdelivrOrigin + pkg + v + path
    case JsdelivrFastly => FastlyOrigin + pkg + v + path
    case Unpkg => UnpkgOrigin + pkg + v + path
  }

  /** `genUnpkgLink`: a link on unpkg whatever the setting. */
  function GenUnpkgLink(pkg: string, version: Option<string>, path: string): (r: string)
    ensures r == GenCdnLink(Unpkg, pkg, version, path)
  {
    UnpkgOrigin + pkg + VersionSuffix(version) + path
  }

  /** `genJsdelivrLink`: a link on jsDelivr whatever the setting. */
  function GenJsdelivrLink(pkg: string, version: Option<string>, path: string): (r: string)
    ensures r == GenCdnLink(Jsdelivr, pkg, version, path)
  {
    JsdelivrOrigin + pkg + VersionSuffix(version) + path
  }

  /** Splits a link into its provider and the `<pkg><version><path>` rest:
      the inverse of `GenCdnLink` on its first argument. */
  function ParseCdnLink(url: string): Option<(Cdn, string)> {
    if StartsWith(url, JsdelivrOrigin) then Some((Jsdelivr, url[|JsdelivrOrigin|..]))
    else if StartsWith(url, FastlyOrigin) then Some((JsdelivrFastly, url[|FastlyOrigin|..]))
    else if StartsWith(url, UnpkgOrigin) then Some((Unpkg, url[|UnpkgOrigin|..]))
    else None
  }

  /** Every link names its provider and carries exactly pkg, version part
      and path after the provider's origin. */
  lemma ParseGenCdnLink(cdn: Cdn, pkg: string, version: Option<string>, path: string)
    ensures ParseCdnLink(GenCdnLink(cdn, pkg, version, path))
            == Some((cdn, pkg + VersionSuffix(version) + path))
  {
    ParseOrigin(cdn, pkg + VersionSuffix(version) + path);
  }

  /** A provider's origin followed by any text parses back to that provider
      and that text. */
  lemma ParseOrigin(cdn: Cdn, rest: string)
    ensures ParseCdnLink(Origin(cdn) + rest) == Some((cdn, rest))
  {
    OriginPrefix(Origin(cdn), rest);
    match cdn
    case Jsdelivr =>
    case JsdelivrFastly =>
      OtherOrigin(FastlyOrigin, rest, JsdelivrOrigin, 8);
    case Unpkg =>
      OtherOrigin(UnpkgOrigin, rest, JsdelivrOrigin, 8);
      OtherOrigin(UnpkgOrigin, rest, FastlyOrigin, 8);
  }

  lemma OriginPrefix(origin: string, rest: string)
    ensures StartsWith(origin + rest, origin) && (origin + rest)[|origin|..] == rest
  {
    assert (origin + rest)[..|origin|] == origin;
  }

  lemma OtherOrigin(origin: string, rest: string, other: string, k: nat)
    requires k < |origin| && k < |other| && origin[k] != other[k]
    ensures !StartsWith(origin + rest, other)
  {
    assert (origin + rest)[k] == origin[k];
    if |other| <= |origin + rest| {
      assert (origin + rest)[..|other|][k] == origin[k];
    }
  }

  /** Two links that are equal come from the same provider and the same
      `<pkg><version><path>` text. */
  lemma GenCdnLinkInjective(c1: Cdn, p1: string, v1: Option<string>, f1: string,
                            c2: Cdn, p2: string, v2: Option<string>, f2: string)
    requires GenCdnLink(c1, p1, v1, f1) == GenCdnLink(c2, p2, v2, f2)
    ensures c1 == c2
    ensures p1 + VersionSuffix(v1) + f1 == p2 + VersionSuffix(v2) + f2
  {
    ParseGenCdnLink(c1, p1, v1, f1);
    ParseGenCdnLink(c2, p2, v2, f2);
  }

  // ---------------------------------------------------------------------
  // The compiler and runtime links of a Vue version

  datatype VueLink = VueLink(compilerSfc: string, runtimeDom: string)

  /** `genVueLink`: the SFC compiler and the DOM runtime of one Vue version,
      both on the current provider. */
  function GenVueLink(cdn: Cdn, version: string): (r: VueLink)
    ensures ParseCdnLink(r.compilerSfc)
            == Some((cdn, "@vue/compiler-sfc" + VersionSuffix(Some(version)) + "/dist/compiler-sfc.esm-browser.js"))
    ensures ParseCdnLink(r.runtimeDom)
            == Some((cdn, "@vue/runtime-dom" + VersionSuffix(Some(version)) + "/dist/runtime-dom.esm-browser.js"))
  {
    ParseGenCdnLink(cdn, "@vue/compiler-sfc", Some(version), "/dist/compiler-sfc.esm-browser.js");
    ParseGenCdnLink(cdn, "@vue/runtime-dom", Some(version), "/dist/runtime-dom.esm-browser.js");
    VueLink(
      GenCdnLink(cdn, "@vue/compiler-sfc", Some(version), "/dist/compiler-sfc.esm-browser.js"),
      GenCdnLink(cdn, "@vue/runtime-dom", Some(version), "/dist/runtime-dom.esm-browser.js"))
  }

  // ---------------------------------------------------------------------
  // The built-in import map

  /** One entry of the dependency table: a package (the specifier itself
      when absent), a version (none when absent) and a file path. */
  datatype Dependency = Dependency(pkg: Option<string>, version: Option<string>, path: string)

  /** The specifiers of the built-in import map, in table order. */
  const Specifiers: seq<string> := [
    "vue", "@vue/shared", "element-plus", "element-plus/", "@element-plus/icons-vue",
    "@vue/devtools-api", "@vue/composition-api", "vue-demi", "pinia"
  ]

  /** The table `deps` of `genImportMap`, for the Vue and Element Plus
      versions and the nightly flag. */
  function Deps(vue: Option<string>, elementPlus: Option<string>, nightly: bool): (ds: seq<(string, Dependency)>)
    ensures KeysOf(ds) == Specifiers
  {
    [ ("vue", Dependency(Some("@vue/runtime-dom"), vue, "/dist/runtime-dom.esm-browser.js")),
      ("@vue/shared", Dependency(None, vue, "/dist/shared.esm-bundler.js")),
      ("element-plus", Dependency(Some(if nightly then "@element-plus/nightly" else "element-plus"),
                                  elementPlus, "/dist/index.full.min.mjs")),
      ("element-plus/", Dependency(Some("element-plus"), elementPlus, "/")),
      ("@element-plus/icons-vue", Dependency(None, None, "/dist/index.min.js")),
      ("@vue/devtools-api", Dependency(None, None, "/lib/esm/index.js")),
      ("@vue/composition-api", Dependency(None, None, "/dist/vue-composition-api.mjs")),
      ("vue-demi", Dependency(None, None, "/lib/index.mjs")),
      ("pinia", Dependency(None, None, "/dist/pinia.mjs")) ]
  }

  /** The link of one table entry: `genCdnLink(dep.pkg ?? key, dep.version, dep.path)`. */
  function DepLink(cdn: Cdn, key: string, d: Dependency): string {
    GenCdnLink(cdn, if d.pkg.Some? then d.pkg.value else key, d.version, d.path)
  }

  /** An import map: `{ imports: { specifier: url, ... } }`. */
  datatype ImportMap = ImportMap(imports: Rec<string>)

  /** The entries `Object.entries(deps).map(...)`, before `Object.fromEntries`. */
  function LinkEntries(cdn: Cdn, ds: seq<(string, Dependency)>): (es: seq<(string, string)>)
    ensures KeysOf(es) == KeysOf(ds)
  {
    seq(|ds|, i requires 0 <= i < |ds| => (ds[i].0, DepLink(cdn, ds[i].0, ds[i].1)))
  }

  /** `genImportMap`: the map's keys are the nine specifiers in table
      order, whatever the versions, the nightly flag and the provider. */
  function GenImportMap(cdn: Cdn, vue: Option<string>, elementPlus: Option<string>, nightly: bool): (m: ImportMap)
    ensures m.imports.keys == Specifiers
  {
    var es := LinkEntries(cdn, Deps(vue, elementPlus, nightly));
    SpecifiersDistinct();
    PutAllFreshKeys(Empty(), es);
    ImportMap(PutAll(Empty(), es))
  }

  /** No two specifiers are the same: they all have different lengths. */
  lemma SpecifiersDistinct()
    ensures Distinct(Specifiers)
  {
    var lengths := [3, 11, 12, 13, 23, 17, 20, 8, 5];
    forall i | 0 <= i < |Specifiers| ensures |Specifiers[i]| == lengths[i] {
    }
    forall i, j | 0 <= i < j < |Specifiers| ensures Specifiers[i] != Specifiers[j] {
      assert |Specifiers[i]| == lengths[i] && |Specifiers[j]| == lengths[j];
    }
  }

  /** The map is a valid object: each specifier once, and exactly the
      specifiers as keys. */
  lemma GenImportMapValid(cdn: Cdn, vue: Option<string>, elementPlus: Option<string>, nightly: bool)
    ensures GenImportMap(cdn, vue, elementPlus, nightly).imports.Valid()
  {
    PutAllValid(Empty(), LinkEntries(cdn, Deps(vue, elementPlus, nightly)));
  }

  /** Each specifier maps to the link of its table entry. */
  lemma GenImportMapAt(cdn: Cdn, vue: Option<string>, elementPlus: Option<string>, nightly: bool, i: nat)
    requires i < |Specifiers|
    ensures var m := GenImportMap(cdn, vue, elementPlus, nightly).imports;
      && Specifiers[i] in m.entries
      && m.entries[Specifiers[i]] == DepLink(cdn, Specifiers[i], Deps(vue, elementPlus, nightly)[i].1)
  {
    var ds := Deps(vue, elementPlus, nightly);
    var es := LinkEntries(cdn, ds);
    SpecifiersDistinct();
    PutAllEntries(Empty<string>(), es);
    assert KeysOf(es)[i] == Specifiers[i];
    forall j | i < j < |es| ensures es[j].0 != es[i].0 {
      assert KeysOf(es)[j] == Specifiers[j];
    }
    PairsToMapLast(es, i);
  }

  /** Changing the provider changes no specifier and, in each value, only
      the provider: what follows the origin stays the same. */
  lemma ProviderChangesValuesOnly(c1: Cdn, c2: Cdn, vue: Option<string>, elementPlus: Option<string>, nightly: bool, i: nat)
    requires i < |Specifiers|
    ensures GenImportMap(c1, vue, elementPlus, nightly).imports.keys
            == GenImportMap(c2, vue, elementPlus, nightly).imports.keys
    ensures var m1 := GenImportMap(c1, vue, elementPlus, nightly).imports.entries;
            var m2 := GenImportMap(c2, vue, elementPlus, nightly).imports.entries;
            Specifiers[i] in m1 && Specifiers[i] in m2 &&
            var u1, u2 := m1[Specifiers[i]], m2[Specifiers[i]];
            && ParseCdnLink(u1).Some? && ParseCdnLink(u1).value.0 == c1
            && ParseCdnLink(u2).Some? && ParseCdnLink(u2).value.0 == c2
            && ParseCdnLink(u1).value.1 == ParseCdnLink(u2).value.1
  {
    GenImportMapAt(c1, vue, elementPlus, nightly, i);
    GenImportMapAt(c2, vue, elementPlus, nightly, i);
    var d := Deps(vue, elementPlus, nightly)[i].1;
    var pkg := if d.pkg.Some? then d.pkg.value else Specifiers[i];
    ParseGenCdnLink(c1, pkg, d.version, d.path);
    ParseGenCdnLink(c2, pkg, d.version, d.path);
  }

  /** The nightly flag swaps the package of `element-plus` for the nightly
      build and touches no other entry. */
  lemma NightlyOnlyElementPlus(cdn: Cdn, vue: Option<string>, elementPlus: Option<string>, i: nat)
    requires i < |Specifiers| && Specifiers[i] != "element-plus"
    ensures var mt := GenImportMap(cdn, vue, elementPlus, true).imports.entries;
            var mf := GenImportMap(cdn, vue, elementPlus, false).imports.entries;
            Specifiers[i] in mt && Specifiers[i] in mf && mt[Specifiers[i]] == mf[Specifiers[i]]
  {
    assert i != 2 by {
      assert Specifiers[2] == "element-plus";
    }
    DepsNightlyAt(vue, elementPlus, i);
    GenImportMapAt(cdn, vue, elementPlus, true, i);
    GenImportMapAt(cdn, vue, elementPlus, false, i);
  }

  /** Only the third table entry depends on the nightly flag. */
  lemma DepsNightlyAt(vue: Option<string>, elementPlus: Option<string>, i: nat)
    requires i < |Specifiers| && i != 2
    ensures Deps(vue, elementPlus, true)[i] == Deps(vue, elementPlus, false)[i]
  {
    var dt, df := Deps(vue, elementPlus, true), Deps(vue, elementPlus, false);
    if i < 2 {
      assert dt[..2] == df[..2];
      assert dt[i] == dt[..2][i] && df[i] == df[..2][i];
    } else {
      assert dt[3..] == df[3..];
      assert dt[i] == dt[3..][i - 3] && df[i] == df[3..][i - 3];
    }
  }

  /** With the flag the `element-plus` entry names the nightly package,
      without it the release package; `element-plus/` always resolves into
      the root of the `element-plus` package. */
  lemma ElementPlusEntries(cdn: Cdn, vue: Option<string>, elementPlus: Option<string>, nightly: bool)
    ensures var m := GenImportMap(cdn, vue, elementPlus, nightly).imports;
      && "element-plus" in m.entries && "element-plus/" in m.entries
      && m.entries["element-plus"]
         == GenCdnLink(cdn, if nightly then "@element-plus/nightly" else "element-plus",
                       elementPlus, "/dist/index.full.min.mjs")
      && m.entries["element-plus/"] == GenCdnLink(cdn, "element-plus", elementPlus, "/")
  {
    GenImportMapAt(cdn, vue, elementPlus, nightly, 2);
    GenImportMapAt(cdn, vue, elementPlus, nightly, 3);
  }

  /** The pinia-related and icon entries carry no version: each names its
      specifier as package. */
  lemma UnversionedEntries(cdn: Cdn, vue: Option<string>, elementPlus: Option<string>, nightly: bool)
    ensures var m := GenImportMap(cdn, vue, elementPlus, nightly).imports;
      && "@element-plus/icons-vue" in m.entries && "@vue/devtools-api" in m.entries
      && "@vue/composition-api" in m.entries && "vue-demi" in m.entries && "pinia" in m.entries
      && m.entries["@element-plus/icons-vue"] == GenCdnLink(cdn, "@element-plus/icons-vue", None, "/dist/index.min.js")
      && m.entries["@vue/devtools-api"] == GenCdnLink(cdn, "@vue/devtools-api", None, "/lib/esm/index.js")
      && m.entries["@vue/composition-api"] == GenCdnLink(cdn, "@vue/composition-api", None, "/dist/vue-composition-api.mjs")
      && m.entries["vue-demi"] == GenCdnLink(cdn, "vue-demi", None, "/lib/index.mjs")
      && m.entries["pinia"] == GenCdnLink(cdn, "pinia", None, "/dist/pinia.mjs")
  {
    GenImportMapAt(cdn, vue, elementPlus, nightly, 4);
    GenImportMapAt(cdn, vue, elementPlus, nightly, 5);
    GenImportMapAt(cdn, vue, elementPlus, nightly, 6);
    GenImportMapAt(cdn, vue, elementPlus, nightly, 7);
    GenImportMapAt(cdn, vue, elementPlus, nightly, 8);
  }

  /** Versions reach only the Vue and Element Plus entries: the other five
      are the same for every version selection. */
  lemma VersionsReachFourEntries(cdn: Cdn, v1: Option<string>, e1: Option<string>,
                                 v2: Option<string>, e2: Option<string>, nightly: bool, i: nat)
    requires 4 <= i < |Specifiers|
    ensures var m1 := GenImportMap(cdn, v1, e1, nightly).imports.entries;
            var m2 := GenImportMap(cdn, v2, e2, nightly).imports.entries;
            Specifiers[i] in m1 && Specifiers[i] in m2 && m1[Specifiers[i]] == m2[Specifiers[i]]
  {
    GenImportMapAt(cdn, v1, e1, nightly, i);
    GenImportMapAt(cdn, v2, e2, nightly, i);
    assert Deps(v1, e1, nightly)[4..] == Deps(v2, e2, nightly)[4..];
    assert Deps(v1, e1, nightly)[i] == Deps(v1, e1, nightly)[4..][i - 4];
    assert Deps(v2, e2, nightly)[i] == Deps(v2, e2, nightly)[4..][i - 4];
  }

  /** The `vue` entry is the DOM runtime link of `genVueLink` for the same
      version, and `@vue/shared` is the shared package at that version. */
  lemma VueEntries(cdn: Cdn, vue: string, elementPlus: Option<string>, nightly: bool)
    ensures var m := GenImportMap(cdn, Some(vue), elementPlus, nightly).imports;
      && "vue" in m.entries && "@vue/shared" in m.entries
      && m.entries["vue"] == GenVueLink(cdn, vue).runtimeDom
      && m.entries["@vue/shared"] == GenCdnLink(cdn, "@vue/shared", Some(vue), "/dist/shared.esm-bundler.js")
  {
    GenImportMapAt(cdn, Some(vue), elementPlus, nightly, 0);
    GenImportMapAt(cdn, Some(vue), elementPlus, nightly, 1);
  }
}
