/** The playground's settings store (src/store/app.ts).

    The store holds the selected CDN provider, remembered in the browser's
    local storage under `setting-cdn`, and two optional features, Element
    Plus and Pinia, each with an enabled flag and a version. The actions
    flip a feature, set its version, or pick the CDN; the getters read the
    features back. */
module App {
  import opened Text

  /** A feature the playground can switch on. */
  datatype Feature = Feature(name: string, enabled: bool, version: string)

  /** The CDN used when local storage holds no choice. */
  const DefaultCdn: string := "unpkg"

  /** The version a feature starts with. */
  const InitialVersion: string := "latest"

  /** A feature as the store starts it: off, at the latest version. */
  function InitialFeature(name: string): (f: Feature)
    ensures f.name == name && !f.enabled && f.version == InitialVersion
  {
    Feature(name, false, InitialVersion)
  }

  /** The feature with its enabled flag flipped. */
  function Toggled(f: Feature): (g: Feature)
    ensures g.enabled != f.enabled
    ensures g.name == f.name && g.version == f.version
  {
    f.(enabled := !f.enabled)
  }

  /** The feature at another version. */
  function WithVersion(f: Feature, version: string): (g: Feature)
    ensures g.version == version
    ensures g.name == f.name && g.enabled == f.enabled
  {
    f.(version := version)
  }

  /** Flipping a feature twice gives it back. */
  lemma ToggledTwice(f: Feature)
    ensures Toggled(Toggled(f)) == f
  {
  }

  /** Setting a version twice keeps only the second. */
  lemma WithVersionLast(f: Feature, v1: string, v2: string)
    ensures WithVersion(WithVersion(f, v1), v2) == WithVersion(f, v2)
  {
  }

  /** Flipping and setting the version touch different fields. */
  lemma ToggledWithVersionCommute(f: Feature, version: string)
    ensures Toggled(WithVersion(f, version)) == WithVersion(Toggled(f), version)
  {
  }

  /** The CDN the store starts with: the stored choice, or unpkg. */
  function StartCdn(stored: Option<string>): (cdn: string)
    ensures stored.Some? ==> cdn == stored.value
    ensures stored.None? ==> cdn == DefaultCdn
  {
    if stored.Some? then stored.value else DefaultCdn
  }

  /** The store. `persistedCdn` is the value of the local-storage entry. */
  class AppStore {
    var cdn: string
    var persistedCdn: string
    var elementPlus: Feature
    var pinia: Feature

    /** The choice on screen is the remembered one. */
    ghost predicate Valid()
      reads this
    {
      cdn == persistedCdn && elementPlus.name == "Element Plus" && pinia.name == "Pinia"
    }

    /** The store as it starts, given what local storage holds under
        `setting-cdn`; an absent entry takes the default, which is then
        stored. */
    constructor (stored: Option<string>)
      ensures Valid()
      ensures cdn == StartCdn(stored)
      ensures elementPlus == InitialFeature("Element Plus")
      ensures pinia == InitialFeature("Pinia")
    {
      var start := StartCdn(stored);
      cdn := start;
      persistedCdn := start;
      elementPlus := InitialFeature("Element Plus");
      pinia := InitialFeature("Pinia");
    }

    function IsElementPlusEnabled(): bool
      reads this
    {
      elementPlus.enabled
    }

    function IsPiniaEnabled(): bool
      reads this
    {
      pinia.enabled
    }

    function ElementPlusVersion(): string
      reads this
    {
      elementPlus.version
    }

    function PiniaVersion(): string
      reads this
    {
      pinia.version
    }

    method ToggleElementPlus()
      requires Valid()
      modifies this
      ensures Valid()
      ensures elementPlus == Toggled(old(elementPlus))
      ensures IsElementPlusEnabled() == !old(IsElementPlusEnabled())
      ensures ElementPlusVersion() == old(ElementPlusVersion())
      ensures pinia == old(pinia) && cdn == old(cdn) && persistedCdn == old(persistedCdn)
    {
      elementPlus := elementPlus.(enabled := !elementPlus.enabled);
    }

    method TogglePinia()
      requires Valid()
      modifies this
      ensures Valid()
      ensures pinia == Toggled(old(pinia))
      ensures IsPiniaEnabled() == !old(IsPiniaEnabled())
      ensures PiniaVersion() == old(PiniaVersion())
      ensures elementPlus == old(elementPlus) && cdn == old(cdn) && persistedCdn == old(persistedCdn)
    {
      pinia := pinia.(enabled := !pinia.enabled);
    }

    method SetElementPlusVersion(version: string)
      requires Valid()
      modifies this
      ensures Valid()
      ensures elementPlus == WithVersion(old(elementPlus), version)
      ensures ElementPlusVersion() == version
      ensures IsElementPlusEnabled() == old(IsElementPlusEnabled())
      ensures pinia == old(pinia) && cdn == old(cdn) && persistedCdn == old(persistedCdn)
    {
      elementPlus := elementPlus.(version := version);
    }

    method SetPiniaVersion(version: string)
      requires Valid()
      modifies this
      ensures Valid()
      ensures pinia == WithVersion(old(pinia), version)
      ensures PiniaVersion() == version
      ensures IsPiniaEnabled() == old(IsPiniaEnabled())
      ensures elementPlus == old(elementPlus) && cdn == old(cdn) && persistedCdn == old(persistedCdn)
    {
      pinia := pinia.(version := version);
    }

    /** Picks a CDN and remembers it in local storage. */
    method SetCdn(newCdn: string)
      requires Valid()
      modifies this
      ensures Valid()
      ensures cdn == newCdn && persistedCdn == newCdn
      ensures elementPlus == old(elementPlus) && pinia == old(pinia)
    {
      cdn := newCdn;
      persistedCdn := newCdn;
    }
  }
}
