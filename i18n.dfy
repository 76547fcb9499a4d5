/** The `I18n` translation switcher of js/i18n.js: language state, `getText` and the apply pass. */
module Translations {
  import opened Wrappers
  import opened Keys
  import opened Documents

  /** A page element carrying a `data-i18n` key, with its current text content. */
  datatype Target = Target(key: string, text: string)

  /** The default language. */
  const DefaultLanguage: string := "en"

  /** The languages `init` requests. */
  const RequestedLanguages: set<string> := {"en", "fr"}

  /** `getStoredLanguage() || 'en'`: a stored non-empty preference wins, otherwise the default. */
  function StartLanguage(stored: Option<string>): (lang: string)
    ensures lang != ""
    ensures stored.Some? && stored.value != "" ==> lang == stored.value
    ensures lang != DefaultLanguage ==> stored == Some(lang)
  {
    if stored.Some? && stored.value != "" then stored.value else DefaultLanguage
  }

  /** `this.translations[lang] || {}`: the loaded document of `lang`, or the empty one. */
  function DocFor(catalog: map<string, Node>, lang: string): (doc: Node)
    ensures Truthy(doc)
    ensures lang !in catalog ==> doc == Empty
    ensures lang in catalog && Truthy(catalog[lang]) ==> doc == catalog[lang]
    ensures !(lang in catalog && Truthy(catalog[lang])) ==> doc == Empty
  {
    if lang in catalog && Truthy(catalog[lang]) then catalog[lang] else Empty
  }

  /** `translations || this.translations[this.currentLanguage] || {}`, the document `getText` walks. */
  function PickDoc(translations: Option<Node>, catalog: map<string, Node>, current: string): (doc: Node)
    ensures Truthy(doc)
    ensures translations.Some? && Truthy(translations.value) ==> doc == translations.value
    ensures !(translations.Some? && Truthy(translations.value)) ==> doc == DocFor(catalog, current)
  {
    if translations.Some? && Truthy(translations.value) then translations.value else DocFor(catalog, current)
  }

  /** `getText(key, doc)` as a function: split the key, then walk the segments. */
  function Lookup(doc: Node, key: string): (r: Option<Node>)
    ensures doc.Leaf? ==> r == None
    ensures doc == Empty ==> r == None
  {
    Resolve(doc, Split(key))
  }

  /** One step of the apply pass: overwrite the text only when the resolved value is truthy. */
  function ApplyTarget(t: Target, doc: Node): (u: Target)
    ensures u.key == t.key
    ensures u.text == "" ==> t.text == ""
    ensures u != t ==> Lookup(doc, t.key).Some? && Truthy(Lookup(doc, t.key).value)
  {
    var v := Lookup(doc, t.key);
    if v.Some? && Truthy(v.value) then t.(text := TextContent(v.value)) else t
  }

  /** The targets after one apply pass with document `doc`: as many as before, with the same keys. */
  function ApplyAll(ts: seq<Target>, doc: Node): (us: seq<Target>)
    ensures |us| == |ts|
    ensures forall i :: 0 <= i < |ts| ==> us[i].key == ts[i].key
  {
    seq(|ts|, i requires 0 <= i < |ts| => ApplyTarget(ts[i], doc))
  }

  /** A key that is not found, or that resolves to an empty string, leaves its target as it was. */
  lemma ApplyMissKeepsText(ts: seq<Target>, doc: Node, i: nat)
    requires i < |ts|
    requires Lookup(doc, ts[i].key) == None || Lookup(doc, ts[i].key) == Some(Leaf(""))
    ensures ApplyAll(ts, doc)[i] == ts[i]
  {
  }

  /** A key that resolves to a non-empty string leaf writes that string into its target. */
  lemma ApplyLeafWritesText(ts: seq<Target>, doc: Node, i: nat, s: string)
    requires i < |ts|
    requires Lookup(doc, ts[i].key) == Some(Leaf(s)) && s != ""
    ensures ApplyAll(ts, doc)[i] == ts[i].(text := s)
  {
  }

  /** The apply pass never blanks a target: a text that is empty afterwards was empty before. */
  lemma ApplyNeverBlanks(ts: seq<Target>, doc: Node, i: nat)
    requires i < |ts|
    requires ApplyAll(ts, doc)[i].text == ""
    ensures ts[i].text == ""
  {
  }

  /** Running the apply pass twice with the same document leaves the targets as one run does. */
  lemma ApplyIdempotent(ts: seq<Target>, doc: Node)
    ensures ApplyAll(ApplyAll(ts, doc), doc) == ApplyAll(ts, doc)
  {
  }

  /** A language without a loaded document changes no target. */
  lemma ApplyUnloaded(ts: seq<Target>, catalog: map<string, Node>, lang: string)
    requires lang !in catalog
    ensures ApplyAll(ts, DocFor(catalog, lang)) == ts
  {
  }

  /** The English document `{"nav": {"home": "Home"}}`. */
  const NavDocument: Node := Branch(map["nav" := Branch(map["home" := Leaf("Home")])])

  /** In that document `nav.home` finds its leaf. */
  lemma NavHomeFound()
    ensures Lookup(NavDocument, "nav.home") == Some(Leaf("Home"))
  {
    assert ["nav", "home"][1..] == ["home"];
    assert "nav" + "." + "home" == "nav.home";
    SplitJoin(["nav", "home"]);
  }

  /** In that document a missing last segment finds nothing. */
  lemma NavMissingNotFound()
    ensures Lookup(NavDocument, "nav.missing") == None
  {
    assert ["nav", "missing"][1..] == ["missing"];
    assert "nav" + "." + "missing" == "nav.missing";
    SplitJoin(["nav", "missing"]);
  }

  /** In that document a path that runs through a leaf finds nothing. */
  lemma NavThroughLeafNotFound()
    ensures Lookup(NavDocument, "nav.home.extra") == None
  {
    assert ["nav", "home", "extra"][1..] == ["home", "extra"];
    assert ["home", "extra"][1..] == ["extra"];
    assert Join(["home", "extra"]) == "home.extra";
    assert "nav" + "." + "home.extra" == "nav.home.extra";
    SplitJoin(["nav", "home", "extra"]);
  }

  /** The translation switcher; the page elements and the storage slot are fields. */
  class I18n {
    /** The language the page is shown in. */
    var currentLanguage: string
    /** The `selectedLanguage` entry of local storage, `None` when absent. */
    var stored: Option<string>
    /** The loaded documents, by language code. */
    var catalog: map<string, Node>
    /** The `[data-i18n]` elements of the page. */
    const targets: array<Target>
    /** Whether the page has a `language-switcher` element. */
    const hasSwitcher: bool
    /** The switcher element's `data-current-lang` attribute. */
    var switcherLang: Option<string>
    /** The `lang` attribute of the html element. */
    var htmlLang: string

    /** `new I18n()` up to the start of the asynchronous loads: no document is loaded yet. */
    constructor (storedPref: Option<string>, page: array<Target>, switcherPresent: bool,
                 switcherAttr: Option<string>, pageLang: string)
      ensures GetCurrentLanguage() == StartLanguage(storedPref)
      ensures GetStoredLanguage() == storedPref && catalog == map[]
      ensures targets == page && hasSwitcher == switcherPresent
      ensures switcherLang == switcherAttr && htmlLang == pageLang
    {
      currentLanguage := StartLanguage(storedPref);
      stored := storedPref;
      catalog := map[];
      targets := page;
      hasSwitcher := switcherPresent;
      switcherLang := switcherAttr;
      htmlLang := pageLang;
    }

    /** `getStoredLanguage()`. */
    function GetStoredLanguage(): Option<string>
      reads this
    {
      stored
    }

    /** `getCurrentLanguage()`. */
    function GetCurrentLanguage(): string
      reads this
    {
      currentLanguage
    }

    /** `getText(key, translations)`: split the key and walk the chosen document segment by segment. */
    method GetText(key: string, translations: Option<Node>) returns (value: Option<Node>)
      ensures value == Lookup(PickDoc(translations, catalog, currentLanguage), key)
    {
      var trans := PickDoc(translations, catalog, currentLanguage);
      var keys := Split(key);
      var node := trans;
      for i := 0 to |keys|
        invariant Resolve(trans, keys) == Resolve(node, keys[i..])
      {
        assert keys[i..][0] == keys[i] && keys[i..][1..] == keys[i + 1..];
        var next := Child(node, keys[i]);
        if next.None? {
          return None;
        }
        node := next.value;
      }
      assert keys[|keys|..] == [];
      return Some(node);
    }

    /** `applyLanguage(lang)`: rewrite every target whose key resolves to a truthy value, then mark the switcher. */
    method ApplyLanguage(lang: string)
      modifies this`switcherLang, targets
      ensures targets[..] == ApplyAll(old(targets[..]), DocFor(catalog, lang))
      ensures switcherLang == if hasSwitcher then Some(lang) else old(switcherLang)
    {
      var translations := DocFor(catalog, lang);
      for i := 0 to targets.Length
        invariant forall j :: 0 <= j < i ==> targets[j] == ApplyTarget(old(targets[j]), translations)
        invariant forall j :: i <= j < targets.Length ==> targets[j] == old(targets[j])
        invariant switcherLang == old(switcherLang)
      {
        var t := targets[i];
        var text := GetText(t.key, Some(translations));
        if text.Some? && Truthy(text.value) {
          targets[i] := t.(text := TextContent(text.value));
        }
      }
      if hasSwitcher {
        switcherLang := Some(lang);
      }
    }

    /** `setLanguage(lang)`: record the language, store it, re-apply (always) and set the html `lang`. */
    method SetLanguage(lang: string)
      modifies this, targets
      ensures GetCurrentLanguage() == lang
      ensures GetStoredLanguage() == Some(lang)
      ensures htmlLang == lang
      ensures catalog == old(catalog)
      ensures targets[..] == ApplyAll(old(targets[..]), DocFor(catalog, lang))
      ensures switcherLang == if hasSwitcher then Some(lang) else old(switcherLang)
    {
      currentLanguage := lang;
      stored := Some(lang);
      ApplyLanguage(lang);
      htmlLang := lang;
    }

    /** The rest of `init()` once every requested load has settled: record what loaded, apply the current language. */
    method FinishInit(loaded: map<string, Node>)
      requires loaded.Keys <= RequestedLanguages
      modifies this`catalog, this`switcherLang, targets
      ensures catalog == old(catalog) + loaded
      ensures targets[..] == ApplyAll(old(targets[..]), DocFor(catalog, currentLanguage))
      ensures switcherLang == if hasSwitcher then Some(currentLanguage) else old(switcherLang)
    {
      catalog := catalog + loaded;
      ApplyLanguage(currentLanguage);
    }
  }
}
