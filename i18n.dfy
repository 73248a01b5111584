/**
 The deterministic part of Oppia's translation bootstrap: the translation ids
 built by `i18nIdService`, the file URL built by `I18nFileHashLoader`, the
 language-key list and wildcard map registered by the configuration block,
 and the language the footer controller selects when the page loads.
 */
module I18n {
  import opened Text

  datatype Option<T> = None | Some(value: T)

  // ---------------------------------------------------------------------------
  // i18nIdService.getLibraryId

  /** Every library translation id starts with this. */
  const LibraryIdPrefix: string := "I18N_LIBRARY_"

  /** The part of a library id derived from `name`: upper-cased, then split on
      spaces and joined with underscores. */
  function NameSegment(name: string): (seg: string)
    ensures |seg| == |name|
    ensures forall i :: 0 <= i < |name| ==>
      seg[i] == if name[i] == ' ' then '_' else UpperChar(name[i])
  {
    JoinSplitReplaces(ToUpper(name), ' ', '_');
    Join(Split(ToUpper(name), ' '), "_")
  }

  /** `getLibraryId(prefix, name)`: `"I18N_LIBRARY_"`, the upper-cased
      prefix, an underscore, and the name segment. */
  function GetLibraryId(prefix: string, name: string): (id: string)
    ensures |id| == |LibraryIdPrefix| + |prefix| + 1 + |name|
    ensures id[..|LibraryIdPrefix|] == LibraryIdPrefix
    ensures id[|LibraryIdPrefix|..|LibraryIdPrefix| + |prefix|] == ToUpper(prefix)
    ensures id[|LibraryIdPrefix| + |prefix|] == '_'
    ensures id[|LibraryIdPrefix| + |prefix| + 1..] == NameSegment(name)
  {
    LibraryIdPrefix + ToUpper(prefix) + "_" + NameSegment(name)
  }

  /** The name segment of a library id contains no space at all. */
  lemma LibraryIdNameHasNoSpaces(prefix: string, name: string)
    ensures ' ' !in GetLibraryId(prefix, name)[|LibraryIdPrefix| + |prefix| + 1..]
  {
  }

  /** The prefix is only upper-cased: a space in the prefix survives as a
      space, and every other character as its upper-case form. */
  lemma LibraryIdKeepsPrefixSpaces(prefix: string, name: string, i: nat)
    requires i < |prefix|
    ensures GetLibraryId(prefix, name)[|LibraryIdPrefix| + i] == UpperChar(prefix[i])
    ensures prefix[i] == ' ' ==> GetLibraryId(prefix, name)[|LibraryIdPrefix| + i] == ' '
  {
  }

  /** The example documented beside the service. */
  lemma LibraryIdExample()
    ensures GetLibraryId("categories", "art") == "I18N_LIBRARY_CATEGORIES_ART"
  {
  }

  /** Different names can share an id: a space and an underscore in the name
      both end up as an underscore, and so do lower and upper case. */
  lemma LibraryIdMergesSpaceAndUnderscore(prefix: string)
    ensures GetLibraryId(prefix, "a b") == GetLibraryId(prefix, "A_B")
  {
  }

  // ---------------------------------------------------------------------------
  // I18nFileHashLoader

  /** The options the translation library hands to the loader. */
  datatype LoaderOptions = LoaderOptions(prefix: string, key: string, suffix: string)

  /** The loader options registered by the configuration block. */
  function ConfiguredLoaderOptions(key: string): LoaderOptions
  {
    LoaderOptions("/i18n/", key, ".json")
  }

  /** `[prefix, key, suffix].join('')`. */
  function FileUrl(options: LoaderOptions): (url: string)
    ensures url == options.prefix + options.key + options.suffix
  {
    JoinThreeConcatenates(options.prefix, options.key, options.suffix);
    Join([options.prefix, options.key, options.suffix], "")
  }

  /** The language key can be read back from the URL between prefix and suffix. */
  lemma FileUrlKeyRoundTrip(options: LoaderOptions)
    ensures options.prefix <= FileUrl(options)
    ensures FileUrl(options)[|options.prefix|..|FileUrl(options)| - |options.suffix|] == options.key
    ensures FileUrl(options)[|FileUrl(options)| - |options.suffix|..] == options.suffix
  {
  }

  /** With the configured options the URL is `/i18n/<key>.json`. */
  lemma ConfiguredFileUrl(key: string)
    ensures FileUrl(ConfiguredLoaderOptions(key)) == "/i18n/" + key + ".json"
  {
  }

  // ---------------------------------------------------------------------------
  // Language keys registered by the configuration block

  /** One entry of the supported site languages. */
  datatype SiteLanguage = SiteLanguage(id: string, text: string)

  /** The ids of `languages`, in order: what the loop pushes. */
  function LanguageIds(languages: seq<SiteLanguage>): (ids: seq<string>)
    ensures |ids| == |languages|
    ensures forall i :: 0 <= i < |languages| ==> ids[i] == languages[i].id
  {
    if languages == [] then []
    else LanguageIds(languages[..|languages| - 1]) + [languages[|languages| - 1].id]
  }

  /** The wildcard entries `id + "*" -> id`, assigned in order. */
  function WildcardEntries(languages: seq<SiteLanguage>): (m: map<string, string>)
    ensures forall k :: k in m ==> m[k] + "*" == k
    ensures |languages| > 0 ==> languages[|languages| - 1].id + "*" in m
  {
    if languages == [] then map[]
    else
      var last := languages[|languages| - 1];
      WildcardEntries(languages[..|languages| - 1])[last.id + "*" := last.id]
  }

  /** The map registered with the translation library: the wildcard entries,
      then `"*" -> "en"` assigned last. */
  function LanguageKeyMap(languages: seq<SiteLanguage>): (m: map<string, string>)
    ensures "*" in m && m["*"] == "en"
    ensures forall k :: k in m && k != "*" ==> m[k] + "*" == k
  {
    WildcardEntries(languages)["*" := "en"]
  }

  /** Appending the wildcard is injective. */
  lemma WildcardInjective(a: string, b: string)
    requires a + "*" == b + "*"
    ensures a == b
  {
    assert |a| == |b|;
    assert a == (a + "*")[..|a|] == (b + "*")[..|b|] == b;
  }

  /** The wildcard entries hold exactly one key per language, `id + "*"`,
      and it maps back to that id, whatever the order of assignment. */
  lemma {:induction false} WildcardEntriesContents(languages: seq<SiteLanguage>)
    ensures forall k :: k in WildcardEntries(languages) <==>
      exists i :: 0 <= i < |languages| && k == languages[i].id + "*"
    ensures forall i :: 0 <= i < |languages| ==>
      languages[i].id + "*" in WildcardEntries(languages) &&
      WildcardEntries(languages)[languages[i].id + "*"] == languages[i].id
  {
    if languages != [] {
      var n := |languages|;
      var init := languages[..n - 1];
      var last := languages[n - 1];
      WildcardEntriesContents(init);
      var m := WildcardEntries(languages);
      forall k ensures k in m <==> exists i :: 0 <= i < n && k == languages[i].id + "*" {
        if k in m && k != last.id + "*" {
          assert k in WildcardEntries(init);
          var j :| 0 <= j < |init| && k == init[j].id + "*";
          assert languages[j] == init[j];
        }
        if exists i :: 0 <= i < n && k == languages[i].id + "*" {
          var j :| 0 <= j < n && k == languages[j].id + "*";
          if j < n - 1 { assert languages[j] == init[j]; }
        }
      }
      forall i | 0 <= i < n
        ensures languages[i].id + "*" in m && m[languages[i].id + "*"] == languages[i].id
      {
        if i < n - 1 {
          assert languages[i] == init[i];
          if languages[i].id + "*" == last.id + "*" {
            WildcardInjective(languages[i].id, last.id);
          }
        }
      }
    }
  }

  /** The wildcard map the configuration block registers: each `id + "*"`
      maps to `id`, except that `"*"` itself always ends as `"en"`; and no
      other key is present. */
  lemma LanguageKeyMapContents(languages: seq<SiteLanguage>)
    ensures "*" in LanguageKeyMap(languages) && LanguageKeyMap(languages)["*"] == "en"
    ensures forall i :: 0 <= i < |languages| && languages[i].id != "" ==>
      languages[i].id + "*" in LanguageKeyMap(languages) &&
      LanguageKeyMap(languages)[languages[i].id + "*"] == languages[i].id
    ensures forall k :: k in LanguageKeyMap(languages) <==>
      k == "*" || exists i :: 0 <= i < |languages| && k == languages[i].id + "*"
  {
    WildcardEntriesContents(languages);
    forall i | 0 <= i < |languages| && languages[i].id != ""
      ensures languages[i].id + "*" != "*"
    {
      assert |languages[i].id + "*"| > |"*"|;
    }
  }

  /** Distinct supported ids give a key list without repeats. */
  lemma LanguageIdsDistinct(languages: seq<SiteLanguage>)
    requires forall i, j :: 0 <= i < j < |languages| ==> languages[i].id != languages[j].id
    ensures forall i, j :: 0 <= i < j < |LanguageIds(languages)| ==>
      LanguageIds(languages)[i] != LanguageIds(languages)[j]
  {
  }

  /** The `forEach` loop of the configuration block followed by the `"*"`
      assignment: pushes each id onto the key list and assigns its wildcard
      entry, in order. */
  method RegisterLanguageKeys(languages: seq<SiteLanguage>)
    returns (availableLanguageKeys: seq<string>, availableLanguageKeysMap: map<string, string>)
    ensures availableLanguageKeys == LanguageIds(languages)
    ensures availableLanguageKeysMap == LanguageKeyMap(languages)
    ensures |availableLanguageKeys| == |languages|
    ensures availableLanguageKeysMap["*"] == "en"
  {
    availableLanguageKeys := [];
    availableLanguageKeysMap := map[];
    var i := 0;
    while i < |languages|
      invariant 0 <= i <= |languages|
      invariant availableLanguageKeys == LanguageIds(languages[..i])
      invariant availableLanguageKeysMap == WildcardEntries(languages[..i])
    {
      var language := languages[i];
      assert languages[..i + 1][..i] == languages[..i];
      availableLanguageKeys := availableLanguageKeys + [language.id];
      availableLanguageKeysMap := availableLanguageKeysMap[language.id + "*" := language.id];
      i := i + 1;
    }
    assert languages[..i] == languages;
    availableLanguageKeysMap := availableLanguageKeysMap["*" := "en"];
  }

  // ---------------------------------------------------------------------------
  // I18nFooter: initial language

  /** The page globals the footer controller reads. */
  datatype PageGlobals = PageGlobals(userIsLoggedIn: bool, preferredSiteLanguageCode: Option<string>)

  /** The language used when there is no usable preference. */
  const DefaultSiteLanguage: string := "zh-hans"

  /** JavaScript truthiness of the preferred code: absent and empty are false. */
  predicate HasPreferredCode(code: Option<string>)
    ensures !HasPreferredCode(code) <==> code == None || code == Some("")
  {
    code.Some? && code.value != ""
  }

  /** The language the footer passes to `$translate.use` on load. */
  function InitialLanguage(globals: PageGlobals): (language: string)
    ensures language != ""
    ensures globals.userIsLoggedIn && HasPreferredCode(globals.preferredSiteLanguageCode) ==>
      language == globals.preferredSiteLanguageCode.value
    ensures !(globals.userIsLoggedIn && HasPreferredCode(globals.preferredSiteLanguageCode)) ==>
      language == DefaultSiteLanguage
  {
    if globals.userIsLoggedIn && HasPreferredCode(globals.preferredSiteLanguageCode) then
      globals.preferredSiteLanguageCode.value
    else
      DefaultSiteLanguage
  }

  /** A visitor who is not logged in always starts in the default language,
      whatever preference the globals carry. */
  lemma LoggedOutUsesDefault(code: Option<string>)
    ensures InitialLanguage(PageGlobals(false, code)) == DefaultSiteLanguage
  {
  }

  /** The initial language is the preferred code or the default, nothing else. */
  lemma InitialLanguageIsPreferredOrDefault(globals: PageGlobals)
    ensures InitialLanguage(globals) == DefaultSiteLanguage ||
      (globals.preferredSiteLanguageCode.Some? &&
       InitialLanguage(globals) == globals.preferredSiteLanguageCode.value)
  {
  }
}
