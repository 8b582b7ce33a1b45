/** The settings provider: the UI theme and language, restored from the browser's
    local storage at start-up and written back whenever they change, and the
    translation function `t`. Local storage is a string-to-string map here; the
    translation tables are a parameter. */
module Settings {

  import opened Options

  datatype Theme = Cyberpunk | Hacker

  datatype Language = En | Zh

  function ThemeName(t: Theme): string {
    match t
    case Cyberpunk => "cyberpunk"
    case Hacker => "hacker"
  }

  function LanguageName(l: Language): string {
    match l
    case En => "en"
    case Zh => "zh"
  }

  const ThemeKey: string := "atools_theme"
  const LanguageKey: string := "atools_language"

  /** The theme at start-up: the stored one if it names a theme, else cyberpunk. */
  function InitialTheme(saved: Option<string>): (r: Theme)
    ensures r == Hacker <==> saved == Some("hacker")
  {
    if saved == Some("cyberpunk") then Cyberpunk
    else if saved == Some("hacker") then Hacker
    else Cyberpunk
  }

  /** The language at start-up: the stored one if it names a language, else Chinese. */
  function InitialLanguage(saved: Option<string>): (r: Language)
    ensures r == En <==> saved == Some("en")
  {
    if saved == Some("en") then En
    else if saved == Some("zh") then Zh
    else Zh
  }

  /** `localStorage.getItem`. */
  function Get(storage: map<string, string>, key: string): Option<string> {
    if key in storage then Some(storage[key]) else None
  }

  /** What the two effects write: the current theme and language under their keys. */
  function Persist(storage: map<string, string>, theme: Theme, language: Language): (r: map<string, string>)
    ensures r.Keys == storage.Keys + {ThemeKey, LanguageKey}
    ensures forall k :: k in storage && k != ThemeKey && k != LanguageKey ==> r[k] == storage[k]
    ensures r[ThemeKey] == ThemeName(theme) && r[LanguageKey] == LanguageName(language)
  {
    storage[ThemeKey := ThemeName(theme)][LanguageKey := LanguageName(language)]
  }

  /** What the provider starts with. */
  function Restore(storage: map<string, string>): (Theme, Language) {
    (InitialTheme(Get(storage, ThemeKey)), InitialLanguage(Get(storage, LanguageKey)))
  }

  /** Every theme and language survives a restart. */
  lemma PersistRestore(storage: map<string, string>, theme: Theme, language: Language)
    ensures Restore(Persist(storage, theme, language)) == (theme, language)
  {
    assert Persist(storage, theme, language)[ThemeKey] == ThemeName(theme);
  }

  /** A stored name is read back exactly when it names a theme or a language; anything
      else, or nothing, gives the defaults. */
  lemma RestoreNames(storage: map<string, string>, theme: Theme, language: Language)
    ensures Get(storage, ThemeKey) == Some(ThemeName(theme)) ==> Restore(storage).0 == theme
    ensures Get(storage, LanguageKey) == Some(LanguageName(language)) ==> Restore(storage).1 == language
    ensures (forall t: Theme :: Get(storage, ThemeKey) != Some(ThemeName(t))) ==> Restore(storage).0 == Cyberpunk
    ensures (forall l: Language :: Get(storage, LanguageKey) != Some(LanguageName(l))) ==> Restore(storage).1 == Zh
  {
    if forall t: Theme :: Get(storage, ThemeKey) != Some(ThemeName(t)) {
      assert Get(storage, ThemeKey) != Some(ThemeName(Hacker));
    }
    if forall l: Language :: Get(storage, LanguageKey) != Some(LanguageName(l)) {
      assert Get(storage, LanguageKey) != Some(LanguageName(En));
    }
  }

  /** Start-up writes back what it restored, after which a restart restores the same:
      an unreadable stored value is replaced by the default once and for all. */
  lemma RestoreNormalises(storage: map<string, string>)
    ensures var s := Persist(storage, Restore(storage).0, Restore(storage).1);
      && Restore(s) == Restore(storage)
      && Get(s, ThemeKey) == Some(ThemeName(Restore(storage).0))
      && Get(s, LanguageKey) == Some(LanguageName(Restore(storage).1))
  {
    PersistRestore(storage, Restore(storage).0, Restore(storage).1);
  }

  // ---------------------------------------------------------------------------
  // translation

  /** The translation tables, one per language. */
  datatype Translations = Translations(en: map<string, string>, zh: map<string, string>)

  function Table(tr: Translations, l: Language): map<string, string> {
    match l
    case En => tr.en
    case Zh => tr.zh
  }

  /** `t(key)`: the current language's text for the key, or the key itself when the
      table has no text (or an empty one) for it. */
  function Translate(tr: Translations, l: Language, key: string): (r: string)
    ensures r == key || (key in Table(tr, l) && r == Table(tr, l)[key])
    ensures r != "" <==> key != "" || (key in Table(tr, l) && Table(tr, l)[key] != "")
    ensures key !in Table(tr, l) ==> r == key
    ensures key in Table(tr, l) && Table(tr, l)[key] != "" ==> r == Table(tr, l)[key]
  {
    var table := Table(tr, l);
    if key in table && table[key] != "" then table[key] else key
  }

  /** A non-empty key never renders as blank text, and a key with a translation renders
      as that translation. */
  lemma TranslateSpec(tr: Translations, l: Language, key: string)
    ensures key != "" ==> Translate(tr, l, key) != ""
    ensures key in Table(tr, l) && Table(tr, l)[key] != "" ==> Translate(tr, l, key) == Table(tr, l)[key]
    ensures key in Table(tr, l) && Table(tr, l)[key] == "" ==> Translate(tr, l, key) == key
  {
  }
}
