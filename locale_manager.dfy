/**
 The app's display language: Japanese or English, remembered across launches under
 the preference key "AppLanguage".
 */
module Locale {

  import opened Options
  import opened Storage

  /** The preference key the language is stored under. */
  const AppLanguageKey := "AppLanguage"

  /** The language used when none has been stored. */
  const DefaultLocale := "ja"

  /** The language the toggle switches to: English from Japanese, Japanese from anything else. */
  function Toggled(locale: string): (r: string)
    ensures r == "ja" || r == "en"
    ensures locale == "ja" ==> r == "en"
    ensures locale != "ja" ==> r == "ja"
  {
    if locale == "ja" then "en" else "ja"
  }

  /** Toggling twice between the two supported languages returns to the first. */
  lemma ToggledTwice(locale: string)
    requires locale == "ja" || locale == "en"
    ensures Toggled(Toggled(locale)) == locale
  {
  }

  /** The language a new manager starts with: the stored one, or Japanese. */
  function InitialLocale(stored: Option<string>): (r: string)
    ensures stored.Some? ==> r == stored.value
    ensures stored.None? ==> r == DefaultLocale
  {
    match stored
    case Some(s) => s
    case None => DefaultLocale
  }

  class LocaleManager {
    /** The current language code. */
    var currentLocale: string
    /** The preference store (`UserDefaults.standard`). */
    const defaults: Defaults

    /**
     Starts with the stored language, or Japanese when none is stored. An assignment in
     the owner's own initialiser does not run `didSet`, so nothing is written.
     */
    constructor (defaults: Defaults)
      ensures this.defaults == defaults
      ensures currentLocale == InitialLocale(defaults.StringFor(AppLanguageKey))
    {
      this.defaults := defaults;
      currentLocale := InitialLocale(defaults.StringFor(AppLanguageKey));
    }

    /** The stored language is the current one. */
    predicate Persisted()
      reads this, defaults
    {
      defaults.StringFor(AppLanguageKey) == Some(currentLocale)
    }

    /** An assignment to `currentLocale`, followed by its `didSet` observer writing it out. */
    method SetCurrentLocale(locale: string)
      modifies this`currentLocale, defaults
      ensures currentLocale == locale
      ensures defaults.entries == old(defaults.entries)[AppLanguageKey := StringValue(locale)]
      ensures Persisted()
    {
      currentLocale := locale;
      defaults.Set(AppLanguageKey, StringValue(currentLocale));
    }

    /** `toggleLocale()`: switches the language and writes the new one out. */
    method ToggleLocale()
      modifies this`currentLocale, defaults
      ensures currentLocale == Toggled(old(currentLocale))
      ensures defaults.entries == old(defaults.entries)[AppLanguageKey := StringValue(currentLocale)]
      ensures Persisted()
    {
      SetCurrentLocale(Toggled(currentLocale));
    }
  }
}
