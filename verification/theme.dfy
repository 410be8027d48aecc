/**
 * The light/dark theme switch. The state is the root element's
 * `data-theme` attribute, the `portfolio-theme` entry of local storage, the
 * `theme-color` meta tag, the toggle icon and the `themechange` events sent
 * so far. The operating system's colour-scheme preference and storage
 * failures are parameters of the operations that consult them.
 */
module Theme {
  import opened Wrappers

  const StorageKey: string := "portfolio-theme"
  const Dark: string := "dark"
  const Light: string := "light"
  const DarkColor: string := "#111827"
  const LightColor: string := "#f8f9fa"
  const SunIcon: string := "☀️"
  const MoonIcon: string := "🌙"

  /** The theme a toggle switches to: `light` from `dark`, `dark` from
      anything else, including no attribute at all. */
  function Toggled(current: Option<string>): (t: string)
    ensures t == Light <==> current == Some(Dark)
    ensures t == Dark <==> current != Some(Dark)
  {
    if current == Some(Dark) then Light else Dark
  }

  /** Toggling twice from `light` or `dark` comes back to it. */
  lemma ToggleTwice(t: string)
    requires t == Light || t == Dark
    ensures Toggled(Some(Toggled(Some(t)))) == t
  {
  }

  /** The `theme-color` value for a theme: dark for `dark`, light for anything else. */
  function ThemeColor(theme: string): (c: string)
    ensures c == DarkColor <==> theme == Dark
    ensures c == LightColor <==> theme != Dark
  {
    if theme == Dark then DarkColor else LightColor
  }

  /** The toggle icon: a sun exactly while the theme is dark, a moon otherwise. */
  function IconFor(theme: Option<string>): (icon: string)
    ensures icon == SunIcon <==> theme == Some(Dark)
    ensures icon == MoonIcon <==> theme != Some(Dark)
  {
    if theme == Some(Dark) then SunIcon else MoonIcon
  }

  /** `getSystemTheme`: `dark` exactly when `matchMedia` exists and the dark
      colour-scheme query matches. */
  function SystemTheme(hasMatchMedia: bool, prefersDark: bool): (t: string)
    ensures t == Dark <==> hasMatchMedia && prefersDark
    ensures t == Light <==> !(hasMatchMedia && prefersDark)
  {
    if hasMatchMedia && prefersDark then Dark else Light
  }

  /** A stored preference that counts: present and not the empty string. */
  predicate HasPreference(storage: map<string, string>) {
    StorageKey in storage && storage[StorageKey] != ""
  }

  /** The theme `loadSavedTheme` applies: a usable stored value as it is
      (not checked against `light`/`dark`), otherwise the system theme, also
      when reading storage fails. */
  function Resolved(storage: map<string, string>, readFails: bool, hasMatchMedia: bool, prefersDark: bool): (t: string)
    ensures !readFails && HasPreference(storage) ==> t == storage[StorageKey]
    ensures readFails || !HasPreference(storage) ==> t == SystemTheme(hasMatchMedia, prefersDark)
  {
    if !readFails && HasPreference(storage) then storage[StorageKey] else SystemTheme(hasMatchMedia, prefersDark)
  }

  /** The two start-up cases: the system preference applies when nothing is
      stored, and a stored choice wins over it. */
  lemma ResolutionExamples()
    ensures Resolved(map[], false, true, true) == Dark
    ensures Resolved(map[StorageKey := Light], false, true, true) == Light
  {
  }

  class ThemeManager {
    /** The `data-theme` attribute of the root element. */
    var dataTheme: Option<string>
    /** Local storage. */
    var storage: map<string, string>
    /** The content of the `theme-color` meta tag, `None` while there is no tag. */
    var metaColor: Option<string>
    /** The text of the toggle icon. */
    var icon: string
    /** The `detail.theme` of every `themechange` event dispatched, in order. */
    var announced: seq<string>
    /** Whether a listener for system colour-scheme changes is registered. */
    var watching: bool

    /** `setTheme`: set the attribute, the meta colour and announce the theme. */
    method SetTheme(theme: string)
      modifies this
      ensures dataTheme == Some(theme)
      ensures metaColor == Some(ThemeColor(theme))
      ensures announced == old(announced) + [theme]
      ensures storage == old(storage) && icon == old(icon) && watching == old(watching)
    {
      dataTheme := Some(theme);
      metaColor := Some(ThemeColor(theme));
      announced := announced + [theme];
    }

    /** `updateThemeIcon`: the icon follows the current attribute. */
    method UpdateThemeIcon()
      modifies this`icon
      ensures icon == IconFor(dataTheme)
    {
      icon := IconFor(dataTheme);
    }

    /** `saveTheme`: store the theme; a failing write is swallowed and
        changes nothing. */
    method SaveTheme(theme: string, writeFails: bool)
      modifies this`storage
      ensures storage == if writeFails then old(storage) else old(storage)[StorageKey := theme]
    {
      if !writeFails {
        storage := storage[StorageKey := theme];
      }
    }

    /** `toggleTheme`: apply and store the other theme, then refresh the icon.
        A failing save leaves the applied theme in place. */
    method ToggleTheme(writeFails: bool)
      modifies this
      ensures dataTheme == Some(Toggled(old(dataTheme)))
      ensures metaColor == Some(ThemeColor(Toggled(old(dataTheme))))
      ensures announced == old(announced) + [Toggled(old(dataTheme))]
      ensures storage == if writeFails then old(storage)
                         else old(storage)[StorageKey := Toggled(old(dataTheme))]
      ensures icon == IconFor(dataTheme)
      ensures watching == old(watching)
    {
      var newTheme := Toggled(dataTheme);
      SetTheme(newTheme);
      SaveTheme(newTheme, writeFails);
      UpdateThemeIcon();
    }

    /** `loadSavedTheme`: apply the stored preference when there is a usable
        one, the system theme otherwise. It does not refresh the icon. */
    method LoadSavedTheme(readFails: bool, hasMatchMedia: bool, prefersDark: bool)
      modifies this
      ensures dataTheme == Some(Resolved(old(storage), readFails, hasMatchMedia, prefersDark))
      ensures metaColor == Some(ThemeColor(Resolved(old(storage), readFails, hasMatchMedia, prefersDark)))
      ensures announced == old(announced) + [Resolved(old(storage), readFails, hasMatchMedia, prefersDark)]
      ensures storage == old(storage) && icon == old(icon) && watching == old(watching)
    {
      if !readFails && StorageKey in storage {
        var saved := storage[StorageKey];
        if saved != "" {
          SetTheme(saved);
          return;
        }
      }
      SetTheme(SystemTheme(hasMatchMedia, prefersDark));
    }

    /** The colour-scheme change listener: apply the new system theme only
        when no preference is stored. Its storage read is not guarded, so a
        failing read aborts the listener and nothing changes. */
    method OnSystemThemeChange(matchesDark: bool, readFails: bool)
      modifies this
      ensures !watching || readFails || HasPreference(old(storage)) ==>
                dataTheme == old(dataTheme) && metaColor == old(metaColor)
                && announced == old(announced) && icon == old(icon)
      ensures watching && !readFails && !HasPreference(old(storage)) ==>
                && dataTheme == Some(if matchesDark then Dark else Light)
                && metaColor == Some(ThemeColor(if matchesDark then Dark else Light))
                && announced == old(announced) + [if matchesDark then Dark else Light]
                && icon == IconFor(dataTheme)
      ensures storage == old(storage) && watching == old(watching)
    {
      if watching && !readFails && !HasPreference(storage) {
        SetTheme(if matchesDark then Dark else Light);
        UpdateThemeIcon();
      }
    }

    /** `new ThemeManager()`: set the icon from the attribute the page starts
        with, load the saved theme, and listen for system changes when
        `matchMedia` exists. The theme-colour meta tag the page starts with
        is not a parameter: loading the theme always sets or creates it. */
    constructor (initialTheme: Option<string>, initialStorage: map<string, string>,
                 readFails: bool, hasMatchMedia: bool, prefersDark: bool)
      ensures dataTheme == Some(Resolved(initialStorage, readFails, hasMatchMedia, prefersDark))
      ensures metaColor == Some(ThemeColor(Resolved(initialStorage, readFails, hasMatchMedia, prefersDark)))
      ensures announced == [Resolved(initialStorage, readFails, hasMatchMedia, prefersDark)]
      ensures icon == IconFor(initialTheme)
      ensures storage == initialStorage
      ensures watching == hasMatchMedia
    {
      dataTheme := initialTheme;
      storage := initialStorage;
      metaColor := None;
      icon := "";
      announced := [];
      watching := false;
      new;
      UpdateThemeIcon();
      LoadSavedTheme(readFails, hasMatchMedia, prefersDark);
      watching := hasMatchMedia;
    }
  }

  /** Two toggles from `light` or `dark` restore the theme, and each stores
      the theme it applied. */
  method ToggleTwiceRestores(m: ThemeManager)
    requires m.dataTheme == Some(Light) || m.dataTheme == Some(Dark)
    modifies m
    ensures m.dataTheme == old(m.dataTheme)
    ensures m.storage == old(m.storage)[StorageKey := old(m.dataTheme).value]
    ensures m.announced == old(m.announced) + [Toggled(old(m.dataTheme)), old(m.dataTheme).value]
  {
    m.ToggleTheme(false);
    m.ToggleTheme(false);
  }

  /** A save that fails after a toggle keeps the theme the toggle applied. */
  method FailedSaveKeepsTheme(m: ThemeManager)
    modifies m
    ensures m.dataTheme == Some(Toggled(old(m.dataTheme)))
    ensures m.storage == old(m.storage)
  {
    m.ToggleTheme(true);
  }
}
