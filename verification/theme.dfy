/** The light/dark theme: the body's theme class, the toggle's icon and the
    value persisted under the theme key. The stored value and the system
    colour-scheme preference are inputs; the click animation is left out. */
module Theme {
  import opened Wrappers

  const ThemeKey := "sportwebsite_theme"
  const LightClass := "theme-light"
  const DarkClass := "theme-dark"
  /** Sun (U+2600 with emoji presentation) shown in the light theme. */
  const SunIcon := "\U{2600}\U{FE0F}"
  /** Crescent moon shown in the dark theme. */
  const MoonIcon := "\U{1F319}"

  /** The page state the theme code touches: the body's classes, the icon
      element's text (`None` when the page has no icon element) and the
      persisted key/value store. The classes are a set: the script only
      adds, removes and tests them, and never reads their order. */
  datatype Page = Page(classes: set<string>, icon: Option<string>, store: map<string, string>)

  function IconFor(theme: string): string {
    if theme == "light" then SunIcon else MoonIcon
  }

  /** Exactly one of the two theme classes is on the body. */
  predicate Consistent(p: Page) {
    (LightClass in p.classes) != (DarkClass in p.classes)
  }

  /** The theme the toggle reads back from the body. */
  function CurrentTheme(p: Page): (t: string)
    ensures t == "light" || t == "dark"
    ensures Consistent(p) ==> (t == "light" <==> LightClass in p.classes) && (t == "dark" <==> DarkClass in p.classes)
  {
    if LightClass in p.classes then "light" else "dark"
  }

  /** Switch the body to `theme`: anything other than `"light"` means dark.
      Other classes and the store are untouched; an icon element, if
      present, shows the matching icon. */
  function ApplyTheme(p: Page, theme: string): (q: Page)
    ensures Consistent(q)
    ensures CurrentTheme(q) == (if theme == "light" then "light" else "dark")
    ensures q.classes - {LightClass, DarkClass} == p.classes - {LightClass, DarkClass}
    ensures q.icon.Some? <==> p.icon.Some?
    ensures q.icon.Some? ==> q.icon.value == IconFor(CurrentTheme(q))
    ensures q.store == p.store
  {
    var classes := p.classes - {LightClass, DarkClass};
    Page(
      classes + {if theme == "light" then LightClass else DarkClass},
      if p.icon.Some? then Some(IconFor(theme)) else None,
      p.store)
  }

  /** Applying a theme twice is applying it once. */
  lemma ApplyThemeIdempotent(p: Page, theme: string)
    ensures ApplyTheme(ApplyTheme(p, theme), theme) == ApplyTheme(p, theme)
  {
  }

  /** The theme shown at start-up: a stored `"light"` or `"dark"` wins;
      anything else, or nothing, defers to the system preference. */
  function InitialTheme(saved: Option<string>, prefersLight: bool): (t: string)
    ensures t == "light" || t == "dark"
    ensures t == "light" <==> saved == Some("light") || (saved != Some("dark") && prefersLight)
  {
    if saved == Some("light") || saved == Some("dark") then saved.value
    else if prefersLight then "light" else "dark"
  }

  /** A stored valid theme is restored whatever the system preference. */
  lemma SavedThemeWins(theme: string, prefersLight: bool)
    requires theme == "light" || theme == "dark"
    ensures InitialTheme(Some(theme), prefersLight) == theme
  {
  }

  function Saved(p: Page): Option<string> {
    if ThemeKey in p.store then Some(p.store[ThemeKey]) else None
  }

  /** Page load: apply the initial theme; nothing is written to the store. */
  function Startup(p: Page, prefersLight: bool): (q: Page)
    ensures Consistent(q) && q.store == p.store
    ensures CurrentTheme(q) == InitialTheme(Saved(p), prefersLight)
  {
    ApplyTheme(p, InitialTheme(Saved(p), prefersLight))
  }

  /** A click on the toggle: flip the theme read from the body and persist
      the new one. */
  function Toggle(p: Page): (q: Page)
    ensures Consistent(q)
    ensures CurrentTheme(q) != CurrentTheme(p)
    ensures q.store == p.store[ThemeKey := CurrentTheme(q)]
    ensures q.classes - {LightClass, DarkClass} == p.classes - {LightClass, DarkClass}
  {
    var next := if CurrentTheme(p) == "light" then "dark" else "light";
    var q := ApplyTheme(p, next);
    q.(store := q.store[ThemeKey := next])
  }

  /** The page shows one theme, the icon to match, and the store remembers
      it. */
  predicate Settled(p: Page) {
    && Consistent(p)
    && (p.icon.Some? ==> p.icon.value == IconFor(CurrentTheme(p)))
    && Saved(p) == Some(CurrentTheme(p))
  }

  /** On a settled page two clicks restore the class set, the icon and the
      store. */
  lemma ToggleTwice(p: Page)
    requires Settled(p)
    ensures Toggle(Toggle(p)) == p
  {
    var q := Toggle(Toggle(p));
    assert q.classes == p.classes by {
      assert q.classes - {LightClass, DarkClass} == p.classes - {LightClass, DarkClass};
      assert LightClass in q.classes <==> LightClass in p.classes;
      assert DarkClass in q.classes <==> DarkClass in p.classes;
    }
    assert q.store == p.store;
  }

  /** Any click leaves the page settled. */
  lemma ToggleSettles(p: Page)
    ensures Settled(Toggle(p))
  {
  }

  /** After start-up, whatever the store held, two clicks restore the
      classes and the icon and leave the start-up theme persisted. */
  lemma ToggleTwicePersists(p: Page, prefersLight: bool)
    ensures var s := Startup(p, prefersLight);
      && Toggle(Toggle(s)).classes == s.classes
      && Toggle(Toggle(s)).icon == s.icon
      && Saved(Toggle(Toggle(s))) == Some(CurrentTheme(s))
  {
    var s := Startup(p, prefersLight);
    var q := Toggle(Toggle(s));
    assert q.classes == s.classes by {
      assert q.classes - {LightClass, DarkClass} == s.classes - {LightClass, DarkClass};
      assert LightClass in q.classes <==> LightClass in s.classes;
      assert DarkClass in q.classes <==> DarkClass in s.classes;
    }
  }
}
