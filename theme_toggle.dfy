/** The dark/light theme controller of the site (one script, deployed twice with the
    same logic). Its state is the stored override (`localStorage` key `theme`), the
    browser's "prefers dark" media query, the document's `data-theme` attribute and
    the toggle button's `aria-pressed` attribute. Page load, a toggle click, a reset
    click and a change of the system preference are the four operations. */
module ThemeToggle {
  import opened Wrappers

  const Dark := "dark"
  const Light := "light"

  /** A stored value overrides the system only when it is present and non-empty
      (`if (savedTheme)` treats null and "" alike). */
  predicate HasOverride(stored: Option<string>) {
    stored.Some? && stored.value != ""
  }

  /** The theme the system preference calls for (`matches ? 'dark' : 'light'`). */
  function SystemTheme(systemDark: bool): (t: string)
    ensures t == Dark || t == Light
    ensures t == Dark <==> systemDark
  {
    if systemDark then Dark else Light
  }

  /** `getTheme`: the stored override, verbatim, when there is one; otherwise the
      system preference. The result is never empty, so a theme is always defined. */
  function EffectiveTheme(stored: Option<string>, systemDark: bool): (t: string)
    ensures t != ""
    ensures HasOverride(stored) ==> t == stored.value
    ensures !HasOverride(stored) ==> (t == Dark || t == Light) && (t == Dark <==> systemDark)
  {
    if HasOverride(stored) then stored.value else SystemTheme(systemDark)
  }

  /** The theme a toggle click switches to: `light` after `dark`, `dark` after anything else. */
  function Toggled(t: string): (r: string)
    ensures r == Dark || r == Light
    ensures r != t
    ensures r == Light <==> t == Dark
  {
    if t == Dark then Light else Dark
  }

  /** On the two legal theme values, toggling is an involution. */
  lemma ToggledTwice(t: string)
    requires t == Dark || t == Light
    ensures Toggled(Toggled(t)) == t
  {
  }

  class ThemeController {
    /** `localStorage.getItem('theme')`: None when the key is absent. */
    var stored: Option<string>
    /** `prefersDark.matches`, owned by the browser. */
    var systemDark: bool
    /** The `data-theme` attribute of the document element. */
    var dataTheme: string
    /** The toggle button's `aria-pressed` attribute. */
    var ariaPressed: bool

    /** What the page shows is what `getTheme` would answer, and the button's
        pressed state says whether that is the dark theme. */
    ghost predicate Valid()
      reads this
    {
      && dataTheme == EffectiveTheme(stored, systemDark)
      && ariaPressed == (dataTheme == Dark)
    }

    /** `setTheme(theme, persist)`: both attributes always, storage only when asked. */
    method SetTheme(theme: string, persist: bool)
      modifies this
      ensures dataTheme == theme && ariaPressed == (theme == Dark)
      ensures stored == if persist then Some(theme) else old(stored)
      ensures systemDark == old(systemDark)
    {
      dataTheme := theme;
      ariaPressed := theme == Dark;
      if persist {
        stored := Some(theme);
      }
    }

    /** Page load: apply `getTheme()` without persisting it. */
    constructor (initialStored: Option<string>, prefersDark: bool)
      ensures Valid()
      ensures stored == initialStored && systemDark == prefersDark
    {
      stored := initialStored;
      systemDark := prefersDark;
      dataTheme := "";
      ariaPressed := false;
      new;
      SetTheme(EffectiveTheme(stored, systemDark), false);
    }

    /** Toggle click: flip the effective theme and persist the choice, so that a
        later `getTheme` (after a reload, say) answers the new theme. */
    method ToggleClick()
      modifies this
      ensures Valid()
      ensures dataTheme == Toggled(old(EffectiveTheme(stored, systemDark)))
      ensures stored == Some(dataTheme)
      ensures systemDark == old(systemDark)
    {
      var currentTheme := EffectiveTheme(stored, systemDark);
      var newTheme := Toggled(currentTheme);
      SetTheme(newTheme, true);
    }

    /** Reset click: remove the override and follow the system again. */
    method ResetClick()
      modifies this
      ensures Valid()
      ensures stored == None
      ensures dataTheme == SystemTheme(systemDark)
      ensures systemDark == old(systemDark)
    {
      stored := None;
      SetTheme(EffectiveTheme(stored, systemDark), false);
    }

    /** The media query's `change` event: the browser updates `matches`, and the
        listener re-applies the system theme only when no override is stored. It
        never writes storage. */
    method SystemChange(matches: bool)
      modifies this
      ensures systemDark == matches && stored == old(stored)
      ensures HasOverride(stored) ==> dataTheme == old(dataTheme) && ariaPressed == old(ariaPressed)
      ensures !HasOverride(stored) ==> dataTheme == SystemTheme(matches) && Valid()
      ensures old(Valid()) ==> Valid()
    {
      systemDark := matches;
      if !HasOverride(stored) {
        SetTheme(SystemTheme(matches), false);
      }
    }
  }

  /** Two toggle clicks in a row bring back the original theme when it was
      `dark` or `light`, and leave that theme stored as the override. */
  method ToggleTwice(c: ThemeController)
    modifies c
    ensures EffectiveTheme(old(c.stored), old(c.systemDark)) in {Dark, Light} ==>
              c.dataTheme == EffectiveTheme(old(c.stored), old(c.systemDark))
    ensures c.Valid() && c.stored == Some(c.dataTheme)
  {
    ghost var before := EffectiveTheme(c.stored, c.systemDark);
    c.ToggleClick();
    c.ToggleClick();
    if before in {Dark, Light} {
      ToggledTwice(before);
    }
  }
}
