/**
 * The colour theme: the `data-theme` attribute of the page and the
 * "voxonTheme" storage key. Loading takes the stored theme, or "light" when
 * none (or an empty one) is stored; toggling turns "light" into "dark" and
 * anything else into "light", and stores the new theme.
 */
module Theme {
  import opened JsText

  const Light := "light"
  const Dark := "dark"

  /** `savedTheme || "light"` */
  function LoadedTheme(saved: Option<string>): (theme: string)
    ensures theme != []
    ensures saved.Some? && saved.value != [] ==> theme == saved.value
    ensures saved.None? || saved.value == [] ==> theme == Light
  {
    if saved.Some? && saved.value != [] then saved.value else Light
  }

  /** The theme after a toggle from `current` (an absent attribute is not "light"). */
  function Toggled(current: Option<string>): (theme: string)
    ensures theme == Light || theme == Dark
    ensures theme == Dark <==> current == Some(Light)
  {
    if current == Some(Light) then Dark else Light
  }

  /** Toggling twice returns to light or dark; from anything else, two toggles end on dark. */
  lemma ToggleTwice(current: Option<string>)
    ensures current == Some(Light) || current == Some(Dark) ==> Some(Toggled(Some(Toggled(current)))) == current
    ensures current != Some(Light) && current != Some(Dark) ==> Toggled(Some(Toggled(current))) == Dark
  {
  }

  class ThemeState {
    /** The `data-theme` attribute; `None` before the theme is loaded. */
    var attribute: Option<string>
    /** The "voxonTheme" storage key. */
    var saved: Option<string>

    constructor (saved: Option<string>)
      ensures attribute == None && this.saved == saved
    {
      attribute := None;
      this.saved := saved;
    }

    /** `loadTheme` */
    method LoadTheme()
      modifies this
      ensures attribute == Some(LoadedTheme(saved)) && saved == old(saved)
    {
      attribute := Some(LoadedTheme(saved));
    }

    /** `toggleTheme` */
    method Toggle()
      modifies this
      ensures attribute == Some(Toggled(old(attribute)))
      ensures saved == attribute
      ensures Persisted()
    {
      var theme := Toggled(attribute);
      attribute := Some(theme);
      saved := Some(theme);
    }

    /** The stored theme is the shown one, so a reload shows it again. */
    predicate Persisted()
      reads this
    {
      attribute.Some? && attribute.value != [] && saved == attribute
    }
  }

  /** After a toggle the page reloads with the theme it showed. */
  lemma ToggleSurvivesReload(t: ThemeState)
    requires t.Persisted()
    ensures LoadedTheme(t.saved) == t.attribute.value
  {
  }
}
