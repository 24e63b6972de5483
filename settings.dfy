/** The module-level `config` dictionary the pages read their colours from,
    and the `config_hook` view that switches dark mode. */
module Settings {
  import opened Rules

  class Config {
    var darkMode: bool
    var primaryColor: string
    var hoverColor: string

    function State(): Palette
      reads this
    {
      Palette(darkMode, primaryColor, hoverColor)
    }

    /** The dictionary as the module defines it. */
    constructor ()
      ensures State() == Initial && Consistent(State())
    {
      darkMode := false;
      primaryColor := "#0fa662";
      hoverColor := "#0b8f54";
    }

    /** `config_hook`: flips dark mode, sets both colours for the new mode
        and names the page to redirect to. */
    method Hook(page: string) returns (target: string)
      modifies this
      ensures State() == Toggled(old(State()))
      ensures target == "todo:" + page
    {
      darkMode := !darkMode;
      if darkMode {
        primaryColor := "#000000";
        hoverColor := "#cccccc";
      } else {
        primaryColor := "#0fa662";
        hoverColor := "#0b8f54";
      }
      target := "todo:" + page;
    }
  }
}
