/**
 * The small value rules of the views: how `markListItem` reads the
 * request's `is_done`, the overdue colour of the index page, and the two
 * colour palettes of the dark-mode switch.
 */
module Rules {
  import opened Wrappers
  import opened Text
  import opened Records

  /** A JSON scalar as `json.loads` hands it to a view: a boolean, an
      integer, a string or null (numbers with a fraction or an exponent,
      which become Python floats, are not modelled). */
  datatype JsonScalar = JBool(b: bool) | JInt(n: int) | JString(s: string) | JNull

  /** Python's `str(v)`; `int()` reads an integer's string back. */
  function PyStr(v: JsonScalar): (s: string)
    ensures v.JInt? ==> ParseInt(s) == Some(v.n)
  {
    match v
    case JBool(b) => if b then "True" else "False"
    case JInt(n) => ParseIntToString(n); IntToString(n)
    case JString(s) => s
    case JNull => "None"
  }

  /** Python's truth value of `v`. */
  predicate Truthy(v: JsonScalar)
  {
    match v
    case JBool(b) => b
    case JInt(n) => n != 0
    case JString(s) => s != ""
    case JNull => false
  }

  /** The completion flag `markListItem` stores for the string form of
      `is_done`: false exactly for "0", "False" and "false". */
  predicate IsDoneFlag(s: string)
  {
    !(s == "0" || s == "False" || s == "false")
  }

  /** For booleans and integers the flag is the value's truth value. */
  lemma IsDoneMatchesTruthiness(v: JsonScalar)
    requires v.JBool? || v.JInt?
    ensures IsDoneFlag(PyStr(v)) == Truthy(v)
  {
    if v.JInt? {
      var n := v.n;
      if n < 0 {
        assert PyStr(v)[0] == '-';
      } else if n == 0 {
        assert PyStr(v) == [DigitChar(0)];
      } else {
        var s := NatToString(n);
        assert IsDigit(s[0]);
        ParseNatToString(n);
        assert ParseNat("0") == Some(0) by {
          assert "0"[..0] == [];
        }
        assert s != "0";
      }
    }
  }

  /** Over booleans, integers, strings and null the flag is the value's
      truth value except for `null` and `""` (falsy, yet marking the item
      done) and for the strings "0", "False" and "false" (truthy, yet
      marking it not done). */
  lemma IsDoneTruthinessCases(v: JsonScalar)
    ensures IsDoneFlag(PyStr(v)) == Truthy(v) <==>
      !(v.JNull? || v == JString("") || v == JString("0") || v == JString("False") || v == JString("false"))
  {
    if v.JBool? || v.JInt? {
      IsDoneMatchesTruthiness(v);
    }
  }

  const OverdueRed := "#FF0000"
  const OnTimeBlack := "#000000"

  /** The colour the index page gives an item: red once the due date has
      passed, black on the due date and before it. */
  function OverdueColor(today: Date, due: Date): (c: string)
    ensures c == OverdueRed || c == OnTimeBlack
    ensures c == OverdueRed <==> today.day > due.day
  {
    if today.day > due.day then OverdueRed else OnTimeBlack
  }

  /** The three settings of the shared `config` dictionary. */
  datatype Palette = Palette(darkMode: bool, primaryColor: string, hoverColor: string)

  const Initial := Palette(false, "#0fa662", "#0b8f54")

  /** The colours that go with a mode; the light ones are those the
      dictionary starts with. */
  function PaletteFor(dark: bool): (p: Palette)
    ensures p.darkMode == dark
    ensures p == Initial <==> !dark
  {
    if dark then Palette(true, "#000000", "#cccccc") else Palette(false, "#0fa662", "#0b8f54")
  }

  /** A palette whose colours are those of its mode. */
  predicate Consistent(p: Palette)
  {
    p == PaletteFor(p.darkMode)
  }

  /** `config_hook`: flip the mode and set the colours of the new mode. */
  function Toggled(p: Palette): (q: Palette)
    ensures q.darkMode == !p.darkMode && Consistent(q)
  {
    PaletteFor(!p.darkMode)
  }

  /** Toggling twice restores a consistent palette, the initial one included. */
  lemma ToggleTwice(p: Palette)
    requires Consistent(p)
    ensures Toggled(Toggled(p)) == p
  {
  }
}
