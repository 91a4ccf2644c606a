/** The theme class the page body gets from the hour of the day. */
module TimeTheme {

  datatype Theme = Morning | Evening | Night

  /** The three class names of which the body carries exactly one. */
  const ThemeClasses: set<string> := {"time-morning", "time-evening", "time-night"}

  function ClassName(t: Theme): (c: string)
    ensures c in ThemeClasses
  {
    match t
    case Morning => "time-morning"
    case Evening => "time-evening"
    case Night => "time-night"
  }

  /** The theme of an hour (as `Date.getHours()` returns it, though any
      integer is accepted): morning from 6 to before 12, evening from 12 to
      before 18, night at every other hour. */
  function ThemeFor(hour: int): (t: Theme)
    ensures t == Morning <==> 6 <= hour < 12
    ensures t == Evening <==> 12 <= hour < 18
    ensures t == Night <==> hour < 6 || 18 <= hour
  {
    if hour >= 6 && hour < 12 then Morning
    else if hour >= 12 && hour < 18 then Evening
    else Night
  }

  /** `setTimeBasedTheme` on the body's class list: remove the three theme
      classes, then add the one for the hour. */
  function ApplyTimeTheme(classes: set<string>, hour: int): (r: set<string>)
    ensures r * ThemeClasses == {ClassName(ThemeFor(hour))}
    ensures r - ThemeClasses == classes - ThemeClasses
  {
    classes - ThemeClasses + {ClassName(ThemeFor(hour))}
  }

  /** After the update the body carries exactly one theme class, whatever
      it carried before. */
  lemma ExactlyOneThemeClass(classes: set<string>, hour: int, c: string, d: string)
    requires c in ThemeClasses && c in ApplyTimeTheme(classes, hour)
    requires d in ThemeClasses && d in ApplyTimeTheme(classes, hour)
    ensures c == d
  {
    assert c in ApplyTimeTheme(classes, hour) * ThemeClasses;
    assert d in ApplyTimeTheme(classes, hour) * ThemeClasses;
  }

  /** The result depends on the earlier theme classes not at all: applying
      the theme again, for any hour, replaces the previous one. */
  lemma ApplyTimeThemeOverwrites(classes: set<string>, h1: int, h2: int)
    ensures ApplyTimeTheme(ApplyTimeTheme(classes, h1), h2) == ApplyTimeTheme(classes, h2)
  {
  }
}
