/**
  `format_city_state`: turning a "city_state" key into a display label, for
  one string or a list of strings.
 */
module Labels {
  import opened Text

  /** The argument: a string, a list of strings, or anything else. */
  datatype Label = Text(s: string) | Texts(items: seq<string>) | Other

  /** The outcome: a string, a list of strings, or the TypeError raised for anything else. */
  datatype Formatted = One(s: string) | Many(items: seq<string>) | TypeError

  /** The state the mapping writes for a missing one, compared after `lower()`. */
  const UnknownState: string := "unknown"

  /**
    One string: split at the first `_` into city and state, giving
    "city, state", or just the city when the state is unknown in any case;
    a string without `_` is returned as it is.
   */
  function FormatOne(cs: string): string
  {
    if '_' in cs then
      var (city, state) := SplitFirst(cs, '_');
      if Lower(state) != UnknownState then city + ", " + state else city
    else cs
  }

  /** The list branch's loop: one formatted entry appended per element, in order. */
  function FormatList(items: seq<string>): (r: seq<string>)
    ensures |r| == |items|
    ensures forall i :: 0 <= i < |items| ==> r[i] == FormatOne(items[i])
  {
    if |items| == 0 then []
    else FormatList(items[..|items| - 1]) + [FormatOne(items[|items| - 1])]
  }

  function FormatCityState(x: Label): (r: Formatted)
    ensures x.Text? <==> r.One?
    ensures x.Texts? <==> r.Many?
    ensures x.Other? <==> r.TypeError?
    ensures x.Text? ==> r.s == FormatOne(x.s)
    ensures x.Texts? ==> |r.items| == |x.items| && forall i :: 0 <= i < |x.items| ==> r.items[i] == FormatOne(x.items[i])
  {
    match x
    case Text(s) => One(FormatOne(s))
    case Texts(items) => Many(FormatList(items))
    case Other => TypeError
  }

  /** A string without `_` is returned unchanged. */
  lemma FormatOneKeeps(cs: string)
    requires '_' !in cs
    ensures FormatCityState(Text(cs)) == One(cs)
  {
  }

  /**
    Formatting undoes the `f'{city}_{state}'` key of a city without `_`:
    "city, state", or the city alone for an unknown state.
   */
  lemma FormatOfKey(city: string, state: string)
    requires '_' !in city
    ensures FormatOne(city + "_" + state) == if Lower(state) == UnknownState then city else city + ", " + state
  {
    SplitFirstOfJoin(city, '_', state);
    assert city + "_" + state == city + ['_'] + state;
  }

  lemma LowerUpperUnknown()
    ensures Lower("UNKNOWN") == UnknownState
  {
    var l := Lower("UNKNOWN");
    assert l[0] == 'u' && l[1] == 'n' && l[2] == 'k' && l[3] == 'n';
    assert l[4] == 'o' && l[5] == 'w' && l[6] == 'n';
  }

  /** The upper-case spelling of the unknown state is recognised too. */
  lemma FormatUpperUnknown(city: string)
    requires '_' !in city
    ensures FormatOne(city + "_UNKNOWN") == city
  {
    assert city + "_UNKNOWN" == city + "_" + "UNKNOWN";
    FormatOfKey(city, "UNKNOWN");
    LowerUpperUnknown();
  }
}
