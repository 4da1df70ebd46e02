/**
 The table style registry: a header flag and the style map, configured in
 place by presets, modifiers and single-component sets, and read by the
 renderer through three accessors.
 */
module Table {
  import opened Wrappers
  import opened Components
  import opened StyleMap

  class TableStyle {
    /** Whether the table has a header row; nothing in this class changes it after construction. */
    var hasHeader: bool
    /** The configured character of each drawn component. */
    var style: Style

    /** A new style with no header and `defaultPreset` loaded into an empty
        map. The built-in default preset itself is a parameter here. */
    constructor (defaultPreset: seq<char>)
      ensures !hasHeader
      ensures style == AfterPreset(map[], defaultPreset)
    {
      hasHeader := false;
      style := map[];
      new;
      LoadPreset(defaultPreset);
    }

    /** Walks the preset and the canonical component order in lock-step: a
        space removes the component's mapping, any other character sets it;
        stops when either runs out. */
    method LoadPreset(preset: seq<char>)
      modifies this
      ensures hasHeader == old(hasHeader)
      ensures style == AfterPreset(old(style), preset)
    {
      var i := 0;
      while i < |preset|
        invariant 0 <= i <= |preset|
        invariant i <= |AllComponents|
        invariant hasHeader == old(hasHeader)
        invariant style == AfterPreset(old(style), preset[..i])
      {
        if i < |AllComponents| {
          var component, character := AllComponents[i], preset[i];
          PresetStep(old(style), preset, i);
          if character == ' ' {
            style := style - {component};
          } else {
            style := style[component := character];
          }
        } else {
          break;
        }
        i := i + 1;
      }
      if i < |preset| {
        PresetIgnoresTail(old(style), preset);
      } else {
        assert preset[..i] == preset;
      }
    }

    /** Overlays a modifier: spaces are skipped before the next component is
        taken, every other character overwrites that component; nothing is
        ever removed. */
    method ApplyModifier(modifier: seq<char>)
      modifies this
      ensures hasHeader == old(hasHeader)
      ensures style == AfterModifier(old(style), modifier)
    {
      var i, next := 0, 0;
      while i < |modifier|
        invariant 0 <= i <= |modifier|
        invariant next == |NonSpace(modifier[..i])| <= ComponentCount
        invariant hasHeader == old(hasHeader)
        invariant style == AfterModifier(old(style), modifier[..i])
      {
        var character := modifier[i];
        ModifierStep(old(style), modifier, i);
        if character != ' ' {
          if next < |AllComponents| {
            style := style[AllComponents[next] := character];
            next := next + 1;
          } else {
            ModifierStopsWhenComponentsRunOut(old(style), modifier, i);
            break;
          }
        }
        i := i + 1;
      }
      assert i == |modifier| ==> modifier[..i] == modifier;
    }

    /** Sets one component's character when given one; given None it changes nothing. */
    method SetStyle(component: Component, character: Option<char>)
      modifies this
      ensures hasHeader == old(hasHeader)
      ensures style == match character
        case Some(ch) => old(style)[component := ch]
        case None => old(style)
      ensures character.Some? ==> GetStyle(component) == character
      ensures forall c :: c != component ==> GetStyle(c) == old(GetStyle(c))
    {
      match character
      case Some(ch) =>
        style := style[component := ch];
      case None =>
    }

    /** A copy of the character configured for `component`, if any. */
    function GetStyle(component: Component): (r: Option<char>)
      reads this
      ensures r.Some? <==> component in style
      ensures r.Some? ==> r.value == style[component]
    {
      Lookup(style, component)
    }

    /** The configured character as a one-character string, or a single
        space when the component is not configured. */
    function StyleOrDefault(component: Component): (s: seq<char>)
      reads this
      ensures |s| == 1
      ensures GetStyle(component).None? ==> s == " "
      ensures GetStyle(component).Some? ==> s[0] == GetStyle(component).value
    {
      match Lookup(style, component)
      case None => " "
      case Some(ch) => [ch]
    }

    /** Whether a character is configured for `component`. */
    function StyleExists(component: Component): (b: bool)
      reads this
      ensures b <==> GetStyle(component).Some?
    {
      component in style
    }
  }
}
