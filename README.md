# comfy-table style registry, modelled in Dafny

This project models the table style registry of comfy-table
(`src/style/table.rs`): the closed, ordered set of drawable table parts
(`Component`), and `TableStyle`, which maps each part to the one character
that draws it and is configured from compact positional strings.

- `components.dfy` — module `Components`: the 19 components as a datatype,
  `AllComponents`, the order in which the component iterator yields them, and
  `Ordinal`, a component's position in that order.
- `style_map.dfy` — module `StyleMap`: the style map as a value
  (`map<Component, char>`; an absent component is not drawn) and what each
  parser makes of it. `AfterPreset` is the preset walk: component and
  character in lock-step, a space removes, anything else sets.
  `AfterModifier` is the modifier walk: spaces are dropped before a component
  is taken, and every other character overwrites (`NonSpace`, then
  `Overlay`). Both are defined over the prefix read so far, as the loops read
  it. The lemmas say what each parser does to every component, and state
  idempotence, the ignored tail and that modifiers never remove a mapping.
- `table.dfy` — module `Table`: class `TableStyle` with the fields
  `hasHeader` and `style`. The mutators (`LoadPreset`, `ApplyModifier`,
  `SetStyle`, the constructor) are methods that update `style` in place, with
  loops and invariants where the source loops. The readers (`GetStyle`,
  `StyleOrDefault`, `StyleExists`) are functions.
- `wrappers.dfy` — module `Wrappers`: `Option`, standing for Rust's `Option<char>`.

Behaviour followed where documentation and code disagree:

- Modifier strings. In the code, a space is skipped *before* the component
  iterator advances, so spaces use no component slot: the k-th non-space
  character goes to the k-th component. A reading where "a space leaves that
  position's component alone" is not what the code does. For example,
  `"X Y"` sets LeftBorder to X and RightBorder to Y, and leaves TopBorder as
  it was (`StyleMap.ModifierExample`).
- Short presets. The doc comment at `src/style/table.rs:87` says that
  components past the end of a short preset fall back to the ASCII_FULL
  style. The code leaves them as they were, and so does the model
  (`StyleMap.AfterPresetAt`).
- `set_style` with `None`. The doc comment at `src/style/table.rs:133` says
  `None` hides the element. The code does nothing with `None`, and so does the
  model (`Table.TableStyle.SetStyle`).

## Model

| member | source | states |
|---|---|---|
| `Components.Ordinal` | src/style/table.rs:39-60 | every component has a position below 19 in the iteration order, and that position holds the component |
| `Table.TableStyle.constructor` | src/style/table.rs:71-79 | a new style has no header, and its map is the default preset loaded into an empty map |
| `Table.TableStyle.LoadPreset` | src/style/table.rs:90-108 | the header flag is kept, and the new map is `AfterPreset` of the old map and the preset; the lemmas below say what that map is, component by component |
| `StyleMap.AfterPresetAt` | src/style/table.rs:91-107 | after a preset, a component the preset reaches reads as its character (none for a space), and a component past the preset's end reads as it did before |
| `StyleMap.PresetIgnoresTail` | src/style/table.rs:94-106 | characters past the 19th change nothing: the result equals that of the first 19 characters |
| `StyleMap.PresetIdempotent` | src/style/table.rs:90-108 | loading the same preset twice gives the same map as loading it once |
| `StyleMap.FullPresetForgetsPrior` | src/style/table.rs:90-108 | a preset of 19 or more characters gives the same map whatever was configured before |
| `StyleMap.PresetExample` | src/style/table.rs:93-103 | preset "AB C" sets LeftBorder to A, RightBorder to B and BottomBorder to C, removes TopBorder, and leaves TopLeftCorner as it was |
| `StyleMap.NonSpace` | src/style/table.rs:115-119 | the characters the modifier loop uses are never more than the input's characters |
| `StyleMap.NonSpaceHasNoSpaces` | src/style/table.rs:116-119 | no space reaches a component: the characters the modifier loop uses contain no space |
| `StyleMap.NonSpaceKeepsOthers` | src/style/table.rs:115-121 | every non-space character of the modifier is used, as often as it occurs in the modifier |
| `Table.TableStyle.ApplyModifier` | src/style/table.rs:112-128 | the header flag is kept, and the new map is `AfterModifier` of the old map and the modifier; the lemmas below say what that map is, component by component |
| `StyleMap.AfterModifierAt` | src/style/table.rs:113-125 | after a modifier, component k reads as the k-th non-space character if there is one, and as before otherwise |
| `StyleMap.ModifierStopsWhenComponentsRunOut` | src/style/table.rs:120-124 | once 19 non-space characters have been used, the rest of the modifier changes nothing |
| `StyleMap.ModifierOnlyAdds` | src/style/table.rs:115-125 | a modifier never removes a mapping, and any component it newly maps gets a non-space character |
| `StyleMap.ModifierIdempotent` | src/style/table.rs:112-128 | applying the same modifier twice gives the same map as applying it once |
| `StyleMap.ModifierAgreesWithPresetWithoutSpaces` | src/style/table.rs:90-128 | on a string without spaces, the modifier and the preset give the same map: the parsers differ only in what a space means |
| `StyleMap.ModifierExample` | src/style/table.rs:115-125 | modifier "X Y" sets LeftBorder to X and RightBorder to Y, and leaves TopBorder and BottomBorder as they were |
| `Table.TableStyle.SetStyle` | src/style/table.rs:145-154 | with Some(x), the component then reads as x; with None, the map is unchanged; no other component and not the header flag changes |
| `Table.TableStyle.GetStyle` | src/style/table.rs:157-162 | returns a copy of the component's character exactly when it is mapped, and None exactly when it is not |
| `Table.TableStyle.StyleOrDefault` | src/style/table.rs:164-169 | always one character long: a single space when the component is unmapped, its mapped character otherwise |
| `Table.TableStyle.StyleExists` | src/style/table.rs:171-173 | true exactly when `GetStyle` returns a character |

## Left out

- `ContentArrangement` (src/style/table.rs:7-21): an enum with no behaviour.
- The characters of the built-in ASCII_FULL preset: they are defined in `src/style/presets.rs`, which is not part of this model. The constructor takes the default preset as a parameter.
- `HashMap` hashing and the `strum` enum iterator: replaced by a Dafny `map` and the explicit sequence `AllComponents`.
- The `&mut Self` results of `apply_modifier` and `set_style`, which allow call chaining: the methods update the object in place and return nothing.
- `String` allocation in `style_or_default`: the result is a one-character `seq<char>`.
- Setting `has_header`: it is crate-visible and set by code outside this file. The model only has the constructor's `false` and shows that no operation here changes it.
- Rendering, column widths and terminal detection: they live outside this file.
