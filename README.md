# void-launcher decision rules in Dafny

void-launcher is an application launcher for Wayland compositors: a search box over a grid
of installed applications, in a layer-shell window. Most of its code sets up widgets. Under
that set-up sit a few exact rules, and this project models them and proves their properties:

- **Configuration lookup** (`Config`, over the parsed-JSON datatype in `Json`). A setting is
  the string of the last entry of the configuration array that holds one, and `""` otherwise.
  Border colours are every string of every `border_color` array, in order.
- **Window configuration** (`Window`). Raw setting strings become the window's anchors and
  size, its layer, its keyboard mode, its column count and its icon sizes. Every value that is
  not understood falls back to a fixed setting. Icon sizes are shared through a cell
  (`Widgets.IconSizeMemory`) that later searches read.
- **Search** (`Search`). On every change of the search text, the grid (`Widgets.FlowBox`)
  is emptied. It is then refilled, in installed order, with the apps whose lowercased name
  or `;`-separated keywords contain the lowercased text, if they ask to be shown.
- **Events** (`Events`). The key handler and app-button clicks. Also the choices made when
  the window opens (how the slide-in placeholder is replaced) and when it closes (slide out,
  fade out, or quit at once).
- **Stylesheet assembly** (`Theme`). Hex colour validation, and the three colour overrides.
  Each override replaces the text from the first `key: ` through the end of its line, as the
  pattern `key: .*` does. Then the
  parts are joined: the theme stylesheet first, the user's stylesheet last.

`Text` holds the string operations these rules use: substring search, ASCII lowercasing,
splitting on a separator, replace-all, and decimal rendering.

Two behaviours of the source, as the code has them:

- In `build_ui`, a `fullscreen` value other than `"true"` or `"false"` anchors all four
  edges. That is fullscreen behaviour, although the message printed says the default is
  `"false"`. The model follows the code (`Window.PlaceWindow`).
- `start_animations` uses the `fullscreen` value without normalising it. An invalid value
  therefore takes the third branch (slide at once). `exit_animations` normalises an invalid
  value to `"true"` and fades out when the exit animation is on. The model keeps both as written.

## Model

| member | source | states |
|---|---|---|
| `Config.ConfFile.Read` | src/utils.rs:14-16 | returns the stored contents; the file is not changed, so repeated reads are equal |
| `Config.LastStringEntry` | src/utils.rs:23-29 | the chosen entry holds a string under the key and no later entry does; with no such entry, none holds one |
| `Config.GetConfData` | src/utils.rs:19-32 | the loop that reassigns `out` yields the value of the last string entry, and `""` for a non-array document |
| `Config.ConfDataDefault` | src/utils.rs:20-31 | a non-array document, or one with no string under the key, gives `""` |
| `Config.LaterEntriesOverride` | src/utils.rs:24-28 | a later block of entries that holds the setting decides it alone; one that does not leaves the earlier value |
| `Config.NonStringEntryIgnored` | src/utils.rs:25-27 | an entry whose value under the key is not a string leaves the result unchanged |
| `Config.GetBorderColor` | src/utils.rs:34-51 | the nested loops collect exactly the border colours of all entries, in entry and element order |
| `Config.BorderColorsConcat` | src/utils.rs:39-47 | colours follow entry order: the colours of `a + b` are those of `a` followed by those of `b` |
| `Config.BorderColorsBounded` | src/utils.rs:40-44 | there are never more colours than `border_color` elements |
| `Config.BorderColorsMembership` | src/utils.rs:40-44 | a string is collected iff it is an element of some entry's `border_color` array |
| `Config.StringsMembership` | src/utils.rs:41-44 | within one array, a string is collected iff it is an element; other kinds are skipped |
| `Window.PlaceWindow` | src/ui.rs:39-62 | only `"false"` gives a bottom-anchored window of at least 350×200; values already at the bound stay; every other value anchors all four edges |
| `Window.ResolveLayer` | src/ui.rs:64-76 | `"overlay"` iff Overlay, `"bottom"` iff Bottom, every other string iff Top; never Background |
| `Window.ResolveKeyboardMode` | src/ui.rs:78-88 | exactly `"exclusive"` iff Exclusive, everything else iff OnDemand |
| `Window.AutoColumns` | src/ui.rs:175-183 | the width table gives 3 to 10 columns; negative widths and widths from 2000 up give 10 |
| `Window.AutoColumnsMonotone` | src/ui.rs:175-183 | the table is non-decreasing for widths from 0 up |
| `Window.ResolveColumns` | src/ui.rs:164-184 | an explicit value of at least 2 is used as given, otherwise the table; always at least 2 columns |
| `Window.AutoIconSize` | src/ui.rs:186-192 | the automatic icon size is one of 30, 40, 50, 60; 60 for a negative width |
| `Window.AutoIconSizeMonotone` | src/ui.rs:186-192 | the automatic icon size is non-decreasing for widths from 0 up |
| `Window.StartupIconSize` | src/ui.rs:122-138 | an explicit size of at least 20 is used, anything else gives 30; always at least 20 |
| `Window.PopulateGrid` | src/ui.rs:105-159 | appends one tile per app that asks to be shown, in order, all with the startup size; the returned `auto` flag holds iff the setting is `"auto"` or an unusable explicit size met a shown app; a usable explicit size is stored in the shared cell once an app is shown |
| `Window.ApplyIdleLayout` | src/ui.rs:163-201 | when `auto` holds, every startup tile keeps its app and gets the width's icon size, and, when there is at least one tile, the cell remembers that size; otherwise the grid and the cell are unchanged; the column count is resolved |
| `Window.BuildGrid` | src/ui.rs:105-201 | after startup the grid holds one tile per shown app, in order, all with the remembered icon size; with at least one shown app that size is the usable explicit size, or else the width's automatic size; the column count is the resolved one, at least 2 |
| `Search.Keywords` | src/events.rs:75-79 | a string is a keyword iff it is the lowercasing of a non-empty `;`-piece of the entry; every keyword is non-empty, lowercase and free of `;` |
| `Search.NonEmptyLoweredMembership` | src/events.rs:77-78 | after dropping empty pieces and lowercasing, a string is listed iff it lowercases some non-empty piece |
| `Text.Split` | src/events.rs:76 | there is always at least one piece, and no piece contains the separator |
| `Text.JoinSplit` | src/events.rs:76 | splitting on `;` loses nothing: joining the pieces back gives the entry |
| `Text.SplitJoin` | src/events.rs:76 | `;`-free pieces joined with `;` split back into exactly those pieces |
| `Search.AppMatches` | src/events.rs:71-88 | the flag as computed, with its redundant second test, is true iff the lowercased name or some keyword contains the query |
| `Search.SearchResultsMembership` | src/events.rs:90 | an app is listed iff it is installed, matches and asks to be shown |
| `Search.SearchResultsConcat` | src/events.rs:70 | results keep installed order |
| `Search.EmptyQueryListsShown` | src/events.rs:70-90 | the empty query lists exactly the shown apps, as the grid built at startup does |
| `Search.MatchesNarrowing` | src/events.rs:71-86 | an app matching a query matches every part of that query |
| `Search.RefineFromResults` | src/events.rs:62-125 | searching the current results for a longer query gives the same as searching all apps |
| `Search.OnSearchChanged` | src/events.rs:62-125 | after a change, the grid holds exactly the listed apps in order, each with the remembered icon size; all old tiles are gone |
| `Widgets.ShownApps` | src/ui.rs:107-109 | an app is kept iff it is installed and asks to be shown; never more apps than installed |
| `Widgets.FlowBox.RemoveFirst` | src/events.rs:66-67 | the first child goes; the others stay in order |
| `Widgets.FlowBox.Insert` | src/events.rs:119 | inserting at position -1 appends the tile after the existing children |
| `Widgets.FlowBox.SetPixelSize` | src/ui.rs:194 | only the tile at the index changes, and only its icon size |
| `Text.ContainsTransitive` | src/events.rs:72 | whatever contains `t` contains every substring of `t` |
| `Text.Find` | src/events.rs:72 | the reported index is an occurrence with none before it; no index means no occurrence |
| `Events.OnKeyPressed` | src/events.rs:29-57 | Escape starts the exit path; Return or keypad Enter closes, launches the first selected child's app only and quits; other keys do nothing; always Proceed |
| `Events.OnAppClicked` | src/events.rs:139-148 | a click unselects, marks the button, closes the window, launches that app only, and quits last and only then |
| `Text.NatToStringValue` | src/events.rs:177 | the decimal digits rendered for a natural number denote that number, with no leading zero |
| `Text.IntToStringValue` | src/events.rs:177 | an integer is rendered as `-` and the digits of its magnitude when negative, and as its own digits otherwise |
| `Events.StartAnimations` | src/events.rs:153-223 | without the placeholder nothing is loaded; with it, every occurrence is replaced by the offset for the branch chosen from `fullscreen` and the normalised mode |
| `Text.ReplaceAllAbsent` | src/events.rs:176-178 | replace-all changes nothing when the pattern does not occur |
| `Text.ReplaceAllFirst` | src/events.rs:176-178 | replace-all keeps the text before the first occurrence, puts the replacement there and goes on after that occurrence |
| `Events.ExitAnimations` | src/events.rs:225-277 | every plan ends with exactly one quit; it quits at once iff the mode is `"false"`, and otherwise first adds the exit class; invalid values of either setting count as `"true"` |
| `Theme.IsValidHexColor` | src/main.rs:15-18 | valid iff seven characters: `#` then six hex digits |
| `Theme.ReplaceLineShape` | src/main.rs:83-86 | the replacement sits where `key` first occurs; the text before and the text from the end of that line on are kept |
| `Theme.ReplaceLineAbsent` | src/main.rs:99-102 | without an occurrence of `key`, the stylesheet is returned unchanged |
| `Theme.OverrideThemes` | src/main.rs:97-128 | a colour is applied to both themes only when it is not `"default"` and is a valid hex colour; otherwise both are returned unchanged |
| `Theme.UnusableColorsKeepBuiltIns` | src/main.rs:81-128 | `"default"` or invalid colours leave the theme and base stylesheets unchanged |
| `Theme.AssembleCss` | src/main.rs:70-139 | the result is the dark or light theme, with accent then select applied, then `"\n"`, the base, the background override and the user stylesheet |
| `Theme.AssembledLayout` | src/main.rs:130-139 | the base directly follows the theme, and the user stylesheet comes last |

## Left out

- Parsing JSON: the model starts from a parsed document. Malformed JSON makes the source
  abort, so there is no error result to model.
- Reading files (`ConfFile::new`, `files_init`), checking that the icon file exists, and
  the home directory lookup. File contents and whether `style.css` exists are inputs.
- `string_to_i32` and `string_to_u32` are not part of this model. Their results are inputs
  (`parsedIconSize`, `parsedColumns`).
- The stylesheet constants (`CSS`, `CSS_DARK`, `CSS_LIGHT`, `BACK`) and the UI description
  are not part of this model. They are inputs.
- `is_dark_theme_active`, the window's width and height, and the applications list
  (`AppInfo::all`, `should_show`) are toolkit queries. They are inputs.
- Unicode lowercasing: `Text.Lower` maps only ASCII letters.
- Widget construction and looking widgets up by name. Also the layer-shell calls,
  loading CSS into the provider, launching an app, the `unsafe` data attached to buttons,
  and the printed messages. The handlers are modelled by the actions they request.
- The opacity fades, whose steps are floating-point. The fullscreen slide offset
  `height - (height * 0.70) as i32`, also floating-point, is an input (`fadeOffset`).
- Timers and idle callbacks. The model keeps each callback's decision, not when it runs.
  `Window.BuildGrid` assumes the first idle callback runs before any search.
- `Window.PopulateGrid` and `Search.OnSearchChanged`: an app without an icon makes the source
  abort (`icon().expect` at src/ui.rs:112 and src/events.rs:93). The `App` record carries no
  icon, so both insert a tile for every listed app and this failure is not modelled.
- `Events.StartAnimations`: only the loaded stylesheet and the animation style are modelled.
  Adding CSS classes and setting opacity appear only as the style's name.
