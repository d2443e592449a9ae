/** Building the launcher window: turning the raw configuration strings into
    anchors, size, layer, keyboard mode, column count and icon sizes, with a
    fallback for every value that is not understood. */
module Window {
  import opened Text
  import opened Widgets

  datatype Edge = Left | Right | Top | Bottom

  /** The shell layers a surface can be placed on. */
  datatype Layer = Background | Bottom | Top | Overlay

  datatype KeyboardMode = NoKeyboard | Exclusive | OnDemand

  datatype Size = Size(width: int, height: int)

  /** The anchors of the window and, for a floating window, its default size. */
  datatype Placement = Placement(anchors: set<Edge>, defaultSize: Option<Size>)

  const MinWidth: int := 350
  const MinHeight: int := 200

  /** Places the window. Only `"false"` gives a floating window, anchored at the
      bottom edge and at least 350 by 200; every other value, valid or not,
      anchors all four edges. */
  method PlaceWindow(fullscreen: string, width: int, height: int) returns (p: Placement)
    ensures fullscreen == "false" ==> p.anchors == {Edge.Bottom} && p.defaultSize.Some?
    ensures fullscreen != "false" ==>
      p.anchors == {Edge.Top, Edge.Left, Edge.Right, Edge.Bottom} && p.defaultSize.None?
    ensures p.defaultSize.Some? ==> p.defaultSize.value.width >= MinWidth && p.defaultSize.value.height >= MinHeight
    ensures p.defaultSize.Some? && width >= MinWidth ==> p.defaultSize.value.width == width
    ensures p.defaultSize.Some? && height >= MinHeight ==> p.defaultSize.value.height == height
    ensures p.defaultSize.Some? && width < MinWidth ==> p.defaultSize.value.width == MinWidth
    ensures p.defaultSize.Some? && height < MinHeight ==> p.defaultSize.value.height == MinHeight
  {
    if fullscreen == "false" {
      var w, h := width, height;
      if w < MinWidth {
        w := MinWidth;
      }
      if h < MinHeight {
        h := MinHeight;
      }
      p := Placement({Edge.Bottom}, Some(Size(w, h)));
    } else {
      p := Placement({Edge.Top, Edge.Left, Edge.Right, Edge.Bottom}, None);
    }
  }

  /** `"overlay"` and `"bottom"` name their layers; anything else is the top layer. */
  function ResolveLayer(layer: string): (r: Layer)
    ensures r == Layer.Overlay <==> layer == "overlay"
    ensures r == Layer.Bottom <==> layer == "bottom"
    ensures r == Layer.Top <==> layer != "overlay" && layer != "bottom"
    ensures r != Layer.Background
  {
    if layer == "overlay" then Layer.Overlay
    else if layer == "bottom" then Layer.Bottom
    else Layer.Top
  }

  /** Only `"exclusive"` grabs the keyboard; anything else is on-demand. */
  function ResolveKeyboardMode(input: string): (r: KeyboardMode)
    ensures r == Exclusive <==> input == "exclusive"
    ensures r == OnDemand <==> input != "exclusive"
  {
    if input == "exclusive" then Exclusive else OnDemand
  }

  /** Columns for a window of the given width when the column count is `auto`. */
  function AutoColumns(width: int): (c: nat)
    ensures 3 <= c <= 10
    ensures width < 0 || width >= 2000 ==> c == 10
  {
    if 0 <= width <= 499 then 3
    else if 500 <= width <= 799 then 5
    else if 800 <= width <= 1099 then 6
    else if 1100 <= width <= 1399 then 7
    else if 1400 <= width <= 1699 then 8
    else if 1700 <= width <= 1999 then 9
    else 10
  }

  /** A wider window never gets fewer automatic columns. */
  lemma AutoColumnsMonotone(a: int, b: int)
    requires 0 <= a <= b
    ensures AutoColumns(a) <= AutoColumns(b)
  {
  }

  /** An explicit count of at least 2 is used as given; anything else (the
      parsed value of `"auto"` or of an invalid string) falls back to the width
      table, so there are always at least two columns. */
  function ResolveColumns(parsedColumns: nat, width: int): (c: nat)
    ensures c >= 2
    ensures parsedColumns >= 2 ==> c == parsedColumns
    ensures parsedColumns < 2 ==> 3 <= c <= 10
  {
    if parsedColumns >= 2 then parsedColumns else AutoColumns(width)
  }

  /** Icon size for a window of the given width when the icon size is `auto`. */
  function AutoIconSize(width: int): (s: int)
    ensures s == 30 || s == 40 || s == 50 || s == 60
    ensures width < 0 ==> s == 60
  {
    if 0 <= width <= 599 then 30
    else if 600 <= width <= 1799 then 40
    else if 1800 <= width <= 2399 then 50
    else 60
  }

  /** A wider window never gets smaller automatic icons. */
  lemma AutoIconSizeMonotone(a: int, b: int)
    requires 0 <= a <= b
    ensures AutoIconSize(a) <= AutoIconSize(b)
  {
  }

  /** The size a shown app's icon gets while the grid is first filled: an
      explicit size of at least 20, otherwise 30. */
  function StartupIconSize(iconSize: string, parsedIconSize: int): (s: int)
    ensures s >= 20
    ensures iconSize != "auto" && parsedIconSize >= 20 ==> s == parsedIconSize
    ensures iconSize == "auto" || parsedIconSize < 20 ==> s == 30
  {
    if iconSize != "auto" && parsedIconSize >= 20 then parsedIconSize else 30
  }

  /** Fills the empty grid with a tile for each app that asks to be shown, in
      order. A usable explicit icon size is used and remembered; an unusable
      one gives 30 and switches the icon size setting to `"auto"` for the rest
      of the loop and for the resize that follows. The result tells whether
      the setting reads `"auto"` after the loop. */
  method PopulateGrid(grid: FlowBox, memory: IconSizeMemory, apps: seq<App>, iconSize: string, parsedIconSize: int)
    returns (auto: bool)
    modifies grid, memory
    ensures grid.children == old(grid.children) + TilesOf(ShownApps(apps), StartupIconSize(iconSize, parsedIconSize))
    ensures auto <==> iconSize == "auto" || (parsedIconSize < 20 && ShownApps(apps) != [])
    ensures memory.size ==
      if iconSize != "auto" && parsedIconSize >= 20 && ShownApps(apps) != [] then parsedIconSize
      else old(memory.size)
  {
    auto := iconSize == "auto";
    for i := 0 to |apps|
      invariant grid.children == old(grid.children) + TilesOf(ShownApps(apps[..i]), StartupIconSize(iconSize, parsedIconSize))
      invariant auto <==> iconSize == "auto" || (parsedIconSize < 20 && ShownApps(apps[..i]) != [])
      invariant memory.size ==
        if iconSize != "auto" && parsedIconSize >= 20 && ShownApps(apps[..i]) != [] then parsedIconSize
        else old(memory.size)
    {
      ShownAppsStep(apps, i);
      var app := apps[i];
      if app.shouldShow {
        TilesOfAppend(ShownApps(apps[..i]), app, StartupIconSize(iconSize, parsedIconSize));
        var size;
        if !auto {
          if parsedIconSize >= 20 {
            size := parsedIconSize;
            memory.size := parsedIconSize;
          } else {
            size := 30;
            auto := true;
          }
        } else {
          size := 30;
        }
        assert size == StartupIconSize(iconSize, parsedIconSize);
        ghost var before := grid.children;
        grid.Insert(Tile(app, size));
        RegroupLeft(grid.children, before, old(grid.children),
                    TilesOf(ShownApps(apps[..i]), size), [Tile(app, size)]);
      }
    }
    assert apps[..|apps|] == apps;
  }

  /** The first idle callback after the window is built: when the icon size
      setting reads `"auto"` it resizes every tile's icon to the size the
      window width calls for and remembers that size; it also settles the
      column count. */
  method ApplyIdleLayout(grid: FlowBox, memory: IconSizeMemory, auto: bool, parsedColumns: nat, width: int)
    returns (columns: nat)
    modifies grid, memory
    ensures columns == ResolveColumns(parsedColumns, width)
    ensures auto ==> grid.children == TilesOf(AppsOf(old(grid.children)), AutoIconSize(width))
    ensures auto && old(grid.children) != [] ==> memory.size == AutoIconSize(width)
    ensures !auto || old(grid.children) == [] ==> memory.size == old(memory.size)
    ensures !auto ==> grid.children == old(grid.children)
  {
    columns := ResolveColumns(parsedColumns, width);
    if auto {
      var size := AutoIconSize(width);
      for i := 0 to |grid.children|
        invariant |grid.children| == |old(grid.children)|
        invariant forall j :: 0 <= j < i ==> grid.children[j] == Tile(old(grid.children)[j].app, size)
        invariant forall j :: i <= j < |grid.children| ==> grid.children[j] == old(grid.children)[j]
        invariant memory.size == if i > 0 then size else old(memory.size)
      {
        grid.SetPixelSize(i, size);
        memory.size := size;
      }
    }
  }

  /** Builds the grid of a freshly created window and runs its first idle
      callback. Afterwards the grid holds every app that asks to be shown, in
      order, all with the icon size the shared cell remembers, and that size
      is a usable one: later searches draw their icons the same size. */
  method BuildGrid(grid: FlowBox, memory: IconSizeMemory, apps: seq<App>, iconSize: string,
                   parsedIconSize: int, parsedColumns: nat, width: int)
    returns (columns: nat)
    requires grid.children == [] && memory.size == 0
    modifies grid, memory
    ensures AppsOf(grid.children) == ShownApps(apps)
    ensures forall t :: t in grid.children ==> t.iconSize == memory.size >= 20
    ensures grid.children == TilesOf(ShownApps(apps), memory.size)
    ensures ShownApps(apps) != [] ==>
      memory.size == (if iconSize != "auto" && parsedIconSize >= 20 then parsedIconSize else AutoIconSize(width))
    ensures columns == ResolveColumns(parsedColumns, width) >= 2
  {
    var auto := PopulateGrid(grid, memory, apps, iconSize, parsedIconSize);
    ghost var startup := grid.children;
    assert AppsOf(startup) == ShownApps(apps);
    columns := ApplyIdleLayout(grid, memory, auto, parsedColumns, width);
  }
}
