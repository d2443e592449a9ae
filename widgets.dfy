/** The state the launcher's callbacks share: the installed applications,
    the grid of app buttons and the cell remembering the icon size. */
module Widgets {
  import opened Text

  /** An installed application as the launcher sees it: its display name, the
      `Keywords` entry of its desktop file (absent when it has none or is not
      a desktop-file app), and whether it asks to be shown. */
  datatype App = App(name: string, keywords: Option<string>, shouldShow: bool)

  /** A button in the grid: the app it launches and the pixel size of its icon. */
  datatype Tile = Tile(app: App, iconSize: int)

  /** The apps that ask to be shown, in their original order. */
  function ShownApps(apps: seq<App>): (r: seq<App>)
    ensures |r| <= |apps|
    ensures forall a :: a in r <==> a in apps && a.shouldShow
    decreases |apps|
  {
    if apps == [] then []
    else
      var init := apps[..|apps| - 1];
      var last := apps[|apps| - 1];
      assert apps == init + [last];
      ShownApps(init) + (if last.shouldShow then [last] else [])
  }

  /** One tile per app, all with icons of `size` pixels. */
  function TilesOf(apps: seq<App>, size: int): (r: seq<Tile>)
    ensures |r| == |apps|
    ensures forall i :: 0 <= i < |apps| ==> r[i] == Tile(apps[i], size)
  {
    seq(|apps|, i requires 0 <= i < |apps| => Tile(apps[i], size))
  }

  /** Extending a prefix of `apps` by one app extends its shown apps by that
      app when it asks to be shown. */
  lemma ShownAppsStep(apps: seq<App>, i: nat)
    requires i < |apps|
    ensures ShownApps(apps[..i + 1]) ==
      ShownApps(apps[..i]) + (if apps[i].shouldShow then [apps[i]] else [])
  {
    assert apps[..i + 1][..i] == apps[..i];
  }

  /** One more app gives one more tile, at the end. */
  lemma TilesOfAppend(apps: seq<App>, a: App, size: int)
    ensures TilesOf(apps + [a], size) == TilesOf(apps, size) + [Tile(a, size)]
  {
  }

  /** The apps behind a row of tiles. */
  function AppsOf(tiles: seq<Tile>): (r: seq<App>)
    ensures |r| == |tiles|
    ensures forall i :: 0 <= i < |tiles| ==> r[i] == tiles[i].app
  {
    seq(|tiles|, i requires 0 <= i < |tiles| => tiles[i].app)
  }

  /** The shared cell holding the icon size new tiles get; it starts at 0. */
  class IconSizeMemory {
    var size: int

    constructor ()
      ensures size == 0
    {
      size := 0;
    }
  }

  /** The grid of app buttons, in display order. */
  class FlowBox {
    var children: seq<Tile>

    constructor ()
      ensures children == []
    {
      children := [];
    }

    /** Removes the first child. */
    method RemoveFirst()
      requires children != []
      modifies this
      ensures children == old(children)[1..]
    {
      children := children[1..];
    }

    /** Inserts a tile at the end, as inserting at position -1 does. */
    method Insert(t: Tile)
      modifies this
      ensures children == old(children) + [t]
    {
      children := children + [t];
    }

    /** Changes the icon size of the tile at `i`, keeping its app. */
    method SetPixelSize(i: nat, size: int)
      requires i < |children|
      modifies this
      ensures children == old(children)[i := Tile(old(children)[i].app, size)]
    {
      children := children[i := Tile(children[i].app, size)];
    }
  }
}
