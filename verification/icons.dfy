/** Icon lookup with a default, shared by the Tools and Skills pages. */
module Icons {

  /** The directory every icon is served from. */
  const IconDir: string := "/namasivaayam-folio/icons/"

  /** The icon shown for a name the map does not know. */
  const DefaultIcon: string := "/namasivaayam-folio/icons/js.svg"

  /** The served path of the SVG file `name.svg`. */
  function Icon(name: string): string {
    IconDir + name + ".svg"
  }

  /** `icons[key] || DefaultIcon` */
  function IconOr(icons: map<string, string>, key: string): (r: string)
    ensures key in icons && icons[key] != "" ==> r == icons[key]
    ensures !(key in icons && icons[key] != "") ==> r == DefaultIcon
  {
    if key in icons && icons[key] != "" then icons[key] else DefaultIcon
  }

  /** The path names an SVG file in the icon directory. */
  predicate IsIconPath(p: string) {
    |p| >= |IconDir| + 4 && p[..|IconDir|] == IconDir && p[|p| - 4..] == ".svg"
  }

  lemma IconIsIconPath(name: string)
    ensures IsIconPath(Icon(name))
  {
    var p := Icon(name);
    assert p[..|IconDir|] == IconDir;
    assert p[|p| - 4..] == ".svg";
  }

  /** When every mapped path is an icon path, so is every lookup. */
  lemma IconOrIsIconPath(icons: map<string, string>, key: string)
    requires forall k :: k in icons ==> IsIconPath(icons[k])
    ensures IsIconPath(IconOr(icons, key))
  {
  }
}
