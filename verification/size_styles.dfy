/**
  The size presets of the `Timer` component: the font size of the digits and
  the width and height of the progress circle for each `size` prop.
 */
module SizeStyles {

  /** The dimensions a size preset resolves to. */
  datatype SizeStyle = SizeStyle(fontSize: int, width: int, height: int)

  const Small := SizeStyle(24, 50, 50)
  const Medium := SizeStyle(32, 70, 70)
  const Large := SizeStyle(48, 100, 100)

  /** The preset for a `size` value. Only `"small"` and `"large"` are matched;
      `"medium"` and any other string fall through to the medium preset. A caller
      that omits the prop gets `"medium"`, and so the medium preset. */
  function StylesFor(size: string): (r: SizeStyle)
    ensures r.width == r.height
    ensures r in {Small, Medium, Large}
    ensures r == Small <==> size == "small"
    ensures r == Large <==> size == "large"
    ensures r == Medium <==> size != "small" && size != "large"
  {
    if size == "small" then Small
    else if size == "large" then Large
    else Medium
  }
}
