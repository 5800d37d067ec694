/**
 * The capture rectangle: reading the selection window's Tk geometry string
 * "WxH+X+Y" into a region (in `start_threads_and_gui_switch`), and the size
 * clamp applied while the window is resized by its corner handle (in
 * `create_gui.resize`).
 */
module Geometry {
  import opened Wrappers
  import opened Decimal

  /** The `monitor_area` dictionary handed to the screen grabber. */
  datatype Region = Region(top: int, left: int, width: int, height: int)

  /** The exceptions the parse can raise: a missing field, or a field `int()` rejects. */
  datatype GeometryError = IndexError | ValueError

  /** Python's `s.split(sep)` for a one-character separator. */
  function Split(s: string, sep: char): (parts: seq<string>)
    ensures |parts| >= 1
    decreases |s|
  {
    if s == [] then [[]]
    else
      var rest := Split(s[1..], sep);
      if s[0] == sep then [[]] + rest else [[s[0]] + rest[0]] + rest[1..]
  }

  /** A piece without the separator splits into itself. */
  lemma {:induction false} SplitPiece(a: string, sep: char)
    requires sep !in a
    ensures Split(a, sep) == [a]
    decreases |a|
  {
    if a != [] {
      SplitPiece(a[1..], sep);
      assert [a[0]] + a[1..] == a;
    }
  }

  /** Splitting `a + [sep] + b` yields `a` followed by the pieces of `b`. */
  lemma {:induction false} SplitAtSeparator(a: string, b: string, sep: char)
    requires sep !in a
    ensures Split(a + [sep] + b, sep) == [a] + Split(b, sep)
    decreases |a|
  {
    var s := a + [sep] + b;
    if a == [] {
      assert s[1..] == b;
    } else {
      assert s[1..] == a[1..] + [sep] + b;
      SplitAtSeparator(a[1..], b, sep);
      assert [a[0]] + a[1..] == a;
    }
  }

  /**
   * `winfo_geometry()` read as the program reads it: split at 'x', take the width
   * from the first part, then split the second part at '+' into height, x and
   * y, converting each with `int()` in that order. Top comes from y and left
   * from x. Extra parts are ignored.
   */
  function ParseGeometry(geom: string): (r: Result<Region, GeometryError>)
    // a region exactly when "W" and "H+X+Y" are there and all four fields are integers
    ensures r.Ok? <==>
      |Split(geom, 'x')| >= 2 && ParseInt(Split(geom, 'x')[0]).Some? &&
      var fields := Split(Split(geom, 'x')[1], '+');
      |fields| >= 3 && ParseInt(fields[0]).Some? && ParseInt(fields[1]).Some? && ParseInt(fields[2]).Some?
    // width from W, height from H, left from X, top from Y
    ensures r.Ok? ==>
      var fields := Split(Split(geom, 'x')[1], '+');
      Some(r.value.width) == ParseInt(Split(geom, 'x')[0]) && Some(r.value.height) == ParseInt(fields[0]) &&
      Some(r.value.left) == ParseInt(fields[1]) && Some(r.value.top) == ParseInt(fields[2])
    // the width is converted first, so an unreadable width is a ValueError whatever follows
    ensures ParseInt(Split(geom, 'x')[0]).None? ==> r == Err(ValueError)
  {
    var parts := Split(geom, 'x');
    match ParseInt(parts[0])
    case None => Err(ValueError)
    case Some(width) =>
      if |parts| < 2 then Err(IndexError)
      else
        var fields := Split(parts[1], '+');
        match ParseInt(fields[0])
        case None => Err(ValueError)
        case Some(height) =>
          if |fields| < 2 then Err(IndexError)
          else
            match ParseInt(fields[1])
            case None => Err(ValueError)
            case Some(x) =>
              if |fields| < 3 then Err(IndexError)
              else
                match ParseInt(fields[2])
                case None => Err(ValueError)
                case Some(y) => Ok(Region(top := y, left := x, width := width, height := height))
  }

  /** The geometry string Tk reports for a window of this size and position. */
  function FormatGeometry(r: Region): string {
    IntToString(r.width) + "x" + IntToString(r.height) + "+" + IntToString(r.left) + "+" + IntToString(r.top)
  }

  lemma IntTextHasNoSeparators(i: int)
    ensures 'x' !in IntToString(i) && '+' !in IntToString(i)
  {
    var s := IntToString(i);
    forall k | 0 <= k < |s| ensures s[k] != 'x' && s[k] != '+' {
      assert IsDigit(s[k]) || s[k] == '-';
    }
  }

  lemma SplitThreeFields(h: string, x: string, y: string)
    requires '+' !in h && '+' !in x && '+' !in y
    ensures Split(h + "+" + x + "+" + y, '+') == [h, x, y]
  {
    assert h + "+" + x + "+" + y == h + ['+'] + (x + ['+'] + y);
    SplitAtSeparator(h, x + ['+'] + y, '+');
    SplitAtSeparator(x, y, '+');
    SplitPiece(y, '+');
  }

  lemma SplitTwoParts(w: string, tail: string)
    requires 'x' !in w && 'x' !in tail
    ensures Split(w + "x" + tail, 'x') == [w, tail]
  {
    assert w + "x" + tail == w + ['x'] + tail;
    SplitAtSeparator(w, tail, 'x');
    SplitPiece(tail, 'x');
  }

  /**
   * Reading a reported geometry gives back the window's rectangle, with
   * width from W, height from H, left from X and top from Y.
   */
  lemma ParseFormattedGeometry(r: Region)
    ensures ParseGeometry(FormatGeometry(r)) == Ok(r)
  {
    var w, h, x, y := IntToString(r.width), IntToString(r.height), IntToString(r.left), IntToString(r.top);
    IntTextHasNoSeparators(r.width);
    IntTextHasNoSeparators(r.height);
    IntTextHasNoSeparators(r.left);
    IntTextHasNoSeparators(r.top);
    var tail := h + "+" + x + "+" + y;
    assert 'x' !in tail;
    assert FormatGeometry(r) == w + "x" + tail;
    SplitTwoParts(w, tail);
    SplitThreeFields(h, x, y);
    ParseIntOfIntToString(r.width);
    ParseIntOfIntToString(r.height);
    ParseIntOfIntToString(r.left);
    ParseIntOfIntToString(r.top);
  }

  /** A size without a position ("WxH") has no x field after the height: IndexError. */
  lemma SizeWithoutPositionFails(width: int, height: int)
    ensures ParseGeometry(IntToString(width) + "x" + IntToString(height)) == Err(IndexError)
  {
    var w, h := IntToString(width), IntToString(height);
    IntTextHasNoSeparators(width);
    IntTextHasNoSeparators(height);
    SplitTwoParts(w, h);
    SplitPiece(h, '+');
    ParseIntOfIntToString(width);
    ParseIntOfIntToString(height);
  }

  /** The smallest width or height the resize handle allows. */
  const MinSize := 100

  /** `max(100, start + delta)`: one dimension of the window after a drag by `delta`. */
  function ResizeDimension(start: int, delta: int): (r: int)
    ensures r >= MinSize && r >= start + delta
    ensures r == MinSize || r == start + delta
  {
    if MinSize >= start + delta then MinSize else start + delta
  }

  /** The window size after dragging the corner from (startX, startY) to (cursorX, cursorY). */
  function Resize(startWidth: int, startHeight: int, startX: int, startY: int, cursorX: int, cursorY: int): (size: (int, int))
    ensures size.0 >= MinSize && size.1 >= MinSize
  {
    (ResizeDimension(startWidth, cursorX - startX), ResizeDimension(startHeight, cursorY - startY))
  }

  /** The resized window follows the mouse cursor exactly while it stays at least 100 pixels wide and high. */
  lemma ResizeFollowsCursor(startWidth: int, startHeight: int, startX: int, startY: int, cursorX: int, cursorY: int)
    requires startWidth + (cursorX - startX) >= MinSize && startHeight + (cursorY - startY) >= MinSize
    ensures Resize(startWidth, startHeight, startX, startY, cursorX, cursorY) ==
      (startWidth + cursorX - startX, startHeight + cursorY - startY)
  {
  }

  /**
   * A window sized by the resize handle, wherever it is placed, is read back
   * as a region of the same size, at least 100 by 100.
   */
  lemma ResizedWindowGivesRegion(startWidth: int, startHeight: int, startX: int, startY: int, cursorX: int, cursorY: int, left: int, top: int)
    ensures var size := Resize(startWidth, startHeight, startX, startY, cursorX, cursorY);
      var r := ParseGeometry(FormatGeometry(Region(top, left, size.0, size.1)));
      r.Ok? && r.value.width == size.0 >= MinSize && r.value.height == size.1 >= MinSize &&
      r.value.left == left && r.value.top == top
  {
    var size := Resize(startWidth, startHeight, startX, startY, cursorX, cursorY);
    ParseFormattedGeometry(Region(top, left, size.0, size.1));
  }
}
