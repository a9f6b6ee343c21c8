/**
  Where the frame is drawn (main.c, lines 122-123 and 130): the image
  rectangle is centred on the pointer using C integer division, and a grey
  border rectangle extends it by 5 pixels on every side.
*/
module Layout {

  datatype Point = Point(x: int, y: int)

  /**
    The zoomed destination size of lines 103-104, already truncated to `int`.
    It is negative when exactly one probed dimension is negative.
  */
  datatype Size = Size(width: int, height: int)

  /** The integer rectangle arguments of `DrawRectangle` and the destination of `DrawTexturePro`. */
  datatype Rect = Rect(x: int, y: int, width: int, height: int)

  /** Thickness of the border drawn around the frame. */
  const Margin: int := 5

  /** C's `a / 2` on `int`: the quotient truncated toward zero. */
  function Half(a: int): (q: int)
    ensures -1 <= a - 2 * q <= 1
    ensures a - 2 * q == 0 || (a - 2 * q < 0 <==> a < 0)
  {
    if a < 0 then -((-a) / 2) else a / 2
  }

  /** Lines 122-123: the top-left corner that puts the image's middle under the pointer. */
  function ImageRect(pointer: Point, size: Size): (r: Rect)
    ensures r.width == size.width && r.height == size.height
    ensures r.x + Half(size.width) == pointer.x
    ensures r.y + Half(size.height) == pointer.y
    ensures size.width >= 0 ==> 0 <= 2 * r.x + r.width - 2 * pointer.x <= 1
    ensures size.width < 0 ==> -1 <= 2 * r.x + r.width - 2 * pointer.x <= 0
    ensures size.height >= 0 ==> 0 <= 2 * r.y + r.height - 2 * pointer.y <= 1
    ensures size.height < 0 ==> -1 <= 2 * r.y + r.height - 2 * pointer.y <= 0
    ensures size.width > 0 ==> r.x <= pointer.x < r.x + r.width
    ensures size.height > 0 ==> r.y <= pointer.y < r.y + r.height
  {
    Rect(pointer.x - Half(size.width), pointer.y - Half(size.height), size.width, size.height)
  }

  /** Line 130: the border rectangle around the image. */
  function BorderRect(image: Rect): (b: Rect)
    ensures image.x - b.x == Margin && image.y - b.y == Margin
    ensures (b.x + b.width) - (image.x + image.width) == Margin
    ensures (b.y + b.height) - (image.y + image.height) == Margin
  {
    Rect(image.x - Margin, image.y - Margin, image.width + 2 * Margin, image.height + 2 * Margin)
  }
}
