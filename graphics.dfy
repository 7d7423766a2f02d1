/** The few SFML value types the core works with: 8-bit colour channels,
    RGBA colours, 2D float vectors and the vertex record of a vertex buffer.
    Floats are modelled as `real`. */
module Graphics {

  /** Rust's `Option`. */
  datatype Option<T> = None | Some(value: T)

  /** An unsigned 8-bit colour channel (Rust `u8`). */
  newtype byte = x: int | 0 <= x < 256

  datatype Color = Color(r: byte, g: byte, b: byte, a: byte)

  /** `Color::rgb`: an opaque colour. */
  function Rgb(r: byte, g: byte, b: byte): (c: Color)
    ensures c.a == 255 && c.r == r && c.g == g && c.b == b
  {
    Color(r, g, b, 255)
  }

  /** `Color::TRANSPARENT`. */
  const TRANSPARENT: Color := Color(0, 0, 0, 0)

  /** `u8::saturating_sub`: subtraction that stops at zero instead of wrapping. */
  function SaturatingSub(a: byte, b: byte): (r: byte)
    ensures r <= a
    ensures r as int == if a as int >= b as int then a as int - b as int else 0
  {
    if a >= b then a - b else 0
  }

  datatype Vec2 = Vec2(x: real, y: real)

  /** `sfml::graphics::Vertex`: screen position, colour, texture coordinates. */
  datatype Vertex = Vertex(position: Vec2, color: Color, texCoords: Vec2)
}
