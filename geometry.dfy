/**
 * Two-dimensional vectors and the two affine remaps the shaders apply
 * between clip space ([-1,1] x [-1,1]) and texture space ([0,1] x [0,1]).
 */
module Geometry {

  /** A GLSL `vec2`, with exact real components. */
  datatype Vec2 = Vec2(x: real, y: real)

  const Zero := Vec2(0.0, 0.0)

  function Add(a: Vec2, b: Vec2): Vec2 { Vec2(a.x + b.x, a.y + b.y) }

  function Sub(a: Vec2, b: Vec2): Vec2 { Vec2(a.x - b.x, a.y - b.y) }

  function Scale(a: Vec2, k: real): Vec2 { Vec2(a.x * k, a.y * k) }

  predicate InUnitSquare(v: Vec2) {
    0.0 <= v.x <= 1.0 && 0.0 <= v.y <= 1.0
  }

  predicate InClipSquare(v: Vec2) {
    -1.0 <= v.x <= 1.0 && -1.0 <= v.y <= 1.0
  }

  /** Vertex stage: `uv = (position + 1.0) * 0.5`. */
  function ToTexture(position: Vec2): (uv: Vec2)
    ensures InClipSquare(position) <==> InUnitSquare(uv)
    ensures position == Zero <==> uv == Vec2(0.5, 0.5)
  {
    Vec2((position.x + 1.0) * 0.5, (position.y + 1.0) * 0.5)
  }

  /** Fragment stage, for the pixel and for every ripple centre: `p = uv * 2.0 - 1.0`. */
  function ToClip(uv: Vec2): (p: Vec2)
    ensures InUnitSquare(uv) <==> InClipSquare(p)
    ensures uv == Vec2(0.5, 0.5) <==> p == Zero
  {
    Vec2(uv.x * 2.0 - 1.0, uv.y * 2.0 - 1.0)
  }

  /** The fragment stage undoes the vertex stage: the pixel's clip position is recovered exactly. */
  lemma ClipOfTexture(position: Vec2)
    ensures ToClip(ToTexture(position)) == position
  {
  }

  /** And the other way round: every texture coordinate is the image of its clip position. */
  lemma TextureOfClip(uv: Vec2)
    ensures ToTexture(ToClip(uv)) == uv
  {
  }

  /**
   * Pixel and ripple centre go through the same remap, so their clip-space
   * offset is twice their texture-space offset, and it vanishes exactly when
   * the two texture coordinates coincide.
   */
  lemma ClipOffset(uv: Vec2, centre: Vec2)
    ensures Sub(ToClip(uv), ToClip(centre)) == Scale(Sub(uv, centre), 2.0)
    ensures Sub(ToClip(uv), ToClip(centre)) == Zero <==> uv == centre
  {
  }
}
