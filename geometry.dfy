// Positions and normals. Coordinates are exact reals; a vector whose
// computation divided by zero is the not-a-number vector, and any arithmetic
// involving it stays not-a-number, as IEEE floating point does.
module Geometry {

  datatype Vec3 = Vec3(x: real, y: real, z: real) | NaN

  const Zero: Vec3 := Vec3(0.0, 0.0, 0.0)

  function Plus(a: Vec3, b: Vec3): (r: Vec3)
    ensures r.NaN? <==> a.NaN? || b.NaN?
  {
    if a.NaN? || b.NaN? then NaN else Vec3(a.x + b.x, a.y + b.y, a.z + b.z)
  }

  function Scale(s: real, a: Vec3): (r: Vec3)
    ensures r.NaN? <==> a.NaN?
  {
    if a.NaN? then NaN else Vec3(s * a.x, s * a.y, s * a.z)
  }
}
