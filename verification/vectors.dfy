/** Three-component vectors over the reals, standing in for Unity's Vector3.
    Floating-point rounding is not modelled. */
module Vectors {

  datatype Vec3 = Vec3(x: real, y: real, z: real)

  const Zero := Vec3(0.0, 0.0, 0.0)

  /** Vector3.up */
  const Up := Vec3(0.0, 1.0, 0.0)

  function Add(a: Vec3, b: Vec3): Vec3
  {
    Vec3(a.x + b.x, a.y + b.y, a.z + b.z)
  }

  function Sub(a: Vec3, b: Vec3): Vec3
  {
    Vec3(a.x - b.x, a.y - b.y, a.z - b.z)
  }

  function Scale(a: Vec3, k: real): Vec3
  {
    Vec3(a.x * k, a.y * k, a.z * k)
  }

  /** The squared Euclidean distance; Vector3.Distance is its square root. */
  function DistSq(a: Vec3, b: Vec3): (d: real)
    ensures d >= 0.0
  {
    var dx := a.x - b.x;
    var dy := a.y - b.y;
    var dz := a.z - b.z;
    dx * dx + dy * dy + dz * dz
  }

  /** `Vector3.Distance(a, b) < limit`, decided without a square root. */
  predicate Within(a: Vec3, b: Vec3, limit: real)
  {
    limit > 0.0 && DistSq(a, b) < limit * limit
  }

  /** `Vector3.Distance(p, a) < Vector3.Distance(p, b)`, decided without a square root. */
  predicate Closer(p: Vec3, a: Vec3, b: Vec3)
  {
    DistSq(p, a) < DistSq(p, b)
  }

  lemma DistSqSymmetric(a: Vec3, b: Vec3)
    ensures DistSq(a, b) == DistSq(b, a)
  {
  }

  lemma ProductPositive(a: real, b: real)
    requires a > 0.0 && b > 0.0
    ensures a * b > 0.0
  {
  }

  /** For non-negative reals, comparing squares is comparing the values. */
  lemma SquareMono(u: real, v: real)
    requires u >= 0.0 && v >= 0.0
    ensures u < v <==> u * u < v * v
  {
    if u < v {
      ProductPositive(v - u, v + u);
      assert (v - u) * (v + u) == v * v - u * u;
    } else if v < u {
      ProductPositive(u - v, u + v);
      assert (u - v) * (u + v) == u * u - v * v;
    }
  }

  /** The square-free `Within` test agrees with comparing the distance itself:
      for any non-negative d whose square is the squared distance,
      d < limit exactly when `Within` holds. */
  lemma WithinIsDistanceTest(a: Vec3, b: Vec3, d: real, limit: real)
    requires d >= 0.0 && d * d == DistSq(a, b)
    ensures d < limit <==> Within(a, b, limit)
  {
    if limit > 0.0 {
      SquareMono(d, limit);
    }
  }

  /** Likewise `Closer` agrees with comparing the two distances. */
  lemma CloserIsDistanceTest(p: Vec3, a: Vec3, b: Vec3, da: real, db: real)
    requires da >= 0.0 && da * da == DistSq(p, a)
    requires db >= 0.0 && db * db == DistSq(p, b)
    ensures da < db <==> Closer(p, a, b)
  {
    SquareMono(da, db);
  }
}
