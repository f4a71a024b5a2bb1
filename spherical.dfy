/**
 * External fields and their spherical components, in the real build.
 *
 * The spherical components of a real field (x, 0, z) are -x/sqrt(2), x/sqrt(2)
 * and z. To keep them exact, an Amplitude stores a real coefficient and
 * whether it is divided by sqrt(2); products of two such amplitudes are again
 * of that form. Only whether a component exceeds the source's tolerance
 * 1e-24 in absolute value matters to the basis engine.
 */
module Spherical {
  import opened Wrappers

  datatype Vec3 = Vec3(x: real, y: real, z: real)

  /** The number coef, divided by sqrt(2) when overSqrt2 holds. */
  datatype Amplitude = Amplitude(coef: real, overSqrt2: bool)

  datatype FieldError = ComplexTypeNeeded

  /** The absolute tolerance below which a field or term counts as zero (1e-24). */
  const Tolerance: real := 0.000000000000000000000001

  /** The square of an amplitude's value, which is rational. */
  function Squared(a: Amplitude): (r: real)
    ensures r >= 0.0
  {
    if a.overSqrt2 then a.coef * a.coef / 2.0 else a.coef * a.coef
  }

  /** |a| > 1e-24, decided on squares so that no square root is needed. */
  predicate IsNonzero(a: Amplitude)
  {
    Squared(a) > Tolerance * Tolerance
  }

  /** The product of two amplitudes. */
  function Mul(a: Amplitude, b: Amplitude): (r: Amplitude)
    ensures Squared(r) == Squared(a) * Squared(b)
  {
    if a.overSqrt2 && b.overSqrt2 then Amplitude(a.coef * b.coef / 2.0, false)
    else Amplitude(a.coef * b.coef, a.overSqrt2 || b.overSqrt2)
  }

  /** The sum of two amplitudes of the same kind. */
  function Add(a: Amplitude, b: Amplitude): Amplitude
    requires a.overSqrt2 == b.overSqrt2
  {
    Amplitude(a.coef + b.coef, a.overSqrt2)
  }

  function Scale(a: Amplitude, k: real): Amplitude
  {
    Amplitude(a.coef * k, a.overSqrt2)
  }

  /** The three spherical components q = +1, -1, 0 of a field with y = 0. */
  predicate IsSphericalShape(m: map<int, Amplitude>)
  {
    m.Keys == {-1, 0, 1} && m[1].overSqrt2 && m[-1].overSqrt2 && !m[0].overSqrt2
  }

  /**
   * changeToSphericalbasis of the real build: a field with a nonzero y
   * component needs complex numbers and is refused; otherwise the components
   * are q = +1: -x/sqrt(2), q = -1: x/sqrt(2), q = 0: z.
   */
  function ToSpherical(f: Vec3): (r: Result<map<int, Amplitude>, FieldError>)
    ensures r.Err? <==> f.y != 0.0
    ensures r.Ok? ==> IsSphericalShape(r.value)
  {
    if f.y != 0.0 then Err(ComplexTypeNeeded)
    else Ok(map[1 := Amplitude(-f.x, true), -1 := Amplitude(f.x, true), 0 := Amplitude(f.z, false)])
  }

  /** The Cartesian field back from its spherical components. */
  function FromSpherical(m: map<int, Amplitude>): Vec3
    requires IsSphericalShape(m)
  {
    Vec3(m[-1].coef, 0.0, m[0].coef)
  }

  /** A field without y component is recovered from its spherical components. */
  lemma SphericalRoundTrip(f: Vec3)
    requires f.y == 0.0
    ensures ToSpherical(f).Ok? && FromSpherical(ToSpherical(f).value) == f
  {
  }

  /**
   * Which spherical components are active: q = 0 when |z| > 1e-24, and
   * q = +1 and q = -1 together, when |x| / sqrt(2) > 1e-24.
   */
  lemma ActiveComponents(f: Vec3)
    requires f.y == 0.0
    ensures IsNonzero(ToSpherical(f).value[0]) <==> f.z * f.z > Tolerance * Tolerance
    ensures IsNonzero(ToSpherical(f).value[1]) <==> f.x * f.x > 2.0 * Tolerance * Tolerance
    ensures IsNonzero(ToSpherical(f).value[-1]) <==> IsNonzero(ToSpherical(f).value[1])
  {
  }

  /**
   * The six coefficients of the diamagnetic interaction, keyed by (k, q),
   * built from the spherical components b of the magnetic field as setBfield
   * does.
   */
  function DiamagnetismTerms(b: map<int, Amplitude>): (r: map<(int, int), Amplitude>)
    requires IsSphericalShape(b)
    ensures r.Keys == {(0, 0), (2, 0), (2, 1), (2, -1), (2, 2), (2, -2)}
  {
    var zz := Mul(b[0], b[0]);
    var pm := Mul(b[1], b[-1]);
    map[(0, 0) := Add(zz, Scale(pm, -2.0)),
        (2, 0) := Add(zz, pm),
        (2, 1) := Mul(b[0], b[-1]),
        (2, -1) := Mul(b[0], b[1]),
        (2, 2) := Mul(b[-1], b[-1]),
        (2, -2) := Mul(b[1], b[1])]
  }

  /**
   * For a field (x, 0, z) the scalar term is |B|^2 = x^2 + z^2 and the
   * q = 0 tensor term is z^2 - x^2 / 2; the q != 0 tensor terms vanish for a
   * field along the quantization axis.
   */
  lemma DiamagnetismTermValues(f: Vec3)
    requires f.y == 0.0
    ensures var t := DiamagnetismTerms(ToSpherical(f).value);
      && t[(0, 0)] == Amplitude(f.x * f.x + f.z * f.z, false)
      && t[(2, 0)] == Amplitude(f.z * f.z - f.x * f.x / 2.0, false)
      && (f.x == 0.0 ==>
            !IsNonzero(t[(2, 1)]) && !IsNonzero(t[(2, -1)]) && !IsNonzero(t[(2, 2)]) && !IsNonzero(t[(2, -2)]))
  {
    var b := ToSpherical(f).value;
    var pm := Mul(b[1], b[-1]);
    assert pm == Amplitude(-f.x * f.x / 2.0, false) by {
      assert (-f.x) * f.x == -(f.x * f.x);
    }
    assert Mul(b[0], b[0]) == Amplitude(f.z * f.z, false);
  }
}
