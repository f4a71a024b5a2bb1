/**
 * One-atom states and the quantum-number vocabulary of the basis engine.
 *
 * Total angular momentum j, its projection m and the spin s are half-integers
 * in the source (floats); here each is stored doubled (twoJ = 2j, twoM = 2m,
 * twoS = 2s) so that every value is an exact integer.
 */
module QuantumNumbers {

  /** The conserved parity under reflection through the xz-plane; NA: none. */
  datatype Parity = NA | Even | Odd

  /**
   * The "arbitrary momentum" sentinel ARB, doubled like every momentum here.
   * A rotation set that contains it conserves no particular m. ARB's own value
   * lives in dtypes.hpp, which is not part of this model (it is taken to be
   * 32767); the model only ever tests whether a set contains it.
   */
  const Arb: int := 65534

  /**
   * A one-atom state. A physical state carries its species and quantum numbers
   * (the spin follows from the species, see SpinTwice); an artificial state is
   * a user-supplied placeholder that bypasses every physics lookup.
   */
  datatype StateOne =
    | Physical(species: string, n: int, l: int, twoJ: int, twoM: int)
    | Artificial(name: string)

  /** The state reflected through the xz-plane: m becomes -m. */
  function Reflected(s: StateOne): (r: StateOne)
    requires s.Physical?
    ensures r.Physical? && r.twoM == -s.twoM
    ensures r.species == s.species && r.n == s.n && r.l == s.l && r.twoJ == s.twoJ
  {
    s.(twoM := -s.twoM)
  }

  /** Reflection is an involution, and it moves every state with m != 0. */
  lemma ReflectedInvolution(s: StateOne)
    requires s.Physical?
    ensures Reflected(Reflected(s)) == s
    ensures Reflected(s) == s <==> s.twoM == 0
  {
  }

  function Abs(x: int): (r: nat)
    ensures r == x || r == -x
  {
    if x < 0 then -x else x
  }

  predicate IsDigit(c: char) { '0' <= c <= '9' }

  /**
   * Twice the spin of a species: an alkali species such as "Rb" has spin 1/2;
   * a species whose name ends in a digit d ("Sr1", "Sr3") names the spin
   * multiplicity 2s + 1 = d.
   */
  function SpinTwice(species: string): (twoS: int)
    requires |species| > 0
    ensures twoS + 1 == (if IsDigit(species[|species| - 1]) then (species[|species| - 1] - '0') as int else 2)
    ensures -1 <= twoS <= 8
  {
    var last := species[|species| - 1];
    if IsDigit(last) then (last - '0') as int - 1 else 1
  }

  /** The integers lo, lo + 1, ..., hi (the source's range() on integers). */
  function IntRange(lo: int, hi: int): (r: set<int>)
    ensures forall x :: x in r <==> lo <= x <= hi
    decreases hi - lo
  {
    if lo > hi then {} else {lo} + IntRange(lo + 1, hi)
  }

  /**
   * The doubled values of the half-integer range lo/2, lo/2 + 1, ..., up to
   * hi/2 (the source's range() on floats, in doubled units).
   */
  function StepRange(lo: int, hi: int): (r: set<int>)
    ensures forall x :: x in r <==> lo <= x <= hi && (x - lo) % 2 == 0
    decreases hi - lo
  {
    if lo > hi then {} else {lo} + StepRange(lo + 2, hi)
  }

  /** A symmetric doubled range -a..a is closed under negation. */
  lemma {:induction false} StepRangeSymmetric(a: int, x: int)
    requires x in StepRange(-a, a)
    ensures -x in StepRange(-a, a)
  {
    assert (-x - (-a)) == 2 * a - (x - (-a));
    assert (2 * a) % 2 == 0;
  }

  predicate IsMin(m: int, s: set<int>)
  {
    m in s && forall k :: k in s ==> m <= k
  }

  /** Every non-empty finite set of integers has a least element. */
  lemma {:induction false} MinExists(s: set<int>)
    requires s != {}
    ensures exists m :: IsMin(m, s)
    decreases |s|
  {
    var x := PickAny(s);
    if s == {x} {
      assert IsMin(x, s);
    } else {
      MinExists(s - {x});
      var m :| IsMin(m, s - {x});
      var least := if x < m then x else m;
      forall k | k in s
        ensures least <= k
      {
        if k != x {
          assert k in s - {x};
        }
      }
      assert IsMin(least, s);
    }
  }

  lemma PickAny(s: set<int>) returns (x: int)
    requires s != {}
    ensures x in s
  {
    EmptyIfNoMember(s);
    x :| x in s;
  }

  /** Set extensionality, spelled out for the empty set. */
  lemma EmptyIfNoMember(s: set<int>)
    ensures (forall y :: y !in s) ==> s == {}
  {
    var none: set<int> := {};
    if forall y :: y !in s {
      assert forall y :: y in s <==> y in none;
      assert s == none;
    }
  }

  /** The next element of an ordered std::set iteration: the least one left. */
  method PickMin(s: set<int>) returns (m: int)
    requires s != {}
    ensures IsMin(m, s)
  {
    MinExists(s);
    m :| IsMin(m, s);
  }
}
