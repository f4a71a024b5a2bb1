/**
 * The symmetry selectors of a one-atom system: the conserved parity under
 * reflection and the set of conserved momenta under rotation (doubled, with
 * the Arb sentinel), how they are validated, and how two systems' selectors
 * are merged.
 */
module Symmetry {
  import opened QuantumNumbers

  /**
   * Reflection and rotation symmetry are compatible when the rotation set is
   * arbitrary, when no reflection symmetry is asked for, or when every
   * conserved momentum comes with its negative.
   */
  predicate Compatible(reflection: Parity, rotation: set<int>)
  {
    Arb in rotation || reflection == NA || forall s :: s in rotation ==> -s in rotation
  }

  /** The rotation setter refuses a momentum set holding Arb next to anything else. */
  predicate RejectedMomenta(momenta: set<int>)
  {
    Arb in momenta && |momenta| > 1
  }

  /** A rotation set that holds Arb holds nothing else. */
  predicate WellFormedMomenta(momenta: set<int>)
  {
    Arb in momenta ==> momenta == {Arb}
  }

  /** The setter's size test is exactly "Arb together with another value". */
  lemma {:induction false} RejectedIffIllFormed(momenta: set<int>)
    ensures RejectedMomenta(momenta) <==> !WellFormedMomenta(momenta)
  {
    if Arb in momenta {
      var rest := momenta - {Arb};
      assert momenta == rest + {Arb};
      assert |momenta| == |rest| + 1;
      if rest == {} {
        assert momenta == {Arb};
      } else {
        var x := PickAny(rest);
        assert x in momenta && x != Arb;
      }
    }
  }

  /** Merged reflection symmetry: kept when both agree, otherwise none. */
  function MergeReflection(mine: Parity, other: Parity): (r: Parity)
    ensures r == mine || r == NA
    ensures r == other || r == NA
    ensures r == NA ==> mine != other || mine == NA
  {
    if mine != other then NA else mine
  }

  /**
   * Merged rotation symmetry: kept when both sets agree; otherwise arbitrary
   * if either side is arbitrary, and the union of both sets if neither is.
   */
  function MergeRotation(mine: set<int>, other: set<int>): (r: set<int>)
    ensures mine == other ==> r == mine
    ensures mine != other && (Arb in mine || Arb in other) ==> r == {Arb}
    ensures mine != other && Arb !in mine && Arb !in other ==> r == mine + other
  {
    if mine == other then mine
    else if Arb in mine || Arb in other then {Arb}
    else mine + other
  }

  /** Merging does not depend on which system incorporates the other. */
  lemma MergeIsSymmetric(p: Parity, q: Parity, a: set<int>, b: set<int>)
    ensures MergeReflection(p, q) == MergeReflection(q, p)
    ensures MergeRotation(a, b) == MergeRotation(b, a)
  {
    assert a + b == b + a;
  }

  /**
   * Two systems whose selectors are each compatible and well formed merge into
   * selectors that are again compatible and well formed, although the merge
   * itself checks neither.
   */
  lemma {:induction false} MergeKeepsCompatibility(p: Parity, q: Parity, a: set<int>, b: set<int>)
    requires Compatible(p, a) && Compatible(q, b)
    requires WellFormedMomenta(a) && WellFormedMomenta(b)
    ensures Compatible(MergeReflection(p, q), MergeRotation(a, b))
    ensures WellFormedMomenta(MergeRotation(a, b))
  {
    if p == q && p != NA && a != b && Arb !in a && Arb !in b {
      forall s | s in a + b
        ensures -s in a + b
      {
        if s in a {
          assert -s in a;
        } else {
          assert -s in b;
        }
      }
    }
  }
}
