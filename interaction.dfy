/**
 * The interaction operators of a one-atom system in the canonical basis:
 * which field components, diamagnetic terms and ion multipole orders need
 * computing, which matrix elements the selection rules let through, and how
 * the operators of opposite components are stored.
 */
module Interaction {
  import opened QuantumNumbers
  import opened Spherical
  import opened Basis

  /** The operator a triplet belongs to. */
  datatype Channel =
    | Efield(q: int)
    | Bfield(q: int)
    | Diamagnetic(k: int, q: int)
    | IonMultipole(order: int)

  /**
   * The value of a triplet: the matrix element between the row and column
   * states, as the matrix-element cache provides it (the diamagnetic and ion
   * terms carry the constant prefactors 1/(8 m_e) and -k_e e respectively).
   */
  datatype Element =
    | ElectricDipole(row: StateOne, col: StateOne)
    | MagneticDipole(row: StateOne, col: StateOne)
    | Diamagnetism(row: StateOne, col: StateOne, k: int)
    | ElectricMultipole(row: StateOne, col: StateOne, order: int)

  /** A triplet together with the operator it is collected for. */
  datatype Emitted = Emitted(channel: Channel, row: nat, col: nat, value: Element)

  /**
   * The selection rules of the matrix-element cache: multipole(r, c, kappa, q),
   * momentum(r, c, q) and the any-q multipole rule multipoleAnyQ(r, c, order).
   */
  datatype Rules = Rules(
    multipole: (StateOne, StateOne, int, int) -> bool,
    momentum: (StateOne, StateOne, int) -> bool,
    multipoleAnyQ: (StateOne, StateOne, int) -> bool)

  /** The components to compute, in loop order, and the ion charge. */
  datatype Ranges = Ranges(erange: seq<int>, brange: seq<int>, drange: seq<(int, int)>, orange: seq<int>, charge: int)

  predicate Increasing(s: seq<int>)
  {
    forall i, j :: 0 <= i < j < |s| ==> s[i] < s[j]
  }

  /** Two increasing sequences with the same elements are equal. */
  lemma {:induction false} IncreasingUnique(a: seq<int>, b: seq<int>)
    requires Increasing(a) && Increasing(b)
    requires forall x :: x in a <==> x in b
    ensures a == b
    decreases |a|
  {
    assert a != [] ==> a[0] in a;
    assert b != [] ==> b[0] in b;
    if a != [] && b != [] {
      assert a[0] in a && b[0] in b;
      var i :| 0 <= i < |b| && b[i] == a[0];
      var j :| 0 <= j < |a| && a[j] == b[0];
      assert a[0] == b[0];
      forall x
        ensures x in a[1..] <==> x in b[1..]
      {
        if x in a[1..] {
          var k :| 0 <= k < |a[1..]| && a[1..][k] == x;
          assert a[0] < a[k + 1] && x in a;
          var k' :| 0 <= k' < |b| && b[k'] == x;
          assert k' != 0 && b[1..][k' - 1] == x;
        }
        if x in b[1..] {
          var k :| 0 <= k < |b[1..]| && b[1..][k] == x;
          assert b[0] < b[k + 1] && x in b;
          var k' :| 0 <= k' < |a| && a[k'] == x;
          assert k' != 0 && a[1..][k' - 1] == x;
        }
      }
      IncreasingUnique(a[1..], b[1..]);
      assert a == [a[0]] + a[1..] && b == [b[0]] + b[1..];
    }
  }

  /** The tail of an increasing sequence is increasing and lies above its head. */
  lemma IncreasingTail(s: seq<int>)
    requires Increasing(s) && s != []
    ensures Increasing(s[1..])
    ensures forall y :: y in s[1..] ==> y > s[0]
    ensures forall y :: y in s <==> y == s[0] || y in s[1..]
  {
    assert s == [s[0]] + s[1..];
  }

  /** A field component is computed when q >= 0, it is nonzero and the operator of -q is not cached. */
  predicate FieldSelected(sph: map<int, Amplitude>, cached: set<int>, q: int)
  {
    q >= 0 && q in sph && IsNonzero(sph[q]) && -q !in cached
  }

  /** The field components to compute, in increasing order. */
  function FieldRange(sph: map<int, Amplitude>, cached: set<int>): (qs: seq<int>)
    requires sph.Keys <= {-1, 0, 1}
    ensures Increasing(qs)
    ensures forall q :: q in qs <==> FieldSelected(sph, cached, q)
  {
    (if FieldSelected(sph, cached, 0) then [0] else []) + (if FieldSelected(sph, cached, 1) then [1] else [])
  }

  /** The diamagnetic keys in the order they are visited. */
  const DiamagneticOrder: seq<(int, int)> := [(0, 0), (2, -2), (2, -1), (2, 0), (2, 1), (2, 2)]

  /** A diamagnetic term is computed when q >= 0, diamagnetism is on, it is nonzero and not cached. */
  predicate TermSelected(terms: map<(int, int), Amplitude>, enabled: bool, cached: set<(int, int)>, key: (int, int))
  {
    key.1 >= 0 && enabled && key in terms && IsNonzero(terms[key]) && key !in cached
  }

  /** The diamagnetic terms to compute among the given keys, in their order. */
  function DiamagneticRange(keys: seq<(int, int)>, terms: map<(int, int), Amplitude>, enabled: bool, cached: set<(int, int)>)
    : seq<(int, int)>
  {
    if keys == [] then []
    else
      (if TermSelected(terms, enabled, cached, keys[0]) then [keys[0]] else [])
      + DiamagneticRange(keys[1..], terms, enabled, cached)
  }

  /** The diamagnetic range holds exactly the selected keys, each once when the keys are distinct. */
  lemma {:induction false} DiamagneticRangeMembers(keys: seq<(int, int)>, terms: map<(int, int), Amplitude>, enabled: bool, cached: set<(int, int)>)
    ensures forall key :: key in DiamagneticRange(keys, terms, enabled, cached) <==> key in keys && TermSelected(terms, enabled, cached, key)
    ensures DistinctKeys(keys) ==> DistinctKeys(DiamagneticRange(keys, terms, enabled, cached))
  {
    if keys != [] {
      DiamagneticRangeMembers(keys[1..], terms, enabled, cached);
      assert keys == [keys[0]] + keys[1..];
      if DistinctKeys(keys) {
        assert DistinctKeys(keys[1..]) && keys[0] !in keys[1..] by {
          forall i, j | 0 <= i < j < |keys[1..]| ensures keys[1..][i] != keys[1..][j] {
            assert keys[1..][i] == keys[i + 1] && keys[1..][j] == keys[j + 1];
          }
          forall k | 0 <= k < |keys[1..]| ensures keys[1..][k] != keys[0] {
            assert keys[1..][k] == keys[k + 1];
          }
        }
      }
    }
  }

  /** An ion order is computed when it lies in 1..ordermax and is not cached. */
  predicate OrderPending(o: int, ordermax: nat, cached: set<int>)
  {
    1 <= o <= ordermax && o !in cached
  }

  /** The ion multipole orders lo..hi not yet cached, in increasing order. */
  function OrderRange(lo: int, hi: int, cached: set<int>): seq<int>
    decreases hi - lo
  {
    if lo > hi then []
    else (if lo !in cached then [lo] else []) + OrderRange(lo + 1, hi, cached)
  }

  /** The order range holds exactly the uncached orders lo..hi, increasing. */
  lemma {:induction false} OrderRangeMembers(lo: int, hi: int, cached: set<int>)
    ensures forall o :: o in OrderRange(lo, hi, cached) <==> lo <= o <= hi && o !in cached
    ensures Increasing(OrderRange(lo, hi, cached))
    decreases hi - lo
  {
    if lo <= hi {
      OrderRangeMembers(lo + 1, hi, cached);
      var rest := OrderRange(lo + 1, hi, cached);
      forall i, j | 0 <= i < j < |OrderRange(lo, hi, cached)|
        ensures OrderRange(lo, hi, cached)[i] < OrderRange(lo, hi, cached)[j]
      {
        if lo !in cached && i == 0 {
          assert OrderRange(lo, hi, cached)[j] == rest[j - 1] && rest[j - 1] in rest;
        }
      }
    }
  }

  /** Electric component q may connect the pair: the lower triangle only for q = 0, and the dipole rule. */
  predicate ElectricEligible(r: Entry, c: Entry, q: int, rules: Rules)
  {
    !(q == 0 && r.idx < c.idx) && rules.multipole(r.state, c.state, 1, q)
  }

  predicate MagneticEligible(r: Entry, c: Entry, q: int, rules: Rules)
  {
    !(q == 0 && r.idx < c.idx) && rules.momentum(r.state, c.state, q)
  }

  predicate DiamagneticEligible(r: Entry, c: Entry, key: (int, int), rules: Rules)
  {
    !(key.1 == 0 && r.idx < c.idx) && rules.multipole(r.state, c.state, key.0, key.1)
  }

  /** The first eligible electric component contributes; the loop stops there. */
  function ElectricEmission(r: Entry, c: Entry, qs: seq<int>, rules: Rules): (e: seq<Emitted>)
  {
    if qs == [] then []
    else if ElectricEligible(r, c, qs[0], rules) then [Emitted(Efield(qs[0]), r.idx, c.idx, ElectricDipole(r.state, c.state))]
    else ElectricEmission(r, c, qs[1..], rules)
  }

  /** The first eligible magnetic component contributes; the loop stops there. */
  function MagneticEmission(r: Entry, c: Entry, qs: seq<int>, rules: Rules): (e: seq<Emitted>)
  {
    if qs == [] then []
    else if MagneticEligible(r, c, qs[0], rules) then [Emitted(Bfield(qs[0]), r.idx, c.idx, MagneticDipole(r.state, c.state))]
    else MagneticEmission(r, c, qs[1..], rules)
  }

  /** Every eligible diamagnetic term contributes. */
  function DiamagneticEmission(r: Entry, c: Entry, ks: seq<(int, int)>, rules: Rules): (e: seq<Emitted>)
  {
    if ks == [] then []
    else
      (if DiamagneticEligible(r, c, ks[0], rules)
       then [Emitted(Diamagnetic(ks[0].0, ks[0].1), r.idx, c.idx, Diamagnetism(r.state, c.state, ks[0].0))]
       else [])
      + DiamagneticEmission(r, c, ks[1..], rules)
  }

  /** Every order the any-q multipole rule allows contributes. */
  function MultipoleEmission(r: Entry, c: Entry, os: seq<int>, rules: Rules): (e: seq<Emitted>)
  {
    if os == [] then []
    else
      (if rules.multipoleAnyQ(r.state, c.state, os[0])
       then [Emitted(IonMultipole(os[0]), r.idx, c.idx, ElectricMultipole(r.state, c.state, os[0]))]
       else [])
      + MultipoleEmission(r, c, os[1..], rules)
  }

  /**
   * q = m_r - m_c converted to an integer is zero: the conversion truncates
   * toward zero, so this holds exactly when |2 m_r - 2 m_c| < 2.
   */
  predicate MomentumConserved(r: StateOne, c: StateOne)
    requires r.Physical? && c.Physical?
  {
    -2 < r.twoM - c.twoM < 2
  }

  /** The triplets one (row, column) pair of physical states contributes. */
  function PairEmission(r: Entry, c: Entry, ranges: Ranges, rules: Rules): seq<Emitted>
  {
    if r.state.Artificial? || c.state.Artificial? then []
    else
      ElectricEmission(r, c, ranges.erange, rules)
      + MagneticEmission(r, c, ranges.brange, rules)
      + DiamagneticEmission(r, c, ranges.drange, rules)
      + (if ranges.charge != 0 && MomentumConserved(r.state, c.state)
         then MultipoleEmission(r, c, ranges.orange, rules) else [])
  }

  /** The triplets of every pair, as the collection loop computes them. */
  function PairOf(ranges: Ranges, rules: Rules): (Entry, Entry) -> seq<Emitted>
  {
    (r, c) => PairEmission(r, c, ranges, rules)
  }

  /** The triplets of column c with the first rows rows. */
  function RowsEmission(states: seq<Entry>, c: Entry, rows: nat, pair: (Entry, Entry) -> seq<Emitted>): seq<Emitted>
    requires rows <= |states|
  {
    if rows == 0 then [] else RowsEmission(states, c, rows - 1, pair) + pair(states[rows - 1], c)
  }

  /** The triplets of the first cols columns, column by column. */
  function Emission(states: seq<Entry>, cols: nat, pair: (Entry, Entry) -> seq<Emitted>): seq<Emitted>
    requires cols <= |states|
  {
    if cols == 0 then [] else Emission(states, cols - 1, pair) + RowsEmission(states, states[cols - 1], |states|, pair)
  }

  /**
   * The electric loop yields nothing exactly when no component is eligible,
   * and otherwise exactly the first eligible component.
   */
  lemma {:induction false} ElectricEmissionIsFirstEligible(r: Entry, c: Entry, qs: seq<int>, rules: Rules)
    ensures ElectricEmission(r, c, qs, rules) == [] <==> forall q :: q in qs ==> !ElectricEligible(r, c, q, rules)
    ensures ElectricEmission(r, c, qs, rules) != [] ==>
              exists i :: 0 <= i < |qs| && ElectricEligible(r, c, qs[i], rules)
                && (forall j :: 0 <= j < i ==> !ElectricEligible(r, c, qs[j], rules))
                && ElectricEmission(r, c, qs, rules) == [Emitted(Efield(qs[i]), r.idx, c.idx, ElectricDipole(r.state, c.state))]
    decreases |qs|
  {
    if qs != [] {
      ElectricEmissionIsFirstEligible(r, c, qs[1..], rules);
      assert forall q :: q in qs <==> q == qs[0] || q in qs[1..];
      if !ElectricEligible(r, c, qs[0], rules) && ElectricEmission(r, c, qs, rules) != [] {
        var i :| 0 <= i < |qs[1..]| && ElectricEligible(r, c, qs[1..][i], rules)
                && (forall j :: 0 <= j < i ==> !ElectricEligible(r, c, qs[1..][j], rules))
                && ElectricEmission(r, c, qs[1..], rules) == [Emitted(Efield(qs[1..][i]), r.idx, c.idx, ElectricDipole(r.state, c.state))];
        assert ElectricEligible(r, c, qs[i + 1], rules);
      }
    }
  }

  /**
   * The magnetic loop yields nothing exactly when no component is eligible,
   * and otherwise exactly the first eligible component.
   */
  lemma {:induction false} MagneticEmissionIsFirstEligible(r: Entry, c: Entry, qs: seq<int>, rules: Rules)
    ensures MagneticEmission(r, c, qs, rules) == [] <==> forall q :: q in qs ==> !MagneticEligible(r, c, q, rules)
    ensures MagneticEmission(r, c, qs, rules) != [] ==>
              exists i :: 0 <= i < |qs| && MagneticEligible(r, c, qs[i], rules)
                && (forall j :: 0 <= j < i ==> !MagneticEligible(r, c, qs[j], rules))
                && MagneticEmission(r, c, qs, rules) == [Emitted(Bfield(qs[i]), r.idx, c.idx, MagneticDipole(r.state, c.state))]
    decreases |qs|
  {
    if qs != [] {
      MagneticEmissionIsFirstEligible(r, c, qs[1..], rules);
      assert forall q :: q in qs <==> q == qs[0] || q in qs[1..];
      if !MagneticEligible(r, c, qs[0], rules) && MagneticEmission(r, c, qs, rules) != [] {
        var i :| 0 <= i < |qs[1..]| && MagneticEligible(r, c, qs[1..][i], rules)
                && (forall j :: 0 <= j < i ==> !MagneticEligible(r, c, qs[1..][j], rules))
                && MagneticEmission(r, c, qs[1..], rules) == [Emitted(Bfield(qs[1..][i]), r.idx, c.idx, MagneticDipole(r.state, c.state))];
        assert MagneticEligible(r, c, qs[i + 1], rules);
      }
    }
  }

  /** The diamagnetic loop yields one triplet for each eligible term and nothing else. */
  lemma {:induction false} DiamagneticEmissionIsEligible(r: Entry, c: Entry, ks: seq<(int, int)>, rules: Rules)
    ensures forall key :: key in ks && DiamagneticEligible(r, c, key, rules) ==>
              Emitted(Diamagnetic(key.0, key.1), r.idx, c.idx, Diamagnetism(r.state, c.state, key.0)) in DiamagneticEmission(r, c, ks, rules)
    ensures forall e :: e in DiamagneticEmission(r, c, ks, rules) ==>
              && e.channel.Diamagnetic? && (e.channel.k, e.channel.q) in ks
              && DiamagneticEligible(r, c, (e.channel.k, e.channel.q), rules)
              && e == Emitted(e.channel, r.idx, c.idx, Diamagnetism(r.state, c.state, e.channel.k))
    decreases |ks|
  {
    if ks != [] {
      DiamagneticEmissionIsEligible(r, c, ks[1..], rules);
      assert forall key :: key in ks <==> key == ks[0] || key in ks[1..];
    }
  }

  /** The ion loop yields one triplet for each order the any-q rule allows and nothing else. */
  lemma {:induction false} MultipoleEmissionIsAllowed(r: Entry, c: Entry, os: seq<int>, rules: Rules)
    ensures forall o :: o in os && rules.multipoleAnyQ(r.state, c.state, o) ==>
              Emitted(IonMultipole(o), r.idx, c.idx, ElectricMultipole(r.state, c.state, o)) in MultipoleEmission(r, c, os, rules)
    ensures forall e :: e in MultipoleEmission(r, c, os, rules) ==>
              && e.channel.IonMultipole? && e.channel.order in os
              && rules.multipoleAnyQ(r.state, c.state, e.channel.order)
              && e == Emitted(e.channel, r.idx, c.idx, ElectricMultipole(r.state, c.state, e.channel.order))
    decreases |os|
  {
    if os != [] {
      MultipoleEmissionIsAllowed(r, c, os[1..], rules);
      assert forall o :: o in os <==> o == os[0] || o in os[1..];
    }
  }

  /** What a triplet of one pair says about that pair. */
  ghost predicate EmittedSound(r: Entry, c: Entry, ranges: Ranges, rules: Rules, e: Emitted)
  {
    && e.row == r.idx && e.col == c.idx
    && r.state.Physical? && c.state.Physical?
    && match e.channel
       case Efield(q) =>
         q in ranges.erange && ElectricEligible(r, c, q, rules) && e.value == ElectricDipole(r.state, c.state)
       case Bfield(q) =>
         q in ranges.brange && MagneticEligible(r, c, q, rules) && e.value == MagneticDipole(r.state, c.state)
       case Diamagnetic(k, q) =>
         (k, q) in ranges.drange && DiamagneticEligible(r, c, (k, q), rules) && e.value == Diamagnetism(r.state, c.state, k)
       case IonMultipole(o) =>
         && ranges.charge != 0 && MomentumConserved(r.state, c.state) && o in ranges.orange
         && rules.multipoleAnyQ(r.state, c.state, o) && e.value == ElectricMultipole(r.state, c.state, o)
  }

  /**
   * Every triplet of a pair connects two physical states through a
   * component of the ranges whose selection rule holds; the q = 0
   * components only fill the lower triangle, and the ion terms only
   * connect states whose m differ by less than one.
   */
  lemma PairEmissionSound(r: Entry, c: Entry, ranges: Ranges, rules: Rules)
    ensures forall e :: e in PairEmission(r, c, ranges, rules) ==> EmittedSound(r, c, ranges, rules, e)
  {
    if r.state.Physical? && c.state.Physical? {
      ElectricEmissionIsFirstEligible(r, c, ranges.erange, rules);
      MagneticEmissionIsFirstEligible(r, c, ranges.brange, rules);
      DiamagneticEmissionIsEligible(r, c, ranges.drange, rules);
      MultipoleEmissionIsAllowed(r, c, ranges.orange, rules);
    }
  }

  /**
   * Every eligible diamagnetic term and every allowed ion order of a pair of
   * physical states is collected.
   */
  lemma PairEmissionComplete(r: Entry, c: Entry, ranges: Ranges, rules: Rules)
    requires r.state.Physical? && c.state.Physical?
    ensures forall key :: key in ranges.drange && DiamagneticEligible(r, c, key, rules) ==>
              Emitted(Diamagnetic(key.0, key.1), r.idx, c.idx, Diamagnetism(r.state, c.state, key.0))
                in PairEmission(r, c, ranges, rules)
    ensures ranges.charge != 0 && MomentumConserved(r.state, c.state) ==>
              forall o :: o in ranges.orange && rules.multipoleAnyQ(r.state, c.state, o) ==>
                Emitted(IonMultipole(o), r.idx, c.idx, ElectricMultipole(r.state, c.state, o)) in PairEmission(r, c, ranges, rules)
    ensures (exists q :: q in ranges.erange && ElectricEligible(r, c, q, rules)) ==>
              exists e :: e in PairEmission(r, c, ranges, rules) && e.channel.Efield?
    ensures (exists q :: q in ranges.brange && MagneticEligible(r, c, q, rules)) ==>
              exists e :: e in PairEmission(r, c, ranges, rules) && e.channel.Bfield?
  {
    DiamagneticEmissionIsEligible(r, c, ranges.drange, rules);
    MultipoleEmissionIsAllowed(r, c, ranges.orange, rules);
    ElectricEmissionIsFirstEligible(r, c, ranges.erange, rules);
    if exists q :: q in ranges.erange && ElectricEligible(r, c, q, rules) {
      var e := ElectricEmission(r, c, ranges.erange, rules)[0];
      assert e in PairEmission(r, c, ranges, rules);
    }
    MagneticEmissionIsFirstEligible(r, c, ranges.brange, rules);
    if exists q :: q in ranges.brange && MagneticEligible(r, c, q, rules) {
      var e := MagneticEmission(r, c, ranges.brange, rules)[0];
      assert e in PairEmission(r, c, ranges, rules);
    }
  }

  /** Every triplet of a column comes from one of its rows. */
  lemma {:induction false} RowsEmissionMembers(states: seq<Entry>, c: Entry, rows: nat, pair: (Entry, Entry) -> seq<Emitted>)
    requires rows <= |states|
    ensures forall e :: e in RowsEmission(states, c, rows, pair) <==>
              exists i :: 0 <= i < rows && e in pair(states[i], c)
  {
    if rows > 0 {
      RowsEmissionMembers(states, c, rows - 1, pair);
    }
  }

  /** Every collected triplet comes from a pair of states, and every triplet of every pair is collected. */
  lemma {:induction false} EmissionMembers(states: seq<Entry>, cols: nat, pair: (Entry, Entry) -> seq<Emitted>)
    requires cols <= |states|
    ensures forall e :: e in Emission(states, cols, pair) <==>
              exists j, i :: 0 <= j < cols && 0 <= i < |states| && e in pair(states[i], states[j])
  {
    if cols > 0 {
      EmissionMembers(states, cols - 1, pair);
      RowsEmissionMembers(states, states[cols - 1], |states|, pair);
    }
  }

  /**
   * Over an indexed container, every collected triplet lies inside the
   * matrix, connects two physical states by an allowed element, and a
   * q = 0 triplet lies on or below the diagonal.
   */
  lemma EmissionSound(states: seq<Entry>, index: map<StateOne, nat>, ranges: Ranges, rules: Rules, e: Emitted)
    requires Indexed(states, index)
    requires e in Emission(states, |states|, PairOf(ranges, rules))
    ensures e.row < |states| && e.col < |states|
    ensures EmittedSound(states[e.row], states[e.col], ranges, rules, e)
    ensures (e.channel.Efield? || e.channel.Bfield?) && e.channel.q == 0 ==> e.row >= e.col
    ensures e.channel.Diamagnetic? && e.channel.q == 0 ==> e.row >= e.col
  {
    EmissionMembers(states, |states|, PairOf(ranges, rules));
    var j, i :| 0 <= j < |states| && 0 <= i < |states| && e in PairOf(ranges, rules)(states[i], states[j]);
    PairEmissionSound(states[i], states[j], ranges, rules);
  }

  /** The triplets collected for one channel, in order. */
  function TripletsOf(emission: seq<Emitted>, channel: Channel): (ts: seq<Triplet<Element>>)
    ensures |ts| <= |emission|
  {
    if emission == [] then []
    else
      (if emission[0].channel == channel then [Triplet(emission[0].row, emission[0].col, emission[0].value)] else [])
      + TripletsOf(emission[1..], channel)
  }

  /**
   * An interaction operator in the canonical basis: a q = 0 operator given
   * by its lower triangle (the full matrix is its self-adjoint completion),
   * an operator given by all its triplets, or sign times the adjoint of an
   * operator given by its triplets.
   */
  datatype Operator =
    | SelfAdjointLower(size: nat, lower: seq<Triplet<Element>>)
    | Plain(size: nat, entries: seq<Triplet<Element>>)
    | SignedAdjoint(size: nat, sign: int, of: seq<Triplet<Element>>)

  /** (-1)^q. */
  function Sign(q: int): (s: int)
    ensures s == 1 || s == -1
    ensures s == 1 <==> q % 2 == 0
  {
    if q % 2 == 0 then 1 else -1
  }

  /** The operator families keyed by an integer. */
  datatype Family = Electric | Magnetic | Ion

  function ChannelOf(family: Family, q: int): Channel
  {
    match family
    case Electric => Efield(q)
    case Magnetic => Bfield(q)
    case Ion => IonMultipole(q)
  }

  /**
   * The operators stored for components qs: component q from its triplets
   * (self-adjoint from the lower triangle when q = 0), and for q != 0 also
   * component -q as (-1)^q times the adjoint of component q.
   */
  function Stored(m: map<int, Operator>, qs: seq<int>, family: Family, emission: seq<Emitted>, size: nat): map<int, Operator>
    decreases |qs|
  {
    if qs == [] then m
    else
      var q := qs[0];
      var ts := TripletsOf(emission, ChannelOf(family, q));
      var m1 := if q == 0 then m[q := SelfAdjointLower(size, ts)]
                else m[q := Plain(size, ts)][-q := SignedAdjoint(size, Sign(q), ts)];
      Stored(m1, qs[1..], family, emission, size)
  }

  /** Keys that are neither a component of qs nor the opposite of one keep their operators. */
  lemma {:induction false} StoredKeeps(m: map<int, Operator>, qs: seq<int>, family: Family, emission: seq<Emitted>, size: nat, x: int)
    requires x !in qs && -x !in qs
    ensures x in Stored(m, qs, family, emission, size) <==> x in m
    ensures x in m ==> Stored(m, qs, family, emission, size)[x] == m[x]
    decreases |qs|
  {
    if qs != [] {
      var q := qs[0];
      var ts := TripletsOf(emission, ChannelOf(family, q));
      var m1 := if q == 0 then m[q := SelfAdjointLower(size, ts)]
                else m[q := Plain(size, ts)][-q := SignedAdjoint(size, Sign(q), ts)];
      assert Stored(m, qs, family, emission, size) == Stored(m1, qs[1..], family, emission, size);
      assert x != q && x != -q && x !in qs[1..] && -x !in qs[1..] by {
        assert qs == [q] + qs[1..];
      }
      StoredKeeps(m1, qs[1..], family, emission, size, x);
    }
  }

  /**
   * For increasing nonnegative components, every component of qs holds its
   * operator (self-adjoint from the lower triangle when q = 0), and the
   * opposite of every nonzero one holds (-1)^q times its adjoint.
   */
  lemma {:induction false} StoredSets(m: map<int, Operator>, qs: seq<int>, family: Family, emission: seq<Emitted>, size: nat, x: int)
    requires Increasing(qs) && forall q :: q in qs ==> q >= 0
    requires x in qs
    ensures x in Stored(m, qs, family, emission, size)
    ensures Stored(m, qs, family, emission, size)[x]
              == (var ts := TripletsOf(emission, ChannelOf(family, x));
                  if x == 0 then SelfAdjointLower(size, ts) else Plain(size, ts))
    ensures x != 0 ==> -x in Stored(m, qs, family, emission, size)
    ensures x != 0 ==> Stored(m, qs, family, emission, size)[-x] == SignedAdjoint(size, Sign(x), TripletsOf(emission, ChannelOf(family, x)))
    decreases |qs|
  {
    var q := qs[0];
    var rest := qs[1..];
    var ts := TripletsOf(emission, ChannelOf(family, q));
    var m1 := if q == 0 then m[q := SelfAdjointLower(size, ts)]
              else m[q := Plain(size, ts)][-q := SignedAdjoint(size, Sign(q), ts)];
    assert Stored(m, qs, family, emission, size) == Stored(m1, rest, family, emission, size);
    IncreasingTail(qs);
    if x == q {
      StoredKeeps(m1, rest, family, emission, size, q);
      StoredKeeps(m1, rest, family, emission, size, -q);
    } else {
      StoredSets(m1, rest, family, emission, size, x);
    }
  }

  /** The stored diamagnetic operators, as Stored does for integer keys. */
  function StoredTerms(m: map<(int, int), Operator>, ks: seq<(int, int)>, emission: seq<Emitted>, size: nat)
    : map<(int, int), Operator>
    decreases |ks|
  {
    if ks == [] then m
    else
      var key := ks[0];
      var ts := TripletsOf(emission, Diamagnetic(key.0, key.1));
      var m1 := if key.1 == 0 then m[key := SelfAdjointLower(size, ts)]
                else m[key := Plain(size, ts)][(key.0, -key.1) := SignedAdjoint(size, Sign(key.1), ts)];
      StoredTerms(m1, ks[1..], emission, size)
  }

  predicate DistinctKeys(ks: seq<(int, int)>)
  {
    forall i, j :: 0 <= i < j < |ks| ==> ks[i] != ks[j]
  }

  /** The tail of a sequence of distinct keys is distinct and avoids its head. */
  lemma DistinctTail(ks: seq<(int, int)>)
    requires DistinctKeys(ks) && ks != []
    ensures DistinctKeys(ks[1..])
    ensures ks[0] !in ks[1..]
    ensures forall y :: y in ks <==> y == ks[0] || y in ks[1..]
  {
    assert ks == [ks[0]] + ks[1..];
    forall k | 0 <= k < |ks[1..]|
      ensures ks[1..][k] != ks[0]
    {
      assert ks[1..][k] == ks[k + 1];
    }
  }

  /** Keys that are neither a term of ks nor the (k, -q) partner of one keep their operators. */
  lemma {:induction false} StoredTermsKeeps(m: map<(int, int), Operator>, ks: seq<(int, int)>, emission: seq<Emitted>, size: nat, x: (int, int))
    requires x !in ks && (x.0, -x.1) !in ks
    ensures x in StoredTerms(m, ks, emission, size) <==> x in m
    ensures x in m ==> StoredTerms(m, ks, emission, size)[x] == m[x]
    decreases |ks|
  {
    if ks != [] {
      var key := ks[0];
      var ts := TripletsOf(emission, Diamagnetic(key.0, key.1));
      var m1 := if key.1 == 0 then m[key := SelfAdjointLower(size, ts)]
                else m[key := Plain(size, ts)][(key.0, -key.1) := SignedAdjoint(size, Sign(key.1), ts)];
      assert StoredTerms(m, ks, emission, size) == StoredTerms(m1, ks[1..], emission, size);
      assert x != key && x != (key.0, -key.1) && x !in ks[1..] && (x.0, -x.1) !in ks[1..] by {
        assert ks == [key] + ks[1..];
      }
      StoredTermsKeeps(m1, ks[1..], emission, size, x);
    }
  }

  /**
   * For distinct terms with q >= 0, every term of ks holds its operator
   * (self-adjoint from the lower triangle when q = 0), and the (k, -q)
   * partner of every term with q != 0 holds (-1)^q times its adjoint.
   */
  lemma {:induction false} StoredTermsSets(m: map<(int, int), Operator>, ks: seq<(int, int)>, emission: seq<Emitted>, size: nat, x: (int, int))
    requires DistinctKeys(ks) && forall key :: key in ks ==> key.1 >= 0
    requires x in ks
    ensures x in StoredTerms(m, ks, emission, size)
    ensures StoredTerms(m, ks, emission, size)[x]
              == (var ts := TripletsOf(emission, Diamagnetic(x.0, x.1));
                  if x.1 == 0 then SelfAdjointLower(size, ts) else Plain(size, ts))
    ensures x.1 != 0 ==> (x.0, -x.1) in StoredTerms(m, ks, emission, size)
    ensures x.1 != 0 ==>
              (StoredTerms(m, ks, emission, size)[(x.0, -x.1)]
               == SignedAdjoint(size, Sign(x.1), TripletsOf(emission, Diamagnetic(x.0, x.1))))
    decreases |ks|
  {
    var key := ks[0];
    var rest := ks[1..];
    var ts := TripletsOf(emission, Diamagnetic(key.0, key.1));
    var m1 := if key.1 == 0 then m[key := SelfAdjointLower(size, ts)]
              else m[key := Plain(size, ts)][(key.0, -key.1) := SignedAdjoint(size, Sign(key.1), ts)];
    assert StoredTerms(m, ks, emission, size) == StoredTerms(m1, rest, emission, size);
    DistinctTail(ks);
    if x == key {
      StoredTermsKeeps(m1, rest, emission, size, key);
      if key.1 != 0 {
        StoredTermsKeeps(m1, rest, emission, size, (key.0, -key.1));
      }
    } else {
      StoredTermsSets(m1, rest, emission, size, x);
    }
  }

  /** Every integer-keyed operator comes with the operator of the opposite component. */
  predicate Closed(m: map<int, Operator>)
  {
    forall q :: q in m ==> -q in m
  }

  /** Every diamagnetic operator (k, q) comes with the operator (k, -q). */
  predicate ClosedTerms(m: map<(int, int), Operator>)
  {
    forall key :: key in m ==> (key.0, -key.1) in m
  }

  /**
   * Storing components none of which is cached keeps every cached operator,
   * adds each component and its opposite, and adds nothing else, so the
   * cache stays closed under q -> -q.
   */
  lemma StoredClosed(m: map<int, Operator>, qs: seq<int>, family: Family, emission: seq<Emitted>, size: nat)
    requires Closed(m)
    requires Increasing(qs) && forall q :: q in qs ==> q >= 0 && -q !in m
    ensures Closed(Stored(m, qs, family, emission, size))
    ensures forall q :: q in m ==> q in Stored(m, qs, family, emission, size) && Stored(m, qs, family, emission, size)[q] == m[q]
    ensures forall q :: q in qs ==> q in Stored(m, qs, family, emission, size) && -q in Stored(m, qs, family, emission, size)
    ensures forall q :: q in Stored(m, qs, family, emission, size) ==> q in m || q in qs || -q in qs
  {
    var r := Stored(m, qs, family, emission, size);
    forall q | q in qs
      ensures q in r && -q in r
    {
      StoredSets(m, qs, family, emission, size, q);
    }
    forall q | q in m
      ensures q in r && r[q] == m[q]
    {
      assert -q in m && -(-q) == q;
      StoredKeeps(m, qs, family, emission, size, q);
    }
    forall q | q !in qs && -q !in qs
      ensures q in r ==> q in m
    {
      StoredKeeps(m, qs, family, emission, size, q);
    }
  }

  /** StoredClosed for the diamagnetic operators. */
  lemma StoredTermsClosed(m: map<(int, int), Operator>, ks: seq<(int, int)>, emission: seq<Emitted>, size: nat)
    requires ClosedTerms(m)
    requires DistinctKeys(ks) && forall key :: key in ks ==> key.1 >= 0 && key !in m
    ensures ClosedTerms(StoredTerms(m, ks, emission, size))
    ensures forall key :: key in m ==> key in StoredTerms(m, ks, emission, size) && StoredTerms(m, ks, emission, size)[key] == m[key]
    ensures forall key :: key in ks ==> key in StoredTerms(m, ks, emission, size) && (key.0, -key.1) in StoredTerms(m, ks, emission, size)
    ensures forall key :: key in StoredTerms(m, ks, emission, size) ==> key in m || key in ks || (key.0, -key.1) in ks
  {
    var r := StoredTerms(m, ks, emission, size);
    forall key | key in ks
      ensures key in r && (key.0, -key.1) in r
    {
      StoredTermsSets(m, ks, emission, size, key);
    }
    forall key | key in m
      ensures key in r && r[key] == m[key]
    {
      assert (key.0, -key.1) in m && (key.0, -(-key.1)) == key;
      StoredTermsKeeps(m, ks, emission, size, key);
    }
    forall key | key !in ks && (key.0, -key.1) !in ks
      ensures key in r ==> key in m
    {
      StoredTermsKeeps(m, ks, emission, size, key);
    }
  }

  /**
   * Computing the pending field components keeps every cached operator,
   * caches every selected component together with its opposite, and keeps
   * the cache closed under q -> -q.
   */
  lemma FieldStored(m: map<int, Operator>, sph: map<int, Amplitude>, family: Family, emission: seq<Emitted>, size: nat)
    requires Closed(m) && sph.Keys <= {-1, 0, 1}
    ensures var r := Stored(m, FieldRange(sph, m.Keys), family, emission, size);
            && Closed(r)
            && (forall q :: q in m ==> q in r && r[q] == m[q])
            && (forall q :: FieldSelected(sph, m.Keys, q) ==> q in r && -q in r)
            && (forall q :: q in r ==> q in m || FieldSelected(sph, m.Keys, q) || FieldSelected(sph, m.Keys, -q))
  {
    StoredClosed(m, FieldRange(sph, m.Keys), family, emission, size);
  }

  /**
   * Computing the pending diamagnetic terms keeps every cached operator,
   * caches every selected term together with its (k, -q) partner, and
   * keeps the cache closed.
   */
  lemma TermsStored(m: map<(int, int), Operator>, terms: map<(int, int), Amplitude>, enabled: bool, emission: seq<Emitted>, size: nat)
    requires ClosedTerms(m)
    ensures var r := StoredTerms(m, DiamagneticRange(DiamagneticOrder, terms, enabled, m.Keys), emission, size);
            && ClosedTerms(r)
            && (forall key :: key in m ==> key in r && r[key] == m[key])
            && (forall key :: key in DiamagneticOrder && TermSelected(terms, enabled, m.Keys, key) ==> key in r && (key.0, -key.1) in r)
  {
    assert DistinctKeys(DiamagneticOrder);
    DiamagneticRangeMembers(DiamagneticOrder, terms, enabled, m.Keys);
    StoredTermsClosed(m, DiamagneticRange(DiamagneticOrder, terms, enabled, m.Keys), emission, size);
  }

  /**
   * Computing the pending ion orders keeps every cached operator, caches
   * every order 1..ordermax together with its negative, and keeps the
   * cache closed.
   */
  lemma OrdersStored(m: map<int, Operator>, ordermax: nat, emission: seq<Emitted>, size: nat)
    requires Closed(m)
    ensures var r := Stored(m, OrderRange(1, ordermax, m.Keys), Ion, emission, size);
            && Closed(r)
            && (forall o :: o in m ==> o in r && r[o] == m[o])
            && (forall o :: OrderPending(o, ordermax, {}) ==> o in r && -o in r)
  {
    OrderRangeMembers(1, ordermax, m.Keys);
    StoredClosed(m, OrderRange(1, ordermax, m.Keys), Ion, emission, size);
  }

  /**
   * The caches e, b, d, m after storing the ranges over the caches e0, b0,
   * d0, m0 from the collected triplets, for a container of size states.
   */
  ghost predicate Initialized(ranges: Ranges, emission: seq<Emitted>, size: nat,
                              e0: map<int, Operator>, b0: map<int, Operator>, d0: map<(int, int), Operator>, m0: map<int, Operator>,
                              e: map<int, Operator>, b: map<int, Operator>, d: map<(int, int), Operator>, m: map<int, Operator>)
  {
    && e == Stored(e0, ranges.erange, Electric, emission, size)
    && b == Stored(b0, ranges.brange, Magnetic, emission, size)
    && d == StoredTerms(d0, ranges.drange, emission, size)
    && m == Stored(m0, ranges.orange, Ion, emission, size)
  }

  /** With nothing pending, storing leaves all four caches as they are. */
  lemma NothingPending(ranges: Ranges, emission: seq<Emitted>, size: nat,
                       e: map<int, Operator>, b: map<int, Operator>, d: map<(int, int), Operator>, m: map<int, Operator>)
    requires ranges.erange == [] && ranges.brange == [] && ranges.drange == [] && ranges.orange == []
    ensures Initialized(ranges, emission, size, e, b, d, m, e, b, d, m)
  {
  }

  /** What storing the ranges over the four caches needs: components in order, none of them cached. */
  ghost predicate Storable(ranges: Ranges, e: map<int, Operator>, b: map<int, Operator>, d: map<(int, int), Operator>, m: map<int, Operator>)
  {
    && Increasing(ranges.erange) && (forall q :: q in ranges.erange ==> q >= 0 && -q !in e)
    && Increasing(ranges.brange) && (forall q :: q in ranges.brange ==> q >= 0 && -q !in b)
    && DistinctKeys(ranges.drange) && (forall key :: key in ranges.drange ==> key.1 >= 0 && key !in d)
    && Increasing(ranges.orange) && (forall o :: o in ranges.orange ==> o >= 0 && -o !in m)
  }

  /** The pending ranges of closed caches can be stored. */
  lemma PendingStorable(e: map<int, Operator>, b: map<int, Operator>, d: map<(int, int), Operator>, m: map<int, Operator>,
                        esph: map<int, Amplitude>, bsph: map<int, Amplitude>, terms: map<(int, int), Amplitude>,
                        enabled: bool, charge: int, ordermax: nat)
    requires Closed(m)
    requires esph.Keys <= {-1, 0, 1} && bsph.Keys <= {-1, 0, 1}
    ensures Storable(Ranges(FieldRange(esph, e.Keys), FieldRange(bsph, b.Keys),
                            DiamagneticRange(DiamagneticOrder, terms, enabled, d.Keys),
                            if charge != 0 then OrderRange(1, ordermax, m.Keys) else [], charge), e, b, d, m)
  {
    assert DistinctKeys(DiamagneticOrder);
    DiamagneticRangeMembers(DiamagneticOrder, terms, enabled, d.Keys);
    OrderRangeMembers(1, ordermax, m.Keys);
  }

  /**
   * The nonnegative, nonzero, uncached components of a spherical field,
   * visiting its entries in increasing order of q.
   */
  method CollectFieldRange(sph: map<int, Amplitude>, cached: set<int>) returns (qs: seq<int>)
    requires sph.Keys <= {-1, 0, 1}
    ensures qs == FieldRange(sph, cached)
  {
    qs := [];
    var keys := sph.Keys;
    while keys != {}
      invariant keys <= sph.Keys
      invariant Increasing(qs)
      invariant forall x :: x in qs <==> FieldSelected(sph, cached, x) && x !in keys
      invariant forall x, y :: x in qs && y in keys ==> x < y
      decreases |keys|
    {
      var q := PickMin(keys);
      keys := keys - {q};
      if q < 0 {
        continue;
      }
      if IsNonzero(sph[q]) && -q !in cached {
        assert forall i :: 0 <= i < |qs| ==> qs[i] in qs && qs[i] < q;
        qs := qs + [q];
      }
    }
    IncreasingUnique(qs, FieldRange(sph, cached));
  }

  /** The diamagnetic terms to compute, visiting the terms in the order of keys. */
  method CollectDiamagneticRange(keys: seq<(int, int)>, terms: map<(int, int), Amplitude>, enabled: bool, cached: set<(int, int)>)
    returns (ks: seq<(int, int)>)
    ensures ks == DiamagneticRange(keys, terms, enabled, cached)
  {
    ks := [];
    var i := 0;
    while i < |keys|
      invariant 0 <= i <= |keys|
      invariant ks + DiamagneticRange(keys[i..], terms, enabled, cached) == DiamagneticRange(keys, terms, enabled, cached)
    {
      var key := keys[i];
      assert keys[i..][1..] == keys[i + 1..];
      if key in terms && key.1 >= 0 {
        if enabled && IsNonzero(terms[key]) && key !in cached {
          ks := ks + [key];
        }
      }
      i := i + 1;
    }
  }

  /** The ion multipole orders 1..ordermax not yet cached, when the ion is charged. */
  method CollectOrderRange(charge: int, ordermax: nat, cached: set<int>) returns (os: seq<int>)
    ensures os == if charge != 0 then OrderRange(1, ordermax, cached) else []
  {
    os := [];
    if charge != 0 {
      var order := 1;
      while order <= ordermax
        invariant 1 <= order <= ordermax + 1
        invariant os + OrderRange(order, ordermax, cached) == OrderRange(1, ordermax, cached)
      {
        if order !in cached {
          os := os + [order];
        }
        order := order + 1;
      }
    }
  }

  /** The electric loop of one pair: stops at the first eligible component. */
  method EmitElectric(r: Entry, c: Entry, qs: seq<int>, rules: Rules) returns (e: seq<Emitted>)
    ensures e == ElectricEmission(r, c, qs, rules)
  {
    e := [];
    var i := 0;
    while i < |qs|
      invariant 0 <= i <= |qs|
      invariant e == [] ==> ElectricEmission(r, c, qs, rules) == ElectricEmission(r, c, qs[i..], rules)
      invariant e != [] ==> e == ElectricEmission(r, c, qs, rules)
    {
      var q := qs[i];
      assert qs[i..][1..] == qs[i + 1..];
      if q == 0 && r.idx < c.idx {
        i := i + 1;
        continue;
      }
      if rules.multipole(r.state, c.state, 1, q) {
        e := [Emitted(Efield(q), r.idx, c.idx, ElectricDipole(r.state, c.state))];
        break;
      }
      i := i + 1;
    }
  }

  /** The magnetic loop of one pair: stops at the first eligible component. */
  method EmitMagnetic(r: Entry, c: Entry, qs: seq<int>, rules: Rules) returns (e: seq<Emitted>)
    ensures e == MagneticEmission(r, c, qs, rules)
  {
    e := [];
    var i := 0;
    while i < |qs|
      invariant 0 <= i <= |qs|
      invariant e == [] ==> MagneticEmission(r, c, qs, rules) == MagneticEmission(r, c, qs[i..], rules)
      invariant e != [] ==> e == MagneticEmission(r, c, qs, rules)
    {
      var q := qs[i];
      assert qs[i..][1..] == qs[i + 1..];
      if q == 0 && r.idx < c.idx {
        i := i + 1;
        continue;
      }
      if rules.momentum(r.state, c.state, q) {
        e := [Emitted(Bfield(q), r.idx, c.idx, MagneticDipole(r.state, c.state))];
        break;
      }
      i := i + 1;
    }
  }

  /** The diamagnetic loop of one pair: every eligible term. */
  method EmitDiamagnetic(r: Entry, c: Entry, ks: seq<(int, int)>, rules: Rules) returns (e: seq<Emitted>)
    ensures e == DiamagneticEmission(r, c, ks, rules)
  {
    e := [];
    var i := 0;
    while i < |ks|
      invariant 0 <= i <= |ks|
      invariant e + DiamagneticEmission(r, c, ks[i..], rules) == DiamagneticEmission(r, c, ks, rules)
    {
      var key := ks[i];
      assert ks[i..][1..] == ks[i + 1..];
      if key.1 == 0 && r.idx < c.idx {
        i := i + 1;
        continue;
      }
      if rules.multipole(r.state, c.state, key.0, key.1) {
        e := e + [Emitted(Diamagnetic(key.0, key.1), r.idx, c.idx, Diamagnetism(r.state, c.state, key.0))];
      }
      i := i + 1;
    }
  }

  /** The ion loop of one pair: every order the any-q rule allows. */
  method EmitMultipole(r: Entry, c: Entry, os: seq<int>, rules: Rules) returns (e: seq<Emitted>)
    ensures e == MultipoleEmission(r, c, os, rules)
  {
    e := [];
    var i := 0;
    while i < |os|
      invariant 0 <= i <= |os|
      invariant e + MultipoleEmission(r, c, os[i..], rules) == MultipoleEmission(r, c, os, rules)
    {
      var order := os[i];
      assert os[i..][1..] == os[i + 1..];
      if rules.multipoleAnyQ(r.state, c.state, order) {
        e := e + [Emitted(IonMultipole(order), r.idx, c.idx, ElectricMultipole(r.state, c.state, order))];
      }
      i := i + 1;
    }
  }

  /** The triplets of one pair of physical states. */
  method EmitPair(r: Entry, c: Entry, ranges: Ranges, rules: Rules) returns (e: seq<Emitted>)
    requires r.state.Physical? && c.state.Physical?
    ensures e == PairEmission(r, c, ranges, rules)
  {
    var electric := EmitElectric(r, c, ranges.erange, rules);
    var magnetic := EmitMagnetic(r, c, ranges.brange, rules);
    var diamagnetic := EmitDiamagnetic(r, c, ranges.drange, rules);
    e := electric + magnetic + diamagnetic;
    if ranges.charge != 0 {
      if -2 < r.state.twoM - c.state.twoM < 2 {
        var ion := EmitMultipole(r, c, ranges.orange, rules);
        e := e + ion;
      }
    }
  }

  /** An artificial column contributes nothing. */
  lemma {:induction false} ArtificialColumnEmpty(states: seq<Entry>, c: Entry, rows: nat, ranges: Ranges, rules: Rules)
    requires rows <= |states| && c.state.Artificial?
    ensures RowsEmission(states, c, rows, PairOf(ranges, rules)) == []
  {
    if rows > 0 {
      ArtificialColumnEmpty(states, c, rows - 1, ranges, rules);
    }
  }

  /** The double loop over columns and rows, skipping artificial states. */
  method CollectTriplets(states: seq<Entry>, ranges: Ranges, rules: Rules) returns (emission: seq<Emitted>)
    ensures emission == Emission(states, |states|, PairOf(ranges, rules))
  {
    ghost var pair := PairOf(ranges, rules);
    emission := [];
    var j := 0;
    while j < |states|
      invariant 0 <= j <= |states|
      invariant emission == Emission(states, j, pair)
    {
      var c := states[j];
      var column: seq<Emitted> := [];
      if c.state.Artificial? {
        ArtificialColumnEmpty(states, c, |states|, ranges, rules);
      } else {
        column := CollectColumn(states, c, ranges, rules);
      }
      assert Emission(states, j + 1, pair) == Emission(states, j, pair) + RowsEmission(states, c, |states|, pair);
      emission := emission + column;
      j := j + 1;
    }
  }

  /** The row loop for one physical column state, skipping artificial rows. */
  method CollectColumn(states: seq<Entry>, c: Entry, ranges: Ranges, rules: Rules) returns (column: seq<Emitted>)
    requires c.state.Physical?
    ensures column == RowsEmission(states, c, |states|, PairOf(ranges, rules))
  {
    column := [];
    var i := 0;
    while i < |states|
      invariant 0 <= i <= |states|
      invariant column == RowsEmission(states, c, i, PairOf(ranges, rules))
    {
      var r := states[i];
      if r.state.Physical? {
        var e := EmitPair(r, c, ranges, rules);
        column := column + e;
      }
      i := i + 1;
    }
  }

  /** The operator loop of one family: stores each component and its opposite. */
  method StoreOperators(m: map<int, Operator>, qs: seq<int>, family: Family, emission: seq<Emitted>, size: nat)
    returns (r: map<int, Operator>)
    ensures r == Stored(m, qs, family, emission, size)
  {
    r := m;
    var i := 0;
    while i < |qs|
      invariant 0 <= i <= |qs|
      invariant Stored(r, qs[i..], family, emission, size) == Stored(m, qs, family, emission, size)
    {
      var q := qs[i];
      assert qs[i..][1..] == qs[i + 1..];
      var ts := TripletsOf(emission, ChannelOf(family, q));
      if q == 0 {
        r := r[q := SelfAdjointLower(size, ts)];
      } else {
        r := r[q := Plain(size, ts)];
        r := r[-q := SignedAdjoint(size, Sign(q), ts)];
      }
      i := i + 1;
    }
  }

  /** The diamagnetic operator loop: stores each term and its (k, -q) partner. */
  method StoreTermOperators(m: map<(int, int), Operator>, ks: seq<(int, int)>, emission: seq<Emitted>, size: nat)
    returns (r: map<(int, int), Operator>)
    ensures r == StoredTerms(m, ks, emission, size)
  {
    r := m;
    var i := 0;
    while i < |ks|
      invariant 0 <= i <= |ks|
      invariant StoredTerms(r, ks[i..], emission, size) == StoredTerms(m, ks, emission, size)
    {
      var key := ks[i];
      assert ks[i..][1..] == ks[i + 1..];
      var ts := TripletsOf(emission, Diamagnetic(key.0, key.1));
      if key.1 == 0 {
        r := r[key := SelfAdjointLower(size, ts)];
      } else {
        r := r[key := Plain(size, ts)];
        r := r[(key.0, -key.1) := SignedAdjoint(size, Sign(key.1), ts)];
      }
      i := i + 1;
    }
  }
}
