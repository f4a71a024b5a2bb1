/**
 * What the one-atom basis is made of: the restrictions that select states,
 * the indexed container of canonical states, sparse-matrix triplets and the
 * coefficients of symmetrized basis vectors.
 */
module Basis {
  import opened QuantumNumbers
  import opened Symmetry

  /**
   * The quantum-number restrictions of a basis (an empty set means "not
   * restricted"), its species and the doubled spin derived from it, and the
   * rotation set (doubled momenta, possibly the Arb sentinel).
   */
  datatype Restrictions = Restrictions(
    species: string,
    twoS: int,
    rangeN: set<int>,
    rangeL: set<int>,
    rangeJ: set<int>,
    rangeM: set<int>,
    rotation: set<int>)

  /** The l values tried for a given n: the user's set, or 0..n-1. */
  function AdaptedL(r: Restrictions, n: int): set<int>
  {
    if r.rangeL == {} then IntRange(0, n - 1) else r.rangeL
  }

  /** The doubled j values tried for a given l: the user's set, or |l-s|..l+s. */
  function AdaptedJ(r: Restrictions, l: int): set<int>
  {
    if r.rangeJ == {} then StepRange(Abs(2 * l - r.twoS), 2 * l + r.twoS) else r.rangeJ
  }

  /** The doubled m values tried for a given j: the user's set, or -j..j. */
  function AdaptedM(r: Restrictions, twoJ: int): set<int>
  {
    if r.rangeM == {} then StepRange(-twoJ, twoJ) else r.rangeM
  }

  /** The m values left after the rotation symmetry is imposed. */
  function AllowedM(r: Restrictions, twoJ: int): (allowed: set<int>)
    ensures forall m :: m in allowed <==> m in AdaptedM(r, twoJ) && (Arb in r.rotation || m in r.rotation)
  {
    if Arb !in r.rotation then r.rotation * AdaptedM(r, twoJ) else AdaptedM(r, twoJ)
  }

  /** The energy of (n, l, j) is looked up with a state whose m is set to s. */
  function LookupState(r: Restrictions, n: int, l: int, twoJ: int): StateOne
  {
    Physical(r.species, n, l, twoJ, r.twoS)
  }

  /**
   * The states the nested n, l, j, m loop of initializeBasis accepts: each
   * quantum number in its (adapted) range, l < n, |j - l| <= s, |m| <= j, an
   * energy inside the window, and m allowed by the rotation symmetry.
   */
  ghost predicate Enumerated(r: Restrictions, energyOf: StateOne -> real, energyValid: real -> bool, s: StateOne)
  {
    && s.Physical?
    && s.species == r.species
    && s.n in r.rangeN
    && s.l in AdaptedL(r, s.n) && 0 <= s.l <= s.n - 1
    && s.twoJ in AdaptedJ(r, s.l) && Abs(s.twoJ - 2 * s.l) <= r.twoS && 0 <= s.twoJ
    && energyValid(energyOf(LookupState(r, s.n, s.l, s.twoJ)))
    && s.twoM in AllowedM(r, s.twoJ) && Abs(s.twoM) <= s.twoJ
  }

  /**
   * Every enumerated state obeys the physical bounds 0 <= l <= n - 1,
   * |j - l| <= s, j >= 0 and |m| <= j, and conserves a momentum of the
   * rotation set unless that set is arbitrary.
   */
  lemma EnumeratedIsPhysical(r: Restrictions, energyOf: StateOne -> real, energyValid: real -> bool, s: StateOne)
    requires Enumerated(r, energyOf, energyValid, s)
    ensures s.Physical? && 0 <= s.l <= s.n - 1
    ensures -r.twoS <= s.twoJ - 2 * s.l <= r.twoS && s.twoJ >= 0
    ensures -s.twoJ <= s.twoM <= s.twoJ
    ensures Arb !in r.rotation ==> s.twoM in r.rotation
  {
  }

  /** The reflection partner of an enumerated state is enumerated when -m is allowed. */
  lemma ReflectedEnumerated(r: Restrictions, energyOf: StateOne -> real, energyValid: real -> bool, s: StateOne)
    requires Enumerated(r, energyOf, energyValid, s)
    requires -s.twoM in AllowedM(r, s.twoJ)
    ensures Enumerated(r, energyOf, energyValid, Reflected(s))
  {
  }

  /**
   * An enumerated state whose reflection symmetry needs the momentum -m,
   * although -m is not allowed for its j: the enumeration then reports that
   * the momentum -m required by symmetries cannot be found.
   */
  ghost predicate MissingPartner(r: Restrictions, energyOf: StateOne -> real, energyValid: real -> bool,
                                 reflection: Parity, s: StateOne)
  {
    && Enumerated(r, energyOf, energyValid, s)
    && reflection != NA && s.twoM != 0
    && -s.twoM !in AllowedM(r, s.twoJ)
  }

  /**
   * With compatible symmetries and no user restriction on m, the reflection
   * partner of every allowed momentum is allowed too, so no momentum
   * required by symmetries can be missing.
   */
  lemma CompatibleSymmetriesFindPartners(r: Restrictions, energyOf: StateOne -> real, energyValid: real -> bool,
                                         reflection: Parity, s: StateOne)
    requires Compatible(reflection, r.rotation)
    requires r.rangeM == {}
    ensures !MissingPartner(r, energyOf, energyValid, reflection, s)
  {
    if Enumerated(r, energyOf, energyValid, s) && reflection != NA {
      StepRangeSymmetric(s.twoJ, s.twoM);
    }
  }

  /** An entry of the states container: the row index of a canonical state. */
  datatype Entry = Entry(idx: nat, state: StateOne)

  /**
   * The states container indexed both ways, as the source's multi-index
   * container: entry i has idx i, and the map finds every state's row.
   */
  ghost predicate Indexed(states: seq<Entry>, index: map<StateOne, nat>)
  {
    && (forall i :: 0 <= i < |states| ==>
          states[i].idx == i && states[i].state in index && index[states[i].state] == i)
    && (forall s :: s in index ==> index[s] < |states| && states[index[s]].state == s)
  }

  /** An indexed container holds no state twice. */
  lemma IndexedNoDuplicates(states: seq<Entry>, index: map<StateOne, nat>, i: nat, j: nat)
    requires Indexed(states, index)
    requires i < |states| && j < |states| && i != j
    ensures states[i].state != states[j].state
  {
  }

  /** Appending a new state at row |states| keeps the container indexed. */
  lemma IndexedAppend(states: seq<Entry>, index: map<StateOne, nat>, s: StateOne)
    requires Indexed(states, index) && s !in index
    ensures Indexed(states + [Entry(|states|, s)], index[s := |states|])
  {
    var states' := states + [Entry(|states|, s)];
    var index' := index[s := |states|];
    forall i | 0 <= i < |states'|
      ensures states'[i].idx == i && states'[i].state in index' && index'[states'[i].state] == i
    {
      if i < |states| {
        assert states'[i] == states[i];
        assert states[i].state != s;
      }
    }
  }

  /** The container only grows: old rows keep their states. */
  ghost predicate Extends(states0: seq<Entry>, index0: map<StateOne, nat>, states: seq<Entry>, index: map<StateOne, nat>)
  {
    && |states0| <= |states| && states[..|states0|] == states0
    && (forall s :: s in index0 ==> s in index && index[s] == index0[s])
  }

  lemma ExtendsReflexive(states: seq<Entry>, index: map<StateOne, nat>)
    ensures Extends(states, index, states, index)
  {
    assert states[..|states|] == states;
  }

  lemma ExtendsTransitive(states0: seq<Entry>, index0: map<StateOne, nat>, states1: seq<Entry>, index1: map<StateOne, nat>,
                          states2: seq<Entry>, index2: map<StateOne, nat>)
    requires Extends(states0, index0, states1, index1) && Extends(states1, index1, states2, index2)
    ensures Extends(states0, index0, states2, index2)
  {
    assert states2[..|states0|] == states2[..|states1|][..|states0|];
  }

  /** One entry of a sparse matrix under construction. */
  datatype Triplet<V> = Triplet(row: nat, col: nat, value: V)

  /** A sparse matrix given by its dimensions and triplets (duplicates add up). */
  datatype SparseMatrix<V> = SparseMatrix(rows: nat, cols: nat, entries: seq<Triplet<V>>)

  /**
   * The coefficient of a canonical state in a symmetrized basis vector:
   * One is 1; InvSqrt2 is 1/sqrt(2); ReflectionPhase(e, odd) is
   * (-1)^(e/2) * i * (odd ? -1 : 1) / sqrt(2), where e = 2(l + m - j).
   */
  datatype Coefficient =
    | One
    | InvSqrt2
    | ReflectionPhase(twiceExponent: int, odd: bool)

  /** Twice the squared modulus of a coefficient (a natural number). */
  function NormSquaredTwice(c: Coefficient): nat
  {
    if c.One? then 2 else 1
  }

  /** Whether reflection symmetry pairs a state with its partner. */
  predicate Pairs(state: StateOne, reflection: Parity)
  {
    reflection != NA && state.Physical? && state.twoM != 0
  }

  /** Reflection symmetry keeps only the partner with positive m of each pair. */
  predicate Skipped(state: StateOne, reflection: Parity)
  {
    Pairs(state, reflection) && state.twoM < 0
  }

  /**
   * The entries addSymmetrizedBasisvectors writes into column col: the state
   * alone with coefficient 1, or, when reflection symmetry pairs it, the state
   * with 1/sqrt(2) and its reflection with the phase of the given parity.
   */
  function SymmetrizedColumn(state: StateOne, row: nat, partnerRow: nat, col: nat, reflection: Parity)
    : seq<Triplet<Coefficient>>
  {
    if Pairs(state, reflection) then
      [Triplet(row, col, InvSqrt2),
       Triplet(partnerRow, col, ReflectionPhase(2 * state.l + state.twoM - state.twoJ, reflection == Odd))]
    else
      [Triplet(row, col, One)]
  }

  /** The triplets of one column, in order. */
  function ColumnOf<V>(ts: seq<Triplet<V>>, col: nat): (r: seq<Triplet<V>>)
    ensures forall t :: t in r ==> t in ts && t.col == col
  {
    if ts == [] then []
    else (if ts[0].col == col then [ts[0]] else []) + ColumnOf(ts[1..], col)
  }

  lemma {:induction false} ColumnOfAppend<V>(ts: seq<Triplet<V>>, more: seq<Triplet<V>>, col: nat)
    ensures ColumnOf(ts + more, col) == ColumnOf(ts, col) + ColumnOf(more, col)
  {
    if ts == [] {
      assert ts + more == more;
    } else {
      assert (ts + more)[1..] == ts[1..] + more;
      ColumnOfAppend(ts[1..], more, col);
    }
  }

  /** A column no triplet lies in is empty. */
  lemma {:induction false} ColumnOfAbsent<V>(ts: seq<Triplet<V>>, col: nat)
    requires forall t :: t in ts ==> t.col != col
    ensures ColumnOf(ts, col) == []
  {
    if ts != [] {
      assert ts[0] in ts;
      ColumnOfAbsent(ts[1..], col);
    }
  }

  /** A block whose triplets all lie in one column is that column's whole content. */
  lemma {:induction false} ColumnOfUniform<V>(block: seq<Triplet<V>>, c: nat, col: nat)
    requires forall t :: t in block ==> t.col == c
    ensures ColumnOf(block, col) == if col == c then block else []
  {
    if block != [] {
      assert block[0] in block;
      ColumnOfUniform(block[1..], c, col);
      if col == c {
        assert block == [block[0]] + block[1..];
      }
    }
  }

  /** Sum of twice the squared moduli of a list of coefficients. */
  function ColumnWeight(ts: seq<Triplet<Coefficient>>): nat
  {
    if ts == [] then 0 else NormSquaredTwice(ts[0].value) + ColumnWeight(ts[1..])
  }

  /**
   * A symmetrized column is normalized (its squared norm is 1), lies in the
   * given column, and pairs two different rows when it pairs a state with
   * its reflection.
   */
  lemma SymmetrizedColumnNormalized(state: StateOne, row: nat, partnerRow: nat, col: nat, reflection: Parity)
    ensures ColumnWeight(SymmetrizedColumn(state, row, partnerRow, col, reflection)) == 2
    ensures forall t :: t in SymmetrizedColumn(state, row, partnerRow, col, reflection) ==> t.col == col
    ensures |SymmetrizedColumn(state, row, partnerRow, col, reflection)| == if Pairs(state, reflection) then 2 else 1
  {
    var ts := SymmetrizedColumn(state, row, partnerRow, col, reflection);
    if Pairs(state, reflection) {
      assert ts[1..][1..] == [];
    } else {
      assert ts[1..] == [];
    }
  }

  /** The row of the reflection partner of a paired column state. */
  ghost function PartnerRowIn(index: map<StateOne, nat>, reflection: Parity, c: StateOne): nat
  {
    if Pairs(c, reflection) && Reflected(c) in index then index[Reflected(c)] else 0
  }

  /** Column k holds exactly the symmetrized entries of its canonical state. */
  ghost predicate ColumnBuiltIn(index: map<StateOne, nat>, cols: seq<StateOne>, reflection: Parity,
                                basis: seq<Triplet<Coefficient>>, k: nat)
    requires k < |cols|
  {
    var c := cols[k];
    && c in index
    && (Pairs(c, reflection) ==> Reflected(c) in index)
    && ColumnOf(basis, k) == SymmetrizedColumn(c, index[c], PartnerRowIn(index, reflection, c), k, reflection)
  }

  /**
   * The invariant of the triplet lists under construction: idx columns, one
   * diagonal entry per column, and every column made of its canonical
   * state's symmetrized entries.
   */
  ghost predicate BuiltIn(states: seq<Entry>, index: map<StateOne, nat>, cols: seq<StateOne>, reflection: Parity,
                          idx: nat, basis: seq<Triplet<Coefficient>>, diag: seq<Triplet<real>>)
  {
    && Indexed(states, index)
    && |cols| == idx && |diag| == idx
    && (forall k :: 0 <= k < idx ==> diag[k].row == k && diag[k].col == k)
    && (forall t :: t in basis ==> t.row < |states| && t.col < idx)
    && (forall k :: 0 <= k < idx ==> ColumnBuiltIn(index, cols, reflection, basis, k))
  }

  /** Appending the symmetrized column of a state keeps the lists built. */
  lemma BuiltAppendColumn(states0: seq<Entry>, index0: map<StateOne, nat>, states: seq<Entry>, index: map<StateOne, nat>,
                          cols: seq<StateOne>, reflection: Parity, idx: nat, basis: seq<Triplet<Coefficient>>,
                          diag: seq<Triplet<real>>, state: StateOne, energy: real, block: seq<Triplet<Coefficient>>)
    requires BuiltIn(states0, index0, cols, reflection, idx, basis, diag)
    requires Extends(states0, index0, states, index) && Indexed(states, index)
    requires state in index && (Pairs(state, reflection) ==> Reflected(state) in index)
    requires block == SymmetrizedColumn(state, index[state], PartnerRowIn(index, reflection, state), idx, reflection)
    ensures BuiltIn(states, index, cols + [state], reflection, idx + 1, basis + block, diag + [Triplet(idx, idx, energy)])
  {
    var cols' := cols + [state];
    var basis' := basis + block;
    SymmetrizedColumnNormalized(state, index[state], PartnerRowIn(index, reflection, state), idx, reflection);
    forall t | t in basis'
      ensures t.row < |states| && t.col < idx + 1
    {
      if t in basis {
        assert t.row < |states0|;
      }
    }
    forall k | 0 <= k < idx + 1
      ensures ColumnBuiltIn(index, cols', reflection, basis', k)
    {
      ColumnOfAppend(basis, block, k);
      ColumnOfUniform(block, idx, k);
      var c := cols'[k];
      if k < idx {
        assert ColumnBuiltIn(index0, cols, reflection, basis, k);
        assert c == cols[k];
        assert PartnerRowIn(index, reflection, c) == PartnerRowIn(index0, reflection, c);
      } else {
        ColumnOfAbsent(basis, idx);
      }
    }
  }

  /** Every basis vector of built lists is normalized. */
  lemma BuiltColumnsNormalized(states: seq<Entry>, index: map<StateOne, nat>, cols: seq<StateOne>, reflection: Parity,
                               idx: nat, basis: seq<Triplet<Coefficient>>, diag: seq<Triplet<real>>)
    requires BuiltIn(states, index, cols, reflection, idx, basis, diag)
    ensures forall k :: 0 <= k < idx ==> ColumnWeight(ColumnOf(basis, k)) == 2
  {
    forall k | 0 <= k < idx
      ensures ColumnWeight(ColumnOf(basis, k)) == 2
    {
      assert ColumnBuiltIn(index, cols, reflection, basis, k);
      var c := cols[k];
      SymmetrizedColumnNormalized(c, index[c], PartnerRowIn(index, reflection, c), k, reflection);
    }
  }

  /** No column is built twice. */
  ghost predicate Distinct(cols: seq<StateOne>)
  {
    forall i, j :: 0 <= i < j < |cols| ==> cols[i] != cols[j]
  }

  lemma DistinctAppend(cols: seq<StateOne>, s: StateOne)
    requires Distinct(cols) && s !in cols
    ensures Distinct(cols + [s])
  {
    forall i, j | 0 <= i < j < |cols| + 1
      ensures (cols + [s])[i] != (cols + [s])[j]
    {
      if j == |cols| {
        assert (cols + [s])[i] == cols[i];
      }
    }
  }

  /** Every column state of built lists is a row of the container. */
  lemma BuiltColumnsAreRows(states: seq<Entry>, index: map<StateOne, nat>, cols: seq<StateOne>, reflection: Parity,
                            idx: nat, basis: seq<Triplet<Coefficient>>, diag: seq<Triplet<real>>)
    requires BuiltIn(states, index, cols, reflection, idx, basis, diag)
    ensures forall c :: c in cols ==> c in index
  {
    forall c | c in cols
      ensures c in index
    {
      var k :| 0 <= k < |cols| && cols[k] == c;
      assert ColumnBuiltIn(index, cols, reflection, basis, k);
    }
  }

  /**
   * Progress of the m loop for the (n, l, j) of base: every processed m
   * with |m| <= j has its reflection allowed when symmetry pairs it, and
   * is in the container and a column itself or, for negative m under
   * reflection symmetry, is in the container once its partner is.
   */
  ghost predicate MProgress(base: StateOne, reflection: Parity, allowed: set<int>, done: set<int>,
                            index: map<StateOne, nat>, cols: seq<StateOne>)
    requires base.Physical?
  {
    forall m {:trigger m in done} :: m in done && Abs(m) <= base.twoJ ==>
      && (reflection != NA && m != 0 ==> -m in allowed)
      && (reflection == NA || m >= 0 ==> base.(twoM := m) in index && base.(twoM := m) in cols)
      && (reflection != NA && m > 0 ==> base.(twoM := -m) in index)
  }

  lemma MProgressStep(base: StateOne, reflection: Parity, allowed: set<int>, done: set<int>,
                      index: map<StateOne, nat>, index': map<StateOne, nat>,
                      cols: seq<StateOne>, cols': seq<StateOne>, m: int)
    requires base.Physical? && MProgress(base, reflection, allowed, done, index, cols)
    requires forall s :: s in index ==> s in index'
    requires forall c :: c in cols ==> c in cols'
    requires Abs(m) <= base.twoJ ==>
      && (reflection != NA && m != 0 ==> -m in allowed)
      && (reflection == NA || m >= 0 ==> base.(twoM := m) in index' && base.(twoM := m) in cols')
      && (reflection != NA && m > 0 ==> base.(twoM := -m) in index')
    ensures MProgress(base, reflection, allowed, done + {m}, index', cols')
  {
  }

  /**
   * Once every allowed m is processed, every enumerated state of this
   * (n, l, j) is in the container (the negative-m partners came in with
   * their positive-m reflections), is a column unless reflection skips it,
   * and has its reflection partner allowed.
   */
  lemma MProgressComplete(r: Restrictions, energyOf: StateOne -> real, energyValid: real -> bool,
                          base: StateOne, reflection: Parity, index: map<StateOne, nat>, cols: seq<StateOne>)
    requires base.Physical? && base.species == r.species
    requires MProgress(base, reflection, AllowedM(r, base.twoJ), AllowedM(r, base.twoJ), index, cols)
    ensures forall s :: Enumerated(r, energyOf, energyValid, s) && s.n == base.n && s.l == base.l && s.twoJ == base.twoJ
              ==> s in index && (!Skipped(s, reflection) ==> s in cols) && !MissingPartner(r, energyOf, energyValid, reflection, s)
  {
    forall s | Enumerated(r, energyOf, energyValid, s) && s.n == base.n && s.l == base.l && s.twoJ == base.twoJ
      ensures s in index && (!Skipped(s, reflection) ==> s in cols) && !MissingPartner(r, energyOf, energyValid, reflection, s)
    {
      assert s == base.(twoM := s.twoM);
      if reflection != NA && s.twoM < 0 {
        assert base.(twoM := -(-s.twoM)) == s;
      }
    }
  }
}
