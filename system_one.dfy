/**
 * The one-atom system: its fields, symmetries and restrictions, the
 * construction of its symmetrized basis, and the bookkeeping of its
 * interaction operators.
 */
module SystemOneModel {
  import opened Wrappers
  import opened QuantumNumbers
  import opened Symmetry
  import opened Spherical
  import opened Basis
  import opened Interaction

  datatype SymmetryError = ArbitraryWithExplicitMomenta | IncompatibleSymmetries

  datatype BasisError =
    | InfiniteBasis
    | EnergyRangeNotImplemented
    | MomentumMissing(twoM: int)
    | StateAlreadyContained(state: StateOne)
    | WrongSpecies(state: StateOne)
    | ReflectedStateMissing(state: StateOne)

  /** The parameter in which two systems to be combined differ. */
  datatype IncorporateError = SpeciesMismatch | EfieldMismatch | BfieldMismatch | DiamagnetismMismatch

  /**
   * The restrictions initializeBasis reads from the system base: quantum-number
   * ranges (empty = unrestricted), the energy window (None = unbounded) and
   * the user-defined states, in the iteration order of their set.
   */
  datatype BaseRestrictions = BaseRestrictions(
    rangeN: set<int>,
    rangeL: set<int>,
    rangeJ: set<int>,
    rangeM: set<int>,
    energyMin: Option<real>,
    energyMax: Option<real>,
    statesToAdd: seq<StateOne>)

  /** The six (k, q) keys of the diamagnetic terms. */
  const DiamagneticKeys: set<(int, int)> := {(0, 0), (2, 0), (2, 1), (2, -1), (2, 2), (2, -2)}

  /** User-defined states survive the rotation symmetry when they conserve an allowed momentum. */
  predicate KeptByRotation(s: StateOne, rotation: set<int>)
  {
    s.Artificial? || Arb in rotation || s.twoM in rotation
  }

  /** The energy a user-defined state puts on the diagonal: 0 for an artificial state. */
  function UserEnergy(energyOf: StateOne -> real, s: StateOne): real
  {
    if s.Artificial? then 0.0 else energyOf(s)
  }

  /**
   * A user-defined state that reflection symmetry pairs (a physical state
   * with m != 0 that the rotation symmetry keeps) whose reflection is not
   * among the user-defined states.
   */
  predicate UserPartnerMissing(s: StateOne, toAdd: seq<StateOne>, reflection: Parity, rotation: set<int>)
  {
    s.Physical? && reflection != NA && s.twoM != 0 && KeptByRotation(s, rotation) && Reflected(s) !in toAdd
  }

  /** Every user-defined state comes with the reflection its symmetry needs. */
  predicate UserStatesPaired(toAdd: seq<StateOne>, reflection: Parity, rotation: set<int>)
  {
    forall s :: s in toAdd ==> !UserPartnerMissing(s, toAdd, reflection, rotation)
  }

  /**
   * No user-defined state is already in the container before the basis is
   * built, none is an enumerated state, and every physical one has the
   * system's species.
   */
  ghost predicate UserStatesFresh(r: Restrictions, energyOf: StateOne -> real, energyValid: real -> bool,
                                  index0: map<StateOne, nat>, toAdd: seq<StateOne>)
  {
    forall s :: s in toAdd ==>
      s !in index0 && !Enumerated(r, energyOf, energyValid, s) && (s.Physical? ==> s.species == r.species)
  }

  /** No enumerated state lacks the partner momentum its reflection symmetry needs. */
  ghost predicate EnumerationComplete(r: Restrictions, energyOf: StateOne -> real, energyValid: real -> bool, reflection: Parity)
  {
    forall s :: !MissingPartner(r, energyOf, energyValid, reflection, s)
  }

  /** The error names the momentum -m missing for some enumerated state with momentum m. */
  ghost predicate MissingPartnerReported(r: Restrictions, energyOf: StateOne -> real, energyValid: real -> bool,
                                         reflection: Parity, error: BasisError)
  {
    exists s: StateOne :: s.Physical? && MissingPartner(r, energyOf, energyValid, reflection, s) && error == MomentumMissing(-s.twoM)
  }

  /**
   * The diagonal energy of the basis vector of a column state: the energy
   * looked up for the (n, l, j) of an enumerated state, and otherwise the
   * energy of the user-defined state.
   */
  ghost function ColumnEnergy(r: Restrictions, energyOf: StateOne -> real, energyValid: real -> bool, s: StateOne): real
  {
    if Enumerated(r, energyOf, energyValid, s) then energyOf(LookupState(r, s.n, s.l, s.twoJ)) else UserEnergy(energyOf, s)
  }

  /**
   * Where the basis vector of column state c with diagonal energy e comes
   * from: c is not skipped by reflection symmetry, and either it is an
   * enumerated state carrying the energy of its (n, l, j), or a user-defined
   * state the rotation symmetry keeps, carrying its own energy.
   */
  ghost predicate ColumnOrigin(c: StateOne, e: real, reflection: Parity, r: Restrictions,
                               energyOf: StateOne -> real, energyValid: real -> bool, toAdd: seq<StateOne>)
  {
    && !Skipped(c, reflection)
    && ((Enumerated(r, energyOf, energyValid, c) && e == energyOf(LookupState(r, c.n, c.l, c.twoJ)))
        || (c in toAdd && KeptByRotation(c, r.rotation) && e == UserEnergy(energyOf, c)))
  }

  /** The column states are distinct, and each has its origin and diagonal energy. */
  ghost predicate ColumnsOrigin(cols: seq<StateOne>, reflection: Parity, r: Restrictions,
                                energyOf: StateOne -> real, energyValid: real -> bool, toAdd: seq<StateOne>,
                                diag: seq<Triplet<real>>)
  {
    && |diag| == |cols| && Distinct(cols)
    && forall k :: 0 <= k < |cols| ==> ColumnOrigin(cols[k], diag[k].value, reflection, r, energyOf, energyValid, toAdd)
  }

  /**
   * The diagonal of built lists carries, for every column, the energy of
   * its state: the (n, l, j) energy of an enumerated state, or the energy of
   * a user-defined state, provided no user-defined state is enumerated.
   */
  lemma DiagonalEnergies(cols: seq<StateOne>, reflection: Parity, r: Restrictions,
                         energyOf: StateOne -> real, energyValid: real -> bool, toAdd: seq<StateOne>,
                         diag: seq<Triplet<real>>)
    requires ColumnsOrigin(cols, reflection, r, energyOf, energyValid, toAdd, diag)
    requires forall k :: 0 <= k < |diag| ==> diag[k].row == k && diag[k].col == k
    requires forall s :: s in toAdd ==> !Enumerated(r, energyOf, energyValid, s)
    ensures forall k :: 0 <= k < |cols| ==> diag[k] == Triplet(k, k, ColumnEnergy(r, energyOf, energyValid, cols[k]))
  {
    forall k | 0 <= k < |cols|
      ensures diag[k] == Triplet(k, k, ColumnEnergy(r, energyOf, energyValid, cols[k]))
    {
      assert ColumnOrigin(cols[k], diag[k].value, reflection, r, energyOf, energyValid, toAdd);
    }
  }

  /**
   * A reported missing partner momentum needs symmetries the enumeration
   * cannot satisfy: an incompatible reflection and rotation, or a
   * restricted range of m.
   */
  lemma ReportedPartnerNeedsIncompatibility(r: Restrictions, energyOf: StateOne -> real, energyValid: real -> bool,
                                            reflection: Parity, error: BasisError)
    requires MissingPartnerReported(r, energyOf, energyValid, reflection, error)
    ensures !(Compatible(reflection, r.rotation) && r.rangeM == {})
  {
    var s: StateOne :| s.Physical? && MissingPartner(r, energyOf, energyValid, reflection, s) && error == MomentumMissing(-s.twoM);
    if Compatible(reflection, r.rotation) && r.rangeM == {} {
      CompatibleSymmetriesFindPartners(r, energyOf, energyValid, reflection, s);
    }
  }

  lemma ColumnsOriginAppend(cols: seq<StateOne>, reflection: Parity, r: Restrictions,
                            energyOf: StateOne -> real, energyValid: real -> bool, toAdd: seq<StateOne>,
                            diag: seq<Triplet<real>>, c: StateOne, t: Triplet<real>)
    requires ColumnsOrigin(cols, reflection, r, energyOf, energyValid, toAdd, diag)
    requires c !in cols && ColumnOrigin(c, t.value, reflection, r, energyOf, energyValid, toAdd)
    ensures ColumnsOrigin(cols + [c], reflection, r, energyOf, energyValid, toAdd, diag + [t])
  {
    DistinctAppend(cols, c);
    forall k | 0 <= k < |cols| + 1
      ensures ColumnOrigin((cols + [c])[k], (diag + [t])[k].value, reflection, r, energyOf, energyValid, toAdd)
    {
      if k < |cols| {
        assert (cols + [c])[k] == cols[k] && (diag + [t])[k] == diag[k];
      }
    }
  }

  /** Columns that come from no user state come from none of a larger list either. */
  lemma ColumnsOriginWiden(cols: seq<StateOne>, reflection: Parity, r: Restrictions,
                           energyOf: StateOne -> real, energyValid: real -> bool, toAdd: seq<StateOne>,
                           toAdd': seq<StateOne>, diag: seq<Triplet<real>>)
    requires ColumnsOrigin(cols, reflection, r, energyOf, energyValid, toAdd, diag)
    requires forall s :: s in toAdd ==> s in toAdd'
    ensures ColumnsOrigin(cols, reflection, r, energyOf, energyValid, toAdd', diag)
  {
    forall k | 0 <= k < |cols|
      ensures ColumnOrigin(cols[k], diag[k].value, reflection, r, energyOf, energyValid, toAdd')
    {
      assert ColumnOrigin(cols[k], diag[k].value, reflection, r, energyOf, energyValid, toAdd);
    }
  }

  class SystemOne {
    const species: string
    var efield: Vec3
    var bfield: Vec3
    var efieldSpherical: map<int, Amplitude>
    var bfieldSpherical: map<int, Amplitude>
    var diamagnetismTerms: map<(int, int), Amplitude>
    var diamagnetism: bool
    var charge: int
    var ordermax: nat
    var symReflection: Parity
    var symRotation: set<int>

    /** The canonical states (rows of the basis vectors), indexed both ways. */
    var states: seq<Entry>
    var stateIndex: map<StateOne, nat>
    var basisvectors: SparseMatrix<Coefficient>
    var hamiltonian: SparseMatrix<real>
    /** The canonical state each basis vector (column) was built from. */
    ghost var columnStates: seq<StateOne>

    /** The cached interaction operators, keyed by component, (k, q) term or ion order. */
    var interactionEfield: map<int, Operator>
    var interactionBfield: map<int, Operator>
    var interactionDiamagnetism: map<(int, int), Operator>
    var interactionMultipole: map<int, Operator>

    ghost predicate Valid()
      reads this`states, this`stateIndex, this`efieldSpherical, this`bfieldSpherical, this`diamagnetismTerms
    {
      && |species| > 0
      && Indexed(states, stateIndex)
      && FieldsShaped()
      && diamagnetismTerms.Keys <= DiamagneticKeys
    }

    /** The spherical fields hold only the components -1, 0 and 1. */
    predicate FieldsShaped()
      reads this`efieldSpherical, this`bfieldSpherical
    {
      efieldSpherical.Keys <= {-1, 0, 1} && bfieldSpherical.Keys <= {-1, 0, 1}
    }

    /** Every cached operator comes with the operator of the opposite component. */
    ghost predicate CacheClosed()
      reads this`interactionEfield, this`interactionBfield, this`interactionDiamagnetism, this`interactionMultipole
    {
      && Closed(interactionEfield) && Closed(interactionBfield)
      && ClosedTerms(interactionDiamagnetism) && Closed(interactionMultipole)
    }

    constructor(species: string)
      requires |species| > 0
      ensures Valid() && this.species == species
      ensures efield == Vec3(0.0, 0.0, 0.0) && bfield == Vec3(0.0, 0.0, 0.0)
      ensures diamagnetism && charge == 0 && ordermax == 0
      ensures symReflection == NA && symRotation == {Arb}
      ensures states == [] && stateIndex == map[]
      ensures interactionEfield == map[] && interactionBfield == map[]
      ensures interactionDiamagnetism == map[] && interactionMultipole == map[]
      ensures CacheClosed()
    {
      this.species := species;
      efield := Vec3(0.0, 0.0, 0.0);
      bfield := Vec3(0.0, 0.0, 0.0);
      efieldSpherical := map[];
      bfieldSpherical := map[];
      diamagnetismTerms := map[];
      diamagnetism := true;
      charge := 0;
      ordermax := 0;
      symReflection := NA;
      symRotation := {Arb};
      states := [];
      stateIndex := map[];
      basisvectors := SparseMatrix(0, 0, []);
      hamiltonian := SparseMatrix(0, 0, []);
      columnStates := [];
      interactionEfield := map[];
      interactionBfield := map[];
      interactionDiamagnetism := map[];
      interactionMultipole := map[];
    }

    /** Whether the conserved parity and the conserved momenta fit together. */
    predicate IsReflectionAndRotationCompatible()
      reads this`symReflection, this`symRotation
    {
      Compatible(symReflection, symRotation)
    }

    /**
     * Conserve the given momenta. A set mixing Arb with explicit momenta is
     * refused before anything changes; an incompatible set is stored and then
     * reported.
     */
    method SetConservedMomentaUnderRotation(momenta: set<int>) returns (outcome: Outcome<SymmetryError>)
      modifies this`symRotation
      ensures RejectedMomenta(momenta) ==> outcome == Fail(ArbitraryWithExplicitMomenta) && symRotation == old(symRotation)
      ensures !RejectedMomenta(momenta) ==> symRotation == momenta
      ensures !RejectedMomenta(momenta) ==> (outcome.Pass? <==> Compatible(symReflection, momenta))
      ensures outcome.Fail? && !RejectedMomenta(momenta) ==> outcome.error == IncompatibleSymmetries
    {
      if Arb in momenta && |momenta| > 1 {
        return Fail(ArbitraryWithExplicitMomenta);
      }
      symRotation := momenta;
      if !IsReflectionAndRotationCompatible() {
        return Fail(IncompatibleSymmetries);
      }
      return Pass;
    }

    /** Conserve the given parity under reflection; an incompatible parity is stored and then reported. */
    method SetConservedParityUnderReflection(parity: Parity) returns (outcome: Outcome<SymmetryError>)
      modifies this`symReflection
      ensures symReflection == parity
      ensures outcome.Pass? <==> Compatible(parity, symRotation)
      ensures outcome.Fail? ==> outcome.error == IncompatibleSymmetries
    {
      symReflection := parity;
      if !IsReflectionAndRotationCompatible() {
        return Fail(IncompatibleSymmetries);
      }
      return Pass;
    }

    /**
     * Set the electric field. The Cartesian field is always stored; its
     * spherical components only when it has no y component.
     */
    method SetEfield(field: Vec3) returns (outcome: Outcome<FieldError>)
      requires Valid()
      modifies this`efield, this`efieldSpherical
      ensures Valid() && efield == field
      ensures outcome.Fail? <==> field.y != 0.0
      ensures outcome.Fail? ==> efieldSpherical == old(efieldSpherical)
      ensures outcome.Pass? ==> efieldSpherical == ToSpherical(field).value
    {
      efield := field;
      var spherical := ToSpherical(field);
      if spherical.Err? {
        return Fail(spherical.error);
      }
      efieldSpherical := MergeComponents(efieldSpherical, spherical.value);
      return Pass;
    }

    /**
     * Set the magnetic field, its spherical components and the six
     * diamagnetic products of those components.
     */
    method SetBfield(field: Vec3) returns (outcome: Outcome<FieldError>)
      requires Valid()
      modifies this`bfield, this`bfieldSpherical, this`diamagnetismTerms
      ensures Valid() && bfield == field
      ensures outcome.Fail? <==> field.y != 0.0
      ensures outcome.Fail? ==> bfieldSpherical == old(bfieldSpherical) && diamagnetismTerms == old(diamagnetismTerms)
      ensures outcome.Pass? ==> bfieldSpherical == ToSpherical(field).value
      ensures outcome.Pass? ==> diamagnetismTerms == DiamagnetismTerms(ToSpherical(field).value)
    {
      bfield := field;
      var spherical := ToSpherical(field);
      if spherical.Err? {
        return Fail(spherical.error);
      }
      bfieldSpherical := MergeComponents(bfieldSpherical, spherical.value);
      diamagnetismTerms := MergeTerms(diamagnetismTerms, DiamagnetismTerms(spherical.value));
      return Pass;
    }

    /** The restrictions the basis enumeration works with, under the given rotation symmetry. */
    function RestrictionsOf(base: BaseRestrictions, rotation: set<int>): Restrictions
      requires |species| > 0
    {
      Restrictions(species, SpinTwice(species), base.rangeN, base.rangeL, base.rangeJ, base.rangeM, rotation)
    }

    /** The row of the reflection partner of a paired column state. */
    ghost function PartnerRow(c: StateOne): nat
      reads this`stateIndex, this`symReflection
    {
      PartnerRowIn(stateIndex, symReflection, c)
    }

    /** The triplet lists under construction describe idx basis vectors of the current states. */
    ghost predicate Built(idx: nat, basis: seq<Triplet<Coefficient>>, diag: seq<Triplet<real>>)
      reads this`states, this`stateIndex, this`columnStates, this`symReflection
    {
      BuiltIn(states, stateIndex, columnStates, symReflection, idx, basis, diag)
    }

    /**
     * Find the row of a state, appending the state to the container when it
     * is new, and add its entry to the current basis vector.
     */
    method AddBasisvectors(state: StateOne, col: nat, value: Coefficient, basis: seq<Triplet<Coefficient>>)
      returns (basis': seq<Triplet<Coefficient>>)
      requires Indexed(states, stateIndex)
      modifies this`states, this`stateIndex
      ensures Indexed(states, stateIndex) && Extends(old(states), old(stateIndex), states, stateIndex)
      ensures state in stateIndex
      ensures state in old(stateIndex) ==> states == old(states) && stateIndex == old(stateIndex)
      ensures state !in old(stateIndex) ==>
                states == old(states) + [Entry(|old(states)|, state)] && stateIndex == old(stateIndex)[state := |old(states)|]
      ensures basis' == basis + [Triplet(stateIndex[state], col, value)]
    {
      var row: nat;
      if state in stateIndex {
        row := stateIndex[state];
      } else {
        row := |states|;
        IndexedAppend(states, stateIndex, state);
        states := states + [Entry(row, state)];
        stateIndex := stateIndex[state := row];
      }
      basis' := basis + [Triplet(row, col, value)];
    }

    /**
     * Add the basis vector of one canonical state: its energy on the
     * diagonal and its symmetrized entries in column idx. Under reflection
     * symmetry the partner with negative m is skipped, and the one with
     * positive m also brings in its reflection.
     */
    method AddSymmetrizedBasisvectors(state: StateOne, idx: nat, energy: real, basis: seq<Triplet<Coefficient>>,
                                      diag: seq<Triplet<real>>, reflection: Parity)
      returns (idx': nat, basis': seq<Triplet<Coefficient>>, diag': seq<Triplet<real>>)
      requires Built(idx, basis, diag)
      requires reflection == symReflection || (reflection == NA && state.Artificial?)
      requires reflection != NA ==> state.Physical?
      modifies this`states, this`stateIndex, this`columnStates
      ensures Built(idx', basis', diag') && Extends(old(states), old(stateIndex), states, stateIndex)
      ensures forall s :: s in stateIndex ==> s in old(stateIndex) || s == state || (Pairs(state, reflection) && s == Reflected(state))
      ensures Skipped(state, reflection) ==>
                idx' == idx && basis' == basis && diag' == diag && columnStates == old(columnStates)
                && states == old(states) && stateIndex == old(stateIndex)
      ensures !Skipped(state, reflection) ==>
                idx' == idx + 1 && diag' == diag + [Triplet(idx, idx, energy)] && columnStates == old(columnStates) + [state]
                && state in stateIndex && (Pairs(state, reflection) ==> Reflected(state) in stateIndex)
                && basis' == basis + SymmetrizedColumn(state, stateIndex[state], PartnerRow(state), idx, reflection)
    {
      if Skipped(state, reflection) {
        return idx, basis, diag;
      }
      diag' := diag + [Triplet(idx, idx, energy)];
      var paired := Pairs(state, reflection);
      basis' := AddBasisvectors(state, idx, if paired then InvSqrt2 else One, basis);
      if paired {
        var phase := ReflectionPhase(2 * state.l + state.twoM - state.twoJ, reflection == Odd);
        ghost var states1, index1 := states, stateIndex;
        ReflectedInvolution(state);
        basis' := AddBasisvectors(Reflected(state), idx, phase, basis');
        ExtendsTransitive(old(states), old(stateIndex), states1, index1, states, stateIndex);
      }
      ghost var block := basis'[|basis|..];
      assert basis' == basis + block;
      assert SymmetrizedColumn(state, stateIndex[state], PartnerRow(state), idx, reflection)
          == SymmetrizedColumn(state, stateIndex[state], PartnerRow(state), idx, symReflection);
      BuiltAppendColumn(old(states), old(stateIndex), states, stateIndex, columnStates, symReflection,
                        idx, basis, diag, state, energy, block);
      columnStates := columnStates + [state];
      idx' := idx + 1;
    }

    /** Every state of the container was there before, is enumerated, or is user-defined. */
    ghost predicate StatesFrom(index0: map<StateOne, nat>, r: Restrictions, energyOf: StateOne -> real,
                               energyValid: real -> bool, toAdd: seq<StateOne>)
      reads this`stateIndex
    {
      forall s :: s in stateIndex ==> s in index0 || Enumerated(r, energyOf, energyValid, s) || s in toAdd
    }

    /** The column states and diagonal under construction satisfy ColumnsOrigin. */
    ghost predicate ColumnsFrom(r: Restrictions, energyOf: StateOne -> real, energyValid: real -> bool,
                                toAdd: seq<StateOne>, diag: seq<Triplet<real>>)
      reads this`columnStates, this`symReflection
    {
      ColumnsOrigin(columnStates, symReflection, r, energyOf, energyValid, toAdd, diag)
    }

    /**
     * Add the basis vector of an enumerated state (and its reflection
     * partner), with the energy looked up for its (n, l, j) on the diagonal.
     */
    method AddEnumerated(r: Restrictions, state: StateOne, energy: real,
                         energyOf: StateOne -> real, energyValid: real -> bool, ghost index0: map<StateOne, nat>,
                         idx: nat, basis: seq<Triplet<Coefficient>>, diag: seq<Triplet<real>>)
      returns (idx': nat, basis': seq<Triplet<Coefficient>>, diag': seq<Triplet<real>>)
      requires Enumerated(r, energyOf, energyValid, state)
      requires energy == energyOf(LookupState(r, state.n, state.l, state.twoJ))
      requires Pairs(state, symReflection) ==> Enumerated(r, energyOf, energyValid, Reflected(state))
      requires state !in columnStates
      requires Built(idx, basis, diag)
      requires StatesFrom(index0, r, energyOf, energyValid, []) && ColumnsFrom(r, energyOf, energyValid, [], diag)
      modifies this`states, this`stateIndex, this`columnStates
      ensures Built(idx', basis', diag') && Extends(old(states), old(stateIndex), states, stateIndex)
      ensures StatesFrom(index0, r, energyOf, energyValid, []) && ColumnsFrom(r, energyOf, energyValid, [], diag')
      ensures Skipped(state, symReflection) ==>
                idx' == idx && diag' == diag && columnStates == old(columnStates) && stateIndex == old(stateIndex)
      ensures !Skipped(state, symReflection) ==>
                && idx' == idx + 1 && diag' == diag + [Triplet(idx, idx, energy)]
                && columnStates == old(columnStates) + [state] && state in stateIndex
      ensures Pairs(state, symReflection) && !Skipped(state, symReflection) ==> Reflected(state) in stateIndex
    {
      ghost var cols0 := columnStates;
      idx', basis', diag' := AddSymmetrizedBasisvectors(state, idx, energy, basis, diag, symReflection);
      if !Skipped(state, symReflection) {
        ColumnsOriginAppend(cols0, symReflection, r, energyOf, energyValid, [], diag, state, Triplet(idx, idx, energy));
      }
    }

    /** The innermost loop of the enumeration: the allowed m of one (n, l, j). */
    method EnumerateM(r: Restrictions, n: int, l: int, twoJ: int, energy: real,
                      energyOf: StateOne -> real, energyValid: real -> bool, ghost index0: map<StateOne, nat>,
                      idx: nat, basis: seq<Triplet<Coefficient>>, diag: seq<Triplet<real>>)
      returns (outcome: Outcome<BasisError>, idx': nat, basis': seq<Triplet<Coefficient>>, diag': seq<Triplet<real>>)
      requires r.species == species
      requires n in r.rangeN && l in AdaptedL(r, n) && 0 <= l <= n - 1
      requires twoJ in AdaptedJ(r, l) && Abs(twoJ - 2 * l) <= r.twoS && 0 <= twoJ
      requires energy == energyOf(LookupState(r, n, l, twoJ)) && energyValid(energy)
      requires Built(idx, basis, diag)
      requires StatesFrom(index0, r, energyOf, energyValid, []) && ColumnsFrom(r, energyOf, energyValid, [], diag)
      requires forall c :: c in columnStates ==> c.Physical? && (c.n != n || c.l != l || c.twoJ != twoJ)
      modifies this`states, this`stateIndex, this`columnStates
      ensures Built(idx', basis', diag') && Extends(old(states), old(stateIndex), states, stateIndex)
      ensures StatesFrom(index0, r, energyOf, energyValid, []) && ColumnsFrom(r, energyOf, energyValid, [], diag')
      ensures forall c :: c in old(columnStates) ==> c in columnStates
      ensures forall c :: c in columnStates ==>
                c in old(columnStates) || (c.Physical? && c.n == n && c.l == l && c.twoJ == twoJ)
      ensures outcome.Pass? ==>
                forall s :: Enumerated(r, energyOf, energyValid, s) && s.n == n && s.l == l && s.twoJ == twoJ ==>
                  && s in stateIndex && (!Skipped(s, symReflection) ==> s in columnStates)
                  && !MissingPartner(r, energyOf, energyValid, symReflection, s)
      ensures outcome.Fail? ==> MissingPartnerReported(r, energyOf, energyValid, symReflection, outcome.error)
    {
      var allowed := AllowedM(r, twoJ);
      var rest := allowed;
      ghost var base := Physical(species, n, l, twoJ, 0);
      outcome, idx', basis', diag' := Pass, idx, basis, diag;
      while rest != {}
        invariant rest <= allowed && outcome.Pass?
        invariant Built(idx', basis', diag') && Extends(old(states), old(stateIndex), states, stateIndex)
        invariant StatesFrom(index0, r, energyOf, energyValid, []) && ColumnsFrom(r, energyOf, energyValid, [], diag')
        invariant forall c :: c in old(columnStates) ==> c in columnStates
        invariant forall c :: c in columnStates ==>
                    c in old(columnStates) || (c.Physical? && c.n == n && c.l == l && c.twoJ == twoJ && c.twoM in allowed - rest)
        invariant MProgress(base, symReflection, allowed, allowed - rest, stateIndex, columnStates)
        decreases |rest|
      {
        var m := PickMin(rest);
        ghost var done := allowed - rest;
        rest := rest - {m};
        assert allowed - rest == done + {m};
        ghost var states1, index1 := states, stateIndex;
        outcome, idx', basis', diag' :=
          ProcessM(r, n, l, twoJ, m, energy, energyOf, energyValid, index0, done, idx', basis', diag');
        ExtendsTransitive(old(states), old(stateIndex), states1, index1, states, stateIndex);
        if outcome.Fail? {
          return;
        }
      }
      assert allowed - rest == allowed;
      MProgressComplete(r, energyOf, energyValid, base, symReflection, stateIndex, columnStates);
    }

    /**
     * One pass of the m loop: skip |m| > j, fail on a missing partner
     * momentum under reflection symmetry, otherwise add the state.
     */
    method ProcessM(r: Restrictions, n: int, l: int, twoJ: int, m: int, energy: real,
                    energyOf: StateOne -> real, energyValid: real -> bool, ghost index0: map<StateOne, nat>,
                    ghost done: set<int>, idx: nat, basis: seq<Triplet<Coefficient>>, diag: seq<Triplet<real>>)
      returns (outcome: Outcome<BasisError>, idx': nat, basis': seq<Triplet<Coefficient>>, diag': seq<Triplet<real>>)
      requires r.species == species
      requires n in r.rangeN && l in AdaptedL(r, n) && 0 <= l <= n - 1
      requires twoJ in AdaptedJ(r, l) && Abs(twoJ - 2 * l) <= r.twoS && 0 <= twoJ
      requires energy == energyOf(LookupState(r, n, l, twoJ)) && energyValid(energy)
      requires m in AllowedM(r, twoJ) && m !in done
      requires Built(idx, basis, diag)
      requires StatesFrom(index0, r, energyOf, energyValid, []) && ColumnsFrom(r, energyOf, energyValid, [], diag)
      requires forall c :: c in columnStates ==> c.Physical? && (c.n != n || c.l != l || c.twoJ != twoJ || c.twoM in done)
      requires MProgress(Physical(species, n, l, twoJ, 0), symReflection, AllowedM(r, twoJ), done, stateIndex, columnStates)
      modifies this`states, this`stateIndex, this`columnStates
      ensures Built(idx', basis', diag') && Extends(old(states), old(stateIndex), states, stateIndex)
      ensures StatesFrom(index0, r, energyOf, energyValid, []) && ColumnsFrom(r, energyOf, energyValid, [], diag')
      ensures forall c :: c in old(columnStates) ==> c in columnStates
      ensures forall c :: c in columnStates ==> c in old(columnStates) || c == Physical(species, n, l, twoJ, m)
      ensures outcome.Pass? ==>
                MProgress(Physical(species, n, l, twoJ, 0), symReflection, AllowedM(r, twoJ), done + {m}, stateIndex, columnStates)
      ensures outcome.Fail? <==> MissingPartner(r, energyOf, energyValid, symReflection, Physical(species, n, l, twoJ, m))
      ensures outcome.Fail? ==> outcome == Fail(MomentumMissing(-m))
    {
      ghost var base := Physical(species, n, l, twoJ, 0);
      ghost var allowed := AllowedM(r, twoJ);
      outcome, idx', basis', diag' := Pass, idx, basis, diag;
      ExtendsReflexive(states, stateIndex);
      if Abs(m) > twoJ {
        assert !Enumerated(r, energyOf, energyValid, Physical(species, n, l, twoJ, m));
        MProgressStep(base, symReflection, allowed, done, stateIndex, stateIndex, columnStates, columnStates, m);
        return;
      }
      var state := Physical(species, n, l, twoJ, m);
      assert Enumerated(r, energyOf, energyValid, state);
      if symReflection != NA && m != 0 && -m !in AllowedM(r, twoJ) {
        outcome := Fail(MomentumMissing(-m));
        return;
      }
      assert !MissingPartner(r, energyOf, energyValid, symReflection, state);
      if Pairs(state, symReflection) {
        ReflectedEnumerated(r, energyOf, energyValid, state);
      }
      idx', basis', diag' := AddEnumerated(r, state, energy, energyOf, energyValid, index0, idx, basis, diag);
      assert state == base.(twoM := m);
      if symReflection == NA || m >= 0 {
        assert !Skipped(state, symReflection);
        assert state in stateIndex && state in columnStates;
      }
      if symReflection != NA && m > 0 {
        assert Reflected(state) == base.(twoM := -m) && Reflected(state) in stateIndex;
      }
      MProgressStep(base, symReflection, allowed, done, old(stateIndex), stateIndex, old(columnStates), columnStates, m);
    }

    /** The j loop of the enumeration for one (n, l). */
    method EnumerateJ(r: Restrictions, n: int, l: int,
                      energyOf: StateOne -> real, energyValid: real -> bool, ghost index0: map<StateOne, nat>,
                      idx: nat, basis: seq<Triplet<Coefficient>>, diag: seq<Triplet<real>>)
      returns (outcome: Outcome<BasisError>, idx': nat, basis': seq<Triplet<Coefficient>>, diag': seq<Triplet<real>>)
      requires r.species == species
      requires n in r.rangeN && l in AdaptedL(r, n) && 0 <= l <= n - 1
      requires Built(idx, basis, diag)
      requires StatesFrom(index0, r, energyOf, energyValid, []) && ColumnsFrom(r, energyOf, energyValid, [], diag)
      requires forall c :: c in columnStates ==> c.Physical? && (c.n != n || c.l != l)
      modifies this`states, this`stateIndex, this`columnStates
      ensures Built(idx', basis', diag') && Extends(old(states), old(stateIndex), states, stateIndex)
      ensures StatesFrom(index0, r, energyOf, energyValid, []) && ColumnsFrom(r, energyOf, energyValid, [], diag')
      ensures forall c :: c in old(columnStates) ==> c in columnStates
      ensures forall c :: c in columnStates ==> c in old(columnStates) || (c.Physical? && c.n == n && c.l == l)
      ensures outcome.Pass? ==>
                forall s :: Enumerated(r, energyOf, energyValid, s) && s.n == n && s.l == l ==>
                  && s in stateIndex && (!Skipped(s, symReflection) ==> s in columnStates)
                  && !MissingPartner(r, energyOf, energyValid, symReflection, s)
      ensures outcome.Fail? ==> MissingPartnerReported(r, energyOf, energyValid, symReflection, outcome.error)
    {
      var rest := AdaptedJ(r, l);
      outcome, idx', basis', diag' := Pass, idx, basis, diag;
      while rest != {}
        invariant rest <= AdaptedJ(r, l) && outcome.Pass?
        invariant Built(idx', basis', diag') && Extends(old(states), old(stateIndex), states, stateIndex)
        invariant StatesFrom(index0, r, energyOf, energyValid, []) && ColumnsFrom(r, energyOf, energyValid, [], diag')
        invariant forall c :: c in old(columnStates) ==> c in columnStates
        invariant forall c :: c in columnStates ==>
                    c in old(columnStates) || (c.Physical? && c.n == n && c.l == l && c.twoJ !in rest)
        invariant forall s :: Enumerated(r, energyOf, energyValid, s) && s.n == n && s.l == l && s.twoJ !in rest ==>
                    && s in stateIndex && (!Skipped(s, symReflection) ==> s in columnStates)
                    && !MissingPartner(r, energyOf, energyValid, symReflection, s)
        decreases |rest|
      {
        var twoJ := PickMin(rest);
        rest := rest - {twoJ};
        if Abs(twoJ - 2 * l) > r.twoS || twoJ < 0 {
          continue;
        }
        var energy := energyOf(LookupState(r, n, l, twoJ));
        if !energyValid(energy) {
          continue;
        }
        ghost var states1, index1 := states, stateIndex;
        outcome, idx', basis', diag' := EnumerateM(r, n, l, twoJ, energy, energyOf, energyValid, index0, idx', basis', diag');
        ExtendsTransitive(old(states), old(stateIndex), states1, index1, states, stateIndex);
        if outcome.Fail? {
          return;
        }
      }
    }

    /** The l loop of the enumeration for one n. */
    method EnumerateL(r: Restrictions, n: int,
                      energyOf: StateOne -> real, energyValid: real -> bool, ghost index0: map<StateOne, nat>,
                      idx: nat, basis: seq<Triplet<Coefficient>>, diag: seq<Triplet<real>>)
      returns (outcome: Outcome<BasisError>, idx': nat, basis': seq<Triplet<Coefficient>>, diag': seq<Triplet<real>>)
      requires r.species == species
      requires n in r.rangeN
      requires Built(idx, basis, diag)
      requires StatesFrom(index0, r, energyOf, energyValid, []) && ColumnsFrom(r, energyOf, energyValid, [], diag)
      requires forall c :: c in columnStates ==> c.Physical? && c.n != n
      modifies this`states, this`stateIndex, this`columnStates
      ensures Built(idx', basis', diag') && Extends(old(states), old(stateIndex), states, stateIndex)
      ensures StatesFrom(index0, r, energyOf, energyValid, []) && ColumnsFrom(r, energyOf, energyValid, [], diag')
      ensures forall c :: c in old(columnStates) ==> c in columnStates
      ensures forall c :: c in columnStates ==> c in old(columnStates) || (c.Physical? && c.n == n)
      ensures outcome.Pass? ==>
                forall s :: Enumerated(r, energyOf, energyValid, s) && s.n == n ==>
                  && s in stateIndex && (!Skipped(s, symReflection) ==> s in columnStates)
                  && !MissingPartner(r, energyOf, energyValid, symReflection, s)
      ensures outcome.Fail? ==> MissingPartnerReported(r, energyOf, energyValid, symReflection, outcome.error)
    {
      var rest := AdaptedL(r, n);
      outcome, idx', basis', diag' := Pass, idx, basis, diag;
      while rest != {}
        invariant rest <= AdaptedL(r, n) && outcome.Pass?
        invariant Built(idx', basis', diag') && Extends(old(states), old(stateIndex), states, stateIndex)
        invariant StatesFrom(index0, r, energyOf, energyValid, []) && ColumnsFrom(r, energyOf, energyValid, [], diag')
        invariant forall c :: c in old(columnStates) ==> c in columnStates
        invariant forall c :: c in columnStates ==> c in old(columnStates) || (c.Physical? && c.n == n && c.l !in rest)
        invariant forall s :: Enumerated(r, energyOf, energyValid, s) && s.n == n && s.l !in rest ==>
                    && s in stateIndex && (!Skipped(s, symReflection) ==> s in columnStates)
                    && !MissingPartner(r, energyOf, energyValid, symReflection, s)
        decreases |rest|
      {
        var l := PickMin(rest);
        rest := rest - {l};
        if l > n - 1 || l < 0 {
          continue;
        }
        ghost var states1, index1 := states, stateIndex;
        outcome, idx', basis', diag' := EnumerateJ(r, n, l, energyOf, energyValid, index0, idx', basis', diag');
        ExtendsTransitive(old(states), old(stateIndex), states1, index1, states, stateIndex);
        if outcome.Fail? {
          return;
        }
      }
    }

    /**
     * The n loop of the enumeration. It fails exactly when some admitted
     * state lacks its partner momentum; otherwise every admitted state is a
     * row, and a column unless reflection symmetry skips it.
     */
    method EnumerateStates(r: Restrictions, energyOf: StateOne -> real, energyValid: real -> bool)
      returns (outcome: Outcome<BasisError>, idx: nat, basis: seq<Triplet<Coefficient>>, diag: seq<Triplet<real>>)
      requires r.species == species && Indexed(states, stateIndex)
      modifies this`states, this`stateIndex, this`columnStates
      ensures Built(idx, basis, diag) && Extends(old(states), old(stateIndex), states, stateIndex)
      ensures StatesFrom(old(stateIndex), r, energyOf, energyValid, []) && ColumnsFrom(r, energyOf, energyValid, [], diag)
      ensures outcome.Pass? <==> forall s :: !MissingPartner(r, energyOf, energyValid, symReflection, s)
      ensures outcome.Pass? ==>
                forall s :: Enumerated(r, energyOf, energyValid, s) ==>
                  s in stateIndex && (!Skipped(s, symReflection) ==> s in columnStates)
      ensures outcome.Fail? ==> MissingPartnerReported(r, energyOf, energyValid, symReflection, outcome.error)
    {
      columnStates := [];
      outcome, idx, basis, diag := Pass, 0, [], [];
      var rest := r.rangeN;
      while rest != {}
        invariant rest <= r.rangeN && outcome.Pass?
        invariant Built(idx, basis, diag) && Extends(old(states), old(stateIndex), states, stateIndex)
        invariant StatesFrom(old(stateIndex), r, energyOf, energyValid, []) && ColumnsFrom(r, energyOf, energyValid, [], diag)
        invariant forall c :: c in columnStates ==> c.Physical? && c.n !in rest
        invariant forall s :: Enumerated(r, energyOf, energyValid, s) && s.n !in rest ==>
                    && s in stateIndex && (!Skipped(s, symReflection) ==> s in columnStates)
                    && !MissingPartner(r, energyOf, energyValid, symReflection, s)
        decreases |rest|
      {
        var n := PickMin(rest);
        rest := rest - {n};
        ghost var states1, index1 := states, stateIndex;
        outcome, idx, basis, diag := EnumerateL(r, n, energyOf, energyValid, old(stateIndex), idx, basis, diag);
        ExtendsTransitive(old(states), old(stateIndex), states1, index1, states, stateIndex);
        if outcome.Fail? {
          return;
        }
      }
    }

    /** Refuse a user-defined state already in the container or of the wrong species. */
    method CheckUserStates(toAdd: seq<StateOne>) returns (outcome: Outcome<BasisError>)
      ensures outcome.Pass? <==> forall s :: s in toAdd ==> s !in stateIndex && (s.Physical? ==> s.species == species)
      ensures outcome.Fail? ==> outcome.error.StateAlreadyContained? || outcome.error.WrongSpecies?
      ensures outcome.Fail? ==> outcome.error.state in toAdd
      ensures outcome.Fail? && outcome.error.StateAlreadyContained? ==> outcome.error.state in stateIndex
      ensures outcome.Fail? && outcome.error.WrongSpecies? ==>
                outcome.error.state.Physical? && outcome.error.state.species != species
    {
      var i := 0;
      while i < |toAdd|
        invariant 0 <= i <= |toAdd|
        invariant forall k :: 0 <= k < i ==> toAdd[k] !in stateIndex && (toAdd[k].Physical? ==> toAdd[k].species == species)
      {
        var state := toAdd[i];
        if state in stateIndex {
          return Fail(StateAlreadyContained(state));
        }
        if state.Physical? && state.species != species {
          return Fail(WrongSpecies(state));
        }
        i := i + 1;
      }
      return Pass;
    }

    /**
     * Add each user-defined state the rotation symmetry keeps. It fails
     * exactly when reflection symmetry pairs a user state whose reflection
     * is not a user state.
     */
    method AddUserStates(r: Restrictions, toAdd: seq<StateOne>, energyOf: StateOne -> real, energyValid: real -> bool,
                         ghost index0: map<StateOne, nat>, idx: nat, basis: seq<Triplet<Coefficient>>, diag: seq<Triplet<real>>)
      returns (outcome: Outcome<BasisError>, idx': nat, basis': seq<Triplet<Coefficient>>, diag': seq<Triplet<real>>)
      requires r.species == species && r.rotation == symRotation
      requires Distinct(toAdd) && forall s :: s in toAdd ==> s !in columnStates
      requires Built(idx, basis, diag)
      requires StatesFrom(index0, r, energyOf, energyValid, []) && ColumnsFrom(r, energyOf, energyValid, [], diag)
      modifies this`states, this`stateIndex, this`columnStates
      ensures Built(idx', basis', diag') && Extends(old(states), old(stateIndex), states, stateIndex)
      ensures StatesFrom(index0, r, energyOf, energyValid, toAdd) && ColumnsFrom(r, energyOf, energyValid, toAdd, diag')
      ensures forall c :: c in old(columnStates) ==> c in columnStates
      ensures outcome.Pass? <==> forall s :: s in toAdd ==> !UserPartnerMissing(s, toAdd, symReflection, symRotation)
      ensures outcome.Pass? ==> forall s :: s in toAdd && KeptByRotation(s, symRotation) && !Skipped(s, symReflection) ==>
                s in columnStates
      ensures outcome.Fail? ==>
                && outcome.error.ReflectedStateMissing? && outcome.error.state.Physical?
                && Reflected(outcome.error.state) in toAdd
                && UserPartnerMissing(Reflected(outcome.error.state), toAdd, symReflection, symRotation)
    {
      outcome, idx', basis', diag' := Pass, idx, basis, diag;
      ExtendsReflexive(states, stateIndex);
      ColumnsOriginWiden(columnStates, symReflection, r, energyOf, energyValid, [], toAdd, diag);
      var i := 0;
      while i < |toAdd|
        invariant 0 <= i <= |toAdd| && outcome.Pass?
        invariant Built(idx', basis', diag') && Extends(old(states), old(stateIndex), states, stateIndex)
        invariant StatesFrom(index0, r, energyOf, energyValid, toAdd) && ColumnsFrom(r, energyOf, energyValid, toAdd, diag')
        invariant forall c :: c in old(columnStates) ==> c in columnStates
        invariant forall c :: c in columnStates ==> c in old(columnStates) || c in toAdd[..i]
        invariant forall k :: 0 <= k < i ==> !UserPartnerMissing(toAdd[k], toAdd, symReflection, symRotation)
        invariant forall k :: 0 <= k < i && KeptByRotation(toAdd[k], symRotation) && !Skipped(toAdd[k], symReflection) ==>
                    toAdd[k] in columnStates
      {
        assert toAdd[i] !in columnStates;
        ghost var states1, index1 := states, stateIndex;
        outcome, idx', basis', diag' := AddUserState(r, toAdd, toAdd[i], energyOf, energyValid, index0, idx', basis', diag');
        ExtendsTransitive(old(states), old(stateIndex), states1, index1, states, stateIndex);
        if outcome.Fail? {
          ReflectedInvolution(toAdd[i]);
          return;
        }
        assert toAdd[..i + 1] == toAdd[..i] + [toAdd[i]];
        i := i + 1;
      }
    }

    /**
     * One pass of the user-state loop: artificial states drop the
     * symmetries and get energy 0; a state whose momentum is not conserved
     * is skipped; a paired state whose reflection is not a user state fails.
     */
    method AddUserState(r: Restrictions, toAdd: seq<StateOne>, state: StateOne, energyOf: StateOne -> real,
                        energyValid: real -> bool, ghost index0: map<StateOne, nat>,
                        idx: nat, basis: seq<Triplet<Coefficient>>, diag: seq<Triplet<real>>)
      returns (outcome: Outcome<BasisError>, idx': nat, basis': seq<Triplet<Coefficient>>, diag': seq<Triplet<real>>)
      requires state in toAdd && state !in columnStates
      requires r.species == species && r.rotation == symRotation
      requires Built(idx, basis, diag)
      requires StatesFrom(index0, r, energyOf, energyValid, toAdd) && ColumnsFrom(r, energyOf, energyValid, toAdd, diag)
      modifies this`states, this`stateIndex, this`columnStates
      ensures Built(idx', basis', diag') && Extends(old(states), old(stateIndex), states, stateIndex)
      ensures StatesFrom(index0, r, energyOf, energyValid, toAdd) && ColumnsFrom(r, energyOf, energyValid, toAdd, diag')
      ensures outcome.Fail? <==> UserPartnerMissing(state, toAdd, symReflection, symRotation)
      ensures outcome.Fail? ==> state.Physical? && outcome == Fail(ReflectedStateMissing(Reflected(state)))
      ensures outcome.Pass? && KeptByRotation(state, symRotation) && !Skipped(state, symReflection) ==>
                && idx' == idx + 1 && diag' == diag + [Triplet(idx, idx, UserEnergy(energyOf, state))]
                && columnStates == old(columnStates) + [state]
      ensures !(outcome.Pass? && KeptByRotation(state, symRotation) && !Skipped(state, symReflection)) ==>
                idx' == idx && diag' == diag && columnStates == old(columnStates)
    {
      outcome, idx', basis', diag' := Pass, idx, basis, diag;
      ExtendsReflexive(states, stateIndex);
      var energy := if state.Artificial? then 0.0 else energyOf(state);
      var reflectionLocal := if state.Artificial? then NA else symReflection;
      var rotationLocal := if state.Artificial? then {Arb} else symRotation;
      if Arb !in rotationLocal && state.twoM !in rotationLocal {
        return;
      }
      if reflectionLocal != NA && state.twoM != 0 {
        var reflected := Reflected(state);
        if reflected !in toAdd {
          return Fail(ReflectedStateMissing(reflected)), idx', basis', diag';
        }
      }
      ghost var cols0 := columnStates;
      idx', basis', diag' := AddSymmetrizedBasisvectors(state, idx', energy, basis', diag', reflectionLocal);
      if !Skipped(state, symReflection) {
        ColumnsOriginAppend(cols0, symReflection, r, energyOf, energyValid, toAdd, diag, state, Triplet(idx, idx, energy));
      }
    }

    /**
     * The states and triplet lists of the basis: every state the
     * restrictions admit, then the user-defined states. The errors come in
     * the source's order: a missing partner momentum, then a user state
     * already contained or of the wrong species, then a missing reflected
     * user state; the call succeeds exactly when none of them occurs.
     */
    method BuildStates(r: Restrictions, toAdd: seq<StateOne>, energyOf: StateOne -> real, energyValid: real -> bool)
      returns (outcome: Outcome<BasisError>, idx: nat, basis: seq<Triplet<Coefficient>>, diag: seq<Triplet<real>>)
      requires r.species == species && r.rotation == symRotation && Indexed(states, stateIndex)
      requires Distinct(toAdd)
      modifies this`states, this`stateIndex, this`columnStates
      ensures Built(idx, basis, diag) && Extends(old(states), old(stateIndex), states, stateIndex)
      ensures StatesBuiltFrom(old(stateIndex), r, energyOf, energyValid, toAdd, outcome)
      ensures outcome.Pass? ==> ColumnsFrom(r, energyOf, energyValid, toAdd, diag)
    {
      outcome, idx, basis, diag := EnumerateStates(r, energyOf, energyValid);
      if outcome.Fail? {
        ReportedPartnerNeedsIncompatibility(r, energyOf, energyValid, symReflection, outcome.error);
        return;
      }
      assert forall s :: s in stateIndex <==> s in old(stateIndex) || Enumerated(r, energyOf, energyValid, s);
      ghost var states0, index0 := states, stateIndex;
      outcome, idx, basis, diag := AddCheckedUserStates(r, toAdd, energyOf, energyValid, old(stateIndex), idx, basis, diag);
      ExtendsTransitive(old(states), old(stateIndex), states0, index0, states, stateIndex);
    }

    /**
     * The user-defined states, after a complete enumeration whose rows are
     * the rows of index0 and the admitted states: check them, then add them.
     */
    method AddCheckedUserStates(r: Restrictions, toAdd: seq<StateOne>, energyOf: StateOne -> real, energyValid: real -> bool,
                                ghost index0: map<StateOne, nat>, idx0: nat, basis0: seq<Triplet<Coefficient>>, diag0: seq<Triplet<real>>)
      returns (outcome: Outcome<BasisError>, idx: nat, basis: seq<Triplet<Coefficient>>, diag: seq<Triplet<real>>)
      requires r.species == species && r.rotation == symRotation && Distinct(toAdd)
      requires Built(idx0, basis0, diag0) && ColumnsFrom(r, energyOf, energyValid, [], diag0)
      requires forall s :: s in stateIndex <==> s in index0 || Enumerated(r, energyOf, energyValid, s)
      requires EnumerationComplete(r, energyOf, energyValid, symReflection)
      requires forall s :: Enumerated(r, energyOf, energyValid, s) && !Skipped(s, symReflection) ==> s in columnStates
      modifies this`states, this`stateIndex, this`columnStates
      ensures Built(idx, basis, diag) && Extends(old(states), old(stateIndex), states, stateIndex)
      ensures StatesBuiltFrom(index0, r, energyOf, energyValid, toAdd, outcome)
      ensures outcome.Pass? ==> ColumnsFrom(r, energyOf, energyValid, toAdd, diag)
    {
      outcome := CheckUserStates(toAdd);
      if outcome.Fail? {
        idx, basis, diag := idx0, basis0, diag0;
        ExtendsReflexive(states, stateIndex);
        return;
      }
      BuiltColumnsAreRows(states, stateIndex, columnStates, symReflection, idx0, basis0, diag0);
      ghost var cols1 := columnStates;
      outcome, idx, basis, diag := AddUserStates(r, toAdd, energyOf, energyValid, index0, idx0, basis0, diag0);
      if outcome.Pass? {
        forall c | c in columnStates
          ensures !Skipped(c, symReflection)
          ensures Enumerated(r, energyOf, energyValid, c) || (c in toAdd && KeptByRotation(c, symRotation))
        {
          var k :| 0 <= k < |columnStates| && columnStates[k] == c;
        }
        forall c | !Skipped(c, symReflection) && Enumerated(r, energyOf, energyValid, c)
          ensures c in columnStates
        {
          assert c in cols1;
        }
      }
    }

    /**
     * Build the basis: refuse an unrestricted n, then turn every admitted and
     * every user-defined state into a symmetrized basis vector (a column of
     * basisvectors over the rows of the container) with its energy on the
     * diagonal of the Hamiltonian.
     */
    method InitializeBasis(base: BaseRestrictions, energyOf: StateOne -> real, energyValid: real -> bool)
      returns (outcome: Outcome<BasisError>)
      requires Valid() && Distinct(base.statesToAdd)
      modifies this`states, this`stateIndex, this`columnStates, this`basisvectors, this`hamiltonian
      ensures Valid() && Extends(old(states), old(stateIndex), states, stateIndex)
      ensures outcome == Fail(InfiniteBasis) <==> base.rangeN == {} && (base.energyMin.None? || base.energyMax.None?)
      ensures outcome == Fail(EnergyRangeNotImplemented) <==> base.rangeN == {} && base.energyMin.Some? && base.energyMax.Some?
      ensures base.rangeN == {} ==> states == old(states) && stateIndex == old(stateIndex)
      ensures base.rangeN != {} ==> AssembledFrom(old(stateIndex), RestrictionsOf(base, symRotation), energyOf, energyValid, base.statesToAdd, outcome)
    {
      if base.rangeN == {} && (base.energyMin.None? || base.energyMax.None?) {
        ExtendsReflexive(states, stateIndex);
        return Fail(InfiniteBasis);
      }
      if base.rangeN == {} {
        ExtendsReflexive(states, stateIndex);
        return Fail(EnergyRangeNotImplemented);
      }
      outcome := AssembleBasis(RestrictionsOf(base, symRotation), base.statesToAdd, energyOf, energyValid);
    }

    /**
     * What building the basis from the restrictions r and the user-defined
     * states toAdd leaves behind, starting from the container index0: the
     * new states come from r or toAdd; the call succeeds exactly when every
     * admitted state finds its partner and the user-defined states are fresh
     * and paired; on success the columns are exactly the admitted and kept
     * user-defined states that are not skipped, each normalized with its
     * energy on the diagonal; each error states its cause.
     */
    ghost predicate AssembledFrom(index0: map<StateOne, nat>, r: Restrictions, energyOf: StateOne -> real,
                                  energyValid: real -> bool, toAdd: seq<StateOne>, outcome: Outcome<BasisError>)
      reads this`states, this`stateIndex, this`columnStates, this`symReflection, this`symRotation
      reads this`basisvectors, this`hamiltonian
    {
      && StatesBuiltFrom(index0, r, energyOf, energyValid, toAdd, outcome)
      && (outcome.Pass? ==> MatricesStored(r, energyOf, energyValid))
    }

    /**
     * The states and columns the basis construction leaves behind (see
     * AssembledFrom); the errors come in the source's order: a missing
     * partner momentum, then a user state already contained or of the wrong
     * species, then a missing reflected user state.
     */
    ghost predicate StatesBuiltFrom(index0: map<StateOne, nat>, r: Restrictions, energyOf: StateOne -> real,
                                    energyValid: real -> bool, toAdd: seq<StateOne>, outcome: Outcome<BasisError>)
      reads this`states, this`stateIndex, this`columnStates, this`symReflection, this`symRotation
    {
      && StatesFrom(index0, r, energyOf, energyValid, toAdd)
      && (outcome.Pass? <==>
            && EnumerationComplete(r, energyOf, energyValid, symReflection)
            && UserStatesFresh(r, energyOf, energyValid, index0, toAdd)
            && UserStatesPaired(toAdd, symReflection, symRotation))
      && (outcome.Pass? ==>
            && (forall s :: Enumerated(r, energyOf, energyValid, s) ==> s in stateIndex)
            && (forall c :: c in columnStates <==>
                  && !Skipped(c, symReflection)
                  && (Enumerated(r, energyOf, energyValid, c) || (c in toAdd && KeptByRotation(c, symRotation)))))
      && (outcome.Fail? && outcome.error.MomentumMissing? ==>
            && MissingPartnerReported(r, energyOf, energyValid, symReflection, outcome.error)
            && !(Compatible(symReflection, symRotation) && r.rangeM == {}))
      && (outcome.Fail? && outcome.error.StateAlreadyContained? ==>
            && EnumerationComplete(r, energyOf, energyValid, symReflection)
            && outcome.error.state in toAdd
            && (outcome.error.state in index0 || Enumerated(r, energyOf, energyValid, outcome.error.state)))
      && (outcome.Fail? && outcome.error.WrongSpecies? ==>
            && EnumerationComplete(r, energyOf, energyValid, symReflection)
            && outcome.error.state in toAdd && outcome.error.state.Physical? && outcome.error.state.species != species)
      && (outcome.Fail? && outcome.error.ReflectedStateMissing? ==>
            && EnumerationComplete(r, energyOf, energyValid, symReflection)
            && UserStatesFresh(r, energyOf, energyValid, index0, toAdd)
            && outcome.error.state.Physical? && Reflected(outcome.error.state) in toAdd
            && UserPartnerMissing(Reflected(outcome.error.state), toAdd, symReflection, symRotation))
      && (outcome.Fail? ==> !outcome.error.InfiniteBasis? && !outcome.error.EnergyRangeNotImplemented?)
    }

    /**
     * The stored matrices: basisvectors has a row per state and a column per
     * column state, each column normalized; the Hamiltonian is diagonal with
     * the energy of each column state.
     */
    ghost predicate MatricesStored(r: Restrictions, energyOf: StateOne -> real, energyValid: real -> bool)
      reads this`states, this`stateIndex, this`columnStates, this`symReflection, this`basisvectors, this`hamiltonian
    {
      && Distinct(columnStates)
      && basisvectors.rows == |states| && basisvectors.cols == |columnStates|
      && hamiltonian.rows == |columnStates| && hamiltonian.cols == |columnStates|
      && Built(|columnStates|, basisvectors.entries, hamiltonian.entries)
      && (forall k :: 0 <= k < |columnStates| ==>
            hamiltonian.entries[k] == Triplet(k, k, ColumnEnergy(r, energyOf, energyValid, columnStates[k])))
      && (forall k :: 0 <= k < basisvectors.cols ==> ColumnWeight(ColumnOf(basisvectors.entries, k)) == 2)
    }

    /** Build the states and triplet lists of r and toAdd and store the two matrices. */
    method AssembleBasis(r: Restrictions, toAdd: seq<StateOne>, energyOf: StateOne -> real, energyValid: real -> bool)
      returns (outcome: Outcome<BasisError>)
      requires Valid() && Distinct(toAdd) && r.species == species && r.rotation == symRotation
      modifies this`states, this`stateIndex, this`columnStates, this`basisvectors, this`hamiltonian
      ensures Valid() && Extends(old(states), old(stateIndex), states, stateIndex)
      ensures AssembledFrom(old(stateIndex), r, energyOf, energyValid, toAdd, outcome)
    {
      var idx, basis, diag;
      outcome, idx, basis, diag := BuildStates(r, toAdd, energyOf, energyValid);
      if outcome.Pass? {
        StoreMatrices(r, energyOf, energyValid, toAdd, idx, basis, diag);
      }
    }

    /** Store the basisvectors and the diagonal Hamiltonian of built triplet lists. */
    method StoreMatrices(r: Restrictions, energyOf: StateOne -> real, energyValid: real -> bool, toAdd: seq<StateOne>,
                         idx: nat, basis: seq<Triplet<Coefficient>>, diag: seq<Triplet<real>>)
      requires Built(idx, basis, diag) && ColumnsFrom(r, energyOf, energyValid, toAdd, diag)
      requires forall s :: s in toAdd ==> !Enumerated(r, energyOf, energyValid, s)
      modifies this`basisvectors, this`hamiltonian
      ensures MatricesStored(r, energyOf, energyValid)
    {
      basisvectors := SparseMatrix(|states|, idx, basis);
      hamiltonian := SparseMatrix(idx, idx, diag);
      BuiltColumnsNormalized(states, stateIndex, columnStates, symReflection, idx, basis, diag);
      DiagonalEnergies(columnStates, symReflection, r, energyOf, energyValid, toAdd, diag);
    }

    /**
     * The components initializeInteraction computes: the nonzero field
     * components and diamagnetic terms with q >= 0 whose operators are not
     * cached, and the uncached ion orders 1..ordermax of a charged ion.
     */
    ghost function PendingRanges(): Ranges
      requires FieldsShaped()
      reads this`efieldSpherical, this`bfieldSpherical, this`diamagnetismTerms, this`diamagnetism, this`charge, this`ordermax
      reads this`interactionEfield, this`interactionBfield, this`interactionDiamagnetism, this`interactionMultipole
    {
      Ranges(
        FieldRange(efieldSpherical, interactionEfield.Keys),
        FieldRange(bfieldSpherical, interactionBfield.Keys),
        DiamagneticRange(DiamagneticOrder, diamagnetismTerms, diamagnetism, interactionDiamagnetism.Keys),
        if charge != 0 then OrderRange(1, ordermax, interactionMultipole.Keys) else [],
        charge)
    }

    /**
     * Compute the missing interaction operators in the canonical basis: every
     * pending component gets the operator built from the triplets the
     * selection rules let through and its opposite gets the signed adjoint.
     * Nothing changes when nothing is pending.
     */
    method InitializeInteraction(rules: Rules)
      requires FieldsShaped() && CacheClosed()
      modifies this`interactionEfield, this`interactionBfield, this`interactionDiamagnetism, this`interactionMultipole
      ensures CacheClosed()
      ensures Initialized(old(PendingRanges()), Emission(states, |states|, PairOf(old(PendingRanges()), rules)), |states|,
                          old(interactionEfield), old(interactionBfield), old(interactionDiamagnetism), old(interactionMultipole),
                          interactionEfield, interactionBfield, interactionDiamagnetism, interactionMultipole)
    {
      var ranges := CollectRanges();
      PendingStorable(interactionEfield, interactionBfield, interactionDiamagnetism, interactionMultipole,
                      efieldSpherical, bfieldSpherical, diamagnetismTerms, diamagnetism, charge, ordermax);
      if ranges.erange == [] && ranges.brange == [] && ranges.drange == [] && ranges.orange == [] {
        NothingPending(ranges, Emission(states, |states|, PairOf(ranges, rules)), |states|,
                       interactionEfield, interactionBfield, interactionDiamagnetism, interactionMultipole);
        return;
      }
      var emission := CollectTriplets(states, ranges, rules);
      StoreInteraction(ranges, emission);
    }

    /** The four loops that gather the pending components. */
    method CollectRanges() returns (ranges: Ranges)
      requires FieldsShaped()
      ensures ranges == PendingRanges()
    {
      var erange := CollectFieldRange(efieldSpherical, interactionEfield.Keys);
      var brange := CollectFieldRange(bfieldSpherical, interactionBfield.Keys);
      var drange := CollectDiamagneticRange(DiamagneticOrder, diamagnetismTerms, diamagnetism, interactionDiamagnetism.Keys);
      var orange := CollectOrderRange(charge, ordermax, interactionMultipole.Keys);
      ranges := Ranges(erange, brange, drange, orange, charge);
    }

    /** Store the operators of the pending components from the collected triplets. */
    method StoreInteraction(ranges: Ranges, emission: seq<Emitted>)
      requires CacheClosed() && (charge == 0 ==> ranges.orange == [])
      requires Storable(ranges, interactionEfield, interactionBfield, interactionDiamagnetism, interactionMultipole)
      modifies this`interactionEfield, this`interactionBfield, this`interactionDiamagnetism, this`interactionMultipole
      ensures CacheClosed()
      ensures Initialized(ranges, emission, |states|,
                          old(interactionEfield), old(interactionBfield), old(interactionDiamagnetism), old(interactionMultipole),
                          interactionEfield, interactionBfield, interactionDiamagnetism, interactionMultipole)
    {
      var size := |states|;
      assert Closed(Stored(interactionEfield, ranges.erange, Electric, emission, size)) by {
        StoredClosed(interactionEfield, ranges.erange, Electric, emission, size);
      }
      assert Closed(Stored(interactionBfield, ranges.brange, Magnetic, emission, size)) by {
        StoredClosed(interactionBfield, ranges.brange, Magnetic, emission, size);
      }
      assert ClosedTerms(StoredTerms(interactionDiamagnetism, ranges.drange, emission, size)) by {
        StoredTermsClosed(interactionDiamagnetism, ranges.drange, emission, size);
      }
      assert Closed(Stored(interactionMultipole, ranges.orange, Ion, emission, size)) by {
        StoredClosed(interactionMultipole, ranges.orange, Ion, emission, size);
      }
      interactionEfield := StoreOperators(interactionEfield, ranges.erange, Electric, emission, size);
      interactionBfield := StoreOperators(interactionBfield, ranges.brange, Magnetic, emission, size);
      interactionDiamagnetism := StoreTermOperators(interactionDiamagnetism, ranges.drange, emission, size);
      if charge != 0 {
        interactionMultipole := StoreOperators(interactionMultipole, ranges.orange, Ion, emission, size);
      }
    }

    /** Drop every cached interaction operator. */
    method DeleteInteraction()
      requires Valid()
      modifies this`interactionEfield, this`interactionBfield, this`interactionDiamagnetism, this`interactionMultipole
      ensures CacheClosed()
      ensures interactionEfield == map[] && interactionBfield == map[]
      ensures interactionDiamagnetism == map[] && interactionMultipole == map[]
      ensures forall q :: q in PendingRanges().erange <==> q >= 0 && q in efieldSpherical && IsNonzero(efieldSpherical[q])
      ensures forall q :: q in PendingRanges().brange <==> q >= 0 && q in bfieldSpherical && IsNonzero(bfieldSpherical[q])
    {
      interactionEfield := map[];
      interactionBfield := map[];
      interactionDiamagnetism := map[];
      interactionMultipole := map[];
    }

    /**
     * Combine another system into this one. Systems of different species,
     * fields or diamagnetism are refused, in that order, before anything
     * changes; otherwise the symmetries are merged, the number of symmetries
     * in which the systems differ is reported, and the cached interaction is
     * dropped.
     */
    method Incorporate(other: SystemOne) returns (outcome: Outcome<IncorporateError>, differing: nat)
      requires Valid() && CacheClosed()
      modifies this`symReflection, this`symRotation
      modifies this`interactionEfield, this`interactionBfield, this`interactionDiamagnetism, this`interactionMultipole
      ensures CacheClosed()
      ensures species != other.species ==> outcome == Fail(SpeciesMismatch)
      ensures species == other.species && old(efield != other.efield) ==> outcome == Fail(EfieldMismatch)
      ensures species == other.species && old(efield == other.efield && bfield != other.bfield) ==> outcome == Fail(BfieldMismatch)
      ensures species == other.species && old(efield == other.efield && bfield == other.bfield && diamagnetism != other.diamagnetism) ==>
                outcome == Fail(DiamagnetismMismatch)
      ensures outcome.Fail? ==>
                species != other.species || old(efield != other.efield || bfield != other.bfield || diamagnetism != other.diamagnetism)
      ensures outcome.Fail? ==>
                && differing == 0
                && symReflection == old(symReflection) && symRotation == old(symRotation)
                && interactionEfield == old(interactionEfield) && interactionBfield == old(interactionBfield)
                && interactionDiamagnetism == old(interactionDiamagnetism) && interactionMultipole == old(interactionMultipole)
      ensures outcome.Pass? ==>
                && symReflection == MergeReflection(old(symReflection), old(other.symReflection))
                && symRotation == MergeRotation(old(symRotation), old(other.symRotation))
                && differing == (if old(symReflection != other.symReflection) then 1 else 0)
                                + (if old(symRotation != other.symRotation) then 1 else 0)
                && interactionEfield == map[] && interactionBfield == map[]
                && interactionDiamagnetism == map[] && interactionMultipole == map[]
    {
      differing := 0;
      if species != other.species {
        return Fail(SpeciesMismatch), 0;
      }
      if efield != other.efield {
        return Fail(EfieldMismatch), 0;
      }
      if bfield != other.bfield {
        return Fail(BfieldMismatch), 0;
      }
      if diamagnetism != other.diamagnetism {
        return Fail(DiamagnetismMismatch), 0;
      }
      var otherReflection := other.symReflection;
      var otherRotation := other.symRotation;
      if symReflection != otherReflection {
        symReflection := NA;
        differing := differing + 1;
      }
      if symRotation != otherRotation {
        if Arb in symRotation || Arb in otherRotation {
          symRotation := {Arb};
        } else {
          symRotation := symRotation + otherRotation;
        }
        differing := differing + 1;
      }
      DeleteInteraction();
      outcome := Pass;
    }
  }

  /** Storing all three spherical components replaces whatever components were there. */
  function MergeComponents(current: map<int, Amplitude>, update: map<int, Amplitude>): (r: map<int, Amplitude>)
    requires current.Keys <= {-1, 0, 1} && IsSphericalShape(update)
    ensures r == update
  {
    var r := current + update;
    assert r.Keys == update.Keys;
    r
  }

  /** Storing all six diamagnetic terms replaces whatever terms were there. */
  function MergeTerms(current: map<(int, int), Amplitude>, update: map<(int, int), Amplitude>): (r: map<(int, int), Amplitude>)
    requires current.Keys <= DiamagneticKeys && update.Keys == DiamagneticKeys
    ensures r == update
  {
    var r := current + update;
    assert r.Keys == update.Keys;
    r
  }
}
