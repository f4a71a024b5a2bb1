# One-atom system of pairinteraction, in Dafny

This project models the one-atom system of pairinteraction (`SystemOne`) and the
real/complex storage helpers of its Hamiltonian matrix, and proves what they promise.

A one-atom system has a species, external electric and magnetic fields, a
diamagnetism switch, an ion charge and multipole order, and two symmetry
selectors:

- the parity conserved under reflection through the xz-plane;
- the set of momenta conserved under rotation. The sentinel `Arb` means "any momentum".

The model covers five parts of the system:

- **Setters.** The symmetry setters refuse a rotation set that mixes `Arb` with
  explicit momenta. They report selectors that do not fit together: reflection
  needs every conserved m to come with -m. The field setters store the
  spherical components of a field without a y component (q = +1: -x/sqrt 2,
  q = -1: x/sqrt 2, q = 0: z). The magnetic setter also stores the six
  diamagnetic products.
- **Building the basis.** Every state (n, l, j, m) the restrictions admit is
  enumerated, then every user-defined state is added. Each state becomes a
  symmetrized basis vector, which is a column of `basisvectors` over the
  container of canonical states. Its energy goes on the diagonal of the
  Hamiltonian. Under reflection symmetry, states with m < 0 are skipped. A
  state with m > 0 gets weight 1/sqrt 2 and brings in its reflected partner.
  All the error paths of the source are modelled: infinite basis, energy range
  not implemented, missing partner momentum, duplicate state, wrong species,
  missing reflected user state.
- **Computing the interaction.** The pending components are found: nonzero
  field components and diamagnetic terms with q >= 0 whose operators are not
  cached, and the uncached ion orders 1..ordermax of a charged ion. For every
  pair of physical states, the triplets the selection rules let through are
  collected:
  - electric and magnetic: only the first eligible component (the loop breaks);
  - diamagnetic and ion multipole: every eligible term;
  - q = 0 operators: only the lower triangle.
- **Storing the interaction.** Each pending operator is stored. A q = 0
  operator is stored as a self-adjoint view of its lower triangle. Otherwise
  the operator is stored as is, and its opposite (-q) as (-1)^q times its
  adjoint. The cache stays closed under q -> -q.
- **Deleting and combining.** `deleteInteraction` clears the cache.
  `incorporate` refuses systems that differ in species, electric field,
  magnetic field or diamagnetism. Otherwise it merges the symmetry selectors
  and clears the cache.

Modelling choices:

- Quantum numbers j, m and s are half-integers in the source; here they are
  stored doubled (`twoJ`, `twoM`, `twoS`).
- Ordered `std::set` iterations are modelled by repeatedly taking the least
  remaining element (`QuantumNumbers.PickMin`).
- The system is a class whose methods change its fields in place.
- Matrix elements are symbolic values (`Interaction.Element`). Selection rules,
  state energies and the energy window are function parameters.

## Model

| member | source | states |
|---|---|---|
| QuantumNumbers.Reflected | pairinteraction/SystemOne.cpp:760 | the reflected state keeps species, n, l and j and negates m |
| QuantumNumbers.ReflectedInvolution | pairinteraction/SystemOne.cpp:734-760 | reflecting twice gives the state back; a state is its own reflection exactly when m = 0 |
| QuantumNumbers.SpinTwice | pairinteraction/SystemOne.cpp:153-156 | 2s + 1 is the trailing digit of the species name, or 2 when the name does not end in a digit |
| QuantumNumbers.IntRange | pairinteraction/SystemOne.cpp:179 | membership is exactly lo <= x <= hi |
| QuantumNumbers.StepRange | pairinteraction/SystemOne.cpp:188-206 | membership is exactly the values lo, lo + 1, ... up to hi, in doubled units |
| QuantumNumbers.StepRangeSymmetric | pairinteraction/SystemOne.cpp:204 | the default m range -j..j is closed under negation |
| QuantumNumbers.MinExists | pairinteraction/SystemOne.cpp:176 | every non-empty set of integers has a least element, so ordered iteration can always continue |
| QuantumNumbers.PickMin | pairinteraction/SystemOne.cpp:176 | the next element of an ordered set iteration is the least element left |
| Symmetry.RejectedIffIllFormed | pairinteraction/SystemOne.cpp:121-124 | the setter's test "contains Arb and has more than one element" holds exactly when the set is not {Arb} while containing Arb |
| Symmetry.MergeReflection | pairinteraction/SystemOne.cpp:700-703 | the merged parity is one both systems share, or none when they differ |
| Symmetry.MergeRotation | pairinteraction/SystemOne.cpp:704-715 | equal sets are kept; differing sets become {Arb} when either holds Arb, and their union otherwise |
| Symmetry.MergeIsSymmetric | pairinteraction/SystemOne.cpp:698-715 | merging does not depend on which system incorporates the other |
| Symmetry.MergeKeepsCompatibility | pairinteraction/SystemOne.cpp:698-715 | merging compatible, well-formed selectors gives compatible, well-formed selectors (the check at lines 824-836 would pass) |
| Spherical.Mul | pairinteraction/SystemOne.cpp:60-67 | the square of a product of field components is the product of their squares |
| Spherical.ToSpherical | pairinteraction/SystemOne.cpp:781-790 | the real conversion fails exactly when y != 0; otherwise q = +1, -1 and 0 are -x/sqrt 2, x/sqrt 2 and z |
| Spherical.SphericalRoundTrip | pairinteraction/SystemOne.cpp:787-789 | a field without y component is recovered from its spherical components |
| Spherical.ActiveComponents | pairinteraction/SystemOne.cpp:315-336 | component q = 0 exceeds the tolerance 1e-24 iff z^2 > 1e-48; q = +1 iff x^2 > 2e-48; q = -1 iff q = +1 |
| Spherical.DiamagnetismTerms | pairinteraction/SystemOne.cpp:60-67 | exactly the six keys (0,0), (2,0), (2,+-1), (2,+-2) are set |
| Spherical.DiamagnetismTermValues | pairinteraction/SystemOne.cpp:60-67 | for a field (x, 0, z) the scalar term is x^2 + z^2 and the (2,0) term is z^2 - x^2/2; the q != 0 terms vanish when x = 0 |
| SystemOneModel.MergeComponents | pairinteraction/SystemOne.cpp:787-789 | writing all three components replaces the previous spherical field |
| SystemOneModel.MergeTerms | pairinteraction/SystemOne.cpp:60-67 | writing all six products replaces the previous diamagnetic terms |
| Basis.AllowedM | pairinteraction/SystemOne.cpp:203-217 | m is allowed exactly when it is an adapted m and, unless the rotation set holds Arb, a conserved momentum |
| Basis.EnumeratedIsPhysical | pairinteraction/SystemOne.cpp:176-225 | an enumerated state is physical with 0 <= l <= n-1, abs(j - l) <= s, j >= 0, abs(m) <= j, and m conserved unless rotation is arbitrary |
| Basis.ReflectedEnumerated | pairinteraction/SystemOne.cpp:219-232 | the reflection of an enumerated state whose -m is allowed is enumerated too |
| Basis.CompatibleSymmetriesFindPartners | pairinteraction/SystemOne.cpp:227-232 | with compatible selectors and no m restriction, no enumerated state lacks its partner momentum, so the "momentum required by symmetries cannot be found" error is impossible |
| SystemOneModel.ReportedPartnerNeedsIncompatibility | pairinteraction/SystemOne.cpp:227-232 | a reported missing partner momentum implies incompatible selectors or a restricted m range |
| SystemOneModel.DiagonalEnergies | pairinteraction/SystemOne.cpp:198-258 | the diagonal carries the (n, l, j) energy of each enumerated column and the energy of each user-defined column (0 for an artificial state) |
| SystemOneModel.ColumnsOriginAppend | pairinteraction/SystemOne.cpp:741-763 | appending a new, non-skipped column with its energy keeps every column tied to its origin and the columns free of repeats |
| Basis.IndexedNoDuplicates | pairinteraction/SystemOne.cpp:768-776 | the container of states never holds a state twice |
| Basis.IndexedAppend | pairinteraction/SystemOne.cpp:773-775 | appending a new state at index size keeps both views of the container consistent |
| Basis.SymmetrizedColumnNormalized | pairinteraction/SystemOne.cpp:744-761 | every symmetrized basis vector has squared norm 1, lies in its own column, and has two entries exactly when reflection pairs the state |
| Basis.BuiltAppendColumn | pairinteraction/SystemOne.cpp:741-763 | adding a column with its energy keeps the basis triplets, diagonal and column states consistent |
| Basis.BuiltColumnsNormalized | pairinteraction/SystemOne.cpp:296-297 | every column of the built basis-vector matrix has squared norm 1 |
| Basis.MProgressStep | pairinteraction/SystemOne.cpp:219-237 | one pass of the m loop keeps every admitted state with a processed m in the container, and a column unless reflection skips it |
| Basis.MProgressComplete | pairinteraction/SystemOne.cpp:219-237 | after the m loop every enumerated state of that (n, l, j) is in the container, is a column unless reflection skips it, and has its partner momentum |
| SystemOneModel.SystemOne.constructor | pairinteraction/SystemOne.cpp:33-41 | zero fields, diamagnetism on, charge and order 0, no parity, rotation {Arb}, no states and an empty cache |
| SystemOneModel.SystemOne.SetConservedMomentaUnderRotation | pairinteraction/SystemOne.cpp:120-131 | Arb with explicit momenta fails and changes nothing; otherwise the set is stored and the call fails exactly when it is incompatible with the parity |
| SystemOneModel.SystemOne.SetConservedParityUnderReflection | pairinteraction/SystemOne.cpp:111-118 | the parity is stored, and the call fails exactly when it is incompatible with the momenta |
| SystemOneModel.SystemOne.SetEfield | pairinteraction/SystemOne.cpp:45-51 | the field is stored; fails exactly when y != 0, leaving the spherical components unchanged; otherwise they become the field's spherical components |
| SystemOneModel.SystemOne.SetBfield | pairinteraction/SystemOne.cpp:53-68 | as SetEfield, and on success the diamagnetic terms become the six products of the new components |
| SystemOneModel.SystemOne.AddBasisvectors | pairinteraction/SystemOne.cpp:766-779 | a known state keeps its row; a new one is appended with row = old size; the triplet (row, col, value) is appended |
| SystemOneModel.SystemOne.AddSymmetrizedBasisvectors | pairinteraction/SystemOne.cpp:730-764 | a skipped state (reflection, m < 0) changes nothing; otherwise idx grows by one, the energy goes on the diagonal, and the column is the normalized symmetrized vector of the state |
| SystemOneModel.SystemOne.AddEnumerated | pairinteraction/SystemOne.cpp:234-236 | a skipped state changes nothing; otherwise the state becomes the next column with its (n, l, j) energy on the diagonal, and it and its reflected partner are in the container |
| SystemOneModel.SystemOne.ProcessM | pairinteraction/SystemOne.cpp:219-236 | abs(m) > j adds nothing; the call fails exactly when the state lacks its partner momentum under reflection, and then with MomentumMissing(-m); otherwise the state is a row and, unless skipped, the next column |
| SystemOneModel.SystemOne.EnumerateM | pairinteraction/SystemOne.cpp:203-237 | on success every enumerated state of (n, l, j) is a row, a column unless skipped, and has its partner momentum; new columns are of (n, l, j) only; a failure reports a state lacking its partner momentum |
| SystemOneModel.SystemOne.EnumerateJ | pairinteraction/SystemOne.cpp:188-238 | the same for every enumerated state of (n, l) |
| SystemOneModel.SystemOne.EnumerateL | pairinteraction/SystemOne.cpp:178-239 | the same for every enumerated state of n |
| SystemOneModel.SystemOne.EnumerateStates | pairinteraction/SystemOne.cpp:174-240 | succeeds exactly when no admitted state lacks its partner momentum; then every admitted state is a row and, unless skipped, a column, and every column comes from an admitted state with its energy on the diagonal |
| SystemOneModel.SystemOne.CheckUserStates | pairinteraction/SystemOne.cpp:244-253 | passes exactly when no user state is already contained and every physical one has the system's species; otherwise it names the offending state |
| SystemOneModel.SystemOne.AddUserState | pairinteraction/SystemOne.cpp:256-291 | artificial states drop the symmetries; a state whose m is not conserved is skipped; fails exactly when a kept, paired state has no reflected user state; otherwise the column, diagonal energy and index follow AddSymmetrizedBasisvectors |
| SystemOneModel.SystemOne.AddUserStates | pairinteraction/SystemOne.cpp:255-292 | succeeds exactly when no user state lacks its reflected user state; then every user state the rotation keeps and reflection does not skip becomes a column |
| SystemOneModel.SystemOne.BuildStates | pairinteraction/SystemOne.cpp:167-292 | succeeds exactly when every admitted state has its partner momentum and the user states are fresh, of the right species and paired; the errors come in the source order, each tied to its cause |
| SystemOneModel.SystemOne.InitializeBasis | pairinteraction/SystemOne.cpp:137-303 | infinite basis iff no n range and an open energy window; not-implemented iff no n range with both energy bounds; otherwise AssembleBasis |
| SystemOneModel.SystemOne.AssembleBasis | pairinteraction/SystemOne.cpp:167-303 | succeeds exactly when every admitted state has its partner momentum and the user states are fresh, of the right species and paired; on success the columns are exactly the admitted and kept user states that reflection does not skip, without repeats, each normalized with its energy on the diagonal; each error is tied to its cause, and a missing partner momentum needs incompatible selectors or an m restriction |
| SystemOneModel.SystemOne.AddCheckedUserStates | pairinteraction/SystemOne.cpp:244-292 | after a complete enumeration, the user-state checks then the user states leave the states and columns AssembleBasis describes |
| SystemOneModel.SystemOne.StoreMatrices | pairinteraction/SystemOne.cpp:296-302 | basisvectors gets a row per state and a normalized column per column state; the Hamiltonian is diagonal with each column state's energy |
| Interaction.FieldRange | pairinteraction/SystemOne.cpp:320-337 | the pending components are increasing and are exactly those q >= 0 that are nonzero and whose -q operator is not cached |
| Interaction.DiamagneticRangeMembers | pairinteraction/SystemOne.cpp:338-346 | the pending terms are exactly those with q >= 0, diamagnetism on, a nonzero value and no cached operator, without repeats |
| Interaction.OrderRangeMembers | pairinteraction/SystemOne.cpp:348-353 | the pending orders are exactly the uncached ones in 1..ordermax, in increasing order |
| Interaction.IncreasingUnique | pairinteraction/SystemOne.cpp:320-337 | two increasing sequences with the same members are equal, so the pending components do not depend on iteration order |
| Interaction.CollectFieldRange | pairinteraction/SystemOne.cpp:320-337 | the field loop collects the pending field components |
| Interaction.CollectDiamagneticRange | pairinteraction/SystemOne.cpp:338-346 | the diamagnetism loop collects the pending terms |
| Interaction.CollectOrderRange | pairinteraction/SystemOne.cpp:348-354 | the order loop collects the pending orders of a charged ion, and none when the charge is 0 |
| Interaction.ElectricEmissionIsFirstEligible | pairinteraction/SystemOne.cpp:412-423 | no electric triplet iff no component is eligible; otherwise exactly one, for the first eligible component |
| Interaction.MagneticEmissionIsFirstEligible | pairinteraction/SystemOne.cpp:426-437 | no magnetic triplet iff no component is eligible; otherwise exactly one, for the first eligible component |
| Interaction.DiamagneticEmissionIsEligible | pairinteraction/SystemOne.cpp:440-450 | a diamagnetic triplet is emitted for a term exactly when the term is eligible |
| Interaction.MultipoleEmissionIsAllowed | pairinteraction/SystemOne.cpp:456-463 | an ion-multipole triplet is emitted for an order exactly when the selection rule allows it |
| Interaction.EmitElectric | pairinteraction/SystemOne.cpp:412-423 | the electric loop with its continue and break emits the first-eligible triplet |
| Interaction.EmitMagnetic | pairinteraction/SystemOne.cpp:426-437 | the magnetic loop with its continue and break emits the first-eligible triplet |
| Interaction.EmitDiamagnetic | pairinteraction/SystemOne.cpp:440-450 | the diamagnetic loop emits every eligible term |
| Interaction.EmitMultipole | pairinteraction/SystemOne.cpp:456-463 | the ion loop emits every allowed order |
| Interaction.EmitPair | pairinteraction/SystemOne.cpp:411-465 | one (row, column) pair emits the electric, magnetic, diamagnetic and, for a charged ion with conserved m, multipole triplets |
| Interaction.PairEmissionSound | pairinteraction/SystemOne.cpp:400-467 | every emitted triplet is for a pending component, passes its selection rule, carries the right element, and is in the lower triangle when q = 0 |
| Interaction.PairEmissionComplete | pairinteraction/SystemOne.cpp:400-467 | for physical states every eligible diamagnetic term and allowed ion order is emitted, and an electric or magnetic triplet exists whenever some component is eligible |
| Interaction.ArtificialColumnEmpty | pairinteraction/SystemOne.cpp:401-403 | an artificial column state contributes no triplets |
| Interaction.RowsEmissionMembers | pairinteraction/SystemOne.cpp:406-466 | a triplet is emitted for a column exactly when some row pair emits it |
| Interaction.EmissionMembers | pairinteraction/SystemOne.cpp:400-467 | a triplet is emitted exactly when some (row, column) pair emits it |
| Interaction.EmissionSound | pairinteraction/SystemOne.cpp:400-467 | every collected triplet has indices within the container, is sound for its states, and q = 0 triplets have row >= column |
| Interaction.CollectColumn | pairinteraction/SystemOne.cpp:406-466 | the row loop for one physical column collects exactly the triplets its row pairs emit |
| Interaction.CollectTriplets | pairinteraction/SystemOne.cpp:400-467 | the nested column and row loops collect exactly the emission over all state pairs |
| Interaction.Sign | pairinteraction/SystemOne.cpp:483 | (-1)^q is 1 exactly for even q, and -1 otherwise |
| Interaction.StoredKeeps | pairinteraction/SystemOne.cpp:472-500 | a component neither pending nor opposite to a pending one keeps its cached operator |
| Interaction.StoredSets | pairinteraction/SystemOne.cpp:472-500 | a pending q gets its operator (self-adjoint lower view for q = 0); for q != 0, -q gets (-1)^q times its adjoint |
| Interaction.StoredTermsKeeps | pairinteraction/SystemOne.cpp:502-517 | a diamagnetic term neither pending nor opposite to a pending one keeps its cached operator |
| Interaction.StoredTermsSets | pairinteraction/SystemOne.cpp:502-517 | a pending (k, q) gets its operator; for q != 0, (k, -q) gets (-1)^q times its adjoint |
| Interaction.StoredClosed | pairinteraction/SystemOne.cpp:472-500 | storing keeps the cache closed under q -> -q and keeps earlier operators; the new keys are exactly the pending ones and their opposites |
| Interaction.StoredTermsClosed | pairinteraction/SystemOne.cpp:502-517 | the same for the diamagnetic cache under (k, q) -> (k, -q) |
| Interaction.FieldStored | pairinteraction/SystemOne.cpp:320-337 | from a closed cache, every nonzero field component ends up with an operator, and the cache stays closed |
| Interaction.TermsStored | pairinteraction/SystemOne.cpp:338-346 | from a closed cache, every nonzero diamagnetic term (when enabled) ends up with an operator, and the cache stays closed |
| Interaction.OrdersStored | pairinteraction/SystemOne.cpp:518-532 | from a closed cache, every order 1..ordermax ends up with an operator, and the cache stays closed |
| Interaction.PendingStorable | pairinteraction/SystemOne.cpp:317-354 | the pending components of a closed cache satisfy what storing needs: increasing, q >= 0, and no opposite cached |
| Interaction.StoreOperators | pairinteraction/SystemOne.cpp:472-500 | the storing loop over pending components builds the stored cache |
| Interaction.StoreTermOperators | pairinteraction/SystemOne.cpp:502-517 | the storing loop over pending diamagnetic terms builds the stored cache |
| SystemOneModel.SystemOne.CollectRanges | pairinteraction/SystemOne.cpp:317-354 | the four loops collect exactly the pending components of the system |
| SystemOneModel.SystemOne.StoreInteraction | pairinteraction/SystemOne.cpp:472-533 | every cache becomes its stored version; the multipole cache changes only for a charged ion; the cache stays closed |
| SystemOneModel.SystemOne.InitializeInteraction | pairinteraction/SystemOne.cpp:309-534 | each cache becomes the old cache with every pending component's operator, built from the collected triplets, plus its opposite; the cache stays closed |
| SystemOneModel.SystemOne.DeleteInteraction | pairinteraction/SystemOne.cpp:616-621 | all four caches become empty, so every nonzero component with q >= 0 is pending again |
| SystemOneModel.SystemOne.Incorporate | pairinteraction/SystemOne.cpp:676-724 | species, E field, B field and diamagnetism mismatches fail in that order and change nothing; otherwise the selectors are merged, the number of differing selectors is returned, and the cache is cleared |
| HamiltonianMatrix.FormatFlagsRecoverable | pairinteraction/Hamiltonianmatrix.hpp:37-38 | the two flags are disjoint bits, so both choices can be read back from the format byte |
| HamiltonianMatrix.ZipOfParts | pairinteraction/Hamiltonianmatrix.hpp:85-112 | merging the real and imaginary parts of a complex vector gives it back |
| HamiltonianMatrix.PartsOfZip | pairinteraction/Hamiltonianmatrix.hpp:85-112 | splitting a merged vector gives back both halves |
| HamiltonianMatrix.SplitComplex | pairinteraction/Hamiltonianmatrix.hpp:103-112 | appends every real part to `real` and every imaginary part to `imag`, in order |
| HamiltonianMatrix.MergeComplex | pairinteraction/Hamiltonianmatrix.hpp:85-94 | appends Complex(real[k], imag[k]) for every k < size of `real`, in order |
| HamiltonianMatrix.SplitReal | pairinteraction/Hamiltonianmatrix.hpp:114-119 | in a real build `imag` becomes empty and `real` a copy of the input |
| HamiltonianMatrix.MergeReal | pairinteraction/Hamiltonianmatrix.hpp:96-101 | in a real build the output becomes `real`, and `imag` is ignored |
| HamiltonianMatrix.SplitThenMerge | pairinteraction/Hamiltonianmatrix.hpp:85-112 | splitting then merging a complex vector reproduces it |
| HamiltonianMatrix.SplitThenMergeReal | pairinteraction/Hamiltonianmatrix.hpp:96-119 | splitting then merging a real vector reproduces it |

## Left out

- Basis transformation of the interaction: the operators are stored in the canonical basis. The products basisvectors† · V · basisvectors (SystemOne.cpp:479-482 and the corresponding lines for the other caches) need sparse matrix algebra, which is not modelled.
- Precalculation of matrix elements (SystemOne.cpp:360-384): this only fills the matrix-element cache, a performance measure. Matrix elements are symbolic `Element` values.
- Selection rules and state energies: they are computed by the matrix-element cache and the quantum-defect code, which are not part of this model, so they are function parameters (`Rules`, `energyOf`, `energyValid`).
- Energy-window test: `checkIsEnergyValid`, the quantum-number ranges and `states_to_add` belong to the system base, which is not part of this model. They are passed in as `BaseRestrictions` and `energyValid`.
- Iteration order: `unordered_map` iteration in initializeInteraction has no defined order. The model visits field components in increasing q and diamagnetic terms in one fixed key order. `Interaction.IncreasingUnique` shows the pending set itself does not depend on that order.
- Physical constants and values: the prefactors 1/(8 m_e) and -k_e·e, `std::pow`, `sqrt(2)` and floating point are not modelled. Amplitudes are exact reals, optionally divided by sqrt 2. Basis coefficients record their squared norm and phase symbolically.
- Rotations: the rotated field setters, `rotateVector`, `buildRotator` and the state-rotation methods are not modelled.
- Other operations: `addInteraction`, `transformInteraction`, the complex overload of `changeToSphericalbasis`, and the serialization of Hamiltonianmatrix are not modelled.
- Trivial setters: `enableDiamagnetism`, `setIonCharge`, `setRydIonOrder` and `setRydIonDistance` only assign one field after `onParameterChange`. They are not modelled as methods; `onParameterChange` and `onSymmetryChange` belong to the system base.
- Warnings: the printed warnings (artificial states under symmetries, systems differing in more than one symmetry) are not modelled as output. `SystemOneModel.SystemOne.Incorporate` returns the number of differing symmetries instead.
- Error messages: incorporate's messages name the wrong variables ('element', 'distance', 'angle' and 'ordermax' for species, E field, B field and diamagnetism). The model names the parameter that actually differs.
- Arb: its numeric value lives in dtypes.hpp, which is not part of this model. The model only tests membership of one fixed sentinel.
- Spin: the species-dependent spin handles only a trailing digit 1-9. A trailing '0' gives 2s = -1, as in the source, and is not treated specially.
- HamiltonianMatrix.MergeComplex: requires the imaginary vector to be at least as long as the real one. The source advances the imaginary iterator without a bound check, so a shorter vector is undefined behaviour there.
- User-defined states: `states_to_add` is a `std::set`. The model takes it as a sequence without repeats (`Distinct`), so the columns of the user states follow the caller's order, not the set's ordering of `StateOne`.
