# FLARE inference glue for LAMMPS, modelled in Dafny

FLARE fits a sparse Gaussian-process model of interatomic energies. Two LAMMPS
plug-ins use such a fitted model inside a molecular-dynamics run:

- **`pair_style flare`** (`PairFLARE`) reads a coefficient file, then computes
  energies and forces. For each atom, the coefficients `beta` of the atom's
  species form a quadratic form over the atom's power-spectrum descriptor
  `B2_vals`. The file stores that form as a packed upper triangle of
  `n_d (n_d + 1) / 2` values per species. The energy loop and the force loop
  walk a counter `beta_counter` over the pairs `(j, k)`, `j <= k < n_d`.
  Each neighbour's partial force is subtracted from the atom's force row and
  added to the neighbour's row.
- **`compute flare/std/atom`** (`ComputeFlareStdAtom`) reads a file of the
  same shape. It stores one full `n_d x n_d` matrix per species, unpacked row
  by row into `beta_matrices`. It computes a per-atom uncertainty `stds[i]`
  and sums `stds` across processors by reverse communication.

The project has four modules:

- `FlareFile` (`flare_file.dfy`) holds what both plug-ins share:
  - the coefficient-file header;
  - the descriptor count `n_d = (R(R+1)/2)(l_max+1)` with `R = n_max * n_species`, using C's truncating division;
  - the name-to-strategy resolution for `"chebyshev"`, `"quadratic"` and `"cosine"`;
  - the `strtok` tokenizer and the `grab` loop that fills the coefficient array.
- `PackedIndex` (`packed_index.dfy`) gives the counter value of a pair, `Packed`. It proves `Packed` is a bijection from the pairs `j <= k < n_d` onto `[0, n_d(n_d+1)/2)`, with inverse `Unpack`.
- `FlarePair` (`pair_flare.dfy`) holds:
  - the command checks;
  - the packed layout check;
  - the class `PairFlare`, with `allocate`, `coeff`, `read_file` and `compute`.

  `compute` is proved against a specification. Each energy sum and each force-component sum is a packed form: a sum over the upper triangle of a weight times the coefficient at that pair's counter value. The final force rows are the partial forces transferred neighbour by neighbour, atom by atom. The sum of all force rows is unchanged.
- `FlareStdAtom` (`compute_flare_std_atom.dfy`) holds:
  - the constructor and `coeff` checks;
  - the full-matrix layout check;
  - the class `ComputeFlareStdAtom`, with the row-major fill of `beta_matrices`, the growing and zeroing of `stds`, the count of neighbours inside the cutoff, and the triple-valued pack and unpack of reverse communication.

Floating-point arithmetic is modelled as exact real arithmetic. A few inputs are parameters of the model:

- the descriptors that `single_bond` and `B2_descriptor` produce;
- the final normalisation of each partial force;
- the square-root std value;
- `atof`.

The model records which coefficient each term reads and where each result is written. It does not compute the floating-point values.

Quirks of the code are modelled as written:

- An unknown basis or cutoff name is ignored, with no error.
- A header with `l_max < -1` gives a negative `n_d`. The pair style's packed check can still accept it (`NegativeDescriptorCountAccepted`), and so can the compute's full-matrix check (`NegativeDescriptorCountAcceptedFull`).
- Neither `coeff` compares the number of atom types with `n_species`. An atom type above `n_species` makes `compute` read past the end of `beta` (`TypeAboveSpeciesOverruns`).
- The compute's constructor accepts `narg >= 4`, but it calls `coeff`, which accepts only `narg == 4`. So every `narg > 4` ends in `coeff`'s error.
- Every successful `read_file` of the compute appends `n_species` matrices to `beta_matrices`. Matrices from earlier reads are kept.
- The reverse communication packs each value three times and adds all three back.

## Model

| member | source | states |
|---|---|---|
| `FlareFile.NumDescriptors` | lammps/pair_flare.cpp:291-292 | twice n_d is R(R+1)(l_max+1) with R = n_max * n_species, so the C halving is exact; n_d is non-negative for non-negative counts and l_max >= -1 |
| `FlareFile.HalfOfConsecutiveProduct` | lammps/pair_flare.cpp:292 | C's truncating `/ 2` of R(R+1) loses nothing, for every integer R, negative ones included |
| `FlareFile.ResolveBasis` | lammps/pair_flare.cpp:300-303 | a resolved basis is the one whose name was given, and every known name resolves, so only "chebyshev" selects a basis |
| `FlareFile.ResolveCutoff` | lammps/pair_flare.cpp:306-309 | a resolved cutoff function is the one named, and both "quadratic" and "cosine" resolve; any other name resolves to nothing |
| `FlareFile.StrategiesAfter` | lammps/pair_flare.cpp:299-309 | "chebyshev" sets the Chebyshev basis with radial_hyps = [0, cutoff]; "quadratic"/"cosine" set that cutoff; an unknown name leaves its field as it was, with no error (the compute repeats this at compute_flare_std_atom.cpp:327-337) |
| `FlareFile.WordLength` | lammps/pair_flare.cpp:333-335 | the token strtok returns is the maximal run of non-separators: none of its characters is one of space, tab, newline, carriage return, form feed, and the next character is one |
| `FlareFile.Tokenize` | lammps/pair_flare.cpp:333-335 | every token strtok returns on a line is non-empty and free of separators |
| `FlareFile.TokensKeepEveryCharacter` | lammps/pair_flare.cpp:333-335 | the tokens, concatenated, are exactly the line's non-separator characters in order: tokenizing drops nothing but separators |
| `FlareFile.TokenizeUnwords` | lammps/pair_flare.cpp:333-335 | tokens written out with space separators tokenize back to the same tokens (round trip) |
| `FlareFile.TokenValues` | lammps/pair_flare.cpp:334-335 | one value per token, the p-th being atof of the p-th token |
| `FlareFile.Grabbed` | lammps/pair_flare.cpp:325-337 | grab stores exactly n values (none when n <= 0) |
| `FlareFile.GrabbedIsPrefix` | lammps/pair_flare.cpp:325-337 | the values grab stores are the first n token values of the file, in file order |
| `FlareFile.GrabbedFrom` | lammps/pair_flare.cpp:331-335 | one iteration of grab's outer loop reads a line with between 1 and the remaining count of tokens; its values come first, then the rest of grab's values |
| `FlareFile.StoreTokens` | lammps/pair_flare.cpp:333-335 | the strtok loop stores the line's token values at list[i..i+t) in order, returns i+t, and leaves the rest of list unchanged |
| `FlareFile.GrabLine` | lammps/pair_flare.cpp:331-336 | one outer iteration advances i by at least one without passing n; the values stored so far followed by what grab still stores are preserved; nothing from list[n] on changes |
| `FlareFile.Grab` | lammps/pair_flare.cpp:325-337 | list[0..n) holds exactly the grabbed values and the rest of list is unchanged (the compute's copy is compute_flare_std_atom.cpp:377-389) |
| `FlareFile.CreateAndGrab` | lammps/pair_flare.cpp:312-313 | beta is a new array of beta_size * n_species values holding the grabbed values |
| `PackedIndex.RowStartClosedForm` | lammps/pair_flare.cpp:108-115 | the counter offset where row j starts is j*n_d - j(j-1)/2 |
| `PackedIndex.TriangleSizeFormula` | lammps/pair_flare.cpp:295 | the loops visit n_d(n_d+1)/2 pairs in all, the beta_size the check demands |
| `PackedIndex.PackedFormula` | lammps/pair_flare.cpp:108-115 | the counter for pair (j, k) is j*n_d - j(j-1)/2 + (k - j) |
| `PackedIndex.RowStartMonotone` | lammps/pair_flare.cpp:108-115 | a later row never starts at an earlier counter value than a row before it |
| `PackedIndex.PackedInRow` | lammps/pair_flare.cpp:108-115 | pair (j, k) lies inside row j's block of counter values and inside the triangle, so every read stays in the species slice |
| `PackedIndex.PackedInjective` | lammps/pair_flare.cpp:108-115 | distinct pairs get distinct counter values: no coefficient is read for two pairs |
| `PackedIndex.UnpackFrom` | lammps/pair_flare.cpp:108-115 | a counter value at or after row j's start belongs to a pair in row j or later |
| `PackedIndex.Unpack` | lammps/pair_flare.cpp:108-115 | every counter value in the triangle is the counter of some pair j <= k < n_d: every coefficient is read |
| `PackedIndex.UnpackPacked` | lammps/pair_flare.cpp:108-115 | Unpack inverts Packed, which with Unpack's contract makes Packed a bijection onto [0, n_d(n_d+1)/2) |
| `FlarePair.Transfer` | lammps/pair_flare.cpp:144-150 | a neighbour step subtracts fij from row i, adds it to row j, and changes no other row |
| `FlarePair.TransferPreservesTotal` | lammps/pair_flare.cpp:144-150 | a neighbour step leaves the sum of all force rows unchanged (Newton's third law) |
| `FlarePair.ApplyNeighbours` | lammps/pair_flare.cpp:119-160 | the neighbour steps of one atom keep the number of force rows |
| `FlarePair.ApplyNeighboursPreservesTotal` | lammps/pair_flare.cpp:119-160 | after any number of neighbour steps of one atom the sum of all force rows is unchanged |
| `FlarePair.TransferRows` | lammps/pair_flare.cpp:144-150 | the six in-place row updates leave exactly the force rows that the transfer specifies |
| `FlarePair.RowSumReadsSlice` | lammps/pair_flare.cpp:110-114 | a row of the sum depends only on the species slice beta[beta_init .. beta_init + n_d(n_d+1)/2) |
| `FlarePair.RowsSumReadsSlice` | lammps/pair_flare.cpp:108-115 | the first rows of the sum depend only on the species slice |
| `FlarePair.PackedFormReadsSlice` | lammps/pair_flare.cpp:105-115 | an energy or force sum of one atom reads only its species' slice of beta |
| `FlarePair.RowSumNext` | lammps/pair_flare.cpp:110-114 | the next term of a row multiplies the weight of (m, k) by the coefficient at counter beta_init + Packed(m, k) |
| `FlarePair.EnergyWeights` | lammps/pair_flare.cpp:108-112 | the energy weights B2_vals(j) * B2_vals(k) form an n_d x n_d matrix |
| `FlarePair.ForceWeights` | lammps/pair_flare.cpp:127-131 | the force weights of one component form an n_d x n_d matrix |
| `FlarePair.AccumulateNext` | lammps/pair_flare.cpp:112-113 | adding weight times the value at beta_counter to the running sum gives the sum over one more pair |
| `FlarePair.EnergyRow` | lammps/pair_flare.cpp:110-114 | the inner energy loop adds row j's terms, visits row j's pairs in counter order, and leaves the counter at the start of row j+1 |
| `FlarePair.EnergyPass` | lammps/pair_flare.cpp:105-115 | starting at beta_init, the energy loop visits each pair (j, k), j <= k < n_d, once, in counter order; it ends at beta_init + n_d(n_d+1)/2; evdwl is the packed energy form |
| `FlarePair.ForceRow` | lammps/pair_flare.cpp:126-134 | the inner force loop adds row m's terms to each of the three components and leaves the counter at the start of row m+1 |
| `FlarePair.ForcePass` | lammps/pair_flare.cpp:121-135 | the counter restarts at beta_init for each neighbour, so each component of fij is the packed form of its weights over the same coefficients as the energy loop |
| `FlarePair.PartialForces` | lammps/pair_flare.cpp:119-141 | there is one partial force per neighbour |
| `FlarePair.SpeciesSliceInBounds` | lammps/pair_flare.cpp:105 | for 1 <= type <= n_species, the slice from (type-1)*beta_size holding the triangle lies inside the beta_size * n_species array |
| `FlarePair.NeighbourStep` | lammps/pair_flare.cpp:119-150 | one neighbour iteration transfers that neighbour's partial force from row i to row j |
| `FlarePair.AtomStep` | lammps/pair_flare.cpp:84-160 | handling one atom keeps the number of force rows |
| `FlarePair.AtomStepPreservesTotal` | lammps/pair_flare.cpp:84-160 | handling one atom leaves the sum of all force rows unchanged |
| `FlarePair.AfterAtoms` | lammps/pair_flare.cpp:84-164 | handling the listed atoms keeps the number of force rows |
| `FlarePair.AfterAtomsPreservesTotal` | lammps/pair_flare.cpp:84-164 | over exact arithmetic, compute leaves the sum of all force rows unchanged |
| `FlarePair.SettingsCheck` | lammps/pair_flare.cpp:195 | pair_style passes exactly when it has no arguments, otherwise "Illegal pair_style command" |
| `FlarePair.CoeffCheck` | lammps/pair_flare.cpp:208-212 | pair_coeff passes exactly when it has three arguments and the first two are "*" |
| `FlarePair.InitStyleCheck` | lammps/pair_flare.cpp:224-225 | init_style fails exactly when newton_pair is 0 |
| `FlarePair.PackedLayoutCheck` | lammps/pair_flare.cpp:295-297 | the file is accepted exactly when 2 * beta_size == n_d(n_d+1); otherwise the beta-size error |
| `FlarePair.AcceptedLayoutFits` | lammps/pair_flare.cpp:295-297 | an accepted layout has beta_size >= 0, equal to the triangle size when n_d >= 0, and always large enough for the triangle the loops walk |
| `FlarePair.NegativeDescriptorCountAccepted` | lammps/pair_flare.cpp:291-297 | n_species 1, n_max 1, l_max -3 give n_d = -2, and beta_size 1 passes the check |
| `FlarePair.TypeAboveSpeciesOverruns` | lammps/pair_flare.cpp:105-115 | for an atom of type n_species + 1, an accepted layout with n_d > 0 makes the energy and force loops read past the beta_size * n_species values that read_file creates (line 312): nothing in the code bounds the type |
| `FlarePair.PairFlare.constructor` | lammps/pair_flare.cpp:30-36 | a new style has nothing allocated, no coefficients and no strategies |
| `FlarePair.PairFlare.Allocate` | lammps/pair_flare.cpp:173-186 | sets the allocated flag; makes (ntypes+1)^2 setflag and cutsq arrays; setflag[i][i] is 1 for every i in 1..ntypes |
| `FlarePair.PairFlare.ReadHeader` | lammps/pair_flare.cpp:266-297 | stores the header fields and n_d; the outcome is the packed layout check |
| `FlarePair.PairFlare.ReadFile` | lammps/pair_flare.cpp:248-316 | stores the header and n_d. On a rejected layout the strategies and beta are untouched. Otherwise it sets the strategies the names resolve to and a fresh beta holding the grabbed values, which leaves the style ready for compute. |
| `FlarePair.PairFlare.Coeff` | lammps/pair_flare.cpp:203-215 | allocates on first use only (a fresh (ntypes+1)×(ntypes+1) setflag with the diagonal set and a fresh cutsq of the same shape; later calls keep both arrays), then fails on bad arguments before touching the file; it passes exactly when the arguments and the layout are accepted, with read_file's effects |
| `FlarePair.PairFlare.ComputeAtom` | lammps/pair_flare.cpp:84-160 | for one atom, the force rows become the old rows with each neighbour's partial force transferred in neighbour order. The partial force uses the energy and force sums read from the atom's species slice. |
| `FlarePair.PairFlare.Compute` | lammps/pair_flare.cpp:56-167 | the force rows become the specified rows after every listed atom, and their sum is unchanged |
| `FlareStdAtom.ConstructorCheck` | lammps/compute_flare_std_atom.cpp:34 | the constructor passes exactly when narg >= 4 |
| `FlareStdAtom.CoeffArgsCheck` | lammps/compute_flare_std_atom.cpp:255-256 | coeff passes exactly when narg == 4 |
| `FlareStdAtom.FullLayoutCheck` | lammps/compute_flare_std_atom.cpp:323-325 | the file is accepted exactly when beta_size == n_d * n_d; otherwise the beta-size error |
| `FlareStdAtom.FullLayoutFits` | lammps/compute_flare_std_atom.cpp:341-353 | an accepted layout gives a beta array holding n_species full n_d x n_d matrices, exactly filling it when the counts are non-negative |
| `FlareStdAtom.NegativeDescriptorCountAcceptedFull` | lammps/compute_flare_std_atom.cpp:319-325 | n_species 1, n_max 1, l_max -3 give n_d = -2; beta_size 4 passes the full-matrix check; the model's fill then yields one 0 x 0 matrix |
| `FlareStdAtom.RowMajorOrder` | lammps/compute_flare_std_atom.cpp:357-362 | entry (r, c) is filled before entry (i, j) exactly when it comes first in row-major order |
| `FlareStdAtom.Prefilled` | lammps/compute_flare_std_atom.cpp:356-363 | the matrix being filled is n_d x n_d at every step |
| `FlareStdAtom.ZeroMatrix` | lammps/compute_flare_std_atom.cpp:356 | the zero matrix is n_d x n_d |
| `FlareStdAtom.PrefilledNothing` | lammps/compute_flare_std_atom.cpp:356 | before any value is read, the matrix is the zero matrix |
| `FlareStdAtom.PrefilledStep` | lammps/compute_flare_std_atom.cpp:360-361 | one assignment of the fill changes exactly entry (i, j), to the next value |
| `FlareStdAtom.FullMatrix` | lammps/compute_flare_std_atom.cpp:357-363 | a completed fill is an n_d x n_d matrix |
| `FlareStdAtom.FullMatrixEntry` | lammps/compute_flare_std_atom.cpp:360 | entry (i, j) of a matrix read from base holds beta[base + i*n_d + j] |
| `FlareStdAtom.FullMatrices` | lammps/compute_flare_std_atom.cpp:353-366 | the fill pushes exactly n_species matrices |
| `FlareStdAtom.FullMatricesBlock` | lammps/compute_flare_std_atom.cpp:353-364 | species k's matrix is read from the block starting at k * n_d^2, which lies inside beta |
| `FlareStdAtom.FullMatricesEntry` | lammps/compute_flare_std_atom.cpp:350-366 | beta_matrices[k](i, j) == beta[k*n_d^2 + i*n_d + j] |
| `FlareStdAtom.FullMatricesCover` | lammps/compute_flare_std_atom.cpp:350-366 | every one of the n_species * n_d^2 values lands in the entry its index names, so none is skipped |
| `FlareStdAtom.InnerSlotsNext` | lammps/compute_flare_std_atom.cpp:149-158 | one more neighbour adds one to the in-cutoff count exactly when its squared distance is below cutoff^2 |
| `FlareStdAtom.InnerSlotsBound` | lammps/compute_flare_std_atom.cpp:148-160 | at most every neighbour is inside the cutoff |
| `FlareStdAtom.CountInner` | lammps/compute_flare_std_atom.cpp:148-160 | n_inner is the number of neighbours whose squared distance is strictly less than cutoff^2, and at most jnum |
| `FlareStdAtom.Tripled` | lammps/compute_flare_std_atom.cpp:188-196 | the packed buffer has three values per atom |
| `FlareStdAtom.TripledEntries` | lammps/compute_flare_std_atom.cpp:190-193 | slots 3i, 3i+1 and 3i+2 of the buffer all hold the i-th value |
| `FlareStdAtom.TripledAppend` | lammps/compute_flare_std_atom.cpp:190-193 | packing one more atom appends its value three times |
| `FlareStdAtom.AddTriples` | lammps/compute_flare_std_atom.cpp:206-211 | unpacking keeps the length of stds |
| `FlareStdAtom.AddTriplesAt` | lammps/compute_flare_std_atom.cpp:206-211 | each entry of stds ends with its old value plus the triple sums of every slot naming it: entries never named keep their value, and repeated indices accumulate |
| `FlareStdAtom.ContributionAbsent` | lammps/compute_flare_std_atom.cpp:206-211 | an entry the list never names receives nothing |
| `FlareStdAtom.ContributionOnce` | lammps/compute_flare_std_atom.cpp:206-211 | an entry named once, at slot k, receives exactly buf[3k] + buf[3k+1] + buf[3k+2] |
| `FlareStdAtom.UnpackOfPack` | lammps/compute_flare_std_atom.cpp:183-213 | unpacking a packed buffer through a list without repeats adds three times the packed value to each listed entry |
| `FlareStdAtom.NTotal` | lammps/compute_flare_std_atom.cpp:116-117 | ntotal lies between nlocal and nlocal + nghost, equals nlocal whenever newton is off, and includes the ghosts exactly when newton is on (or there are none) |
| `FlareStdAtom.ComputeFlareStdAtom.constructor` | lammps/compute_flare_std_atom.cpp:36-47 | the constructor's field set-up before its `coeff` call: comm_reverse = 1, no beta, no matrices, no strategies, nothing allocated, and no stds (the `stds(nullptr)` initialiser at line 32). It also starts nmax at 0, which the source sets only after `coeff` (line 50); `New` states it there. |
| `FlareStdAtom.ComputeFlareStdAtom.FillRow` | lammps/compute_flare_std_atom.cpp:358-362 | the j loop fills row i from the next n_d values and leaves beta_count after them |
| `FlareStdAtom.ComputeFlareStdAtom.FillMatrix` | lammps/compute_flare_std_atom.cpp:356-363 | one species' fill leaves beta_matrix equal to the full matrix read from the current beta_count, and advances beta_count by n_d^2 |
| `FlareStdAtom.ComputeFlareStdAtom.FillMatrices` | lammps/compute_flare_std_atom.cpp:350-366 | the fill appends exactly the n_species full matrices and consumes n_species * n_d^2 values; beta_matrix is left as the last one pushed |
| `FlareStdAtom.ComputeFlareStdAtom.ReadHeader` | lammps/compute_flare_std_atom.cpp:294-325 | stores the header fields and n_d; the outcome is the full-matrix layout check |
| `FlareStdAtom.ComputeFlareStdAtom.LoadBeta` | lammps/compute_flare_std_atom.cpp:339-366 | beta is a fresh array of the grabbed values, and beta_matrices gains the n_species matrices unpacked from it |
| `FlareStdAtom.ComputeFlareStdAtom.ReadFile` | lammps/compute_flare_std_atom.cpp:277-369 | stores the header and n_d. On a rejected layout the strategies, beta and the matrices are untouched. Otherwise the strategies are set as the names resolve, beta holds the grabbed values, and the matrices unpacked from them are appended. |
| `FlareStdAtom.ComputeFlareStdAtom.Coeff` | lammps/compute_flare_std_atom.cpp:250-260 | sets the allocated flag, fails unless narg == 4 before touching the file, and passes exactly when the arguments and the layout are accepted, with read_file's effects |
| `FlareStdAtom.ComputeFlareStdAtom.ZeroStds` | lammps/compute_flare_std_atom.cpp:134-136 | stds[0..ntotal) becomes 0.0 and the rest is unchanged |
| `FlareStdAtom.ComputeFlareStdAtom.StoreStds` | lammps/compute_flare_std_atom.cpp:138-178 | over zeroed stds, each listed atom's entry gets its std, computed from its in-cutoff count and its species' matrix; every other entry below ntotal stays 0.0 |
| `FlareStdAtom.ComputeFlareStdAtom.ComputePeratom` | lammps/compute_flare_std_atom.cpp:99-179 | stds is reallocated only when atom->nmax > nmax, after which nmax == atom->nmax and stds holds nmax entries. Below ntotal, each listed atom holds its std and every other entry is 0.0. Without growth, the entries from ntotal on are unchanged. |
| `FlareStdAtom.ComputeFlareStdAtom.PackReverseComm` | lammps/compute_flare_std_atom.cpp:183-197 | buf starts with stds[first..first+n) with each value written three times in a row; the method returns 3n and leaves the rest of buf unchanged |
| `FlareStdAtom.ComputeFlareStdAtom.UnpackReverseComm` | lammps/compute_flare_std_atom.cpp:201-213 | stds becomes the old stds with buf[3i] + buf[3i+1] + buf[3i+2] added to entry list[i] for each i < n, in order |
| `FlareStdAtom.New` | lammps/compute_flare_std_atom.cpp:30-52 | narg < 4 fails in the constructor. narg > 4 fails in coeff. The command succeeds exactly when narg == 4 and the layout is accepted, leaving nmax = 0 and comm_reverse = 1. On success, beta holds the betaSize·nSpecies values grabbed from the file, there is one matrix per species, and the strategies are those the file names. |

## Left out

- The sparse Gaussian-process engine is not part of this model. `src/kernels.h` and `src/flare_pp/sparse_gp_dtc.h` only declare it.
- The descriptor producers `single_bond` and `B2_descriptor` are parameters (`FlarePair.Descriptor`, and the `StdModel` argument of the compute). So are the radial basis and cutoff functions they call.
- Floating point is modelled as exact real arithmetic, and some values are parameters rather than computed:
  - the division of the energy by `B2_norm_squared`;
  - the `2 * evdwl * B2_env_dot` normalisation term, which is the `Normalisation` argument;
  - the compute's `pow(|B . beta B| / B2_norm_squared, 0.5)`.

  Rounding, and a zero `B2_norm_squared`, are therefore not modelled.
- File input is not modelled directly:
  - `fopen`, `fgets`, `sscanf` and the header lines are replaced by a `CoefficientFile` value with the parsed header fields and the body lines;
  - `atof` is a parameter;
  - a missing file and the `MAXLINE` limit of 1024 characters per line are not modelled.
- `FlareFile.Grab`: on a blank line `strtok` returns NULL and `grab` passes it to `atof` (pair_flare.cpp:334, compute_flare_std_atom.cpp:385-386). Past the end of the file `fgets` leaves the line buffer as it was. C leaves the first undefined, and the second re-reads stale text. Its callers therefore require `GrabFits`: every line read has a token, and the lines end exactly at n values.
- MPI is not modelled. `MPI_Bcast` runs on a single process, and the `comm->me == 0` branches are always taken.
- `FlareFile.NumDescriptors`: the C `int` arithmetic of the n_d formula and of `beta_size * n_species` is unbounded here, so 32-bit overflow is not modelled.
- A non-positive allocation size gives an empty array (`Dim`).
- A negative n_d runs no iterations of the `for` loops over n_d, as in C.
- `FlareStdAtom.ComputeFlareStdAtom.FillMatrices`: with a negative n_d, which the full-matrix check can accept, line 356 calls `Eigen::MatrixXd::Zero(n_d, n_d)` with a negative size. What Eigen does then is not modelled. The model pushes one 0 x 0 matrix per species instead.
- Not modelled:
  - `ev_tally_xyz`, `ev_tally_full` and `virial_fdotr_compute` (the virial and energy tallies);
  - `init_style`'s neighbour request (only its newton check is modelled);
  - `init_one`, `init` and `init_list`;
  - `memory_usage`;
  - the destructors;
  - `neighbor->build_one`;
  - `desc_derv`.
- `FlarePair.PairFlare.ComputeAtom` and `FlarePair.PairFlare.Compute` require (through `AtomFits`/`AtomsFit`) every listed atom's type to lie in 1..n_species. The code never checks this. Types above n_species read outside `beta`: the lemma `TypeAboveSpeciesOverruns` shows the overrun, and the model does not cover those runs.
- `FlareStdAtom.ComputeFlareStdAtom.StoreStds` and `FlareStdAtom.ComputeFlareStdAtom.ComputePeratom` require (through `ListedAtomsFit`) that every listed atom's type lies in 1..|beta_matrices|. A larger type reads `beta_matrices[itype - 1]` out of range at line 175, and the model does not cover that. They also require every atom of `ilist` to be below nlocal. That bound is what LAMMPS promises of a full neighbour list's `ilist`, which is not part of this model.
- `FlareStdAtom.ComputeFlareStdAtom.PackReverseComm` requires a buffer with room for 3n values. The constructor sets comm_reverse = 1 (line 39), announcing one value per atom, yet pack writes three (lines 188-194) and unpack reads three (lines 206-211). The host's buffer sizing is not part of this model, so whether the triple pack overruns the host's buffer is left open. `compute_peratom` never starts a reverse communication itself.
- `FlarePair.PairFlare.Allocate`: the contents of `cutsq` and of the off-diagonal `setflag` entries are not stated, because the code leaves them uninitialised.
- `FlareStdAtom.ComputeFlareStdAtom.ComputePeratom`: after `stds` is reallocated, the entries from ntotal on are not stated, because `memory->create` leaves them uninitialised.
- `FlareStdAtom.ComputeFlareStdAtom.FillRow`: the row is filled in a local copy of `beta_matrix`, which is stored back once the row is done. The intermediate states of the field inside a row are not modelled.
- Two inner loops are written out as three statements:
  - the `l = 0..2` loops over force components in `compute` (lines 122, 127 and 138);
  - the `comp = 0..2` loops of the reverse communication.
- The `n_inner` count passes on to `single_bond` only through the `StdModel` parameter.
