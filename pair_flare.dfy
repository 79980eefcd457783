/** The FLARE pair style (pair_style flare): its command checks, the loading
    of a packed-triangle coefficient file, and the bookkeeping of `compute`:
    which coefficient each energy and force term reads, and how each partial
    force is added to the force rows. The descriptors, the floating-point
    normalisation and `atof` are parameters of the model. */
module FlarePair {
  import opened FlareFile
  import opened PackedIndex

  // ---------------------------------------------------------------------
  // Force rows

  datatype Vec3 = Vec3(x: real, y: real, z: real)

  const Zero3 := Vec3(0.0, 0.0, 0.0)

  function Plus(a: Vec3, b: Vec3): Vec3 { Vec3(a.x + b.x, a.y + b.y, a.z + b.z) }
  function Minus(a: Vec3, b: Vec3): Vec3 { Vec3(a.x - b.x, a.y - b.y, a.z - b.z) }

  /** Sum of all force rows. */
  function Total(f: seq<Vec3>): Vec3 {
    if f == [] then Zero3 else Plus(f[0], Total(f[1..]))
  }

  lemma {:induction false} TotalUpdate(f: seq<Vec3>, p: nat, v: Vec3)
    requires p < |f|
    ensures Plus(Total(f[p := v]), f[p]) == Plus(Total(f), v)
  {
    if p == 0 {
      assert f[p := v][1..] == f[1..];
    } else {
      assert f[p := v][1..] == f[1..][p - 1 := v];
      TotalUpdate(f[1..], p - 1, v);
    }
  }

  /** One neighbour step of `compute`: fij is subtracted from row i and added to row j. */
  function Transfer(f: seq<Vec3>, i: nat, j: nat, fij: Vec3): (g: seq<Vec3>)
    requires i < |f| && j < |f|
    ensures |g| == |f|
    ensures forall p :: 0 <= p < |f| && p != i && p != j ==> g[p] == f[p]
    ensures i != j ==> g[i] == Minus(f[i], fij) && g[j] == Plus(f[j], fij)
    ensures i == j ==> g[i] == f[i]
  {
    var h := f[i := Minus(f[i], fij)];
    h[j := Plus(h[j], fij)]
  }

  /** Newton's third law: a neighbour step leaves the total force unchanged. */
  lemma TransferPreservesTotal(f: seq<Vec3>, i: nat, j: nat, fij: Vec3)
    requires i < |f| && j < |f|
    ensures Total(Transfer(f, i, j, fij)) == Total(f)
  {
    var h := f[i := Minus(f[i], fij)];
    TotalUpdate(f, i, Minus(f[i], fij));
    TotalUpdate(h, j, Plus(h[j], fij));
  }

  /** Force rows after the steps for the first k neighbours of jlist (atom i), in order. */
  function ApplyNeighbours(f: seq<Vec3>, i: nat, jlist: seq<nat>, fijs: seq<Vec3>, k: nat): (g: seq<Vec3>)
    requires i < |f| && |fijs| == |jlist| && k <= |jlist|
    requires forall jj :: 0 <= jj < |jlist| ==> jlist[jj] < |f|
    ensures |g| == |f|
  {
    if k == 0 then f
    else Transfer(ApplyNeighbours(f, i, jlist, fijs, k - 1), i, jlist[k - 1], fijs[k - 1])
  }

  lemma {:induction false} ApplyNeighboursPreservesTotal(f: seq<Vec3>, i: nat, jlist: seq<nat>, fijs: seq<Vec3>, k: nat)
    requires i < |f| && |fijs| == |jlist| && k <= |jlist|
    requires forall jj :: 0 <= jj < |jlist| ==> jlist[jj] < |f|
    ensures Total(ApplyNeighbours(f, i, jlist, fijs, k)) == Total(f)
  {
    if k > 0 {
      ApplyNeighboursPreservesTotal(f, i, jlist, fijs, k - 1);
      TransferPreservesTotal(ApplyNeighbours(f, i, jlist, fijs, k - 1), i, jlist[k - 1], fijs[k - 1]);
    }
  }

  /** The two force-row updates of one neighbour step, in place. */
  method TransferRows(f: array<Vec3>, i: nat, j: nat, fij: Vec3)
    requires i < f.Length && j < f.Length
    modifies f
    ensures f[..] == Transfer(old(f[..]), i, j, fij)
  {
    f[i] := Minus(f[i], fij);
    f[j] := Plus(f[j], fij);
  }

  // ---------------------------------------------------------------------
  // Packed quadratic forms

  predicate IsSquare(W: seq<seq<real>>, n: nat) {
    |W| == n && forall r :: 0 <= r < n ==> |W[r]| == n
  }

  /** The coefficient both loops of `compute` multiply with the weight of pair (m, n). */
  function Coefficient(beta: seq<real>, betaInit: nat, n: nat, m: nat, k: nat): real
    requires m <= k < n && betaInit + TriangleSize(n) <= |beta|
  {
    PackedInRow(n, m, k);
    beta[betaInit + Packed(n, m, k)]
  }

  /** Sum of W[m][k] * Coefficient(m, k) over m <= k < kEnd. */
  function RowSum(W: seq<seq<real>>, beta: seq<real>, betaInit: nat, n: nat, m: nat, kEnd: nat): real
    requires IsSquare(W, n) && m <= kEnd <= n && betaInit + TriangleSize(n) <= |beta|
    decreases kEnd
  {
    if kEnd == m then 0.0
    else RowSum(W, beta, betaInit, n, m, kEnd - 1) + W[m][kEnd - 1] * Coefficient(beta, betaInit, n, m, kEnd - 1)
  }

  /** Sum of W[m][k] * Coefficient(m, k) over the rows m < jEnd of the upper triangle. */
  function RowsSum(W: seq<seq<real>>, beta: seq<real>, betaInit: nat, n: nat, jEnd: nat): real
    requires IsSquare(W, n) && jEnd <= n && betaInit + TriangleSize(n) <= |beta|
  {
    if jEnd == 0 then 0.0
    else RowsSum(W, beta, betaInit, n, jEnd - 1) + RowSum(W, beta, betaInit, n, jEnd - 1, n)
  }

  /** Sum of W[m][k] * Coefficient(m, k) over the whole upper triangle m <= k < n. */
  function PackedForm(W: seq<seq<real>>, beta: seq<real>, betaInit: nat, n: nat): real
    requires IsSquare(W, n) && betaInit + TriangleSize(n) <= |beta|
  {
    RowsSum(W, beta, betaInit, n, n)
  }

  lemma {:induction false} RowSumReadsSlice(W: seq<seq<real>>, beta1: seq<real>, beta2: seq<real>,
                                           betaInit: nat, n: nat, m: nat, kEnd: nat)
    requires IsSquare(W, n) && m <= kEnd <= n
    requires betaInit + TriangleSize(n) <= |beta1| && betaInit + TriangleSize(n) <= |beta2|
    requires beta1[betaInit..betaInit + TriangleSize(n)] == beta2[betaInit..betaInit + TriangleSize(n)]
    ensures RowSum(W, beta1, betaInit, n, m, kEnd) == RowSum(W, beta2, betaInit, n, m, kEnd)
    decreases kEnd
  {
    if kEnd > m {
      RowSumReadsSlice(W, beta1, beta2, betaInit, n, m, kEnd - 1);
      PackedInRow(n, m, kEnd - 1);
      var c := Packed(n, m, kEnd - 1);
      assert beta1[betaInit + c] == beta1[betaInit..betaInit + TriangleSize(n)][c];
      assert beta2[betaInit + c] == beta2[betaInit..betaInit + TriangleSize(n)][c];
    }
  }

  lemma {:induction false} RowsSumReadsSlice(W: seq<seq<real>>, beta1: seq<real>, beta2: seq<real>,
                                            betaInit: nat, n: nat, jEnd: nat)
    requires IsSquare(W, n) && jEnd <= n
    requires betaInit + TriangleSize(n) <= |beta1| && betaInit + TriangleSize(n) <= |beta2|
    requires beta1[betaInit..betaInit + TriangleSize(n)] == beta2[betaInit..betaInit + TriangleSize(n)]
    ensures RowsSum(W, beta1, betaInit, n, jEnd) == RowsSum(W, beta2, betaInit, n, jEnd)
  {
    if jEnd > 0 {
      RowsSumReadsSlice(W, beta1, beta2, betaInit, n, jEnd - 1);
      RowSumReadsSlice(W, beta1, beta2, betaInit, n, jEnd - 1, n);
    }
  }

  /** A packed form reads only the species slice beta[betaInit .. betaInit + beta_size). */
  lemma PackedFormReadsSlice(W: seq<seq<real>>, beta1: seq<real>, beta2: seq<real>, betaInit: nat, n: nat)
    requires IsSquare(W, n)
    requires betaInit + TriangleSize(n) <= |beta1| && betaInit + TriangleSize(n) <= |beta2|
    requires beta1[betaInit..betaInit + TriangleSize(n)] == beta2[betaInit..betaInit + TriangleSize(n)]
    ensures PackedForm(W, beta1, betaInit, n) == PackedForm(W, beta2, betaInit, n)
  {
    RowsSumReadsSlice(W, beta1, beta2, betaInit, n, n);
  }

  /** One more term of a row: the loops add W[m][k] times the coefficient at counter offset Packed(m, k). */
  lemma RowSumNext(W: seq<seq<real>>, beta: seq<real>, betaInit: nat, n: nat, m: nat, k: nat)
    requires IsSquare(W, n) && m <= k < n && betaInit + TriangleSize(n) <= |beta|
    ensures betaInit + Packed(n, m, k) < |beta|
    ensures RowSum(W, beta, betaInit, n, m, k + 1)
            == RowSum(W, beta, betaInit, n, m, k) + W[m][k] * beta[betaInit + Packed(n, m, k)]
  {
    PackedInRow(n, m, k);
  }

  /** Weights of the energy loop: B2_vals(m) * B2_vals(k). */
  function EnergyWeights(B: seq<real>): (W: seq<seq<real>>)
    ensures IsSquare(W, |B|)
  {
    seq(|B|, m requires 0 <= m < |B| => seq(|B|, k requires 0 <= k < |B| => B[m] * B[k]))
  }

  /** Weights of the force loop for row r of B2_env_dervs:
      -B2_env_dervs(r, m) * B2_vals(k) - B2_vals(m) * B2_env_dervs(r, k). */
  function ForceWeights(B: seq<real>, D: seq<seq<real>>, r: nat): (W: seq<seq<real>>)
    requires r < |D| && |D[r]| == |B|
    ensures IsSquare(W, |B|)
  {
    seq(|B|, m requires 0 <= m < |B| => seq(|B|, k requires 0 <= k < |B| => ForceTerm(B, D, r, m, k)))
  }

  function ForceTerm(B: seq<real>, D: seq<seq<real>>, r: nat, m: nat, k: nat): real
    requires r < |D| && |D[r]| == |B| && m < |B| && k < |B|
  {
    -D[r][m] * B[k] - B[m] * D[r][k]
  }

  lemma ForceTermIsWeight(B: seq<real>, D: seq<seq<real>>, r: nat, m: nat, k: nat)
    requires r < |D| && |D[r]| == |B| && m < |B| && k < |B|
    ensures ForceWeights(B, D, r)[m][k] == ForceTerm(B, D, r, m, k)
  {
  }

  /** A running sum a + RowSum(.., k) plus the loop's next term w * v, where v
      is the value at beta_counter, is a + RowSum(.., k + 1). */
  lemma AccumulateNext(W: seq<seq<real>>, beta: seq<real>, betaInit: nat, n: nat, m: nat, k: nat,
                       a: real, acc: real, w: real, v: real)
    requires IsSquare(W, n) && m <= k < n && betaInit + TriangleSize(n) <= |beta|
    requires acc == a + RowSum(W, beta, betaInit, n, m, k) && w == W[m][k]
    requires betaInit + RowStart(n, m) + (k - m) < |beta| && v == beta[betaInit + RowStart(n, m) + (k - m)]
    ensures acc + w * v == a + RowSum(W, beta, betaInit, n, m, k + 1)
  {
    RowSumNext(W, beta, betaInit, n, m, k);
  }

  // ---------------------------------------------------------------------
  // The coefficient loops of compute

  /** visited[c] is the pair (j, k), j <= k < n, whose packed counter offset is c. */
  predicate PairsInCounterOrder(visited: seq<(nat, nat)>, n: nat) {
    forall c :: 0 <= c < |visited| ==>
      visited[c].0 <= visited[c].1 < n && Packed(n, visited[c].0, visited[c].1) == c
  }

  /** Row m of the energy loop: the pairs (m, k), m <= k < n_d, each adding
      B2_vals(m) * B2_vals(k) * beta[beta_counter]. */
  method EnergyRow(B: seq<real>, beta: array<real>, betaInit: nat, nD: int, m: nat,
                   counter0: int, e0: real, ghost visited0: seq<(nat, nat)>)
    returns (e: real, counter: int, ghost visited: seq<(nat, nat)>)
    requires |B| == Dim(nD) && m < |B|
    requires betaInit + TriangleSize(Dim(nD)) <= beta.Length
    requires counter0 == betaInit + RowStart(Dim(nD), m)
    requires |visited0| == RowStart(Dim(nD), m) && PairsInCounterOrder(visited0, Dim(nD))
    ensures counter == betaInit + RowStart(Dim(nD), m + 1)
    ensures e == e0 + RowSum(EnergyWeights(B), beta[..], betaInit, Dim(nD), m, Dim(nD))
    ensures |visited| == RowStart(Dim(nD), m + 1) && PairsInCounterOrder(visited, Dim(nD))
  {
    ghost var n := Dim(nD);
    ghost var W := EnergyWeights(B);
    e, counter, visited := e0, counter0, visited0;
    var k := m;
    while k < nD
      invariant m <= k <= n
      invariant counter == betaInit + RowStart(n, m) + (k - m)
      invariant e == e0 + RowSum(W, beta[..], betaInit, n, m, k)
      invariant |visited| == RowStart(n, m) + (k - m) && PairsInCounterOrder(visited, n)
    {
      PackedInRow(n, m, k);
      var c := beta[counter];
      AccumulateNext(W, beta[..], betaInit, n, m, k, e0, e, B[m] * B[k], c);
      e := e + B[m] * B[k] * c;
      visited := visited + [(m, k)];
      counter := counter + 1;
      k := k + 1;
    }
  }

  /** The energy loop of `compute` for one atom: beta_counter starts at
      beta_init and advances once per pair (j, k), j <= k < n_d, in row-major
      order. `visited` records the pairs in the order the loop reaches them. */
  method EnergyPass(B: seq<real>, beta: array<real>, betaInit: nat, nD: int)
    returns (evdwl: real, counter: int, ghost visited: seq<(nat, nat)>)
    requires |B| == Dim(nD)
    requires betaInit + TriangleSize(Dim(nD)) <= beta.Length
    ensures counter == betaInit + TriangleSize(Dim(nD))
    ensures evdwl == PackedForm(EnergyWeights(B), beta[..], betaInit, Dim(nD))
    ensures |visited| == TriangleSize(Dim(nD))
    ensures forall c :: 0 <= c < |visited| ==>
              visited[c].0 <= visited[c].1 < Dim(nD) && Packed(Dim(nD), visited[c].0, visited[c].1) == c
  {
    ghost var n := Dim(nD);
    ghost var W := EnergyWeights(B);
    counter := betaInit;
    evdwl := 0.0;
    visited := [];
    var j := 0;
    while j < nD
      invariant 0 <= j <= n
      invariant counter == betaInit + RowStart(n, j)
      invariant evdwl == RowsSum(W, beta[..], betaInit, n, j)
      invariant |visited| == RowStart(n, j) && PairsInCounterOrder(visited, n)
    {
      evdwl, counter, visited := EnergyRow(B, beta, betaInit, nD, j, counter, evdwl, visited);
      j := j + 1;
    }
  }

  predicate ForceRowsFit(B: seq<real>, D: seq<seq<real>>, jj: nat) {
    3 * jj + 2 < |D| && |D[3 * jj]| == |B| && |D[3 * jj + 1]| == |B| && |D[3 * jj + 2]| == |B|
  }

  /** Row m of the force loop for neighbour jj: the pairs (m, k), m <= k < n_d,
      each adding its three force terms times beta[beta_counter]. */
  method ForceRow(B: seq<real>, D: seq<seq<real>>, beta: array<real>, betaInit: nat, nD: int, jj: nat,
                  m: nat, counter0: int, fx0: real, fy0: real, fz0: real)
    returns (fx: real, fy: real, fz: real, counter: int)
    requires |B| == Dim(nD) && ForceRowsFit(B, D, jj) && m < |B|
    requires betaInit + TriangleSize(Dim(nD)) <= beta.Length
    requires counter0 == betaInit + RowStart(Dim(nD), m)
    ensures counter == betaInit + RowStart(Dim(nD), m + 1)
    ensures fx == fx0 + RowSum(ForceWeights(B, D, 3 * jj), beta[..], betaInit, Dim(nD), m, Dim(nD))
    ensures fy == fy0 + RowSum(ForceWeights(B, D, 3 * jj + 1), beta[..], betaInit, Dim(nD), m, Dim(nD))
    ensures fz == fz0 + RowSum(ForceWeights(B, D, 3 * jj + 2), beta[..], betaInit, Dim(nD), m, Dim(nD))
  {
    ghost var n := Dim(nD);
    ghost var b := beta[..];
    ghost var Wx, Wy, Wz := ForceWeights(B, D, 3 * jj), ForceWeights(B, D, 3 * jj + 1), ForceWeights(B, D, 3 * jj + 2);
    fx, fy, fz, counter := fx0, fy0, fz0, counter0;
    var k := m;
    while k < nD
      invariant m <= k <= n
      invariant counter == betaInit + RowStart(n, m) + (k - m)
      invariant fx == fx0 + RowSum(Wx, b, betaInit, n, m, k)
      invariant fy == fy0 + RowSum(Wy, b, betaInit, n, m, k)
      invariant fz == fz0 + RowSum(Wz, b, betaInit, n, m, k)
    {
      var r := 3 * jj;
      ForceTermIsWeight(B, D, r, m, k);
      ForceTermIsWeight(B, D, r + 1, m, k);
      ForceTermIsWeight(B, D, r + 2, m, k);
      PackedInRow(n, m, k);
      var c := beta[counter];
      AccumulateNext(Wx, b, betaInit, n, m, k, fx0, fx, ForceTerm(B, D, r, m, k), c);
      AccumulateNext(Wy, b, betaInit, n, m, k, fy0, fy, ForceTerm(B, D, r + 1, m, k), c);
      AccumulateNext(Wz, b, betaInit, n, m, k, fz0, fz, ForceTerm(B, D, r + 2, m, k), c);
      fx := fx + ForceTerm(B, D, r, m, k) * c;
      fy := fy + ForceTerm(B, D, r + 1, m, k) * c;
      fz := fz + ForceTerm(B, D, r + 2, m, k) * c;
      counter := counter + 1;
      k := k + 1;
    }
  }

  /** The force loop of `compute` for neighbour jj: beta_counter is reset to
      beta_init and walks the same pairs as the energy loop, accumulating the
      three components of the partial force. */
  method ForcePass(B: seq<real>, D: seq<seq<real>>, beta: array<real>, betaInit: nat, nD: int, jj: nat)
    returns (fij: Vec3)
    requires |B| == Dim(nD) && ForceRowsFit(B, D, jj)
    requires betaInit + TriangleSize(Dim(nD)) <= beta.Length
    ensures fij == Vec3(PackedForm(ForceWeights(B, D, 3 * jj), beta[..], betaInit, Dim(nD)),
                        PackedForm(ForceWeights(B, D, 3 * jj + 1), beta[..], betaInit, Dim(nD)),
                        PackedForm(ForceWeights(B, D, 3 * jj + 2), beta[..], betaInit, Dim(nD)))
  {
    ghost var n := Dim(nD);
    ghost var b := beta[..];
    ghost var Wx, Wy, Wz := ForceWeights(B, D, 3 * jj), ForceWeights(B, D, 3 * jj + 1), ForceWeights(B, D, 3 * jj + 2);
    var fx, fy, fz := 0.0, 0.0, 0.0;
    var counter := betaInit;
    var m := 0;
    while m < nD
      invariant 0 <= m <= n
      invariant counter == betaInit + RowStart(n, m)
      invariant fx == RowsSum(Wx, b, betaInit, n, m)
      invariant fy == RowsSum(Wy, b, betaInit, n, m)
      invariant fz == RowsSum(Wz, b, betaInit, n, m)
    {
      fx, fy, fz, counter := ForceRow(B, D, beta, betaInit, nD, jj, m, counter, fx, fy, fz);
      m := m + 1;
    }
    fij := Vec3(fx, fy, fz);
  }

  // ---------------------------------------------------------------------
  // Whole-step specification

  /** What single_bond and B2_descriptor produce for one atom: B2_vals,
      B2_env_dervs (3 rows per neighbour), B2_norm_squared and B2_env_dot. */
  datatype Descriptor = Descriptor(vals: seq<real>, envDervs: seq<seq<real>>, normSquared: real, envDot: seq<real>)

  predicate DescriptorShape(d: Descriptor, n: nat, jnum: nat) {
    |d.vals| == n &&
    |d.envDervs| == 3 * jnum && (forall r :: 0 <= r < 3 * jnum ==> |d.envDervs[r]| == n) &&
    |d.envDot| == 3 * jnum
  }

  /** The floating-point finish of a partial force (division by
      B2_norm_squared and the 2 * evdwl * B2_env_dot term), given the raw force
      sum, the raw energy sum, the descriptor and the neighbour slot. */
  type Normalisation = (Vec3, real, Descriptor, nat) -> Vec3

  /** The partial force `compute` stores for neighbour jj of an atom. */
  function PartialForce(d: Descriptor, beta: seq<real>, betaInit: nat, n: nat, jnum: nat, jj: nat,
                        normalise: Normalisation): Vec3
    requires DescriptorShape(d, n, jnum) && jj < jnum && betaInit + TriangleSize(n) <= |beta|
  {
    var raw := Vec3(PackedForm(ForceWeights(d.vals, d.envDervs, 3 * jj), beta, betaInit, n),
                    PackedForm(ForceWeights(d.vals, d.envDervs, 3 * jj + 1), beta, betaInit, n),
                    PackedForm(ForceWeights(d.vals, d.envDervs, 3 * jj + 2), beta, betaInit, n));
    normalise(raw, PackedForm(EnergyWeights(d.vals), beta, betaInit, n), d, jj)
  }

  function PartialForces(d: Descriptor, beta: seq<real>, betaInit: nat, n: nat, jnum: nat,
                         normalise: Normalisation): (fijs: seq<Vec3>)
    requires DescriptorShape(d, n, jnum) && betaInit + TriangleSize(n) <= |beta|
    ensures |fijs| == jnum
  {
    seq(jnum, jj requires 0 <= jj < jnum => PartialForce(d, beta, betaInit, n, jnum, jj, normalise))
  }

  /** What `compute` needs of atom i: in range, of a known species, with
      neighbours in range and a descriptor of the right shape. */
  predicate AtomFits(fLen: nat, i: nat, types: seq<int>, neighbours: seq<seq<nat>>,
                     descriptor: nat -> Descriptor, nSpecies: int, n: nat)
  {
    i < fLen && i < |types| && i < |neighbours| && 1 <= types[i] <= nSpecies &&
    (forall jj :: 0 <= jj < |neighbours[i]| ==> neighbours[i][jj] < fLen) &&
    DescriptorShape(descriptor(i), n, |neighbours[i]|)
  }

  predicate AtomsFit(fLen: nat, ilist: seq<nat>, types: seq<int>, neighbours: seq<seq<nat>>,
                     descriptor: nat -> Descriptor, nSpecies: int, n: nat)
  {
    forall ii :: 0 <= ii < |ilist| ==> AtomFits(fLen, ilist[ii], types, neighbours, descriptor, nSpecies, n)
  }

  /** A beta array as read_file leaves it: beta_size * n_species values, and a
      species slice large enough for the packed triangle. */
  predicate BetaFits(beta: seq<real>, betaSize: int, nSpecies: int, n: nat) {
    0 <= betaSize && TriangleSize(n) <= betaSize && |beta| == Dim(betaSize * nSpecies)
  }

  /** The species slice of atom type t, (t - 1) * beta_size onward, lies inside beta. */
  lemma SpeciesSliceInBounds(t: int, nSpecies: int, betaSize: int, n: nat)
    requires 1 <= t <= nSpecies && 0 <= betaSize && TriangleSize(n) <= betaSize
    ensures 0 <= (t - 1) * betaSize
    ensures (t - 1) * betaSize + TriangleSize(n) <= Dim(betaSize * nSpecies)
  {
    assert (t - 1) * betaSize + betaSize == t * betaSize;
    assert t * betaSize <= nSpecies * betaSize;
  }

  /** Nothing bounds an atom type by n_species: for type n_species + 1 and
      an accepted layout with n_d > 0, beta_init = n_species * beta_size and
      the triangle read from there ends past the beta_size * n_species values
      read_file creates. */
  lemma TypeAboveSpeciesOverruns(nSpecies: int, betaSize: int, nD: int)
    requires nSpecies >= 1 && nD > 0 && 2 * betaSize == nD * (nD + 1)
    ensures (nSpecies + 1 - 1) * betaSize + TriangleSize(nD) > Dim(betaSize * nSpecies)
  {
    AcceptedLayoutFits(nD, betaSize);
    assert nD * (nD + 1) >= 2;
  }

  /** The body of the neighbour loop for slot jj (neighbour j): the force
      loop, the normalisation, and the transfer of the partial force. */
  method NeighbourStep(f: array<Vec3>, i: nat, j: nat, d: Descriptor, beta: array<real>, betaInit: nat,
                       nD: int, jnum: nat, jj: nat, evdwl: real, normalise: Normalisation)
    requires i < f.Length && j < f.Length && jj < jnum
    requires DescriptorShape(d, Dim(nD), jnum)
    requires betaInit + TriangleSize(Dim(nD)) <= beta.Length
    requires evdwl == PackedForm(EnergyWeights(d.vals), beta[..], betaInit, Dim(nD))
    modifies f
    ensures f[..] == Transfer(old(f[..]), i, j, PartialForce(d, beta[..], betaInit, Dim(nD), jnum, jj, normalise))
  {
    var raw := ForcePass(d.vals, d.envDervs, beta, betaInit, nD, jj);
    var fij := normalise(raw, evdwl, d, jj);
    TransferRows(f, i, j, fij);
  }

  /** Force rows after `compute` has handled atom i: the partial force of each
      neighbour, in neighbour-list order, moved from row i to the neighbour's row. */
  function AtomStep(f: seq<Vec3>, i: nat, types: seq<int>, neighbours: seq<seq<nat>>,
                    descriptor: nat -> Descriptor, beta: seq<real>, betaSize: int, nSpecies: int, n: nat,
                    normalise: Normalisation): (g: seq<Vec3>)
    requires AtomFits(|f|, i, types, neighbours, descriptor, nSpecies, n)
    requires BetaFits(beta, betaSize, nSpecies, n)
    ensures |g| == |f|
  {
    SpeciesSliceInBounds(types[i], nSpecies, betaSize, n);
    var betaInit := (types[i] - 1) * betaSize;
    ApplyNeighbours(f, i, neighbours[i], PartialForces(descriptor(i), beta, betaInit, n, |neighbours[i]|, normalise),
                    |neighbours[i]|)
  }

  lemma AtomStepPreservesTotal(f: seq<Vec3>, i: nat, types: seq<int>, neighbours: seq<seq<nat>>,
                               descriptor: nat -> Descriptor, beta: seq<real>, betaSize: int, nSpecies: int, n: nat,
                               normalise: Normalisation)
    requires AtomFits(|f|, i, types, neighbours, descriptor, nSpecies, n)
    requires BetaFits(beta, betaSize, nSpecies, n)
    ensures Total(AtomStep(f, i, types, neighbours, descriptor, beta, betaSize, nSpecies, n, normalise)) == Total(f)
  {
    SpeciesSliceInBounds(types[i], nSpecies, betaSize, n);
    var betaInit := (types[i] - 1) * betaSize;
    var jlist := neighbours[i];
    var fijs := PartialForces(descriptor(i), beta, betaInit, n, |jlist|, normalise);
    assert AtomStep(f, i, types, neighbours, descriptor, beta, betaSize, nSpecies, n, normalise)
           == ApplyNeighbours(f, i, jlist, fijs, |jlist|);
    ApplyNeighboursPreservesTotal(f, i, jlist, fijs, |jlist|);
  }

  /** Force rows after `compute` has handled the atoms of ilist, in order. */
  function AfterAtoms(f: seq<Vec3>, ilist: seq<nat>, types: seq<int>, neighbours: seq<seq<nat>>,
                      descriptor: nat -> Descriptor, beta: seq<real>, betaSize: int, nSpecies: int, n: nat,
                      normalise: Normalisation): (g: seq<Vec3>)
    requires AtomsFit(|f|, ilist, types, neighbours, descriptor, nSpecies, n)
    requires BetaFits(beta, betaSize, nSpecies, n)
    ensures |g| == |f|
    decreases |ilist|
  {
    if ilist == [] then f
    else
      var last := |ilist| - 1;
      var g := AfterAtoms(f, ilist[..last], types, neighbours, descriptor, beta, betaSize, nSpecies, n, normalise);
      assert AtomFits(|f|, ilist[last], types, neighbours, descriptor, nSpecies, n);
      AtomStep(g, ilist[last], types, neighbours, descriptor, beta, betaSize, nSpecies, n, normalise)
  }

  /** Over exact arithmetic `compute` leaves the sum of all force rows unchanged. */
  lemma {:induction false} AfterAtomsPreservesTotal(f: seq<Vec3>, ilist: seq<nat>, types: seq<int>,
                                                    neighbours: seq<seq<nat>>, descriptor: nat -> Descriptor,
                                                    beta: seq<real>, betaSize: int, nSpecies: int, n: nat,
                                                    normalise: Normalisation)
    requires AtomsFit(|f|, ilist, types, neighbours, descriptor, nSpecies, n)
    requires BetaFits(beta, betaSize, nSpecies, n)
    ensures Total(AfterAtoms(f, ilist, types, neighbours, descriptor, beta, betaSize, nSpecies, n, normalise)) == Total(f)
    decreases |ilist|
  {
    if ilist != [] {
      var last := |ilist| - 1;
      var g := AfterAtoms(f, ilist[..last], types, neighbours, descriptor, beta, betaSize, nSpecies, n, normalise);
      AfterAtomsPreservesTotal(f, ilist[..last], types, neighbours, descriptor, beta, betaSize, nSpecies, n, normalise);
      assert AtomFits(|f|, ilist[last], types, neighbours, descriptor, nSpecies, n);
      AtomStepPreservesTotal(g, ilist[last], types, neighbours, descriptor, beta, betaSize, nSpecies, n, normalise);
    }
  }

  // ---------------------------------------------------------------------
  // Command checks and the coefficient layout

  /** pair_style flare takes no arguments. */
  function SettingsCheck(narg: int): (o: Outcome)
    ensures o == Pass <==> narg <= 0
    ensures o.Fail? ==> o.message == "Illegal pair_style command"
  {
    if narg > 0 then Fail("Illegal pair_style command") else Pass
  }

  /** pair_coeff must read `* * <file>`. */
  function CoeffCheck(args: seq<string>): (o: Outcome)
    ensures o == Pass <==> |args| == 3 && args[0] == "*" && args[1] == "*"
    ensures o.Fail? ==> o.message == "Incorrect args for pair coefficients"
  {
    if |args| != 3 then Fail("Incorrect args for pair coefficients")
    else if args[0] != "*" || args[1] != "*" then Fail("Incorrect args for pair coefficients")
    else Pass
  }

  /** The style requires newton pair on. */
  function InitStyleCheck(newtonPair: int): (o: Outcome)
    ensures o == Pass <==> newtonPair != 0
    ensures o.Fail? ==> o.message == "Pair style requires newton pair on"
  {
    if newtonPair == 0 then Fail("Pair style requires newton pair on") else Pass
  }

  /** The pair style's file holds the packed upper triangle: beta_size must be n_d(n_d+1)/2. */
  function PackedLayoutCheck(nD: int, betaSize: int): (o: Outcome)
    ensures o == Pass <==> 2 * betaSize == nD * (nD + 1)
    ensures o.Fail? ==> o.message == BetaSizeMismatch
  {
    HalfOfConsecutiveProduct(nD);
    if CHalf(nD * (nD + 1)) != betaSize then Fail(BetaSizeMismatch) else Pass
  }

  /** A layout the check accepts gives a species slice that holds the packed triangle. */
  lemma AcceptedLayoutFits(nD: int, betaSize: int)
    requires 2 * betaSize == nD * (nD + 1)
    ensures 0 <= betaSize
    ensures nD >= 0 ==> TriangleSize(nD) == betaSize
    ensures TriangleSize(Dim(nD)) <= betaSize
  {
    if nD >= 0 {
      TriangleSizeFormula(nD);
    } else {
      assert nD * (nD + 1) == (-nD) * (-nD - 1);
    }
  }

  /** The check accepts a header whose n_d is negative (l_max < -1): n_species 1,
      n_max 1, l_max -3 give n_d = -2, and beta_size 1 passes. */
  lemma NegativeDescriptorCountAccepted()
    ensures NumDescriptors(1, 1, -3) == -2
    ensures PackedLayoutCheck(NumDescriptors(1, 1, -3), 1) == Pass
  {
  }

  // ---------------------------------------------------------------------
  // The pair style object

  class PairFlare {
    var nSpecies: int
    var nMax: int
    var lMax: int
    var betaSize: int
    var nDescriptors: int
    var cutoff: real
    var basis: Option<RadialBasis>
    var radialHyps: seq<real>
    var cutoffFunction: Option<CutoffFunction>
    var beta: array<real>
    var isAllocated: bool
    var setflag: array2<int>
    var cutsq: array2<real>

    /** A freshly constructed style: nothing allocated, no coefficients, no strategies. */
    constructor ()
      ensures !isAllocated && beta.Length == 0
      ensures basis == None && cutoffFunction == None && radialHyps == []
    {
      isAllocated := false;
      beta := new real[0];
      setflag := new int[0, 0];
      cutsq := new real[0, 0];
      basis, cutoffFunction, radialHyps := None, None, [];
      nSpecies, nMax, lMax, betaSize, nDescriptors, cutoff := 0, 0, 0, 0, 0, 0.0;
    }

    /** The header fields read_file stores before any check. */
    ghost predicate HeaderRead(file: CoefficientFile)
      reads this
    {
      nSpecies == file.nSpecies && nMax == file.nMax && lMax == file.lMax &&
      betaSize == file.betaSize && cutoff == file.cutoff &&
      nDescriptors == NumDescriptors(file.nSpecies, file.nMax, file.lMax)
    }

    /** The strategy fields as one value. */
    ghost function CurrentStrategies(): Strategies
      reads this
    {
      Strategies(basis, radialHyps, cutoffFunction)
    }

    /** The state that `compute` relies on. */
    ghost predicate Loaded()
      reads this, beta
    {
      2 * betaSize == nDescriptors * (nDescriptors + 1) &&
      BetaFits(beta[..], betaSize, nSpecies, Dim(nDescriptors))
    }

    /** `allocate`: a setflag array with its diagonal 1..ntypes set to 1 (other entries are not initialised). */
    method Allocate(ntypes: nat)
      modifies this`isAllocated, this`setflag, this`cutsq
      ensures isAllocated
      ensures fresh(setflag) && setflag.Length0 == ntypes + 1 && setflag.Length1 == ntypes + 1
      ensures forall i :: 1 <= i <= ntypes ==> setflag[i, i] == 1
      ensures fresh(cutsq) && cutsq.Length0 == ntypes + 1 && cutsq.Length1 == ntypes + 1
    {
      var flags := new int[ntypes + 1, ntypes + 1];
      var i := 1;
      while i <= ntypes
        invariant 1 <= i <= ntypes + 1
        invariant forall p :: 1 <= p < i ==> flags[p, p] == 1
      {
        flags[i, i] := 1;
        i := i + 1;
      }
      isAllocated := true;
      setflag := flags;
      cutsq := new real[ntypes + 1, ntypes + 1];
    }

    /** `read_file` on a file whose contents are given. */
    method ReadFile(file: CoefficientFile, atof: string -> real) returns (out: Outcome)
      requires PackedLayoutCheck(NumDescriptors(file.nSpecies, file.nMax, file.lMax), file.betaSize) == Pass ==>
                 GrabFits(file.body, file.betaSize * file.nSpecies)
      modifies this
      ensures HeaderRead(file)
      ensures out == PackedLayoutCheck(nDescriptors, betaSize)
      ensures isAllocated == old(isAllocated) && setflag == old(setflag) && cutsq == old(cutsq)
      ensures out.Fail? ==> basis == old(basis) && radialHyps == old(radialHyps) &&
                            cutoffFunction == old(cutoffFunction) && beta == old(beta)
      ensures out == Pass ==> CurrentStrategies() == StrategiesAfter(file, old(CurrentStrategies()))
      ensures out == Pass ==> fresh(beta) && beta[..] == Grabbed(file.body, betaSize * nSpecies, atof)
      ensures out == Pass ==> Loaded()
    {
      out := ReadHeader(file);
      if out.Fail? {
        return;
      }
      var after := StrategiesAfter(file, Strategies(basis, radialHyps, cutoffFunction));
      basis, radialHyps, cutoffFunction := after.basis, after.radialHyps, after.cutoffFunction;
      beta := CreateAndGrab(file.body, betaSize * nSpecies, atof);
      AcceptedLayoutFits(nDescriptors, betaSize);
    }

    /** The head of read_file: the header fields, n_d, and the packed-layout check. */
    method ReadHeader(file: CoefficientFile) returns (out: Outcome)
      modifies this`nSpecies, this`nMax, this`lMax, this`betaSize, this`cutoff, this`nDescriptors
      ensures HeaderRead(file)
      ensures out == PackedLayoutCheck(nDescriptors, betaSize)
    {
      nSpecies, nMax, lMax, betaSize, cutoff := file.nSpecies, file.nMax, file.lMax, file.betaSize, file.cutoff;
      nDescriptors := NumDescriptors(nSpecies, nMax, lMax);
      out := PackedLayoutCheck(nDescriptors, betaSize);
    }

    /** `coeff`: allocates on first use, checks `* * <file>`, then reads the file. */
    method Coeff(args: seq<string>, ntypes: nat, file: CoefficientFile, atof: string -> real) returns (out: Outcome)
      requires CoeffCheck(args) == Pass &&
               PackedLayoutCheck(NumDescriptors(file.nSpecies, file.nMax, file.lMax), file.betaSize) == Pass ==>
                 GrabFits(file.body, file.betaSize * file.nSpecies)
      modifies this
      ensures isAllocated
      ensures !old(isAllocated) ==>
                fresh(setflag) && setflag.Length0 == ntypes + 1 && setflag.Length1 == ntypes + 1 &&
                forall i :: 1 <= i <= ntypes ==> setflag[i, i] == 1
      ensures !old(isAllocated) ==> fresh(cutsq) && cutsq.Length0 == ntypes + 1 && cutsq.Length1 == ntypes + 1
      ensures old(isAllocated) ==> setflag == old(setflag) && cutsq == old(cutsq)
      ensures out == Pass <==>
                CoeffCheck(args) == Pass &&
                PackedLayoutCheck(NumDescriptors(file.nSpecies, file.nMax, file.lMax), file.betaSize) == Pass
      ensures CoeffCheck(args).Fail? ==>
                out == CoeffCheck(args) && beta == old(beta) &&
                basis == old(basis) && cutoffFunction == old(cutoffFunction)
      ensures CoeffCheck(args) == Pass ==> HeaderRead(file)
      ensures out == Pass ==> CurrentStrategies() == StrategiesAfter(file, old(CurrentStrategies()))
      ensures out == Pass ==> fresh(beta) && beta[..] == Grabbed(file.body, betaSize * nSpecies, atof) && Loaded()
    {
      if !isAllocated {
        Allocate(ntypes);
      }
      out := CoeffCheck(args);
      if out.Fail? {
        return;
      }
      out := ReadFile(file, atof);
    }

    /** The body of `compute` for atom i: the energy loop, then for each
        neighbour the force loop, the normalisation, and the transfer of the
        partial force from row i to row j. */
    method ComputeAtom(f: array<Vec3>, i: nat, types: seq<int>, neighbours: seq<seq<nat>>,
                       descriptor: nat -> Descriptor, normalise: Normalisation)
      requires Loaded()
      requires AtomFits(f.Length, i, types, neighbours, descriptor, nSpecies, Dim(nDescriptors))
      modifies f
      ensures f[..] == AtomStep(old(f[..]), i, types, neighbours, descriptor, beta[..], betaSize,
                                nSpecies, Dim(nDescriptors), normalise)
    {
      ghost var n := Dim(nDescriptors);
      var jlist := neighbours[i];
      var d := descriptor(i);
      SpeciesSliceInBounds(types[i], nSpecies, betaSize, n);
      var betaInit := (types[i] - 1) * betaSize;
      var evdwl, _, _ := EnergyPass(d.vals, beta, betaInit, nDescriptors);
      ghost var fijs := PartialForces(d, beta[..], betaInit, n, |jlist|, normalise);
      ghost var g := f[..];
      var jj := 0;
      while jj < |jlist|
        invariant 0 <= jj <= |jlist|
        invariant f[..] == ApplyNeighbours(g, i, jlist, fijs, jj)
      {
        NeighbourStep(f, i, jlist[jj], d, beta, betaInit, nDescriptors, |jlist|, jj, evdwl, normalise);
        jj := jj + 1;
      }
    }

    /** `compute`: the body above for each atom of ilist, in order. */
    method Compute(f: array<Vec3>, ilist: seq<nat>, types: seq<int>, neighbours: seq<seq<nat>>,
                   descriptor: nat -> Descriptor, normalise: Normalisation)
      requires Loaded()
      requires AtomsFit(f.Length, ilist, types, neighbours, descriptor, nSpecies, Dim(nDescriptors))
      modifies f
      ensures f[..] == AfterAtoms(old(f[..]), ilist, types, neighbours, descriptor, beta[..], betaSize,
                                  nSpecies, Dim(nDescriptors), normalise)
      ensures Total(f[..]) == Total(old(f[..]))
    {
      ghost var n := Dim(nDescriptors);
      var ii := 0;
      while ii < |ilist|
        invariant 0 <= ii <= |ilist|
        invariant f[..] == AfterAtoms(old(f[..]), ilist[..ii], types, neighbours, descriptor, beta[..], betaSize,
                                      nSpecies, n, normalise)
      {
        assert AtomFits(f.Length, ilist[ii], types, neighbours, descriptor, nSpecies, n);
        ComputeAtom(f, ilist[ii], types, neighbours, descriptor, normalise);
        assert ilist[..ii + 1][..ii] == ilist[..ii];
        ii := ii + 1;
      }
      assert ilist[..ii] == ilist;
      AfterAtomsPreservesTotal(old(f[..]), ilist, types, neighbours, descriptor, beta[..], betaSize,
                               nSpecies, n, normalise);
    }
  }
}
