/** The FLARE per-atom uncertainty compute (compute flare/std/atom): its
    command checks, the loading of a full-matrix coefficient file into one
    n_d x n_d matrix per species, the per-atom `stds` buffer, the count of
    neighbours inside the cutoff, and the reverse communication of `stds`.
    The descriptors and the square-root variance are parameters of the model. */
module FlareStdAtom {
  import opened FlareFile

  const IllegalCommand := "Illegal compute flare/std/atom command"
  const IncorrectArgs := "Incorrect args for compute coefficients"

  // ---------------------------------------------------------------------
  // Command checks and the coefficient layout

  /** The constructor needs at least four arguments. */
  function ConstructorCheck(narg: int): (o: Outcome)
    ensures o == Pass <==> narg >= 4
    ensures o.Fail? ==> o.message == IllegalCommand
  {
    if narg < 4 then Fail(IllegalCommand) else Pass
  }

  /** `coeff` needs exactly four arguments, the fourth naming the file. */
  function CoeffArgsCheck(narg: int): (o: Outcome)
    ensures o == Pass <==> narg == 4
    ensures o.Fail? ==> o.message == IncorrectArgs
  {
    if narg != 4 then Fail(IncorrectArgs) else Pass
  }

  /** The compute's file holds a full matrix per species: beta_size must be n_d * n_d. */
  function FullLayoutCheck(nD: int, betaSize: int): (o: Outcome)
    ensures o == Pass <==> betaSize == nD * nD
    ensures o.Fail? ==> o.message == BetaSizeMismatch
  {
    if nD * nD != betaSize then Fail(BetaSizeMismatch) else Pass
  }

  lemma {:induction false} MulMonotone(a: nat, b: nat, c: nat)
    requires a <= b
    ensures a * c <= b * c
    decreases b - a
  {
    if a < b {
      MulMonotone(a, b - 1, c);
      assert b * c == (b - 1) * c + c;
    }
  }

  /** A layout the check accepts gives a beta array, of beta_size * n_species
      values, that holds n_species full n_d x n_d matrices. */
  lemma FullLayoutFits(nD: int, betaSize: int, nSpecies: int)
    requires betaSize == nD * nD
    ensures Dim(nSpecies) * (Dim(nD) * Dim(nD)) <= Dim(betaSize * nSpecies)
    ensures nD >= 0 && nSpecies >= 0 ==> Dim(nSpecies) * (Dim(nD) * Dim(nD)) == betaSize * nSpecies
  {
    if nSpecies > 0 && nD >= 0 {
      assert Dim(nSpecies) * (Dim(nD) * Dim(nD)) == betaSize * nSpecies;
    }
  }

  /** The full-matrix check also accepts a header whose n_d is negative
      (l_max < -1): n_species 1, n_max 1, l_max -3 give n_d = -2, and
      beta_size 4 passes. The fill then pushes one 0 x 0 matrix. */
  lemma NegativeDescriptorCountAcceptedFull()
    ensures NumDescriptors(1, 1, -3) == -2
    ensures FullLayoutCheck(NumDescriptors(1, 1, -3), 4) == Pass
    ensures FullMatrices([1.0, 2.0, 3.0, 4.0], 1, Dim(-2)) == [[]]
  {
    assert FullMatrices([1.0, 2.0, 3.0, 4.0], 1, 0)[0] == [];
  }

  // ---------------------------------------------------------------------
  // Row-major matrices

  type Matrix = seq<seq<real>>

  /** Entry (r, c) of an n x n matrix comes before entry (i, j) in row-major order. */
  lemma RowMajorOrder(n: nat, r: nat, c: nat, i: nat, j: nat)
    requires c < n && j < n
    ensures r * n + c < i * n + j <==> r < i || (r == i && c < j)
  {
    if r < i {
      MulMonotone(r + 1, i, n);
    } else if i < r {
      MulMonotone(i + 1, r, n);
    }
  }

  /** The matrix read_file is filling once beta_count has advanced f values
      past base: its first f entries in row-major order, zeros after them. */
  function Prefilled(beta: seq<real>, base: nat, n: nat, f: nat): (M: Matrix)
    requires base + f <= |beta|
    ensures |M| == n && forall r :: 0 <= r < n ==> |M[r]| == n
  {
    seq(n, r requires 0 <= r < n =>
      seq(n, c requires 0 <= c < n => if r * n + c < f then beta[base + r * n + c] else 0.0))
  }

  /** Eigen::MatrixXd::Zero(n, n). */
  function ZeroMatrix(n: nat): (M: Matrix)
    ensures |M| == n && forall r :: 0 <= r < n ==> |M[r]| == n
  {
    seq(n, r => seq(n, c => 0.0))
  }

  /** Before the first value the matrix is the zero matrix. */
  lemma PrefilledNothing(beta: seq<real>, base: nat, n: nat)
    requires base <= |beta|
    ensures Prefilled(beta, base, n, 0) == ZeroMatrix(n)
  {
    var A, Z := Prefilled(beta, base, n, 0), ZeroMatrix(n);
    forall r | 0 <= r < n
      ensures A[r] == Z[r]
    {
      forall c | 0 <= c < n
        ensures A[r][c] == Z[r][c]
      {
        assert r * n + c >= 0;
      }
    }
  }

  /** The fill's assignment beta_matrix(i, j) = beta[beta_count] advances the
      prefix by one value: only entry (i, j) changes. */
  lemma PrefilledStep(beta: seq<real>, base: nat, n: nat, i: nat, j: nat)
    requires i < n && j < n && base + i * n + j < |beta|
    ensures Prefilled(beta, base, n, i * n + j + 1)
            == Prefilled(beta, base, n, i * n + j)[i := Prefilled(beta, base, n, i * n + j)[i][j := beta[base + i * n + j]]]
  {
    var f := i * n + j;
    var A := Prefilled(beta, base, n, f + 1);
    var B := Prefilled(beta, base, n, f);
    var C := B[i := B[i][j := beta[base + f]]];
    forall r | 0 <= r < n
      ensures A[r] == C[r]
    {
      forall c | 0 <= c < n
        ensures A[r][c] == C[r][c]
      {
        RowMajorOrder(n, r, c, i, j);
        RowMajorOrder(n, i, j, r, c);
      }
    }
  }

  /** The n x n matrix read row by row from beta, starting at base. */
  function FullMatrix(beta: seq<real>, base: nat, n: nat): (M: Matrix)
    requires base + n * n <= |beta|
    ensures |M| == n && forall r :: 0 <= r < n ==> |M[r]| == n
  {
    Prefilled(beta, base, n, n * n)
  }

  /** Entry (i, j) of a full matrix is the value at base + i * n + j. */
  lemma FullMatrixEntry(beta: seq<real>, base: nat, n: nat, i: nat, j: nat)
    requires base + n * n <= |beta| && i < n && j < n
    ensures base + i * n + j < |beta|
    ensures FullMatrix(beta, base, n)[i][j] == beta[base + i * n + j]
  {
    RowMajorOrder(n, i, j, n, 0);
  }

  /** Species block k, k * n * n onward, lies inside beta. */
  lemma BlockInBounds(k: nat, s: nat, b: nat)
    requires k < s
    ensures k * b + b <= s * b
  {
    MulMonotone(k + 1, s, b);
  }

  /** The matrices read_file pushes: one full n x n matrix per species, species
      k read from beta[k * n * n ..]. */
  function FullMatrices(beta: seq<real>, nSpecies: int, n: nat): (ms: seq<Matrix>)
    requires Dim(nSpecies) * (n * n) <= |beta|
    ensures |ms| == Dim(nSpecies)
  {
    seq(Dim(nSpecies), k requires 0 <= k < Dim(nSpecies) =>
      BlockInBounds(k, Dim(nSpecies), n * n);
      FullMatrix(beta, k * (n * n), n))
  }

  /** Species k's matrix is the full matrix read from k * n * n onward. */
  lemma FullMatricesBlock(beta: seq<real>, nSpecies: int, n: nat, k: nat)
    requires Dim(nSpecies) * (n * n) <= |beta| && k < Dim(nSpecies)
    ensures k * (n * n) + n * n <= |beta|
    ensures FullMatrices(beta, nSpecies, n)[k] == FullMatrix(beta, k * (n * n), n)
  {
    BlockInBounds(k, Dim(nSpecies), n * n);
  }

  /** beta_matrices[k](i, j) == beta[k * n_d^2 + i * n_d + j]. */
  lemma FullMatricesEntry(beta: seq<real>, nSpecies: int, n: nat, k: nat, i: nat, j: nat)
    requires Dim(nSpecies) * (n * n) <= |beta|
    requires k < Dim(nSpecies) && i < n && j < n
    ensures k * (n * n) + i * n + j < Dim(nSpecies) * (n * n)
    ensures FullMatrices(beta, nSpecies, n)[k][i][j] == beta[k * (n * n) + i * n + j]
  {
    var b := n * n;
    assert i * n + j < b by {
      RowMajorOrder(n, i, j, n, 0);
    }
    assert k * b + b <= Dim(nSpecies) * b by {
      BlockInBounds(k, Dim(nSpecies), b);
    }
    FullMatricesBlock(beta, nSpecies, n, k);
    FullMatrixEntry(beta, k * b, n, i, j);
  }

  /** Euclidean division is determined by its quotient-remainder decomposition. */
  lemma DivModUnique(a: int, d: int, q: int, r: int)
    requires d > 0 && 0 <= r < d && a == q * d + r
    ensures a / d == q && a % d == r
  {
    var q', r' := a / d, a % d;
    assert a == q' * d + r' && 0 <= r' < d;
    assert (q - q') * d == r' - r && (q' - q) * d == r - r';
    if q' < q {
      MulMonotone(1, q - q', d);
    } else if q < q' {
      MulMonotone(1, q' - q, d);
    }
  }

  /** The index c < s * n * n splits into block c / n^2 < s, row (c / n) mod n and column c mod n. */
  lemma SplitIndex(c: nat, s: nat, n: nat)
    requires c < s * (n * n)
    ensures n > 0
    ensures c / (n * n) < s && (c / n) % n < n && c % n < n
    ensures c == (c / (n * n)) * (n * n) + ((c / n) % n) * n + c % n
  {
    var b := n * n;
    QuotientBelow(c, b, s);
    var k, rem := c / b, c % b;
    QuotientBelow(rem, n, n);
    var i, j := rem / n, rem % n;
    assert c == k * b + (i * n + j);
    Decompose(c, n, k, i, j);
  }

  /** c = k n^2 + i n + j with i, j < n is read back by c / n and c % n. */
  lemma Decompose(c: int, n: int, k: int, i: int, j: int)
    requires n > 0 && 0 <= i < n && 0 <= j < n && c == k * (n * n) + (i * n + j)
    ensures c / n == k * n + i && c % n == j && (c / n) % n == i
  {
    assert c == (k * n + i) * n + j;
    DivModUnique(c, n, k * n + i, j);
    DivModUnique(k * n + i, n, k, i);
  }

  /** a < s * d gives a / d < s. */
  lemma QuotientBelow(a: nat, d: nat, s: nat)
    requires a < s * d
    ensures d > 0 && a / d < s
  {
    var q := a / d;
    if q >= s {
      MulMonotone(s, q, d);
    }
  }

  /** Every value of the first n_species * n_d^2 is read, into exactly the entry
      its index names: species c / n^2, row (c / n) mod n, column c mod n. */
  lemma FullMatricesCover(beta: seq<real>, nSpecies: int, n: nat, c: nat)
    requires Dim(nSpecies) * (n * n) <= |beta|
    requires c < Dim(nSpecies) * (n * n)
    ensures n > 0
    ensures c / (n * n) < Dim(nSpecies) && (c / n) % n < n && c % n < n
    ensures FullMatrices(beta, nSpecies, n)[c / (n * n)][(c / n) % n][c % n] == beta[c]
  {
    SplitIndex(c, Dim(nSpecies), n);
    FullMatricesEntry(beta, nSpecies, n, c / (n * n), (c / n) % n, c % n);
  }

  // ---------------------------------------------------------------------
  // Neighbours inside the cutoff

  /** A row of atom->x. */
  datatype Point = Point(x: real, y: real, z: real)

  /** rsq: the squared distance from atom i's position to atom j's. */
  function DistanceSquared(xi: Point, xj: Point): real {
    var dx, dy, dz := xj.x - xi.x, xj.y - xi.y, xj.z - xi.z;
    dx * dx + dy * dy + dz * dz
  }

  /** Atom j is strictly inside the cutoff sphere around atom i: rsq < cutoff^2. */
  predicate Inside(xi: Point, xj: Point, cutoff: real) {
    DistanceSquared(xi, xj) < cutoff * cutoff
  }

  predicate NeighboursInRange(x: seq<Point>, i: nat, jlist: seq<nat>) {
    i < |x| && forall jj :: 0 <= jj < |jlist| ==> jlist[jj] < |x|
  }

  /** The neighbour slots jj < upTo whose atom lies strictly inside the cutoff sphere. */
  function InnerSlots(x: seq<Point>, i: nat, jlist: seq<nat>, cutoff: real, upTo: nat): set<nat>
    requires NeighboursInRange(x, i, jlist) && upTo <= |jlist|
  {
    set jj: nat | jj < upTo && Inside(x[i], x[jlist[jj]], cutoff)
  }

  lemma InnerSlotsNext(x: seq<Point>, i: nat, jlist: seq<nat>, cutoff: real, upTo: nat)
    requires NeighboursInRange(x, i, jlist) && upTo < |jlist|
    ensures Inside(x[i], x[jlist[upTo]], cutoff) ==>
              |InnerSlots(x, i, jlist, cutoff, upTo + 1)| == |InnerSlots(x, i, jlist, cutoff, upTo)| + 1
    ensures !Inside(x[i], x[jlist[upTo]], cutoff) ==>
              InnerSlots(x, i, jlist, cutoff, upTo + 1) == InnerSlots(x, i, jlist, cutoff, upTo)
  {
    var before, after := InnerSlots(x, i, jlist, cutoff, upTo), InnerSlots(x, i, jlist, cutoff, upTo + 1);
    var inside := Inside(x[i], x[jlist[upTo]], cutoff);
    assert after == before + (if inside then {upTo} else {});
    assert upTo !in before;
  }

  /** At most every neighbour is inside the cutoff. */
  lemma {:induction false} InnerSlotsBound(x: seq<Point>, i: nat, jlist: seq<nat>, cutoff: real, upTo: nat)
    requires NeighboursInRange(x, i, jlist) && upTo <= |jlist|
    ensures |InnerSlots(x, i, jlist, cutoff, upTo)| <= upTo
  {
    if upTo == 0 {
      assert InnerSlots(x, i, jlist, cutoff, 0) == {};
    } else {
      InnerSlotsBound(x, i, jlist, cutoff, upTo - 1);
      InnerSlotsNext(x, i, jlist, cutoff, upTo - 1);
    }
  }

  /** The n_inner loop of compute_peratom: the number of neighbours of atom i
      whose squared distance is strictly below cutoff^2. */
  method CountInner(x: seq<Point>, i: nat, jlist: seq<nat>, cutoff: real) returns (nInner: nat)
    requires NeighboursInRange(x, i, jlist)
    ensures nInner == |InnerSlots(x, i, jlist, cutoff, |jlist|)|
    ensures nInner <= |jlist|
  {
    nInner := 0;
    var jj := 0;
    while jj < |jlist|
      invariant 0 <= jj <= |jlist|
      invariant nInner == |InnerSlots(x, i, jlist, cutoff, jj)|
    {
      InnerSlotsNext(x, i, jlist, cutoff, jj);
      var j := jlist[jj];
      var rsq := DistanceSquared(x[i], x[j]);
      if rsq < cutoff * cutoff {
        nInner := nInner + 1;
      }
      jj := jj + 1;
    }
    InnerSlotsBound(x, i, jlist, cutoff, |jlist|);
  }

  // ---------------------------------------------------------------------
  // Reverse communication

  /** The buffer pack_reverse_comm writes: each value three times in a row. */
  function Tripled(s: seq<real>): (buf: seq<real>)
    ensures |buf| == 3 * |s|
  {
    seq(3 * |s|, p requires 0 <= p < 3 * |s| => s[p / 3])
  }

  lemma TripledEntries(s: seq<real>, i: nat)
    requires i < |s|
    ensures Tripled(s)[3 * i] == s[i] && Tripled(s)[3 * i + 1] == s[i] && Tripled(s)[3 * i + 2] == s[i]
  {
  }

  lemma TripledAppend(s: seq<real>, v: real)
    ensures Tripled(s + [v]) == Tripled(s) + [v, v, v]
  {
    var A, B := Tripled(s + [v]), Tripled(s) + [v, v, v];
    assert |A| == |B|;
    forall p | 0 <= p < |A|
      ensures A[p] == B[p]
    {
      if p < 3 * |s| {
        assert p / 3 < |s|;
      }
    }
  }

  predicate TriplesFit(t: seq<real>, list: seq<int>, buf: seq<real>) {
    3 * |list| <= |buf| && forall k :: 0 <= k < |list| ==> 0 <= list[k] < |t|
  }

  /** The sum unpack_reverse_comm adds for slot k: buf[3k] + buf[3k+1] + buf[3k+2]. */
  function TripleSum(buf: seq<real>, k: nat): real
    requires 3 * k + 2 < |buf|
  {
    buf[3 * k] + buf[3 * k + 1] + buf[3 * k + 2]
  }

  /** stds after unpack_reverse_comm has handled the slots of list, in order:
      slot k adds the three values buf[3k], buf[3k+1], buf[3k+2] to entry list[k]. */
  function AddTriples(t: seq<real>, list: seq<int>, buf: seq<real>): (u: seq<real>)
    requires TriplesFit(t, list, buf)
    ensures |u| == |t|
  {
    if list == [] then t
    else
      var k := |list| - 1;
      var u := AddTriples(t, list[..k], buf);
      var j := list[k];
      u[j := u[j] + buf[3 * k] + buf[3 * k + 1] + buf[3 * k + 2]]
  }

  /** The total that the slots of list naming entry p send to it. */
  function Contribution(p: int, list: seq<int>, buf: seq<real>): real
    requires 3 * |list| <= |buf|
  {
    if list == [] then 0.0
    else
      var k := |list| - 1;
      Contribution(p, list[..k], buf) + (if list[k] == p then TripleSum(buf, k) else 0.0)
  }

  /** Each entry of stds ends up with its old value plus everything the list
      sends to it: untouched entries keep their value and repeated indices accumulate. */
  lemma {:induction false} AddTriplesAt(t: seq<real>, list: seq<int>, buf: seq<real>, p: nat)
    requires TriplesFit(t, list, buf) && p < |t|
    ensures AddTriples(t, list, buf)[p] == t[p] + Contribution(p, list, buf)
  {
    if list != [] {
      var k := |list| - 1;
      AddTriplesAt(t, list[..k], buf, p);
    }
  }

  /** An entry that list never names receives nothing. */
  lemma {:induction false} ContributionAbsent(p: int, list: seq<int>, buf: seq<real>)
    requires 3 * |list| <= |buf|
    requires forall k :: 0 <= k < |list| ==> list[k] != p
    ensures Contribution(p, list, buf) == 0.0
  {
    if list != [] {
      ContributionAbsent(p, list[..|list| - 1], buf);
    }
  }

  predicate Distinct(list: seq<int>) {
    forall a, b :: 0 <= a < b < |list| ==> list[a] != list[b]
  }

  /** An entry that a list without repeats names once, at slot k, receives that slot's sum. */
  lemma {:induction false} ContributionOnce(p: int, list: seq<int>, buf: seq<real>, k: nat)
    requires 3 * |list| <= |buf| && Distinct(list) && k < |list| && list[k] == p
    ensures Contribution(p, list, buf) == TripleSum(buf, k)
  {
    var last := |list| - 1;
    if k == last {
      ContributionAbsent(p, list[..last], buf);
    } else {
      ContributionOnce(p, list[..last], buf, k);
    }
  }

  /** Unpacking a packed buffer through a list without repeats adds three
      times the packed value to each listed entry. */
  lemma UnpackOfPack(t: seq<real>, list: seq<int>, s: seq<real>, k: nat)
    requires |s| == |list| && TriplesFit(t, list, Tripled(s)) && Distinct(list) && k < |list|
    ensures AddTriples(t, list, Tripled(s))[list[k]] == t[list[k]] + 3.0 * s[k]
  {
    AddTriplesAt(t, list, Tripled(s), list[k]);
    ContributionOnce(list[k], list, Tripled(s), k);
    TripledEntries(s, k);
  }

  // ---------------------------------------------------------------------
  // Per-atom values

  /** The floating-point std of atom i, pow(|B2 . (beta_matrix B2)| / B2_norm_squared, 0.5),
      given the atom, its in-cutoff neighbour count (which single_bond takes)
      and the matrix of its species. */
  type StdModel = (nat, nat, Matrix) -> real

  /** ntotal: the local atoms, plus the ghost atoms when newton is on. */
  function NTotal(nlocal: nat, nghost: nat, newton: bool): (ntotal: nat)
    ensures nlocal <= ntotal <= nlocal + nghost
    ensures ntotal == nlocal + nghost <==> newton || nghost == 0
    ensures !newton ==> ntotal == nlocal
  {
    if newton then nlocal + nghost else nlocal
  }

  /** What compute_peratom needs of the atoms of ilist: local, with a
      position, a known species and neighbours with positions. */
  predicate ListedAtomsFit(ilist: seq<nat>, nlocal: nat, x: seq<Point>, types: seq<int>, neighbours: seq<seq<nat>>,
                     matrices: seq<Matrix>)
  {
    forall ii :: 0 <= ii < |ilist| ==>
      ilist[ii] < nlocal && ilist[ii] < |types| && ilist[ii] < |neighbours| &&
      1 <= types[ilist[ii]] <= |matrices| && NeighboursInRange(x, ilist[ii], neighbours[ilist[ii]])
  }

  /** The value compute_peratom stores for atom i. */
  function AtomStd(i: nat, x: seq<Point>, types: seq<int>, neighbours: seq<seq<nat>>, cutoff: real,
                   matrices: seq<Matrix>, std: StdModel): real
    requires i < |types| && i < |neighbours| && 1 <= types[i] <= |matrices|
    requires NeighboursInRange(x, i, neighbours[i])
  {
    std(i, |InnerSlots(x, i, neighbours[i], cutoff, |neighbours[i]|)|, matrices[types[i] - 1])
  }

  // ---------------------------------------------------------------------
  // The compute object

  class ComputeFlareStdAtom {
    var nSpecies: int
    var nMax: int
    var lMax: int
    var betaSize: int
    var nDescriptors: int
    var cutoff: real
    var basis: Option<RadialBasis>
    var radialHyps: seq<real>
    var cutoffFunction: Option<CutoffFunction>
    var beta: array<real>
    var betaMatrix: Matrix
    var betaMatrices: seq<Matrix>
    var isAllocated: bool
    var nmax: int
    var stds: array<real>
    /** Values per atom that the compute announces for reverse communication. */
    var commReverse: int

    /** The constructor up to its `coeff` call: the member initialisers, the
        announced per-atom flags (comm_reverse = 1) and no beta, no matrices. */
    constructor ()
      ensures !isAllocated && nmax == 0 && stds.Length == 0
      ensures commReverse == 1
      ensures beta.Length == 0 && betaMatrices == []
      ensures basis == None && cutoffFunction == None && radialHyps == []
    {
      isAllocated := false;
      nmax := 0;
      commReverse := 1;
      stds := new real[0];
      beta := new real[0];
      betaMatrix, betaMatrices := [], [];
      basis, cutoffFunction, radialHyps := None, None, [];
      nSpecies, nMax, lMax, betaSize, nDescriptors, cutoff := 0, 0, 0, 0, 0, 0.0;
    }

    /** stds holds nmax entries. */
    ghost predicate StdsHoldNmax()
      reads this
    {
      stds.Length == nmax
    }

    /** beta holds the n_species full matrices the fill reads. */
    ghost predicate MatricesFit()
      reads this
    {
      Dim(nSpecies) * (Dim(nDescriptors) * Dim(nDescriptors)) <= beta.Length
    }

    /** The header fields read_file stores before any check. */
    ghost predicate HeaderRead(file: CoefficientFile)
      reads this
    {
      nSpecies == file.nSpecies && nMax == file.nMax && lMax == file.lMax &&
      betaSize == file.betaSize && cutoff == file.cutoff &&
      nDescriptors == NumDescriptors(file.nSpecies, file.nMax, file.lMax)
    }

    /** The strategy fields as one value. */
    ghost function CurrentStrategies(): Strategies
      reads this
    {
      Strategies(basis, radialHyps, cutoffFunction)
    }

    /** The i and j loops of the fill for one species: beta_matrix is reset to
        zero and then set entry by entry, in row-major order, from beta[base..]. */
    method FillMatrix(base: nat, n: nat) returns (count: nat)
      requires base + n * n <= beta.Length
      modifies this`betaMatrix
      ensures count == base + n * n
      ensures betaMatrix == FullMatrix(beta[..], base, n)
    {
      betaMatrix := ZeroMatrix(n);
      PrefilledNothing(beta[..], base, n);
      count := base;
      var i := 0;
      while i < n
        invariant 0 <= i <= n
        invariant count == base + i * n
        invariant betaMatrix == Prefilled(beta[..], base, n, i * n)
      {
        MulMonotone(i + 1, n, n);
        count := FillRow(base, n, i);
        assert i * n + n == (i + 1) * n;
        i := i + 1;
      }
    }

    /** The j loop of the fill for row i: beta_matrix(i, j) = beta[beta_count++]. */
    method FillRow(base: nat, n: nat, i: nat) returns (count: nat)
      requires i < n && base + i * n + n <= beta.Length
      requires betaMatrix == Prefilled(beta[..], base, n, i * n)
      modifies this`betaMatrix
      ensures count == base + i * n + n
      ensures betaMatrix == Prefilled(beta[..], base, n, i * n + n)
    {
      ghost var b := beta[..];
      var M := betaMatrix;
      count := base + i * n;
      var j := 0;
      while j < n
        invariant 0 <= j <= n
        invariant count == base + i * n + j
        invariant M == Prefilled(b, base, n, i * n + j)
      {
        PrefilledStep(b, base, n, i, j);
        M := M[i := M[i][j := beta[count]]];
        count := count + 1;
        j := j + 1;
      }
      betaMatrix := M;
    }

    /** The fill of read_file: for each species, one matrix from the next
        n_d * n_d values, pushed onto beta_matrices. Returns beta_count. */
    method FillMatrices() returns (consumed: int)
      requires MatricesFit()
      modifies this`betaMatrix, this`betaMatrices
      ensures consumed == Dim(nSpecies) * (Dim(nDescriptors) * Dim(nDescriptors))
      ensures betaMatrices == old(betaMatrices) + FullMatrices(beta[..], nSpecies, Dim(nDescriptors))
      ensures nSpecies > 0 ==> betaMatrix == betaMatrices[|betaMatrices| - 1]
      ensures nSpecies <= 0 ==> betaMatrix == old(betaMatrix)
    {
      ghost var n := Dim(nDescriptors);
      ghost var all := FullMatrices(beta[..], nSpecies, n);
      consumed := 0;
      var k := 0;
      while k < nSpecies
        invariant 0 <= k <= Dim(nSpecies)
        invariant consumed == k * (n * n)
        invariant betaMatrices == old(betaMatrices) + all[..k]
        invariant k > 0 ==> betaMatrix == betaMatrices[|betaMatrices| - 1]
        invariant k == 0 ==> betaMatrix == old(betaMatrix)
      {
        BlockInBounds(k, Dim(nSpecies), n * n);
        consumed := FillMatrix(consumed, Dim(nDescriptors));
        betaMatrices := betaMatrices + [betaMatrix];
        assert all[..k + 1] == all[..k] + [all[k]];
        k := k + 1;
      }
      assert all[..k] == all;
    }

    /** `read_file` on a file whose contents are given. */
    method ReadFile(file: CoefficientFile, atof: string -> real) returns (out: Outcome)
      requires FullLayoutCheck(NumDescriptors(file.nSpecies, file.nMax, file.lMax), file.betaSize) == Pass ==>
                 GrabFits(file.body, file.betaSize * file.nSpecies)
      modifies this
      ensures HeaderRead(file)
      ensures out == FullLayoutCheck(nDescriptors, betaSize)
      ensures isAllocated == old(isAllocated) && nmax == old(nmax) && stds == old(stds) && commReverse == old(commReverse)
      ensures out.Fail? ==> CurrentStrategies() == old(CurrentStrategies()) && beta == old(beta) &&
                            betaMatrices == old(betaMatrices)
      ensures out == Pass ==> CurrentStrategies() == StrategiesAfter(file, old(CurrentStrategies()))
      ensures out == Pass ==> fresh(beta) && beta[..] == Grabbed(file.body, betaSize * nSpecies, atof)
      ensures out == Pass ==>
                MatricesFit() && betaMatrices == old(betaMatrices) + FullMatrices(beta[..], nSpecies, Dim(nDescriptors))
    {
      out := ReadHeader(file);
      if out.Fail? {
        return;
      }
      var after := StrategiesAfter(file, Strategies(basis, radialHyps, cutoffFunction));
      basis, radialHyps, cutoffFunction := after.basis, after.radialHyps, after.cutoffFunction;
      LoadBeta(file.body, atof);
    }

    /** The head of read_file: the header fields, n_d, and the full-matrix layout check. */
    method ReadHeader(file: CoefficientFile) returns (out: Outcome)
      modifies this`nSpecies, this`nMax, this`lMax, this`betaSize, this`cutoff, this`nDescriptors
      ensures HeaderRead(file)
      ensures out == FullLayoutCheck(nDescriptors, betaSize)
    {
      nSpecies, nMax, lMax, betaSize, cutoff := file.nSpecies, file.nMax, file.lMax, file.betaSize, file.cutoff;
      nDescriptors := NumDescriptors(nSpecies, nMax, lMax);
      out := FullLayoutCheck(nDescriptors, betaSize);
    }

    /** The tail of read_file once the layout is accepted: beta is created and
        grabbed, then the matrices are filled from it. */
    method LoadBeta(body: seq<string>, atof: string -> real)
      requires betaSize == nDescriptors * nDescriptors && GrabFits(body, betaSize * nSpecies)
      modifies this`beta, this`betaMatrix, this`betaMatrices
      ensures fresh(beta) && beta[..] == Grabbed(body, betaSize * nSpecies, atof)
      ensures MatricesFit() && betaMatrices == old(betaMatrices) + FullMatrices(beta[..], nSpecies, Dim(nDescriptors))
    {
      beta := CreateAndGrab(body, betaSize * nSpecies, atof);
      FullLayoutFits(nDescriptors, betaSize, nSpecies);
      var _ := FillMatrices();
    }

    /** `coeff`: allocate() only sets the flag; exactly four arguments; then the file. */
    method Coeff(narg: int, file: CoefficientFile, atof: string -> real) returns (out: Outcome)
      requires narg == 4 &&
               FullLayoutCheck(NumDescriptors(file.nSpecies, file.nMax, file.lMax), file.betaSize) == Pass ==>
                 GrabFits(file.body, file.betaSize * file.nSpecies)
      modifies this
      ensures isAllocated && nmax == old(nmax) && stds == old(stds) && commReverse == old(commReverse)
      ensures out == Pass <==>
                narg == 4 && FullLayoutCheck(NumDescriptors(file.nSpecies, file.nMax, file.lMax), file.betaSize) == Pass
      ensures narg != 4 ==>
                out == CoeffArgsCheck(narg) && beta == old(beta) && betaMatrices == old(betaMatrices)
      ensures narg == 4 ==> HeaderRead(file)
      ensures out == Pass ==> CurrentStrategies() == StrategiesAfter(file, old(CurrentStrategies()))
      ensures out == Pass ==> fresh(beta) && beta[..] == Grabbed(file.body, betaSize * nSpecies, atof)
      ensures out == Pass ==>
                MatricesFit() && betaMatrices == old(betaMatrices) + FullMatrices(beta[..], nSpecies, Dim(nDescriptors))
    {
      if !isAllocated {
        isAllocated := true;
      }
      out := CoeffArgsCheck(narg);
      if out.Fail? {
        return;
      }
      out := ReadFile(file, atof);
    }

    /** The zeroing loop of compute_peratom: stds[0..ntotal) := 0.0. */
    method ZeroStds(ntotal: nat)
      requires ntotal <= stds.Length
      modifies stds
      ensures forall q :: 0 <= q < ntotal ==> stds[q] == 0.0
      ensures stds[ntotal..] == old(stds[ntotal..])
    {
      var p := 0;
      while p < ntotal
        invariant 0 <= p <= ntotal
        invariant forall q :: 0 <= q < p ==> stds[q] == 0.0
        invariant stds[ntotal..] == old(stds[ntotal..])
      {
        stds[p] := 0.0;
        p := p + 1;
      }
    }

    /** The atom loop of compute_peratom: each listed atom's std stored over the zeroed stds. */
    method StoreStds(ntotal: nat, x: seq<Point>, types: seq<int>, ilist: seq<nat>, neighbours: seq<seq<nat>>,
                     std: StdModel)
      requires ntotal <= stds.Length
      requires ListedAtomsFit(ilist, ntotal, x, types, neighbours, betaMatrices)
      requires forall q :: 0 <= q < ntotal ==> stds[q] == 0.0
      modifies stds
      ensures forall q :: 0 <= q < ntotal ==>
                stds[q] == if q in ilist then AtomStd(q, x, types, neighbours, cutoff, betaMatrices, std) else 0.0
      ensures stds[ntotal..] == old(stds[ntotal..])
    {
      var ii := 0;
      while ii < |ilist|
        invariant 0 <= ii <= |ilist|
        invariant forall q :: 0 <= q < ntotal ==>
                    stds[q] == if q in ilist[..ii] then AtomStd(q, x, types, neighbours, cutoff, betaMatrices, std) else 0.0
        invariant stds[ntotal..] == old(stds[ntotal..])
      {
        var i := ilist[ii];
        var nInner := CountInner(x, i, neighbours[i], cutoff);
        stds[i] := std(i, nInner, betaMatrices[types[i] - 1]);
        assert ilist[..ii + 1] == ilist[..ii] + [i];
        ii := ii + 1;
      }
      assert ilist[..ii] == ilist;
    }

    /** `compute_peratom`: grow stds when atom->nmax exceeds nmax, zero its
        first ntotal entries, then store each listed atom's std. */
    method ComputePeratom(atomNmax: int, nlocal: nat, nghost: nat, newton: bool, x: seq<Point>, types: seq<int>,
                          ilist: seq<nat>, neighbours: seq<seq<nat>>, std: StdModel)
      requires StdsHoldNmax()
      requires nlocal + nghost <= atomNmax
      requires ListedAtomsFit(ilist, nlocal, x, types, neighbours, betaMatrices)
      modifies this`nmax, this`stds, stds
      ensures StdsHoldNmax()
      ensures nmax == if atomNmax > old(nmax) then atomNmax else old(nmax)
      ensures atomNmax > old(nmax) ==> fresh(stds)
      ensures atomNmax <= old(nmax) ==> stds == old(stds)
      ensures forall p :: 0 <= p < NTotal(nlocal, nghost, newton) ==>
                stds[p] == if p in ilist then AtomStd(p, x, types, neighbours, cutoff, betaMatrices, std) else 0.0
      ensures atomNmax <= old(nmax) ==>
                stds[NTotal(nlocal, nghost, newton)..] == old(stds[NTotal(nlocal, nghost, newton)..])
    {
      if atomNmax > nmax {
        nmax := atomNmax;
        stds := new real[nmax];
      }
      var ntotal := nlocal;
      if newton {
        ntotal := ntotal + nghost;
      }
      ZeroStds(ntotal);
      StoreStds(ntotal, x, types, ilist, neighbours, std);
    }

    /** `pack_reverse_comm`: stds[first .. first + n) into buf, each value three
        times; returns the number of values written. */
    method PackReverseComm(n: int, first: nat, buf: array<real>) returns (m: int)
      requires first + Dim(n) <= stds.Length && 3 * Dim(n) <= buf.Length && buf != stds
      modifies buf
      ensures m == 3 * Dim(n)
      ensures buf[..m] == Tripled(stds[first..first + Dim(n)])
      ensures buf[m..] == old(buf[m..])
    {
      m := 0;
      var last := first + n;
      var i := first;
      while i < last
        invariant first <= i <= first + Dim(n)
        invariant m == 3 * (i - first)
        invariant buf[..m] == Tripled(stds[first..i])
        invariant buf[m..] == old(buf[m..])
      {
        TripledAppend(stds[first..i], stds[i]);
        assert stds[first..i + 1] == stds[first..i] + [stds[i]];
        buf[m] := stds[i];
        buf[m + 1] := stds[i];
        buf[m + 2] := stds[i];
        m := m + 3;
        i := i + 1;
      }
    }

    /** `unpack_reverse_comm`: for each slot i < n, the three values
        buf[3i .. 3i + 3) are added to stds[list[i]]. */
    method UnpackReverseComm(n: int, list: seq<int>, buf: array<real>)
      requires Dim(n) <= |list| && 3 * Dim(n) <= buf.Length && buf != stds
      requires forall i :: 0 <= i < Dim(n) ==> 0 <= list[i] < stds.Length
      modifies stds
      ensures stds[..] == AddTriples(old(stds[..]), list[..Dim(n)], buf[..3 * Dim(n)])
    {
      ghost var t := stds[..];
      ghost var b := buf[..3 * Dim(n)];
      var m := 0;
      var i := 0;
      while i < n
        invariant 0 <= i <= Dim(n)
        invariant m == 3 * i
        invariant stds[..] == AddTriples(t, list[..i], b)
      {
        var j := list[i];
        assert list[..i + 1][..i] == list[..i];
        stds[j] := stds[j] + buf[m];
        stds[j] := stds[j] + buf[m + 1];
        stds[j] := stds[j] + buf[m + 2];
        m := m + 3;
        i := i + 1;
      }
    }
  }

  /** The constructor: at least four arguments, then `coeff` with the same
      arguments (which wants exactly four), and nmax = 0. */
  method New(narg: int, file: CoefficientFile, atof: string -> real) returns (out: Outcome, c: ComputeFlareStdAtom?)
    requires narg == 4 &&
             FullLayoutCheck(NumDescriptors(file.nSpecies, file.nMax, file.lMax), file.betaSize) == Pass ==>
               GrabFits(file.body, file.betaSize * file.nSpecies)
    ensures narg < 4 <==> c == null
    ensures narg < 4 ==> out == ConstructorCheck(narg)
    ensures narg > 4 ==> out == CoeffArgsCheck(narg)
    ensures out == Pass <==>
              narg == 4 && FullLayoutCheck(NumDescriptors(file.nSpecies, file.nMax, file.lMax), file.betaSize) == Pass
    ensures c != null ==> fresh(c) && c.isAllocated && c.nmax == 0 && c.StdsHoldNmax() && c.commReverse == 1
    ensures out == Pass ==>
              c != null && c.HeaderRead(file) && c.MatricesFit() &&
              c.betaMatrices == FullMatrices(c.beta[..], c.nSpecies, Dim(c.nDescriptors)) &&
              c.beta[..] == Grabbed(file.body, file.betaSize * file.nSpecies, atof) &&
              c.CurrentStrategies() == StrategiesAfter(file, Strategies(None, [], None))
  {
    out := ConstructorCheck(narg);
    if out.Fail? {
      return out, null;
    }
    c := new ComputeFlareStdAtom();
    out := c.Coeff(narg, file, atof);
    c.nmax := 0;
  }
}
