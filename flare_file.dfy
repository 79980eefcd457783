/** The coefficient-file format shared by the FLARE pair style and the
    flare/std/atom compute: the header fields, the descriptor count they
    imply, the names of the radial basis and cutoff strategies, and the
    whitespace tokenizer (`grab`) that reads the coefficients. */
module FlareFile {

  datatype Option<T> = None | Some(value: T)

  /** Outcome of a LAMMPS command: it passes, or error->all stops the run with a message. */
  datatype Outcome = Pass | Fail(message: string)

  datatype RadialBasis = Chebyshev
  datatype CutoffFunction = QuadraticCutoff | CosineCutoff

  /** A coefficient file as read_file sees it. The first line is skipped; the
      next four give the basis name, "n_species n_max l_max beta_size", the
      cutoff-function name and the cutoff; `body` holds the lines after them. */
  datatype CoefficientFile = CoefficientFile(
    radialName: string,
    nSpecies: int, nMax: int, lMax: int, betaSize: int,
    cutoffName: string,
    cutoff: real,
    body: seq<string>)

  const BetaSizeMismatch := "Beta size doesn't match the number of descriptors."

  /** Number of iterations of `for (x = 0; x < n; x++)`; also the length of the
      array memory->create makes for n entries (none when n <= 0). */
  function Dim(n: int): nat { if n < 0 then 0 else n }

  // ---------------------------------------------------------------------
  // Descriptor count

  /** C's `a / 2` on int, which truncates toward zero (Dafny's `/` is Euclidean). */
  function CHalf(a: int): int { if a >= 0 then a / 2 else -((-a) / 2) }

  /** The product of two consecutive integers is even, so C's halving of it is exact. */
  lemma {:induction false} HalfOfConsecutiveProduct(x: int)
    ensures 2 * CHalf(x * (x + 1)) == x * (x + 1)
  {
    var m: int;
    if x % 2 == 0 {
      m := (x / 2) * (x + 1);
      assert x == 2 * (x / 2);
      assert x * (x + 1) == 2 * (x / 2) * (x + 1);
    } else {
      m := x * ((x + 1) / 2);
      assert x + 1 == 2 * ((x + 1) / 2);
      assert x * (x + 1) == x * (2 * ((x + 1) / 2));
    }
    assert x * (x + 1) == 2 * m;
    if m < 0 {
      assert -(2 * m) == 2 * (-m);
      assert (-(2 * m)) / 2 == -m;
    }
  }

  /** n_d = (R(R+1)/2)(l_max + 1) with R = n_max * n_species, as read_file computes it. */
  function NumDescriptors(nSpecies: int, nMax: int, lMax: int): (nD: int)
    ensures 2 * nD == (nMax * nSpecies) * (nMax * nSpecies + 1) * (lMax + 1)
    ensures nSpecies >= 0 && nMax >= 0 && lMax >= -1 ==> nD >= 0
  {
    var nRadial := nMax * nSpecies;
    HalfOfConsecutiveProduct(nRadial);
    var pairs := CHalf(nRadial * (nRadial + 1));
    assert 2 * (pairs * (lMax + 1)) == (2 * pairs) * (lMax + 1);
    assert nRadial >= 0 ==> nRadial * (nRadial + 1) >= 0;
    pairs * (lMax + 1)
  }

  // ---------------------------------------------------------------------
  // Strategy names

  function BasisName(b: RadialBasis): string {
    match b
    case Chebyshev => "chebyshev"
  }

  function CutoffName(c: CutoffFunction): string {
    match c
    case QuadraticCutoff => "quadratic"
    case CosineCutoff => "cosine"
  }

  /** The radial basis a file names, if the name is known. */
  function ResolveBasis(name: string): (r: Option<RadialBasis>)
    ensures r.Some? ==> BasisName(r.value) == name
    ensures forall b :: BasisName(b) == name ==> r == Some(b)
  {
    assert forall b :: BasisName(b) == name ==> b == Chebyshev;
    if name == "chebyshev" then Some(Chebyshev) else None
  }

  /** The cutoff function a file names, if the name is known. */
  function ResolveCutoff(name: string): (r: Option<CutoffFunction>)
    ensures r.Some? ==> CutoffName(r.value) == name
    ensures forall c :: CutoffName(c) == name ==> r == Some(c)
  {
    if name == "quadratic" then Some(QuadraticCutoff)
    else if name == "cosine" then Some(CosineCutoff)
    else None
  }

  /** The strategy fields read_file sets: basis_function, radial_hyps, cutoff_function. */
  datatype Strategies = Strategies(basis: Option<RadialBasis>, radialHyps: seq<real>,
                                   cutoffFunction: Option<CutoffFunction>)

  /** The strategies after read_file has resolved the file's names, starting
      from `before`: "chebyshev" sets the basis with radial_hyps = [0, cutoff],
      "quadratic" and "cosine" set the cutoff function, and an unknown name
      leaves its field as it was, with no error. */
  function StrategiesAfter(file: CoefficientFile, before: Strategies): (after: Strategies)
    ensures file.radialName == "chebyshev" ==>
              after.basis == Some(Chebyshev) && after.radialHyps == [0.0, file.cutoff]
    ensures file.radialName != "chebyshev" ==>
              after.basis == before.basis && after.radialHyps == before.radialHyps
    ensures file.cutoffName == "quadratic" ==> after.cutoffFunction == Some(QuadraticCutoff)
    ensures file.cutoffName == "cosine" ==> after.cutoffFunction == Some(CosineCutoff)
    ensures file.cutoffName != "quadratic" && file.cutoffName != "cosine" ==>
              after.cutoffFunction == before.cutoffFunction
  {
    var b := ResolveBasis(file.radialName);
    var c := ResolveCutoff(file.cutoffName);
    Strategies(if b.Some? then b else before.basis,
               if b.Some? then [0.0, file.cutoff] else before.radialHyps,
               if c.Some? then c else before.cutoffFunction)
  }

  // ---------------------------------------------------------------------
  // The strtok tokenizer

  /** The separators `grab` hands to strtok: space, tab, newline, carriage return, form feed. */
  predicate IsDelimiter(c: char) {
    c == ' ' || c == '\t' || c == '\n' || c == '\r' || c == '\U{000C}'
  }

  predicate IsToken(t: string) {
    |t| > 0 && forall i :: 0 <= i < |t| ==> !IsDelimiter(t[i])
  }

  /** Length of the run of non-delimiters that starts `s`. */
  function WordLength(s: string): (n: nat)
    ensures n <= |s|
    ensures forall i :: 0 <= i < n ==> !IsDelimiter(s[i])
    ensures n < |s| ==> IsDelimiter(s[n])
  {
    if s == [] || IsDelimiter(s[0]) then 0 else 1 + WordLength(s[1..])
  }

  /** The tokens successive strtok calls return on a line, in order. */
  function Tokenize(s: string): (ts: seq<string>)
    ensures forall t :: t in ts ==> IsToken(t)
    decreases |s|
  {
    if s == [] then []
    else if IsDelimiter(s[0]) then Tokenize(s[1..])
    else
      var n := WordLength(s);
      [s[..n]] + Tokenize(s[n..])
  }

  /** The characters of `s` that are not delimiters, in order. */
  function NonSeparators(s: string): string {
    if s == [] then []
    else if IsDelimiter(s[0]) then NonSeparators(s[1..])
    else [s[0]] + NonSeparators(s[1..])
  }

  function Concat(ts: seq<string>): string {
    if ts == [] then [] else ts[0] + Concat(ts[1..])
  }

  /** Tokens joined by single spaces, each followed by one. */
  function Unwords(ts: seq<string>): string {
    if ts == [] then [] else ts[0] + " " + Unwords(ts[1..])
  }

  lemma {:induction false} NonSeparatorsAppend(a: string, b: string)
    ensures NonSeparators(a + b) == NonSeparators(a) + NonSeparators(b)
  {
    if a != [] {
      assert (a + b)[1..] == a[1..] + b;
      NonSeparatorsAppend(a[1..], b);
    } else {
      assert a + b == b;
    }
  }

  lemma {:induction false} NonSeparatorsOfToken(t: string)
    requires forall i :: 0 <= i < |t| ==> !IsDelimiter(t[i])
    ensures NonSeparators(t) == t
  {
    if t != [] {
      NonSeparatorsOfToken(t[1..]);
      assert t == [t[0]] + t[1..];
    }
  }

  /** Tokenizing loses exactly the delimiters: the tokens spell out every other character, in order. */
  lemma {:induction false} TokensKeepEveryCharacter(s: string)
    ensures Concat(Tokenize(s)) == NonSeparators(s)
    decreases |s|
  {
    if s == [] {
    } else if IsDelimiter(s[0]) {
      TokensKeepEveryCharacter(s[1..]);
    } else {
      var n := WordLength(s);
      assert s == s[..n] + s[n..];
      TokensKeepEveryCharacter(s[n..]);
      NonSeparatorsAppend(s[..n], s[n..]);
      NonSeparatorsOfToken(s[..n]);
      var ts := [s[..n]] + Tokenize(s[n..]);
      assert ts[0] == s[..n] && ts[1..] == Tokenize(s[n..]);
    }
  }

  lemma {:induction false} WordLengthOfToken(w: string, rest: string)
    requires forall i :: 0 <= i < |w| ==> !IsDelimiter(w[i])
    ensures WordLength(w + " " + rest) == |w|
  {
    if w != [] {
      assert (w + " " + rest)[1..] == w[1..] + " " + rest;
      WordLengthOfToken(w[1..], rest);
    } else {
      assert (w + " " + rest)[0] == ' ';
    }
  }

  /** Writing tokens out separated by spaces and tokenizing the result gives the tokens back. */
  lemma {:induction false} TokenizeUnwords(ts: seq<string>)
    requires forall t :: t in ts ==> IsToken(t)
    ensures Tokenize(Unwords(ts)) == ts
  {
    if ts != [] {
      var w, rest := ts[0], Unwords(ts[1..]);
      var s := w + " " + rest;
      assert Unwords(ts) == s;
      assert IsToken(w);
      WordLengthOfToken(w, rest);
      assert s[..|w|] == w;
      assert s[|w|..] == " " + rest;
      assert (" " + rest)[1..] == rest;
      assert forall t :: t in ts[1..] ==> t in ts;
      TokenizeUnwords(ts[1..]);
      assert Tokenize(s) == [w] + Tokenize(" " + rest);
      assert ts == [w] + ts[1..];
    }
  }

  // ---------------------------------------------------------------------
  // grab

  /** atof applied to each token. */
  function TokenValues(ts: seq<string>, atof: string -> real): (vs: seq<real>)
    ensures |vs| == |ts|
    ensures forall p :: 0 <= p < |ts| ==> vs[p] == atof(ts[p])
  {
    seq(|ts|, p requires 0 <= p < |ts| => atof(ts[p]))
  }

  /** The value of every token of every line, in file order. */
  function AllValues(lines: seq<string>, atof: string -> real): seq<real> {
    if lines == [] then [] else TokenValues(Tokenize(lines[0]), atof) + AllValues(lines[1..], atof)
  }

  /** `grab(fp, n, list)` reads whole lines until at least n values are stored and
      checks nothing: it is well defined only when each line it reads has a token
      (strtok returns NULL on a blank line) and the lines end exactly at n values
      (more would overrun `list`). */
  predicate GrabFits(lines: seq<string>, n: int) {
    n <= 0 ||
    (|lines| > 0 &&
     0 < |Tokenize(lines[0])| <= n &&
     GrabFits(lines[1..], n - |Tokenize(lines[0])|))
  }

  /** The values `grab` stores, line by line. */
  function Grabbed(lines: seq<string>, n: int, atof: string -> real): (vs: seq<real>)
    requires GrabFits(lines, n)
    ensures |vs| == Dim(n)
  {
    if n <= 0 then []
    else
      var ts := Tokenize(lines[0]);
      TokenValues(ts, atof) + Grabbed(lines[1..], n - |ts|, atof)
  }

  /** `grab` stores exactly the first n values of the file, in order. */
  lemma {:induction false} GrabbedIsPrefix(lines: seq<string>, n: int, atof: string -> real)
    requires GrabFits(lines, n)
    ensures Dim(n) <= |AllValues(lines, atof)|
    ensures Grabbed(lines, n, atof) == AllValues(lines, atof)[..Dim(n)]
  {
    if n > 0 {
      var ts := Tokenize(lines[0]);
      var head := TokenValues(ts, atof);
      GrabbedIsPrefix(lines[1..], n - |ts|, atof);
      var rest := AllValues(lines[1..], atof);
      assert AllValues(lines, atof) == head + rest;
      assert (head + rest)[..n] == head + rest[..Dim(n - |ts|)];
    }
  }

  /** One line of `grab` from line `line` on: its tokens, then the rest. */
  lemma GrabbedFrom(lines: seq<string>, line: nat, n: int, atof: string -> real)
    requires line <= |lines| && n > 0 && GrabFits(lines[line..], n)
    ensures line < |lines| && 0 < |Tokenize(lines[line])| <= n
    ensures GrabFits(lines[line + 1..], n - |Tokenize(lines[line])|)
    ensures Grabbed(lines[line..], n, atof)
            == TokenValues(Tokenize(lines[line]), atof) + Grabbed(lines[line + 1..], n - |Tokenize(lines[line])|, atof)
  {
    assert lines[line..][0] == lines[line] && lines[line..][1..] == lines[line + 1..];
  }

  /** The strtok loop of `grab` on one line: stores the line's tokens from list[i] on. */
  method StoreTokens(tokens: seq<string>, list: array<real>, i: nat, atof: string -> real) returns (next: nat)
    requires |tokens| > 0
    requires i + |tokens| <= list.Length
    modifies list
    ensures next == i + |tokens|
    ensures list[..i] == old(list[..i])
    ensures list[i..next] == TokenValues(tokens, atof)
    ensures list[next..] == old(list[next..])
  {
    list[i] := atof(tokens[0]);
    next := i + 1;
    var t := 1;
    while t < |tokens|
      invariant 1 <= t <= |tokens|
      invariant next == i + t
      invariant list[..i] == old(list[..i])
      invariant list[i..next] == TokenValues(tokens[..t], atof)
      invariant list[i + |tokens|..] == old(list[i + |tokens|..])
    {
      list[next] := atof(tokens[t]);
      next := next + 1;
      t := t + 1;
    }
    assert tokens[..t] == tokens;
  }

  /** One pass of grab's outer loop: fgets of line `line` and its strtok loop,
      storing from list[i] on. */
  method GrabLine(lines: seq<string>, line: nat, n: int, i: nat, list: array<real>, atof: string -> real)
    returns (next: nat)
    requires line <= |lines| && i < n <= list.Length && GrabFits(lines[line..], n - i)
    modifies list
    ensures line < |lines| && i < next <= n
    ensures GrabFits(lines[line + 1..], n - next)
    ensures list[..next] + Grabbed(lines[line + 1..], n - next, atof)
            == old(list[..i]) + Grabbed(lines[line..], n - i, atof)
    ensures list[n..] == old(list[n..])
  {
    var tokens := Tokenize(lines[line]);
    GrabbedFrom(lines, line, n - i, atof);
    next := StoreTokens(tokens, list, i, atof);
    assert list[..next] == old(list[..i]) + TokenValues(tokens, atof) by {
      assert list[..next] == list[..i] + list[i..next];
    }
  }

  /** `grab`: fills list[0..n) from the lines, one strtok token per value. */
  method Grab(lines: seq<string>, n: int, list: array<real>, atof: string -> real)
    requires GrabFits(lines, n)
    requires n <= list.Length
    modifies list
    ensures list[..Dim(n)] == Grabbed(lines, n, atof)
    ensures list[Dim(n)..] == old(list[Dim(n)..])
  {
    var line := 0;
    var i := 0;
    while i < n
      invariant line <= |lines|
      invariant 0 <= i <= Dim(n)
      invariant GrabFits(lines[line..], n - i)
      invariant list[..i] + Grabbed(lines[line..], n - i, atof) == Grabbed(lines, n, atof)
      invariant list[Dim(n)..] == old(list[Dim(n)..])
      decreases n - i
    {
      i := GrabLine(lines, line, n, i, list, atof);
      line := line + 1;
    }
    assert Grabbed(lines[line..], n - i, atof) == [];
  }

  /** The beta allocation of read_file (memory->create of count values) followed by `grab`. */
  method CreateAndGrab(lines: seq<string>, count: int, atof: string -> real) returns (b: array<real>)
    requires GrabFits(lines, count)
    ensures fresh(b) && b.Length == Dim(count)
    ensures b[..] == Grabbed(lines, count, atof)
  {
    b := new real[Dim(count)];
    Grab(lines, count, b, atof);
  }
}
