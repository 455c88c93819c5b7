/**
 Standard Galerkin assembly of the 1D Poisson problem: the element kernel
 (stiffness `Ke` and residual-form load `Fe` by quadrature), the
 local-to-global degree-of-freedom map, the scatter-add into the global
 matrix `K` and vector `F`, and the strong Dirichlet elimination applied after
 all elements are assembled.

 One degree of freedom per node: the dof of node `n` is `n`.
 */
module Assemble {
  import opened Sums
  import opened Matrices
  import opened GaussShape
  import opened Element

  // ---------------------------------------------------------------------
  // Mesh and rule
  // ---------------------------------------------------------------------

  /** Nodes (index = dof, value = coordinate) and elements (ordered node
      indices, `Nel(topology)` per element). */
  datatype Mesh = Mesh(topology: Topology, coords: seq<real>, conn: seq<seq<nat>>)

  /** Every element lists `Nel` nodes, each of them a node of the mesh. */
  predicate ValidMesh(m: Mesh)
  {
    forall e :: 0 <= e < |m.conn| ==>
      |m.conn[e]| == Nel(m.topology) &&
      forall i :: 0 <= i < |m.conn[e]| ==> m.conn[e][i] < |m.coords|
  }

  /** Every index of `nodes` addresses an entry of a vector of length `n`. */
  predicate InRange(nodes: seq<nat>, n: nat)
  {
    forall i :: 0 <= i < |nodes| ==> nodes[i] < n
  }

  /** `v[nodes[0]], v[nodes[1]], ...`: the element's local copy of a nodal
      vector. */
  function Gather(v: seq<real>, nodes: seq<nat>): (l: seq<real>)
    requires InRange(nodes, |v|)
    ensures |l| == |nodes|
    ensures forall i :: 0 <= i < |nodes| ==> l[i] == v[nodes[i]]
  {
    seq(|nodes|, (i: int) requires 0 <= i < |nodes| => v[nodes[i]])
  }

  function ElementCoords(m: Mesh, e: nat): (xl: seq<real>)
    requires ValidMesh(m) && e < |m.conn|
    ensures |xl| == Nel(m.topology)
  {
    Gather(m.coords, m.conn[e])
  }

  predicate NonDegenerate(m: Mesh, rule: Rule)
    requires ValidMesh(m)
  {
    forall e :: 0 <= e < |m.conn| ==> NonDegenerateElement(m.topology, rule, ElementCoords(m, e))
  }

  // ---------------------------------------------------------------------
  // Element kernel
  // ---------------------------------------------------------------------

  /** `dN_i dN_j dvol` at each sample. */
  function StiffnessTerms(pts: seq<Sample>, i: nat, j: nat): nat -> real
  {
    (q: nat) =>
      if q < |pts| && i < |pts[q].derivs| && j < |pts[q].derivs| then
        pts[q].derivs[i] * pts[q].derivs[j] * pts[q].dvol
      else 0.0
  }

  /** The quadrature of `dN_i dN_j`, summed over the samples in order. */
  function StiffnessEntry(pts: seq<Sample>, i: nat, j: nat): real
  {
    Sum(|pts|, StiffnessTerms(pts, i, j))
  }

  /** The element stiffness matrix: symmetric, and every row sums to zero
      when the derivatives at each sample do. */
  function Stiffness(n: nat, pts: seq<Sample>): (Ke: Matrix)
    requires ValidSamples(n, pts)
    ensures IsSquare(Ke, n)
    ensures forall i, j :: 0 <= i < n && 0 <= j < n ==> Ke[i][j] == StiffnessEntry(pts, i, j)
    ensures Symmetric(Ke)
    ensures Balanced(pts) ==> forall i :: 0 <= i < n ==> Total(Ke[i]) == 0.0
  {
    var Ke := seq(n, (i: int) requires 0 <= i < n =>
                seq(n, (j: int) requires 0 <= j < n => StiffnessEntry(pts, i, j)));
    forall i, j | 0 <= i < n && 0 <= j < n
      ensures Ke[i][j] == Ke[j][i]
    {
      SumExt(|pts|, StiffnessTerms(pts, i, j), StiffnessTerms(pts, j, i));
    }
    forall i | 0 <= i < n && Balanced(pts)
      ensures Total(Ke[i]) == 0.0
    {
      StiffnessRowTotal(n, pts, i, Ke[i]);
    }
    Ke
  }

  /** `dN_i dN_j dvol` as a two-index term, by node `j` then sample `q`,
      and by sample then node. */
  function StiffnessByNode(pts: seq<Sample>, i: nat): (nat, nat) -> real
  {
    (j: nat, q: nat) => StiffnessTerms(pts, i, j)(q)
  }

  function StiffnessByPoint(pts: seq<Sample>, i: nat): (nat, nat) -> real
  {
    (q: nat, j: nat) => StiffnessTerms(pts, i, j)(q)
  }

  /** Row `i` of `Ke` sums to zero: summing over the node first gives
      `dN_i dvol (dN_1 + ... + dN_n) = 0` at every sample. */
  lemma StiffnessRowTotal(n: nat, pts: seq<Sample>, i: nat, row: seq<real>)
    requires ValidSamples(n, pts) && Balanced(pts) && i < n
    requires |row| == n
    requires forall j :: 0 <= j < n ==> row[j] == StiffnessEntry(pts, i, j)
    ensures Total(row) == 0.0
  {
    var nq := |pts|;
    var byNode, byPoint := StiffnessByNode(pts, i), StiffnessByPoint(pts, i);
    forall j: nat | j < n
      ensures At(row)(j) == RowSums(byNode, nq)(j)
    {
      SumExt(nq, StiffnessTerms(pts, i, j), Row(byNode, j));
    }
    SumExt(n, At(row), RowSums(byNode, nq));
    DoubleSumSwap(n, nq, byNode, byPoint);
    forall q: nat | q < nq
      ensures RowSums(byPoint, n)(q) == 0.0
    {
      StiffnessPointRow(n, pts, i, q);
    }
    SumZero(nq, RowSums(byPoint, n));
  }

  /** At one sample the terms of row `i` are `dN_i dvol` times the
      derivatives. */
  lemma StiffnessPointRow(n: nat, pts: seq<Sample>, i: nat, q: nat)
    requires ValidSamples(n, pts) && Balanced(pts) && i < n && q < |pts|
    ensures RowSums(StiffnessByPoint(pts, i), n)(q) == 0.0
  {
    var d, dv := pts[q].derivs, pts[q].dvol;
    forall j: nat | j < n
      ensures Row(StiffnessByPoint(pts, i), q)(j) == (d[i] * dv) * At(d)(j)
    {
      assert Row(StiffnessByPoint(pts, i), q)(j) == StiffnessTerms(pts, i, j)(q) == d[i] * d[j] * dv;
      Rearrange(d[i], d[j], dv);
    }
    SumScale(n, Row(StiffnessByPoint(pts, i), q), At(d), d[i] * dv);
  }

  /** `N_i f(x_q) dvol` at each sample, `x_q` the interpolated position. */
  function SourceTerms(pts: seq<Sample>, xl: seq<real>, f: real -> real, i: nat): nat -> real
  {
    (q: nat) =>
      if q < |pts| && i < |pts[q].values| then
        pts[q].values[i] * f(Dot(pts[q].values, xl)) * pts[q].dvol
      else 0.0
  }

  /** The consistent source load `Le[i]`, the quadrature of `N_i f`. */
  function SourceLoad(n: nat, pts: seq<Sample>, xl: seq<real>, f: real -> real): (Le: Vector)
    ensures |Le| == n
    ensures forall i :: 0 <= i < n ==> Le[i] == Sum(|pts|, SourceTerms(pts, xl, f, i))
  {
    seq(n, (i: int) requires 0 <= i < n => Sum(|pts|, SourceTerms(pts, xl, f, i)))
  }

  /** `-grad(u_h) dN_i dvol + N_i f(x_q) dvol` at each sample, with
      `grad(u_h) = sum_j dN_j ul[j]`. */
  function ResidualTerms(pts: seq<Sample>, xl: seq<real>, ul: seq<real>, f: real -> real, i: nat): nat -> real
  {
    (q: nat) =>
      if q < |pts| && i < |pts[q].values| && i < |pts[q].derivs| then
        -Dot(pts[q].derivs, ul) * pts[q].derivs[i] * pts[q].dvol
          + pts[q].values[i] * f(Dot(pts[q].values, xl)) * pts[q].dvol
      else 0.0
  }

  /** The element residual vector `Fe` at the current nodal values `ul`: the
      source load less the stiffness applied to `ul`. */
  function ElementLoad(n: nat, pts: seq<Sample>, xl: seq<real>, ul: seq<real>, f: real -> real): (Fe: Vector)
    requires ValidSamples(n, pts) && |ul| == n
    ensures |Fe| == n
    ensures forall i :: 0 <= i < n ==>
      Fe[i] == SourceLoad(n, pts, xl, f)[i] - Dot(Stiffness(n, pts)[i], ul)
  {
    var Fe := seq(n, (i: int) requires 0 <= i < n => Sum(|pts|, ResidualTerms(pts, xl, ul, f, i)));
    forall i | 0 <= i < n
      ensures Fe[i] == SourceLoad(n, pts, xl, f)[i] - Dot(Stiffness(n, pts)[i], ul)
    {
      ResidualSplit(n, pts, xl, ul, f, i);
    }
    Fe
  }

  /** `dN_i dN_j dvol ul[j]`, by sample then node and by node then sample. */
  function CouplingByPoint(pts: seq<Sample>, ul: seq<real>, i: nat): (nat, nat) -> real
  {
    (q: nat, j: nat) => if j < |ul| then StiffnessTerms(pts, i, j)(q) * ul[j] else 0.0
  }

  function CouplingByNode(pts: seq<Sample>, ul: seq<real>, i: nat): (nat, nat) -> real
  {
    (j: nat, q: nat) => CouplingByPoint(pts, ul, i)(q, j)
  }

  /** The terms of `Fe[i]` split into the source part and the stiffness
      part. */
  lemma ResidualSplit(n: nat, pts: seq<Sample>, xl: seq<real>, ul: seq<real>, f: real -> real, i: nat)
    requires ValidSamples(n, pts) && |ul| == n && i < n
    ensures Sum(|pts|, ResidualTerms(pts, xl, ul, f, i))
      == SourceLoad(n, pts, xl, f)[i] - Dot(Stiffness(n, pts)[i], ul)
  {
    var nq := |pts|;
    var coupling := RowSums(CouplingByPoint(pts, ul, i), n);
    forall q: nat | q < nq
      ensures SourceTerms(pts, xl, f, i)(q) == ResidualTerms(pts, xl, ul, f, i)(q) + coupling(q)
    {
      ResidualAtPoint(n, pts, xl, ul, f, i, q);
    }
    SumAdd(nq, SourceTerms(pts, xl, f, i), ResidualTerms(pts, xl, ul, f, i), coupling);
    CouplingSum(n, pts, ul, i);
  }

  lemma ResidualAtPoint(n: nat, pts: seq<Sample>, xl: seq<real>, ul: seq<real>, f: real -> real, i: nat, q: nat)
    requires ValidSamples(n, pts) && |ul| == n && i < n && q < |pts|
    ensures SourceTerms(pts, xl, f, i)(q)
      == ResidualTerms(pts, xl, ul, f, i)(q) + RowSums(CouplingByPoint(pts, ul, i), n)(q)
  {
    var v, d, dv := pts[q].values, pts[q].derivs, pts[q].dvol;
    var g, src := Dot(d, ul), v[i] * f(Dot(v, xl)) * dv;
    CouplingAtPoint(n, pts, ul, i, q);
    NegateProduct(g, d[i], dv);
    assert SourceTerms(pts, xl, f, i)(q) == src;
    assert ResidualTerms(pts, xl, ul, f, i)(q) == -g * d[i] * dv + src;
  }

  /** Summed node by node instead of sample by sample, the stiffness part of
      `Fe[i]` is row `i` of `Ke` applied to `ul`. */
  lemma CouplingSum(n: nat, pts: seq<Sample>, ul: seq<real>, i: nat)
    requires ValidSamples(n, pts) && |ul| == n && i < n
    ensures DoubleSum(|pts|, n, CouplingByPoint(pts, ul, i)) == Dot(Stiffness(n, pts)[i], ul)
  {
    var nq := |pts|;
    var byPoint, byNode := CouplingByPoint(pts, ul, i), CouplingByNode(pts, ul, i);
    DoubleSumSwap(nq, n, byPoint, byNode);
    var Ke := Stiffness(n, pts);
    forall j: nat | j < n
      ensures RowSums(byNode, nq)(j) == Products(Ke[i], ul)(j)
    {
      CouplingColumn(n, pts, ul, i, j);
    }
    SumExt(n, RowSums(byNode, nq), Products(Ke[i], ul));
  }

  lemma CouplingColumn(n: nat, pts: seq<Sample>, ul: seq<real>, i: nat, j: nat)
    requires ValidSamples(n, pts) && |ul| == n && i < n && j < n
    ensures RowSums(CouplingByNode(pts, ul, i), |pts|)(j) == StiffnessEntry(pts, i, j) * ul[j]
  {
    var byNode := CouplingByNode(pts, ul, i);
    forall q: nat | q < |pts|
      ensures Row(byNode, j)(q) == ul[j] * StiffnessTerms(pts, i, j)(q)
    {
      assert Row(byNode, j)(q) == byNode(j, q);
      assert byNode(j, q) == CouplingByPoint(pts, ul, i)(q, j);
      assert CouplingByPoint(pts, ul, i)(q, j) == StiffnessTerms(pts, i, j)(q) * ul[j];
    }
    SumScale(|pts|, Row(byNode, j), StiffnessTerms(pts, i, j), ul[j]);
  }

  /** At one sample, the sum over nodes of `dN_i dN_j dvol ul[j]` is
      `grad(u_h) dN_i dvol`. */
  lemma CouplingAtPoint(n: nat, pts: seq<Sample>, ul: seq<real>, i: nat, q: nat)
    requires ValidSamples(n, pts) && |ul| == n && i < n && q < |pts|
    ensures RowSums(CouplingByPoint(pts, ul, i), n)(q)
      == Dot(pts[q].derivs, ul) * pts[q].derivs[i] * pts[q].dvol
  {
    var d, dv := pts[q].derivs, pts[q].dvol;
    var byPoint := CouplingByPoint(pts, ul, i);
    forall j: nat | j < n
      ensures Row(byPoint, q)(j) == (d[i] * dv) * Products(d, ul)(j)
    {
      assert Row(byPoint, q)(j) == StiffnessTerms(pts, i, j)(q) * ul[j];
      assert StiffnessTerms(pts, i, j)(q) == d[i] * d[j] * dv;
      Rearrange4(d[i], d[j], dv, ul[j]);
    }
    SumScale(n, Row(byPoint, q), Products(d, ul), d[i] * dv);
    Rearrange(Dot(d, ul), d[i], dv);
  }

  lemma NegateProduct(a: real, b: real, c: real)
    ensures -a * b * c == -(a * b * c)
  {
  }

  lemma Rearrange4(a: real, b: real, c: real, u: real)
    ensures a * b * c * u == (a * c) * (b * u)
  {
  }

  lemma Rearrange(a: real, b: real, c: real)
    ensures a * b * c == (a * c) * b
  {
  }

  // ---------------------------------------------------------------------
  // Degree-of-freedom map and scatter-add
  // ---------------------------------------------------------------------

  /** The `ndf` global dofs of node `n`: `n*ndf, ..., n*ndf + ndf - 1`. */
  function NodeDofs(n: nat, ndf: nat): (ds: seq<nat>)
    ensures |ds| == ndf
    ensures forall d :: 0 <= d < ndf ==> ds[d] == n * ndf + d
  {
    seq(ndf, (d: int) requires 0 <= d < ndf => n * ndf + d)
  }

  /** The local-to-global dof map of an element: the dofs of its nodes, node
      by node. */
  function DofMap(nodes: seq<nat>, ndf: nat): (dm: seq<nat>)
    ensures ndf == 1 ==> dm == nodes
    decreases |nodes|
  {
    if |nodes| == 0 then []
    else NodeDofs(nodes[0], ndf) + DofMap(nodes[1..], ndf)
  }

  /** Position `k` of the map holds component `k % ndf` of node
      `nodes[k / ndf]`, that is global dof `nodes[k / ndf] * ndf + k % ndf`. */
  lemma DofMapEntries(nodes: seq<nat>, ndf: nat)
    requires 0 < ndf
    ensures |DofMap(nodes, ndf)| == |nodes| * ndf
    ensures forall k :: 0 <= k < |DofMap(nodes, ndf)| ==>
      k / ndf < |nodes| && DofMap(nodes, ndf)[k] == nodes[k / ndf] * ndf + k % ndf
  {
    DofMapLength(nodes, ndf);
    forall k | 0 <= k < |DofMap(nodes, ndf)| {
      DofMapAt(nodes, ndf, k);
    }
  }

  lemma DofMapAt(nodes: seq<nat>, ndf: nat, k: nat)
    requires 0 < ndf && k < |DofMap(nodes, ndf)|
    ensures k / ndf < |nodes| && DofMap(nodes, ndf)[k] == nodes[k / ndf] * ndf + k % ndf
  {
    DofMapLength(nodes, ndf);
    DivBelow(k, ndf, |nodes|);
    DofMapEntry(nodes, ndf, k);
  }

  lemma {:induction false} DofMapLength(nodes: seq<nat>, ndf: nat)
    ensures |DofMap(nodes, ndf)| == |nodes| * ndf
    decreases |nodes|
  {
    if |nodes| > 0 {
      DofMapLength(nodes[1..], ndf);
      assert |nodes| * ndf == ndf + |nodes[1..]| * ndf;
    }
  }

  lemma {:induction false} DofMapEntry(nodes: seq<nat>, ndf: nat, k: nat)
    requires 0 < ndf && k < |DofMap(nodes, ndf)| && k / ndf < |nodes|
    ensures DofMap(nodes, ndf)[k] == nodes[k / ndf] * ndf + k % ndf
    decreases |nodes|
  {
    var rest := nodes[1..];
    var dm := DofMap(nodes, ndf);
    assert dm == NodeDofs(nodes[0], ndf) + DofMap(rest, ndf);
    if k < ndf {
      DivModUnique(k, ndf, 0, k);
      assert dm[k] == NodeDofs(nodes[0], ndf)[k];
    } else {
      DofMapLength(rest, ndf);
      DivModShift(k, ndf);
      var j := (k - ndf) / ndf;
      assert j == k / ndf - 1;
      DofMapEntry(rest, ndf, k - ndf);
      assert dm[k] == DofMap(rest, ndf)[k - ndf];
      assert rest[j] == nodes[k / ndf];
    }
  }

  lemma DivBelow(k: nat, n: nat, m: nat)
    requires 0 < n && k < m * n
    ensures k / n < m
  {
    if m <= k / n {
      MulMono(m, k / n, n);
      assert false;
    }
  }

  lemma DivModShift(k: nat, n: nat)
    requires 0 < n <= k
    ensures (k - n) / n == k / n - 1 && (k - n) % n == k % n
  {
    var q, r := (k - n) / n, (k - n) % n;
    assert k - n == q * n + r && 0 <= r < n;
    assert k == (q + 1) * n + r;
    DivModUnique(k, n, q + 1, r);
  }

  /** Euclidean division by a positive divisor has one quotient and one
      remainder. */
  lemma DivModUnique(k: int, n: int, q: int, r: int)
    requires 0 < n && 0 <= r < n && k == q * n + r
    ensures k / n == q && k % n == r
  {
    var q0, r0 := k / n, k % n;
    assert k == q0 * n + r0 && 0 <= r0 < n;
    if q0 < q {
      MulMono(q0 + 1, q, n);
    } else if q < q0 {
      MulMono(q + 1, q0, n);
    }
  }

  lemma MulMono(a: int, b: int, n: int)
    requires a <= b && 0 < n
    ensures a * n <= b * n && (a - 1) * n == a * n - n
  {
    var c := b - a;
    assert b * n == a * n + c * n;
  }

  /** Distinct (node, component) pairs get distinct global dofs, and the dofs
      of the nodes below `numNodes` lie below `numNodes * ndf`. */
  lemma DofInjective(n1: nat, d1: nat, n2: nat, d2: nat, ndf: nat)
    requires d1 < ndf && d2 < ndf
    ensures n1 * ndf + d1 == n2 * ndf + d2 <==> n1 == n2 && d1 == d2
  {
    if n1 < n2 {
      assert n1 * ndf + d1 < (n1 + 1) * ndf <= n2 * ndf;
    } else if n2 < n1 {
      assert n2 * ndf + d2 < (n2 + 1) * ndf <= n1 * ndf;
    }
  }

  lemma DofInRange(n: nat, d: nat, ndf: nat, numNodes: nat)
    requires n < numNodes && d < ndf
    ensures n * ndf + d < numNodes * ndf
  {
    assert n * ndf + d < (n + 1) * ndf <= numNodes * ndf;
  }

  /** The entries of `v` owned by global index `a` under the map `dm`:
      `v[i]` where `dm[i] == a`, zero elsewhere. */
  function Owned(v: Vector, dm: seq<nat>, a: nat): nat -> real
  {
    (i: nat) => if i < |dm| && i < |v| && dm[i] == a then v[i] else 0.0
  }

  /** `Ke[i][j]` where `dm[i] == a` and `dm[j] == b`, zero elsewhere. */
  function ContribTerms(Ke: Matrix, dm: seq<nat>, a: nat, b: nat): (nat, nat) -> real
  {
    (i: nat, j: nat) =>
      if i < |dm| && j < |dm| && i < |Ke| && j < |Ke[i]| && dm[i] == a && dm[j] == b
      then Ke[i][j] else 0.0
  }

  /** What an element adds to the global entry `(a, b)`. */
  function Contribution(Ke: Matrix, dm: seq<nat>, a: nat, b: nat): real
  {
    DoubleSum(|dm|, |dm|, ContribTerms(Ke, dm, a, b))
  }

  /** `F[dm[i]] += Fe[i]` for `i < k`, in order. */
  function ScatterVector(F: Vector, Fe: Vector, dm: seq<nat>, k: nat): (F': Vector)
    requires |Fe| == |dm| && InRange(dm, |F|) && k <= |dm|
    ensures |F'| == |F|
    decreases k
  {
    if k == 0 then F
    else AddAtVec(ScatterVector(F, Fe, dm, k - 1), dm[k - 1], Fe[k - 1])
  }

  /** `K[dm[i]][dm[j]] += Ke[i][j]` for `j < k`, in order. */
  function ScatterRow(K: Matrix, Ke: Matrix, dm: seq<nat>, i: nat, k: nat): (K': Matrix)
    requires IsSquare(K, |K|) && IsSquare(Ke, |dm|) && InRange(dm, |K|)
    requires i < |dm| && k <= |dm|
    ensures IsSquare(K', |K|)
    decreases k
  {
    if k == 0 then K
    else AddAt(ScatterRow(K, Ke, dm, i, k - 1), dm[i], dm[k - 1], Ke[i][k - 1])
  }

  /** The rows `i < k` of `Ke` scattered, in order. */
  function ScatterMatrix(K: Matrix, Ke: Matrix, dm: seq<nat>, k: nat): (K': Matrix)
    requires IsSquare(K, |K|) && IsSquare(Ke, |dm|) && InRange(dm, |K|) && k <= |dm|
    ensures IsSquare(K', |K|)
    decreases k
  {
    if k == 0 then K
    else ScatterRow(ScatterMatrix(K, Ke, dm, k - 1), Ke, dm, k - 1, |dm|)
  }

  /** Entry `a` of the scattered vector is `F[a]` plus the local entries
      mapped to `a`. */
  lemma {:induction false} ScatterVectorEntries(F: Vector, Fe: Vector, dm: seq<nat>, k: nat, a: nat)
    requires |Fe| == |dm| && InRange(dm, |F|) && k <= |dm| && a < |F|
    ensures ScatterVector(F, Fe, dm, k)[a] == F[a] + Sum(k, Owned(Fe, dm, a))
    decreases k
  {
    if k > 0 {
      ScatterVectorEntries(F, Fe, dm, k - 1, a);
    }
  }

  lemma {:induction false} ScatterRowEntries(K: Matrix, Ke: Matrix, dm: seq<nat>, i: nat, k: nat, a: nat, b: nat)
    requires IsSquare(K, |K|) && IsSquare(Ke, |dm|) && InRange(dm, |K|)
    requires i < |dm| && k <= |dm| && a < |K| && b < |K|
    ensures ScatterRow(K, Ke, dm, i, k)[a][b] == K[a][b] + Sum(k, Row(ContribTerms(Ke, dm, a, b), i))
    decreases k
  {
    if k > 0 {
      ScatterRowEntries(K, Ke, dm, i, k - 1, a, b);
    }
  }

  /** Entry `(a, b)` of the scattered matrix is `K[a][b]` plus the local
      entries whose row maps to `a` and whose column maps to `b`. */
  lemma {:induction false} ScatterMatrixEntries(K: Matrix, Ke: Matrix, dm: seq<nat>, k: nat, a: nat, b: nat)
    requires IsSquare(K, |K|) && IsSquare(Ke, |dm|) && InRange(dm, |K|)
    requires k <= |dm| && a < |K| && b < |K|
    ensures ScatterMatrix(K, Ke, dm, k)[a][b] == K[a][b] + DoubleSum(k, |dm|, ContribTerms(Ke, dm, a, b))
    decreases k
  {
    if k > 0 {
      ScatterMatrixEntries(K, Ke, dm, k - 1, a, b);
      ScatterRowEntries(ScatterMatrix(K, Ke, dm, k - 1), Ke, dm, k - 1, |dm|, a, b);
    }
  }

  /** Scattering row `i` adds its partial total to the total of row `dm[i]`
      and leaves every other row total alone. */
  lemma {:induction false} ScatterRowTotals(K: Matrix, Ke: Matrix, dm: seq<nat>, i: nat, k: nat, r: nat)
    requires IsSquare(K, |K|) && IsSquare(Ke, |dm|) && InRange(dm, |K|)
    requires i < |dm| && k <= |dm| && r < |K|
    ensures Total(ScatterRow(K, Ke, dm, i, k)[r]) == Total(K[r]) + (if r == dm[i] then Sum(k, At(Ke[i])) else 0.0)
    decreases k
  {
    if k > 0 {
      ScatterRowTotals(K, Ke, dm, i, k - 1, r);
      AddAtRowTotal(ScatterRow(K, Ke, dm, i, k - 1), dm[i], dm[k - 1], Ke[i][k - 1], r);
    }
  }

  /** A local matrix whose rows sum to zero leaves every row total alone. */
  lemma {:induction false} ScatterMatrixRowTotals(K: Matrix, Ke: Matrix, dm: seq<nat>, k: nat, r: nat)
    requires IsSquare(K, |K|) && IsSquare(Ke, |dm|) && InRange(dm, |K|)
    requires k <= |dm| && r < |K|
    requires forall i :: 0 <= i < |dm| ==> Total(Ke[i]) == 0.0
    ensures Total(ScatterMatrix(K, Ke, dm, k)[r]) == Total(K[r])
    decreases k
  {
    if k > 0 {
      ScatterMatrixRowTotals(K, Ke, dm, k - 1, r);
      ScatterRowTotals(ScatterMatrix(K, Ke, dm, k - 1), Ke, dm, k - 1, |dm|, r);
    }
  }

  /** Scattering adds the entries of `Fe` to the total of `F`. */
  lemma {:induction false} ScatterVectorTotal(F: Vector, Fe: Vector, dm: seq<nat>, k: nat)
    requires |Fe| == |dm| && InRange(dm, |F|) && k <= |dm|
    ensures Total(ScatterVector(F, Fe, dm, k)) == Total(F) + Sum(k, At(Fe))
    decreases k
  {
    if k > 0 {
      ScatterVectorTotal(F, Fe, dm, k - 1);
      var F0 := ScatterVector(F, Fe, dm, k - 1);
      TotalUpdate(F0, dm[k - 1], F0[dm[k - 1]] + Fe[k - 1]);
    }
  }

  /** Scattering row `i` adds its entries to the sum of all entries. */
  lemma {:induction false} ScatterRowTotalSum(K: Matrix, Ke: Matrix, dm: seq<nat>, i: nat, k: nat)
    requires IsSquare(K, |K|) && IsSquare(Ke, |dm|) && InRange(dm, |K|)
    requires i < |dm| && k <= |dm|
    ensures TotalSum(ScatterRow(K, Ke, dm, i, k)) == TotalSum(K) + Sum(k, At(Ke[i]))
    decreases k
  {
    if k > 0 {
      ScatterRowTotalSum(K, Ke, dm, i, k - 1);
      AddAtTotalSum(ScatterRow(K, Ke, dm, i, k - 1), dm[i], dm[k - 1], Ke[i][k - 1]);
    }
  }

  /** Scattering adds the entries of `Ke`, row by row, to the sum of all
      entries: nothing is lost or counted twice. */
  lemma {:induction false} ScatterMatrixTotalSum(K: Matrix, Ke: Matrix, dm: seq<nat>, k: nat)
    requires IsSquare(K, |K|) && IsSquare(Ke, |dm|) && InRange(dm, |K|) && k <= |dm|
    ensures TotalSum(ScatterMatrix(K, Ke, dm, k)) == TotalSum(K) + Sum(k, RowTotals(Ke))
    decreases k
  {
    if k > 0 {
      ScatterMatrixTotalSum(K, Ke, dm, k - 1);
      ScatterMatrixTotalSumNext(K, Ke, dm, k);
    }
  }

  lemma ScatterMatrixTotalSumNext(K: Matrix, Ke: Matrix, dm: seq<nat>, k: nat)
    requires IsSquare(K, |K|) && IsSquare(Ke, |dm|) && InRange(dm, |K|) && 0 < k <= |dm|
    requires TotalSum(ScatterMatrix(K, Ke, dm, k - 1)) == TotalSum(K) + Sum(k - 1, RowTotals(Ke))
    ensures TotalSum(ScatterMatrix(K, Ke, dm, k)) == TotalSum(K) + Sum(k, RowTotals(Ke))
  {
    ScatterRowTotalSum(ScatterMatrix(K, Ke, dm, k - 1), Ke, dm, k - 1, |dm|);
  }

  /** Scattering row `i` adds row `i` of `Ke` applied to the gathered `x` to
      entry `dm[i]` of `K x`. */
  lemma {:induction false} ScatterRowMatVec(K: Matrix, Ke: Matrix, dm: seq<nat>, i: nat, k: nat, x: Vector, r: nat)
    requires IsSquare(K, |x|) && IsSquare(Ke, |dm|) && InRange(dm, |x|)
    requires i < |dm| && k <= |dm| && r < |x|
    ensures MatVec(ScatterRow(K, Ke, dm, i, k), x)[r]
      == MatVec(K, x)[r] + (if r == dm[i] then Sum(k, Products(Ke[i], Gather(x, dm))) else 0.0)
    decreases k
  {
    if k > 0 {
      ScatterRowMatVec(K, Ke, dm, i, k - 1, x, r);
      ScatterStepMatVec(ScatterRow(K, Ke, dm, i, k - 1), Ke, dm, i, k - 1, x, r);
    }
  }

  /** One update `K[dm[i]][dm[j]] += Ke[i][j]` adds term `j` of row `i` of
      `Ke` applied to the gathered `x` to entry `dm[i]` of `K x`. */
  lemma ScatterStepMatVec(K: Matrix, Ke: Matrix, dm: seq<nat>, i: nat, j: nat, x: Vector, r: nat)
    requires IsSquare(K, |x|) && IsSquare(Ke, |dm|) && InRange(dm, |x|)
    requires i < |dm| && j < |dm| && r < |x|
    ensures MatVec(AddAt(K, dm[i], dm[j], Ke[i][j]), x)[r]
      == MatVec(K, x)[r] + (if r == dm[i] then Products(Ke[i], Gather(x, dm))(j) else 0.0)
  {
    AddAtMatVec(K, dm[i], dm[j], Ke[i][j], x, r);
    assert Products(Ke[i], Gather(x, dm))(j) == Ke[i][j] * x[dm[j]];
  }

  /** Scattering `Ke` adds the scattered local product `Ke (x gathered)` to
      `K x`. */
  lemma {:induction false} ScatterMatrixMatVec(K: Matrix, Ke: Matrix, dm: seq<nat>, k: nat, x: Vector, r: nat)
    requires IsSquare(K, |x|) && IsSquare(Ke, |dm|) && InRange(dm, |x|)
    requires k <= |dm| && r < |x|
    ensures MatVec(ScatterMatrix(K, Ke, dm, k), x)[r]
      == MatVec(K, x)[r] + Sum(k, Owned(MatVec(Ke, Gather(x, dm)), dm, r))
    decreases k
  {
    if k > 0 {
      ScatterMatrixMatVec(K, Ke, dm, k - 1, x, r);
      ScatterMatrixStep(K, Ke, dm, k, x, r);
    }
  }

  /** Scattering row `k - 1` adds the owned entry `k - 1` of `Ke` applied to
      the gathered `x`. */
  lemma ScatterMatrixStep(K: Matrix, Ke: Matrix, dm: seq<nat>, k: nat, x: Vector, r: nat)
    requires IsSquare(K, |x|) && IsSquare(Ke, |dm|) && InRange(dm, |x|)
    requires 0 < k <= |dm| && r < |x|
    ensures MatVec(ScatterMatrix(K, Ke, dm, k), x)[r]
      == MatVec(ScatterMatrix(K, Ke, dm, k - 1), x)[r] + Owned(MatVec(Ke, Gather(x, dm)), dm, r)(k - 1)
  {
    ScatterRowMatVec(ScatterMatrix(K, Ke, dm, k - 1), Ke, dm, k - 1, |dm|, x, r);
    OwnedProduct(Ke, dm, x, k - 1, r);
  }

  /** Entry `i` of `Ke` applied to the gathered `x` is owned by `dm[i]`. */
  lemma OwnedProduct(Ke: Matrix, dm: seq<nat>, x: Vector, i: nat, r: nat)
    requires IsSquare(Ke, |dm|) && InRange(dm, |x|) && i < |dm|
    ensures Owned(MatVec(Ke, Gather(x, dm)), dm, r)(i)
      == if r == dm[i] then Sum(|dm|, Products(Ke[i], Gather(x, dm))) else 0.0
  {
  }

  // ---------------------------------------------------------------------
  // Global assembly
  // ---------------------------------------------------------------------

  /** The global matrix and the global residual vector. */
  datatype System = System(K: Matrix, F: Vector)

  predicate WellPosed(m: Mesh, rule: Rule)
  {
    ValidMesh(m) && ValidRule(rule) && NonDegenerate(m, rule)
  }

  /** One sequence of samples per element, each of the element's size and
      with balanced derivatives, as every rule yields on a non-degenerate
      mesh. The assembly is stated over such a table, so that whatever it
      promises holds for every rule. */
  predicate FitsMesh(m: Mesh, table: seq<seq<Sample>>)
  {
    ValidMesh(m) && |table| == |m.conn| &&
    forall e :: 0 <= e < |table| ==> ValidSamples(Nel(m.topology), table[e]) && Balanced(table[e])
  }

  /** The samples of every element of the mesh at the points of `rule`. */
  function MeshSamples(m: Mesh, rule: Rule): (table: seq<seq<Sample>>)
    requires WellPosed(m, rule)
    ensures FitsMesh(m, table)
    ensures forall e :: 0 <= e < |m.conn| ==> table[e] == ElementSamples(m.topology, rule, ElementCoords(m, e))
  {
    seq(|m.conn|, (e: int) requires 0 <= e < |m.conn| => ElementSamples(m.topology, rule, ElementCoords(m, e)))
  }

  function ElementK(m: Mesh, table: seq<seq<Sample>>, e: nat): (Ke: Matrix)
    requires FitsMesh(m, table) && e < |m.conn|
    ensures IsSquare(Ke, Nel(m.topology)) && Symmetric(Ke)
    ensures forall i :: 0 <= i < Nel(m.topology) ==> Total(Ke[i]) == 0.0
  {
    Stiffness(Nel(m.topology), table[e])
  }

  function ElementF(m: Mesh, table: seq<seq<Sample>>, u: Vector, f: real -> real, e: nat): (Fe: Vector)
    requires FitsMesh(m, table) && |u| == |m.coords| && e < |m.conn|
    ensures |Fe| == Nel(m.topology)
  {
    ElementLoad(Nel(m.topology), table[e], ElementCoords(m, e), Gather(u, m.conn[e]), f)
  }

  function ElementL(m: Mesh, table: seq<seq<Sample>>, f: real -> real, e: nat): (Le: Vector)
    requires FitsMesh(m, table) && e < |m.conn|
    ensures |Le| == Nel(m.topology)
  {
    SourceLoad(Nel(m.topology), table[e], ElementCoords(m, e), f)
  }

  /** The inputs of the scatter loop: for every element its dof map, its
      matrix and its vector, of matching sizes and addressing `n` global
      dofs. */
  predicate ValidElements(n: nat, dms: seq<seq<nat>>, Kes: seq<Matrix>, Fes: seq<Vector>)
  {
    |Kes| == |dms| && |Fes| == |dms| &&
    forall e :: 0 <= e < |dms| ==>
      InRange(dms[e], n) && IsSquare(Kes[e], |dms[e]|) && |Fes[e]| == |dms[e]|
  }

  /** The global system after scattering the first `k` elements, in order,
      into zero-initialised storage of size `n`. */
  function ScatterAll(n: nat, dms: seq<seq<nat>>, Kes: seq<Matrix>, Fes: seq<Vector>, k: nat): (s: System)
    requires ValidElements(n, dms, Kes, Fes) && k <= |dms|
    ensures IsSquare(s.K, n) && |s.F| == n
    decreases k
  {
    if k == 0 then System(ZeroMatrix(n), Zeros(n))
    else
      var s := ScatterAll(n, dms, Kes, Fes, k - 1);
      var e := k - 1;
      System(ScatterMatrix(s.K, Kes[e], dms[e], |dms[e]|),
             ScatterVector(s.F, Fes[e], dms[e], |dms[e]|))
  }

  /** Element `e`'s contribution to global entry `(a, b)`. */
  function Contributions(dms: seq<seq<nat>>, Kes: seq<Matrix>, a: nat, b: nat): nat -> real
  {
    (e: nat) => if e < |dms| && e < |Kes| then Contribution(Kes[e], dms[e], a, b) else 0.0
  }

  /** Every global entry is the sum over elements of the local entries whose
      row and column map to it. */
  lemma {:induction false} ScatterAllEntries(n: nat, dms: seq<seq<nat>>, Kes: seq<Matrix>, Fes: seq<Vector>, k: nat, a: nat, b: nat)
    requires ValidElements(n, dms, Kes, Fes) && k <= |dms| && a < n && b < n
    ensures ScatterAll(n, dms, Kes, Fes, k).K[a][b] == Sum(k, Contributions(dms, Kes, a, b))
    decreases k
  {
    if k > 0 {
      ScatterAllEntries(n, dms, Kes, Fes, k - 1, a, b);
      ScatterAllEntriesNext(n, dms, Kes, Fes, k, a, b);
    }
  }

  lemma ScatterAllEntriesNext(n: nat, dms: seq<seq<nat>>, Kes: seq<Matrix>, Fes: seq<Vector>, k: nat, a: nat, b: nat)
    requires ValidElements(n, dms, Kes, Fes) && 0 < k <= |dms| && a < n && b < n
    requires ScatterAll(n, dms, Kes, Fes, k - 1).K[a][b] == Sum(k - 1, Contributions(dms, Kes, a, b))
    ensures ScatterAll(n, dms, Kes, Fes, k).K[a][b] == Sum(k, Contributions(dms, Kes, a, b))
  {
    var e := k - 1;
    ScatterMatrixEntries(ScatterAll(n, dms, Kes, Fes, e).K, Kes[e], dms[e], |dms[e]|, a, b);
  }

  /** Every row of the global matrix sums to zero when every row of every
      element matrix does. */
  lemma {:induction false} ScatterAllRowTotals(n: nat, dms: seq<seq<nat>>, Kes: seq<Matrix>, Fes: seq<Vector>, k: nat, a: nat)
    requires ValidElements(n, dms, Kes, Fes) && k <= |dms| && a < n
    requires forall e, i :: 0 <= e < |dms| && 0 <= i < |dms[e]| ==> Total(Kes[e][i]) == 0.0
    ensures Total(ScatterAll(n, dms, Kes, Fes, k).K[a]) == 0.0
    decreases k
  {
    if k == 0 {
      SumZero(n, At(Zeros(n)));
    } else {
      var e := k - 1;
      ScatterAllRowTotals(n, dms, Kes, Fes, e, a);
      ScatterMatrixRowTotals(ScatterAll(n, dms, Kes, Fes, e).K, Kes[e], dms[e], |dms[e]|, a);
    }
  }

  /** The sum of all entries of each element matrix. */
  function MatrixTotals(Kes: seq<Matrix>): nat -> real
  {
    (e: nat) => if e < |Kes| then TotalSum(Kes[e]) else 0.0
  }

  /** The sum of the entries of each element vector. */
  function VectorTotals(Fes: seq<Vector>): nat -> real
  {
    (e: nat) => if e < |Fes| then Total(Fes[e]) else 0.0
  }

  /** The scatter conserves the matrix total: the entries of the global
      matrix sum to the entries of the element matrices. */
  lemma {:induction false} ScatterAllMatrixTotal(n: nat, dms: seq<seq<nat>>, Kes: seq<Matrix>, Fes: seq<Vector>, k: nat)
    requires ValidElements(n, dms, Kes, Fes) && k <= |dms|
    ensures TotalSum(ScatterAll(n, dms, Kes, Fes, k).K) == Sum(k, MatrixTotals(Kes))
    decreases k
  {
    if k == 0 {
      ZeroTotals(n);
    } else {
      ScatterAllMatrixTotal(n, dms, Kes, Fes, k - 1);
      ScatterAllMatrixTotalNext(n, dms, Kes, Fes, k);
    }
  }

  lemma ScatterAllMatrixTotalNext(n: nat, dms: seq<seq<nat>>, Kes: seq<Matrix>, Fes: seq<Vector>, k: nat)
    requires ValidElements(n, dms, Kes, Fes) && 0 < k <= |dms|
    requires TotalSum(ScatterAll(n, dms, Kes, Fes, k - 1).K) == Sum(k - 1, MatrixTotals(Kes))
    ensures TotalSum(ScatterAll(n, dms, Kes, Fes, k).K) == Sum(k, MatrixTotals(Kes))
  {
    var e := k - 1;
    ScatterMatrixTotalSum(ScatterAll(n, dms, Kes, Fes, e).K, Kes[e], dms[e], |dms[e]|);
  }

  /** The scatter conserves the vector total: the entries of the global
      vector sum to the entries of the element vectors. */
  lemma {:induction false} ScatterAllVectorTotal(n: nat, dms: seq<seq<nat>>, Kes: seq<Matrix>, Fes: seq<Vector>, k: nat)
    requires ValidElements(n, dms, Kes, Fes) && k <= |dms|
    ensures Total(ScatterAll(n, dms, Kes, Fes, k).F) == Sum(k, VectorTotals(Fes))
    decreases k
  {
    if k == 0 {
      ZeroTotals(n);
    } else {
      ScatterAllVectorTotal(n, dms, Kes, Fes, k - 1);
      ScatterAllVectorTotalNext(n, dms, Kes, Fes, k);
    }
  }

  lemma ScatterAllVectorTotalNext(n: nat, dms: seq<seq<nat>>, Kes: seq<Matrix>, Fes: seq<Vector>, k: nat)
    requires ValidElements(n, dms, Kes, Fes) && 0 < k <= |dms|
    requires Total(ScatterAll(n, dms, Kes, Fes, k - 1).F) == Sum(k - 1, VectorTotals(Fes))
    ensures Total(ScatterAll(n, dms, Kes, Fes, k).F) == Sum(k, VectorTotals(Fes))
  {
    var e := k - 1;
    ScatterVectorTotal(ScatterAll(n, dms, Kes, Fes, e).F, Fes[e], dms[e], |dms[e]|);
  }

  /** Every element vector `Fes[e]` is the residual `Les[e] - Kes[e] ul` of
      the element source vector, `ul` the nodal values gathered from `u`. */
  predicate ResidualForm(n: nat, dms: seq<seq<nat>>, Kes: seq<Matrix>, Fes: seq<Vector>, Les: seq<Vector>, u: Vector)
  {
    ValidElements(n, dms, Kes, Fes) && ValidElements(n, dms, Kes, Les) && |u| == n &&
    forall e, i :: 0 <= e < |dms| && 0 <= i < |dms[e]| ==>
      Fes[e][i] == Les[e][i] - Dot(Kes[e][i], Gather(u, dms[e]))
  }

  /** When every element vector is `Le - Ke ul`, with `ul` the gathered
      nodal values, the global vector is `L - K u`, `L` the scattered `Le`. */
  lemma {:induction false} ScatterAllResidual(n: nat, dms: seq<seq<nat>>, Kes: seq<Matrix>, Fes: seq<Vector>, Les: seq<Vector>, u: Vector, k: nat, a: nat)
    requires ResidualForm(n, dms, Kes, Fes, Les, u) && k <= |dms| && a < n
    ensures ScatterAll(n, dms, Kes, Fes, k).F[a]
      == ScatterAll(n, dms, Kes, Les, k).F[a] - MatVec(ScatterAll(n, dms, Kes, Fes, k).K, u)[a]
    decreases k
  {
    if k == 0 {
      SumZero(n, Products(ZeroMatrix(n)[a], u));
    } else {
      ScatterAllResidual(n, dms, Kes, Fes, Les, u, k - 1, a);
      ScatterAllResidualNext(n, dms, Kes, Fes, Les, u, k, a);
    }
  }

  /** The residual form carries over from the first `k - 1` elements to `k`. */
  lemma ScatterAllResidualNext(n: nat, dms: seq<seq<nat>>, Kes: seq<Matrix>, Fes: seq<Vector>, Les: seq<Vector>, u: Vector, k: nat, a: nat)
    requires ResidualForm(n, dms, Kes, Fes, Les, u) && 0 < k <= |dms| && a < n
    requires ScatterAll(n, dms, Kes, Fes, k - 1).F[a]
      == ScatterAll(n, dms, Kes, Les, k - 1).F[a] - MatVec(ScatterAll(n, dms, Kes, Fes, k - 1).K, u)[a]
    ensures ScatterAll(n, dms, Kes, Fes, k).F[a]
      == ScatterAll(n, dms, Kes, Les, k).F[a] - MatVec(ScatterAll(n, dms, Kes, Fes, k).K, u)[a]
  {
    var e := k - 1;
    var s, sl := ScatterAll(n, dms, Kes, Fes, e), ScatterAll(n, dms, Kes, Les, e);
    ScatterResidualStep(n, dms, Kes, Fes, Les, u, e, s.K, s.F, sl.F, a);
  }

  /** One element keeps the residual form: scattering `Le - Ke ul` into
      `L - K u` yields the residual of the scattered `L` and `K`. */
  lemma ScatterResidualStep(n: nat, dms: seq<seq<nat>>, Kes: seq<Matrix>, Fes: seq<Vector>, Les: seq<Vector>,
                            u: Vector, e: nat, K: Matrix, F: Vector, L: Vector, a: nat)
    requires ResidualForm(n, dms, Kes, Fes, Les, u) && e < |dms| && a < n
    requires IsSquare(K, n) && |F| == n && |L| == n
    requires F[a] == L[a] - MatVec(K, u)[a]
    ensures ScatterVector(F, Fes[e], dms[e], |dms[e]|)[a]
      == ScatterVector(L, Les[e], dms[e], |dms[e]|)[a] - MatVec(ScatterMatrix(K, Kes[e], dms[e], |dms[e]|), u)[a]
  {
    var dm, Ke, Fe, Le := dms[e], Kes[e], Fes[e], Les[e];
    var KeU := MatVec(Ke, Gather(u, dm));
    ScatterVectorEntries(F, Fe, dm, |dm|, a);
    ScatterVectorEntries(L, Le, dm, |dm|, a);
    ScatterMatrixMatVec(K, Ke, dm, |dm|, u, a);
    forall i: nat | i < |dm|
      ensures Owned(Le, dm, a)(i) == Owned(Fe, dm, a)(i) + Owned(KeU, dm, a)(i)
    {
    }
    SumAdd(|dm|, Owned(Le, dm, a), Owned(Fe, dm, a), Owned(KeU, dm, a));
  }

  /** The dof maps, element matrices and element vectors of a mesh. */
  function MeshDofs(m: Mesh): (dms: seq<seq<nat>>)
    ensures |dms| == |m.conn|
    ensures forall e :: 0 <= e < |m.conn| ==> dms[e] == DofMap(m.conn[e], 1) == m.conn[e]
  {
    seq(|m.conn|, (e: int) requires 0 <= e < |m.conn| => DofMap(m.conn[e], 1))
  }

  function MeshStiffness(m: Mesh, table: seq<seq<Sample>>): (Kes: seq<Matrix>)
    requires FitsMesh(m, table)
    ensures |Kes| == |m.conn|
    ensures forall e :: 0 <= e < |m.conn| ==> Kes[e] == ElementK(m, table, e)
  {
    seq(|m.conn|, (e: int) requires 0 <= e < |m.conn| => ElementK(m, table, e))
  }

  function MeshResidual(m: Mesh, table: seq<seq<Sample>>, u: Vector, f: real -> real): (Fes: seq<Vector>)
    requires FitsMesh(m, table) && |u| == |m.coords|
    ensures |Fes| == |m.conn|
    ensures forall e :: 0 <= e < |m.conn| ==> Fes[e] == ElementF(m, table, u, f, e)
  {
    seq(|m.conn|, (e: int) requires 0 <= e < |m.conn| => ElementF(m, table, u, f, e))
  }

  function MeshSource(m: Mesh, table: seq<seq<Sample>>, f: real -> real): (Les: seq<Vector>)
    requires FitsMesh(m, table)
    ensures |Les| == |m.conn|
    ensures forall e :: 0 <= e < |m.conn| ==> Les[e] == ElementL(m, table, f, e)
  {
    seq(|m.conn|, (e: int) requires 0 <= e < |m.conn| => ElementL(m, table, f, e))
  }

  lemma MeshElementsValid(m: Mesh, table: seq<seq<Sample>>, u: Vector, f: real -> real)
    requires FitsMesh(m, table) && |u| == |m.coords|
    ensures ValidElements(|m.coords|, MeshDofs(m), MeshStiffness(m, table), MeshResidual(m, table, u, f))
    ensures ValidElements(|m.coords|, MeshDofs(m), MeshStiffness(m, table), MeshSource(m, table, f))
  {
  }

  /** The assembled system before boundary conditions: every element's
      stiffness and residual at the nodal values `u`, computed from the
      element's samples, scattered through its dof map. */
  function AssembleWith(m: Mesh, table: seq<seq<Sample>>, u: Vector, f: real -> real): (s: System)
    requires FitsMesh(m, table) && |u| == |m.coords|
    ensures IsSquare(s.K, |m.coords|) && |s.F| == |m.coords|
  {
    MeshElementsValid(m, table, u, f);
    ScatterAll(|m.coords|, MeshDofs(m), MeshStiffness(m, table), MeshResidual(m, table, u, f), |m.conn|)
  }

  /** The assembled consistent source load. */
  function AssembleSourceWith(m: Mesh, table: seq<seq<Sample>>, f: real -> real): (L: Vector)
    requires FitsMesh(m, table)
    ensures |L| == |m.coords|
  {
    MeshElementsValid(m, table, Zeros(|m.coords|), f);
    ScatterAll(|m.coords|, MeshDofs(m), MeshStiffness(m, table), MeshSource(m, table, f), |m.conn|).F
  }

  /** The assembly at the points of a quadrature rule, before boundary
      conditions: `AssembleWith` at the rule's samples. The matrix is
      symmetric with rows summing to zero, and the vector is the residual of
      the assembled source load at `u`. */
  function AssembleSystem(m: Mesh, rule: Rule, u: Vector, f: real -> real): (s: System)
    requires WellPosed(m, rule) && |u| == |m.coords|
    ensures IsSquare(s.K, |m.coords|) && |s.F| == |m.coords|
    ensures Symmetric(s.K)
    ensures forall a :: 0 <= a < |m.coords| ==> Total(s.K[a]) == 0.0
    ensures ResidualSystem(s, AssembleSourceWith(m, MeshSamples(m, rule), f), u)
  {
    var table := MeshSamples(m, rule);
    AssembledSymmetric(m, table, u, f);
    AssembledResidual(m, table, u, f);
    assert forall a :: 0 <= a < |m.coords| ==> Total(AssembleWith(m, table, u, f).K[a]) == 0.0 by {
      forall a | 0 <= a < |m.coords| {
        AssembledRowTotals(m, table, u, f, a);
      }
    }
    AssembleWith(m, table, u, f)
  }

  /** A symmetric element matrix contributes equally to `(a, b)` and
      `(b, a)`. */
  lemma ContributionSymmetric(Ke: Matrix, dm: seq<nat>, a: nat, b: nat)
    requires IsSquare(Ke, |dm|) && Symmetric(Ke)
    ensures Contribution(Ke, dm, a, b) == Contribution(Ke, dm, b, a)
  {
    DoubleSumSwap(|dm|, |dm|, ContribTerms(Ke, dm, a, b), ContribTerms(Ke, dm, b, a));
  }

  /** An element contributes nothing to `(a, b)` unless both are its dofs. */
  lemma ContributionOutside(Ke: Matrix, dm: seq<nat>, a: nat, b: nat)
    requires !(a in dm && b in dm)
    ensures Contribution(Ke, dm, a, b) == 0.0
  {
    var n := |dm|;
    forall i: nat | i < n
      ensures RowSums(ContribTerms(Ke, dm, a, b), n)(i) == 0.0
    {
      SumZero(n, Row(ContribTerms(Ke, dm, a, b), i));
    }
    SumZero(n, RowSums(ContribTerms(Ke, dm, a, b), n));
  }

  /** Scattering symmetric element matrices gives a symmetric global
      matrix. */
  lemma ScatterAllSymmetric(n: nat, dms: seq<seq<nat>>, Kes: seq<Matrix>, Fes: seq<Vector>)
    requires ValidElements(n, dms, Kes, Fes)
    requires forall e :: 0 <= e < |dms| ==> Symmetric(Kes[e])
    ensures Symmetric(ScatterAll(n, dms, Kes, Fes, |dms|).K)
  {
    var K := ScatterAll(n, dms, Kes, Fes, |dms|).K;
    forall a, b | 0 <= a < n && 0 <= b < n
      ensures K[a][b] == K[b][a]
    {
      ScatterAllEntries(n, dms, Kes, Fes, |dms|, a, b);
      ScatterAllEntries(n, dms, Kes, Fes, |dms|, b, a);
      forall e: nat | e < |dms|
        ensures Contributions(dms, Kes, a, b)(e) == Contributions(dms, Kes, b, a)(e)
      {
        ContributionSymmetric(Kes[e], dms[e], a, b);
      }
      SumExt(|dms|, Contributions(dms, Kes, a, b), Contributions(dms, Kes, b, a));
    }
  }

  /** An assembled entry is zero unless some element has both dofs. */
  lemma ScatterAllSparsity(n: nat, dms: seq<seq<nat>>, Kes: seq<Matrix>, Fes: seq<Vector>, a: nat, b: nat)
    requires ValidElements(n, dms, Kes, Fes) && a < n && b < n
    requires forall e :: 0 <= e < |dms| ==> !(a in dms[e] && b in dms[e])
    ensures ScatterAll(n, dms, Kes, Fes, |dms|).K[a][b] == 0.0
  {
    ScatterAllEntries(n, dms, Kes, Fes, |dms|, a, b);
    forall e: nat | e < |dms|
      ensures Contributions(dms, Kes, a, b)(e) == 0.0
    {
      ContributionOutside(Kes[e], dms[e], a, b);
    }
    SumZero(|dms|, Contributions(dms, Kes, a, b));
  }

  /** The assembled matrix is symmetric. */
  lemma AssembledSymmetric(m: Mesh, table: seq<seq<Sample>>, u: Vector, f: real -> real)
    requires FitsMesh(m, table) && |u| == |m.coords|
    ensures Symmetric(AssembleWith(m, table, u, f).K)
  {
    MeshElementsValid(m, table, u, f);
    ScatterAllSymmetric(|m.coords|, MeshDofs(m), MeshStiffness(m, table), MeshResidual(m, table, u, f));
  }

  /** Sparsity: an assembled entry is zero unless some element has both
      dofs. */
  lemma AssembledSparsity(m: Mesh, table: seq<seq<Sample>>, u: Vector, f: real -> real, a: nat, b: nat)
    requires FitsMesh(m, table) && |u| == |m.coords|
    requires a < |m.coords| && b < |m.coords|
    requires forall e :: 0 <= e < |m.conn| ==> !(a in m.conn[e] && b in m.conn[e])
    ensures AssembleWith(m, table, u, f).K[a][b] == 0.0
  {
    MeshElementsValid(m, table, u, f);
    ScatterAllSparsity(|m.coords|, MeshDofs(m), MeshStiffness(m, table), MeshResidual(m, table, u, f), a, b);
  }

  /** Every row of the assembled matrix sums to zero: constant nodal values
      lie in its kernel. */
  lemma AssembledRowTotals(m: Mesh, table: seq<seq<Sample>>, u: Vector, f: real -> real, a: nat)
    requires FitsMesh(m, table) && |u| == |m.coords| && a < |m.coords|
    ensures Total(AssembleWith(m, table, u, f).K[a]) == 0.0
  {
    MeshElementsValid(m, table, u, f);
    ScatterAllRowTotals(|m.coords|, MeshDofs(m), MeshStiffness(m, table), MeshResidual(m, table, u, f), |m.conn|, a);
  }

  /** Assembly conserves totals: the entries of `K` sum to the entries of
      all element stiffness matrices, and those of `F` to those of all
      element residual vectors. */
  lemma AssembledTotals(m: Mesh, table: seq<seq<Sample>>, u: Vector, f: real -> real)
    requires FitsMesh(m, table) && |u| == |m.coords|
    ensures TotalSum(AssembleWith(m, table, u, f).K) == Sum(|m.conn|, MatrixTotals(MeshStiffness(m, table)))
    ensures Total(AssembleWith(m, table, u, f).F) == Sum(|m.conn|, VectorTotals(MeshResidual(m, table, u, f)))
  {
    MeshElementsValid(m, table, u, f);
    ScatterAllMatrixTotal(|m.coords|, MeshDofs(m), MeshStiffness(m, table), MeshResidual(m, table, u, f), |m.conn|);
    ScatterAllVectorTotal(|m.coords|, MeshDofs(m), MeshStiffness(m, table), MeshResidual(m, table, u, f), |m.conn|);
  }

  /** `s` is square with right-hand side the residual `L - K u` of the
      source vector `L` at `u`. */
  predicate ResidualSystem(s: System, L: Vector, u: Vector)
  {
    IsSquare(s.K, |s.F|) && |L| == |s.F| && |u| == |s.F| &&
    forall a :: 0 <= a < |s.F| ==> s.F[a] == L[a] - MatVec(s.K, u)[a]
  }

  /** The assembled residual is the assembled source load less the assembled
      matrix applied to the nodal values `u`. */
  lemma AssembledResidual(m: Mesh, table: seq<seq<Sample>>, u: Vector, f: real -> real)
    requires FitsMesh(m, table) && |u| == |m.coords|
    ensures ResidualSystem(AssembleWith(m, table, u, f), AssembleSourceWith(m, table, f), u)
  {
    var n, ne := |m.coords|, |m.conn|;
    var dms, Kes := MeshDofs(m), MeshStiffness(m, table);
    var Fes, Les := MeshResidual(m, table, u, f), MeshSource(m, table, f);
    MeshElementsValid(m, table, u, f);
    MeshElementsValid(m, table, Zeros(n), f);
    assert ResidualForm(n, dms, Kes, Fes, Les, u);
    forall a | 0 <= a < n
      ensures AssembleWith(m, table, u, f).F[a]
        == AssembleSourceWith(m, table, f)[a] - MatVec(AssembleWith(m, table, u, f).K, u)[a]
    {
      ScatterAllResidual(n, dms, Kes, Fes, Les, u, ne, a);
    }
  }

  // ---------------------------------------------------------------------
  // Dirichlet elimination
  // ---------------------------------------------------------------------

  /** Row `d` and column `d` cleared, the diagonal entry set to one and the
      right-hand side entry set to `value`, in that order. */
  function EliminateDof(s: System, d: nat, value: real): (s': System)
    requires IsSquare(s.K, |s.F|) && d < |s.F|
    ensures IsSquare(s'.K, |s.F|) && |s'.F| == |s.F|
    ensures forall a, b :: 0 <= a < |s.F| && 0 <= b < |s.F| ==>
      s'.K[a][b] == if a == d || b == d then (if a == b then 1.0 else 0.0) else s.K[a][b]
    ensures forall a :: 0 <= a < |s.F| ==> s'.F[a] == if a == d then value else s.F[a]
  {
    var n := |s.F|;
    var rowCleared := s.K[d := Zeros(n)];
    var cleared := seq(n, (r: int) requires 0 <= r < n => rowCleared[r][d := 0.0]);
    System(cleared[d := cleared[d][d := 1.0]], s.F[d := value])
  }

  /** Every boundary node in turn eliminated, its right-hand side set to the
      prescribed value `g` at the node's coordinate. Whatever the order and
      any repetition, a row or column touches the boundary exactly when it
      becomes a row or column of the identity. */
  function ApplyDirichlet(s: System, boundary: seq<nat>, coords: seq<real>, g: real -> real): (s': System)
    requires IsSquare(s.K, |s.F|) && |coords| == |s.F| && InRange(boundary, |s.F|)
    ensures IsSquare(s'.K, |s.F|) && |s'.F| == |s.F|
    ensures forall a, b {:trigger s'.K[a][b]} :: 0 <= a < |s.F| && 0 <= b < |s.F| ==>
      s'.K[a][b] == if a in boundary || b in boundary then (if a == b then 1.0 else 0.0) else s.K[a][b]
    ensures forall a {:trigger s'.F[a]} :: 0 <= a < |s.F| ==> s'.F[a] == if a in boundary then g(coords[a]) else s.F[a]
    decreases |boundary|
  {
    if |boundary| == 0 then s
    else
      var n, d, rest := |s.F|, boundary[0], boundary[1..];
      assert forall a :: a in boundary <==> a == d || a in rest;
      var s1 := EliminateDof(s, d, g(coords[d]));
      var r := ApplyDirichlet(s1, rest, coords, g);
      assert forall a, b :: 0 <= a < n && 0 <= b < n ==>
        r.K[a][b] == if a in rest || b in rest then (if a == b then 1.0 else 0.0) else s1.K[a][b];
      r
  }

  /** The elimination keeps a symmetric matrix symmetric. */
  lemma DirichletSymmetric(s: System, boundary: seq<nat>, coords: seq<real>, g: real -> real)
    requires IsSquare(s.K, |s.F|) && |coords| == |s.F| && InRange(boundary, |s.F|)
    requires Symmetric(s.K)
    ensures Symmetric(ApplyDirichlet(s, boundary, coords, g).K)
  {
  }

  /** Eliminating twice is eliminating once. */
  lemma DirichletIdempotent(s: System, boundary: seq<nat>, coords: seq<real>, g: real -> real)
    requires IsSquare(s.K, |s.F|) && |coords| == |s.F| && InRange(boundary, |s.F|)
    ensures ApplyDirichlet(ApplyDirichlet(s, boundary, coords, g), boundary, coords, g)
      == ApplyDirichlet(s, boundary, coords, g)
  {
    var s1 := ApplyDirichlet(s, boundary, coords, g);
    var s2 := ApplyDirichlet(s1, boundary, coords, g);
    var n := |s.F|;
    forall a | 0 <= a < n
      ensures s2.K[a] == s1.K[a]
    {
      assert forall b :: 0 <= b < n ==> s2.K[a][b] == s1.K[a][b];
    }
    assert forall a :: 0 <= a < n ==> s2.F[a] == s1.F[a];
  }

  /** The nodal values the driver passes to the assembly: the prescribed
      value `g` at every boundary node and zero elsewhere. */
  predicate Prefilled(u: Vector, boundary: seq<nat>, coords: seq<real>, g: real -> real)
    requires |u| == |coords|
  {
    forall a :: 0 <= a < |u| ==> u[a] == if a in boundary then g(coords[a]) else 0.0
  }

  /** `x` takes the prescribed values on the boundary and satisfies the
      equations `(K x)[a] == L[a]` of every other node. */
  predicate SolvesBoundaryProblem(K: Matrix, L: Vector, boundary: seq<nat>, coords: seq<real>, g: real -> real, x: Vector)
    requires IsSquare(K, |x|) && |L| == |x| && |coords| == |x|
  {
    (forall d :: 0 <= d < |x| && d in boundary ==> x[d] == g(coords[d])) &&
    (forall a :: 0 <= a < |x| && a !in boundary ==> MatVec(K, x)[a] == L[a])
  }

  /** A boundary row of the eliminated matrix applied to `x` picks `x[a]`. */
  lemma EliminatedBoundaryRow(K': Matrix, a: nat, x: Vector)
    requires IsSquare(K', |x|) && a < |x|
    requires forall b :: 0 <= b < |x| ==> K'[a][b] == if a == b then 1.0 else 0.0
    ensures MatVec(K', x)[a] == x[a]
  {
    SumSingle(|x|, Products(K'[a], x), a);
  }

  /** On an interior row, once `x` matches `u` on the boundary, the
      eliminated matrix applied to `x` is `K x - K u`. */
  lemma EliminatedInteriorRow(K: Matrix, K': Matrix, a: nat, u: Vector, x: Vector, boundary: seq<nat>)
    requires IsSquare(K, |x|) && IsSquare(K', |x|) && |u| == |x| && a < |x|
    requires forall b :: 0 <= b < |x| ==> K'[a][b] == if b in boundary then 0.0 else K[a][b]
    requires forall b :: 0 <= b < |x| ==> if b in boundary then u[b] == x[b] else u[b] == 0.0
    ensures MatVec(K', x)[a] == MatVec(K, x)[a] - MatVec(K, u)[a]
  {
    forall b: nat | b < |x|
      ensures Products(K[a], x)(b) == Products(K'[a], x)(b) + Products(K[a], u)(b)
    {
    }
    SumAdd(|x|, Products(K[a], x), Products(K'[a], x), Products(K[a], u));
  }

  /** Strong imposition is exact. When the right-hand side is the residual
      `L - K u` at prefilled values `u`, the eliminated system `K' x = F'`
      holds exactly when `x` takes the prescribed boundary values and
      satisfies the equations of all other nodes. */
  lemma DirichletEquivalence(s: System, L: Vector, u: Vector, boundary: seq<nat>,
                             coords: seq<real>, g: real -> real, x: Vector)
    requires ResidualSystem(s, L, u) && |x| == |s.F| && |coords| == |s.F|
    requires InRange(boundary, |s.F|)
    requires Prefilled(u, boundary, coords, g)
    ensures var s' := ApplyDirichlet(s, boundary, coords, g);
      MatVec(s'.K, x) == s'.F <==> SolvesBoundaryProblem(s.K, L, boundary, coords, g, x)
  {
    var s' := ApplyDirichlet(s, boundary, coords, g);
    if MatVec(s'.K, x) == s'.F {
      EliminatedSolutionSolves(s, L, u, boundary, coords, g, x);
    }
    if SolvesBoundaryProblem(s.K, L, boundary, coords, g, x) {
      SolutionSolvesEliminated(s, L, u, boundary, coords, g, x);
    }
  }

  lemma EliminatedSolutionSolves(s: System, L: Vector, u: Vector, boundary: seq<nat>,
                                 coords: seq<real>, g: real -> real, x: Vector)
    requires ResidualSystem(s, L, u) && |x| == |s.F| && |coords| == |s.F|
    requires InRange(boundary, |s.F|)
    requires Prefilled(u, boundary, coords, g)
    requires var s' := ApplyDirichlet(s, boundary, coords, g); MatVec(s'.K, x) == s'.F
    ensures SolvesBoundaryProblem(s.K, L, boundary, coords, g, x)
  {
    var n := |s.F|;
    var s' := ApplyDirichlet(s, boundary, coords, g);
    forall d | 0 <= d < n && d in boundary
      ensures x[d] == g(coords[d])
    {
      EliminatedBoundaryRow(s'.K, d, x);
      assert MatVec(s'.K, x)[d] == s'.F[d];
    }
    forall a | 0 <= a < n && a !in boundary
      ensures MatVec(s.K, x)[a] == L[a]
    {
      EliminatedInteriorRow(s.K, s'.K, a, u, x, boundary);
      assert MatVec(s'.K, x)[a] == s'.F[a];
    }
  }

  lemma SolutionSolvesEliminated(s: System, L: Vector, u: Vector, boundary: seq<nat>,
                                 coords: seq<real>, g: real -> real, x: Vector)
    requires ResidualSystem(s, L, u) && |x| == |s.F| && |coords| == |s.F|
    requires InRange(boundary, |s.F|)
    requires Prefilled(u, boundary, coords, g)
    requires SolvesBoundaryProblem(s.K, L, boundary, coords, g, x)
    ensures var s' := ApplyDirichlet(s, boundary, coords, g); MatVec(s'.K, x) == s'.F
  {
    var n := |s.F|;
    var s' := ApplyDirichlet(s, boundary, coords, g);
    forall a | 0 <= a < n
      ensures MatVec(s'.K, x)[a] == s'.F[a]
    {
      if a in boundary {
        EliminatedBoundaryRow(s'.K, a, x);
      } else {
        EliminatedInteriorRow(s.K, s'.K, a, u, x, boundary);
      }
    }
  }

  /** The assembled and eliminated system of a mesh, at the prefilled nodal
      values, is solved exactly by the nodal vectors that match `g` on the
      boundary and satisfy the Galerkin equations `(K x)[a] == L[a]` at every
      other node. */
  lemma AssembledDirichletEquivalence(m: Mesh, table: seq<seq<Sample>>, f: real -> real, g: real -> real,
                                      boundary: seq<nat>, u: Vector, x: Vector)
    requires FitsMesh(m, table) && |u| == |m.coords| && |x| == |m.coords|
    requires InRange(boundary, |m.coords|) && Prefilled(u, boundary, m.coords, g)
    ensures var s := AssembleWith(m, table, u, f);
      var s' := ApplyDirichlet(s, boundary, m.coords, g);
      MatVec(s'.K, x) == s'.F <==> SolvesBoundaryProblem(s.K, AssembleSourceWith(m, table, f), boundary, m.coords, g, x)
  {
    AssembledResidual(m, table, u, f);
    DirichletEquivalence(AssembleWith(m, table, u, f), AssembleSourceWith(m, table, f), u, boundary, m.coords, g, x);
  }

  /** The eliminated system `s'` is solved exactly by the nodal vectors
      that take the boundary values and satisfy the equations `(K x)[a] ==
      L[a]` of every other node. */
  ghost predicate ExactElimination(s': System, K: Matrix, L: Vector, boundary: seq<nat>, coords: seq<real>, g: real -> real)
  {
    forall x :: |x| == |s'.F| && IsSquare(K, |x|) && |L| == |x| && |coords| == |x| ==>
      (MatVec(s'.K, x) == s'.F <==> SolvesBoundaryProblem(K, L, boundary, coords, g, x))
  }

  /** `DirichletEquivalence` for every nodal vector at once. */
  lemma EliminationExact(s: System, L: Vector, u: Vector, boundary: seq<nat>, coords: seq<real>, g: real -> real)
    requires ResidualSystem(s, L, u) && |coords| == |s.F|
    requires InRange(boundary, |s.F|)
    requires Prefilled(u, boundary, coords, g)
    ensures ExactElimination(ApplyDirichlet(s, boundary, coords, g), s.K, L, boundary, coords, g)
  {
    forall x | |x| == |s.F|
      ensures var s' := ApplyDirichlet(s, boundary, coords, g);
        MatVec(s'.K, x) == s'.F <==> SolvesBoundaryProblem(s.K, L, boundary, coords, g, x)
    {
      DirichletEquivalence(s, L, u, boundary, coords, g, x);
    }
  }

  /** The whole assembly routine: the system at the points of `rule`, then
      the strong elimination of every boundary node. The result is
      symmetric, and at prefilled nodal values it is solved exactly by the
      nodal vectors that take the boundary values and satisfy the Galerkin
      equations of every other node. */
  function AssembleAndConstrain(m: Mesh, rule: Rule, u: Vector, f: real -> real,
                                boundary: seq<nat>, g: real -> real): (s': System)
    requires WellPosed(m, rule) && |u| == |m.coords| && InRange(boundary, |m.coords|)
    ensures IsSquare(s'.K, |m.coords|) && |s'.F| == |m.coords|
    ensures Symmetric(s'.K)
    ensures Prefilled(u, boundary, m.coords, g) ==>
      ExactElimination(s', AssembleSystem(m, rule, u, f).K, AssembleSourceWith(m, MeshSamples(m, rule), f),
                       boundary, m.coords, g)
  {
    var s := AssembleSystem(m, rule, u, f);
    DirichletSymmetric(s, boundary, m.coords, g);
    if Prefilled(u, boundary, m.coords, g) then
      EliminationExact(s, AssembleSourceWith(m, MeshSamples(m, rule), f), u, boundary, m.coords, g);
      ApplyDirichlet(s, boundary, m.coords, g)
    else
      ApplyDirichlet(s, boundary, m.coords, g)
  }
}
