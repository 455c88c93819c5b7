# 1D Poisson finite elements: quadrature, assembly, Dirichlet elimination, L2 error

A model, over Dafny's exact `real` numbers, of the core of a 1D
finite-element solver for the Poisson problem `-u'' = f` with Dirichlet data
`g`:

- **Quadrature and shape functions** (`gauss_shape.dfy`): the 1- to 4-point
  Gauss-Legendre tables on `[-1, 1]` and the two-node (linear) and three-node
  (quadratic) Lagrange elements, with their isoparametric Jacobian and
  physical derivatives.
- **Element samples** (`element.dfy`): what an element loop evaluates at one
  Gauss point: the shape values, the physical derivatives and
  `dvol = detJ * weight`.
- **Assembly** (`assemble.dfy`): the standard Galerkin routine.
  - The element stiffness `Ke[i][j] = sum_q dN_i dN_j dvol`.
  - The residual-form load `Fe[i] = sum_q (-u_h' dN_i + N_i f(x_q)) dvol`.
  - The dof map `n * ndf + d`.
  - The scatter-add of every element, in order, into zero-initialised `K` and `F`.
  - The strong Dirichlet elimination: for each boundary node, clear its row
    and column, set the diagonal to 1 and set the right-hand side to the
    boundary value.
- **L2 error** (`post_process.dfy`): the accumulation, over every element of
  the solution table and every Gauss point, of `(u(x_q) - u_h(x_q))^2 dvol` and
  `(u'(x_q) - u_h'(x_q))^2 dvol`, followed by the two square roots.
- **Support modules**: `sums.dfy` (finite sums as left folds, the order in which
  the loops add) and `matrices.dfy` (dense vectors and matrices).

Modelling choices:

- **Square root.** The square root is a parameter `sqrt: real -> real`, known
  only through `IsSqrt`: for every non-negative argument it returns the
  non-negative root. The abscissae `1/sqrt(3)` and `sqrt(3/5)` and the two
  reported errors are built from it.
- **Problem data.** The exact solution, its derivative and the source are
  function parameters.
- **Sample tables.** Assembly is stated over a table of element samples
  (`Assemble.AssembleWith`). Its properties therefore hold for every rule.
  `Assemble.AssembleSystem` is `AssembleWith` at the samples of a rule
  (`MeshSamples`), and `Assemble.AssembleAndConstrain`, the whole routine,
  adds the Dirichlet elimination; the source calls it with the Gauss rule of
  `lint` points.
- **Dirichlet values.** Before assembly, the nodal vector `u` holds the
  boundary values at the boundary nodes and zero elsewhere (`Prefilled`).
  This is how the driver prepares it (`02_Poisson_1D/src/PySFEM_Main1D.py`,
  lines 144 and 162). With it, the gradient term of `Fe` is exactly the lifting
  of the boundary data. The eliminated system is then solved exactly by the
  nodal vectors that take the boundary values and satisfy the Galerkin
  equations `(K x)[a] == L[a]` at every other node
  (`Assemble.AssembledDirichletEquivalence`).

## Model

| member | source | states |
|---|---|---|
| GaussShape.GaussOne | 02_Poisson_1D/src/PyFEM_Module_GaussShape.py:10-12 | the one-point rule is symmetric, inside (-1, 1), positively weighted, and its weights sum to 2 |
| GaussShape.GaussTwo | 02_Poisson_1D/src/PyFEM_Module_GaussShape.py:13-15 | the two-point rule is antisymmetric in its points, symmetric and positive in its weights, increasing inside (-1, 1), and its weights sum to 2 |
| GaussShape.GaussThree | 02_Poisson_1D/src/PyFEM_Module_GaussShape.py:16-18 | the same for the three-point rule; weights sum to 2 |
| GaussShape.GaussFour | 02_Poisson_1D/src/PyFEM_Module_GaussShape.py:19-27 | the same for the four-point rule, whose decimal weights sum to 1.9999999999999998 and not to 2 |
| GaussShape.Gauss | 02_Poisson_1D/src/PyFEM_Module_GaussShape.py:9-28 | for `1 <= lint <= 4`, exactly `lint` points and weights forming a symmetric rule inside (-1, 1); weight sum 2 for `lint <= 3` |
| GaussShape.TwoPointAbscissa | 02_Poisson_1D/src/PyFEM_Module_GaussShape.py:14 | `1/sqrt(3)` lies in (0, 1) and squares to 1/3 |
| GaussShape.ThreePointAbscissa | 02_Poisson_1D/src/PyFEM_Module_GaussShape.py:17 | `sqrt(3/5)` lies in (0, 1) and squares to 3/5 |
| GaussShape.OnePointMoments | 02_Poisson_1D/src/PyFEM_Module_GaussShape.py:10-12 | the one-point rule integrates `xi^k` to 2 for `k = 0` and to 0 otherwise |
| GaussShape.TwoPointMoments | 02_Poisson_1D/src/PyFEM_Module_GaussShape.py:13-15 | the two-point rule integrates `xi^k` to `2 (1/3)^(k/2)` for even `k`, to 0 for odd `k` |
| GaussShape.ThreePointMoments | 02_Poisson_1D/src/PyFEM_Module_GaussShape.py:16-18 | the three-point rule integrates `xi^k` to 2 at `k = 0`, `(10/9)(3/5)^(k/2)` at even `k > 0`, 0 at odd `k` |
| GaussShape.FourPointMoments | 02_Poisson_1D/src/PyFEM_Module_GaussShape.py:19-27 | the four-point rule's moments in closed form from its two symmetric pairs: zero for odd degree |
| GaussShape.GaussExactMonomial | 02_Poisson_1D/src/PyFEM_Module_GaussShape.py:9-18 | for `lint <= 3` the rule integrates `xi^k` exactly (`2/(k+1)` or 0) for every `k < 2 lint` |
| GaussShape.GaussInexactBeyond | 02_Poisson_1D/src/PyFEM_Module_GaussShape.py:9-18 | the exactness bound is tight: degree `2 lint` is not integrated exactly |
| GaussShape.FourPointNearlyExact | 02_Poisson_1D/src/PyFEM_Module_GaussShape.py:19-27 | the four-point rule integrates `xi^k`, `k < 8`, to within 1e-15 of the exact moment |
| GaussShape.ExactOnPolynomials | 02_Poisson_1D/src/PyFEM_Module_GaussShape.py:9-28 | a rule exact on the monomials below degree `d` integrates every polynomial of degree below `d` exactly |
| GaussShape.GaussExactPolynomial | 02_Poisson_1D/src/PyFEM_Module_GaussShape.py:9-18 | the `lint`-point rule, `lint <= 3`, integrates every polynomial of degree below `2 lint` exactly |
| GaussShape.LinValues | 02_Poisson_1D/src/PyFEM_Module_GaussShape.py:32-33 | linear shape values sum to 1 and are `(1, 0)` at `xi = -1` and `(0, 1)` at `xi = 1` |
| GaussShape.LinParamDerivs | 02_Poisson_1D/src/PyFEM_Module_GaussShape.py:34 | the parametric derivatives sum to 0 and are the exact slopes of the linear shape values |
| GaussShape.LinJacobian | 02_Poisson_1D/src/PyFEM_Module_GaussShape.py:35-36 | the linear Jacobian is positive exactly when the nodes increase and zero exactly when they coincide |
| GaussShape.ShapeLin | 02_Poisson_1D/src/PyFEM_Module_GaussShape.py:30-40 | Jacobian `(x2 - x1)/2`; physical derivatives `-1/(x2 - x1)` and `1/(x2 - x1)`, summing to 0, reproducing `dx/dx = 1` and giving back the parametric ones times the Jacobian; `x(xi)` maps -1 to `x1` and 1 to `x2` |
| GaussShape.QuadValues | 02_Poisson_1D/src/PyFEM_Module_GaussShape.py:44-46 | quadratic shape values sum to 1, with the Kronecker property at -1 (node 1), 1 (node 2) and 0 (node 3) |
| GaussShape.QuadParamDerivs | 02_Poisson_1D/src/PyFEM_Module_GaussShape.py:47 | the parametric derivatives sum to 0 and are the exact derivatives of the quadratic values (exact second-order expansion) |
| GaussShape.QuadJacobian | 02_Poisson_1D/src/PyFEM_Module_GaussShape.py:48-49 | with the third node at the midpoint the Jacobian is the constant `(x2 - x1)/2` |
| GaussShape.QuadJacobianPositive | 02_Poisson_1D/src/PyFEM_Module_GaussShape.py:48-49 | the quadratic Jacobian is positive on all of [-1, 1] exactly when the interior node lies strictly inside the middle half of the element |
| GaussShape.ShapeQuad | 02_Poisson_1D/src/PyFEM_Module_GaussShape.py:42-54 | physical derivatives sum to 0, reproduce `dx/dx = 1` and times the Jacobian give back the parametric ones; affine `x(xi)` when the third node is the midpoint |
| GaussShape.ShapeAt | 02_Poisson_1D/src/PySFEM_Module_Assemble.py:32-35 | the element selected by the node count: values sum to 1, derivatives sum to 0, `sum_i dN_i x_i == 1` |
| Element.SampleAt | 02_Poisson_1D/src/PySFEM_Module_Assemble.py:30-37 | the sample at Gauss point `q` holds the shape values, physical derivatives and `dvol = detJ * w_q`, with partition of unity |
| Element.ElementSamples | 02_Poisson_1D/src/PySFEM_Module_Assemble.py:30-37 | one sample per Gauss point, each of `Nel` values and derivatives, with derivatives summing to 0 |
| Element.WellShapedIff | 02_Poisson_1D/src/PyFEM_Module_GaussShape.py:30-54 | an element has a positive Jacobian on all of [-1, 1] exactly when it is well shaped (increasing ends; quadratic interior node in the middle half) |
| Element.WellShapedGauss | 02_Poisson_1D/src/PyFEM_Module_GaussShape.py:9-28 | a well-shaped element has a positive Jacobian at every point of every Gauss rule |
| Assemble.Stiffness | 02_Poisson_1D/src/PySFEM_Module_Assemble.py:51-53 | `Ke` is square with entries the quadrature of `dN_i dN_j dvol`, symmetric, and every row sums to 0 |
| Assemble.ElementLoad | 02_Poisson_1D/src/PySFEM_Module_Assemble.py:39-58 | the point-by-point accumulation of `Fe` equals the residual form `Le - Ke ul`, `Le` the consistent source load |
| Assemble.ResidualSplit | 02_Poisson_1D/src/PySFEM_Module_Assemble.py:55-58 | the sum over Gauss points of `-u_h' dN_i dvol + N_i f dvol` is the source load less row `i` of `Ke` applied to `ul` |
| Assemble.DofMap | 02_Poisson_1D/src/PySFEM_Module_Assemble.py:61-64 | with one dof per node the dof map is the element's node list |
| Assemble.DofMapEntries | 02_Poisson_1D/src/PySFEM_Module_Assemble.py:61-64 | the dof map has `nel * ndf` entries, entry `k` being `nodes[k / ndf] * ndf + k % ndf` |
| Assemble.DofInjective | 02_Poisson_1D/src/PySFEM_Module_Assemble.py:64 | distinct (node, dof) pairs get distinct global dofs, and only they |
| Assemble.DofInRange | 02_Poisson_1D/src/PySFEM_Module_Assemble.py:13-14 | every global dof addresses the `num_nodes * ndf` storage |
| Assemble.ScatterVectorEntries | 02_Poisson_1D/src/PySFEM_Module_Assemble.py:67-69 | global entry `a` gains exactly the local entries whose dof is `a` |
| Assemble.ScatterMatrixEntries | 02_Poisson_1D/src/PySFEM_Module_Assemble.py:67-72 | global entry `(a, b)` gains exactly the local entries whose row maps to `a` and column to `b` |
| Assemble.ScatterMatrixRowTotals | 02_Poisson_1D/src/PySFEM_Module_Assemble.py:67-72 | a local matrix with zero row sums leaves every global row total unchanged |
| Assemble.ScatterVectorTotal | 02_Poisson_1D/src/PySFEM_Module_Assemble.py:67-69 | scattering adds the entries of `Fe` to the total of `F`, nothing lost or duplicated |
| Assemble.ScatterMatrixTotalSum | 02_Poisson_1D/src/PySFEM_Module_Assemble.py:67-72 | scattering adds the entries of `Ke` to the sum of all entries of `K` |
| Assemble.ScatterMatrixMatVec | 02_Poisson_1D/src/PySFEM_Module_Assemble.py:67-72 | after scattering, `(K x)[r]` gains the entries of `Ke (x gathered)` owned by `r` |
| Assemble.ScatterAllEntries | 02_Poisson_1D/src/PySFEM_Module_Assemble.py:13-72 | the global `K[a][b]`, from zero storage, is the sum over elements of their contributions to `(a, b)` |
| Assemble.ScatterAllRowTotals | 02_Poisson_1D/src/PySFEM_Module_Assemble.py:13-72 | element matrices with zero row sums give a global matrix with zero row sums |
| Assemble.ScatterAllMatrixTotal | 02_Poisson_1D/src/PySFEM_Module_Assemble.py:13-72 | the entries of the global matrix sum to the entries of all element matrices |
| Assemble.ScatterAllVectorTotal | 02_Poisson_1D/src/PySFEM_Module_Assemble.py:13-72 | the entries of the global vector sum to the entries of all element vectors |
| Assemble.ScatterAllResidual | 02_Poisson_1D/src/PySFEM_Module_Assemble.py:13-72 | element vectors of the form `Le - Ke ul` scatter to the global residual `L - K u` |
| Assemble.ScatterAllSymmetric | 02_Poisson_1D/src/PySFEM_Module_Assemble.py:13-72 | symmetric element matrices give a symmetric global matrix |
| Assemble.ScatterAllSparsity | 02_Poisson_1D/src/PySFEM_Module_Assemble.py:13-72 | `K[a][b]` stays 0 unless `a` and `b` are dofs of a common element |
| Assemble.MeshSamples | 02_Poisson_1D/src/PySFEM_Module_Assemble.py:17-37 | the sample table of a mesh at a rule has one entry per element, its samples at the rule's points |
| Assemble.AssembledSymmetric | 02_Poisson_1D/src/PySFEM_Module_Assemble.py:11-72 | the assembled `K` is symmetric |
| Assemble.AssembledSparsity | 02_Poisson_1D/src/PySFEM_Module_Assemble.py:11-72 | the assembled `K[a][b]` is 0 for nodes sharing no element |
| Assemble.AssembledRowTotals | 02_Poisson_1D/src/PySFEM_Module_Assemble.py:11-72 | every row of the assembled `K` sums to 0 |
| Assemble.AssembledTotals | 02_Poisson_1D/src/PySFEM_Module_Assemble.py:11-72 | assembly conserves totals: `K` sums to the element stiffness totals, `F` to the element residual totals |
| Assemble.AssembledResidual | 02_Poisson_1D/src/PySFEM_Module_Assemble.py:11-72 | the assembled `F` is the assembled source load less `K u` |
| Assemble.EliminateDof | 02_Poisson_1D/src/PySFEM_Module_Assemble.py:76-80 | one boundary dof: row and column cleared except a unit diagonal, right-hand side set to the value, nothing else changed |
| Assemble.ApplyDirichlet | 02_Poisson_1D/src/PySFEM_Module_Assemble.py:75-80 | after the loop, boundary rows and columns are unit vectors, boundary right-hand sides are `g(x)`, every other entry is unchanged |
| Assemble.DirichletSymmetric | 02_Poisson_1D/src/PySFEM_Module_Assemble.py:75-80 | elimination preserves symmetry |
| Assemble.DirichletIdempotent | 02_Poisson_1D/src/PySFEM_Module_Assemble.py:75-80 | eliminating twice is eliminating once |
| Assemble.DirichletEquivalence | 02_Poisson_1D/src/PySFEM_Module_Assemble.py:75-80 | for a residual system at prefilled `u`, `x` solves the eliminated system exactly when it takes the boundary values and solves `(K x)[a] == L[a]` at the other nodes |
| Assemble.EliminatedSolutionSolves | 02_Poisson_1D/src/PySFEM_Module_Assemble.py:75-80 | a solution of the eliminated system solves the boundary problem |
| Assemble.SolutionSolvesEliminated | 02_Poisson_1D/src/PySFEM_Module_Assemble.py:75-80 | a solution of the boundary problem solves the eliminated system |
| Assemble.AssembledDirichletEquivalence | 02_Poisson_1D/src/PySFEM_Module_Assemble.py:11-82 | the returned system is solved exactly by the nodal vectors matching `g` on the boundary and satisfying the Galerkin equations elsewhere |
| Assemble.AssembleSystem | 02_Poisson_1D/src/PySFEM_Module_Assemble.py:11-72 | the system assembled at the points of the rule (the Gauss rule of line 17 is one instance) is `AssembleWith` at `MeshSamples`: a symmetric `K` of size `num_nodes` whose rows sum to zero, and `F` equal to the assembled source load less `K u` |
| Assemble.EliminationExact | 02_Poisson_1D/src/PySFEM_Module_Assemble.py:74-80 | at prefilled nodal values, for every nodal vector at once: it solves the eliminated system exactly when it matches `g` on the boundary and satisfies the other rows' equations |
| Assemble.AssembleAndConstrain | 02_Poisson_1D/src/PySFEM_Module_Assemble.py:11-82 | the `(K, F)` returned by the routine is square and symmetric, and at prefilled nodal values it is solved by exactly the nodal vectors that match `g` on the boundary and satisfy the Galerkin equations of `AssembleSystem` at every other node |
| PostProcess.TableSamples | 02_Poisson_1D/src/PySFEM_Module_PostProcess.py:31-34 | every element of the solution table has one sample per point of the rule, each with one shape value and one derivative per node and derivatives summing to zero |
| PostProcess.AccumulateElement | 02_Poisson_1D/src/PySFEM_Module_PostProcess.py:31-55 | the Gauss-point loop of one element adds exactly that element's squared value and gradient errors to the accumulators |
| PostProcess.AccumulateErrors | 02_Poisson_1D/src/PySFEM_Module_PostProcess.py:21-55 | the element loop, from zero accumulators, yields the two squared errors summed over all elements |
| PostProcess.ComputeL2Error | 02_Poisson_1D/src/PySFEM_Module_PostProcess.py:6-120 | the returned errors are the square roots of the squared value and gradient errors over the table at the `lint`-point rule; on well-shaped elements each is non-negative, squares to its squared error, and is zero exactly when the interpolant matches at every Gauss point |
| PostProcess.PointErrorSign | 02_Poisson_1D/src/PySFEM_Module_PostProcess.py:49-52 | with positive `dvol`, a point's error term is non-negative and zero exactly when the exact and interpolated quantities agree there |
| PostProcess.ElementErrorSigns | 02_Poisson_1D/src/PySFEM_Module_PostProcess.py:31-55 | with positive `dvol`s, an element's squared error is non-negative and zero exactly when the interpolant matches at all its Gauss points |
| PostProcess.TableErrorSigns | 02_Poisson_1D/src/PySFEM_Module_PostProcess.py:21-55 | the same for the sum over the table |
| PostProcess.PositiveDvol | 02_Poisson_1D/src/PySFEM_Module_PostProcess.py:34 | positive weights and positive Jacobians give positive `dvol` at every sample |
| PostProcess.SquaredErrorSigns | 02_Poisson_1D/src/PySFEM_Module_PostProcess.py:21-109 | with positive weights and Jacobians, each squared error is non-negative and zero exactly when the interpolant matches at every Gauss point |
| PostProcess.WellShapedErrors | 02_Poisson_1D/src/PySFEM_Module_PostProcess.py:73-109 | on well-shaped elements and any Gauss rule, the same holds without further assumption |
| PostProcess.ReportedError | 02_Poisson_1D/src/PySFEM_Module_PostProcess.py:120 | on well-shaped elements, the reported root of a squared error is non-negative, squares back to it, and is zero exactly when the interpolant matches at every Gauss point |
| PostProcess.AffineElementExact | 02_Poisson_1D/src/PySFEM_Module_PostProcess.py:36-52 | an affine exact solution interpolated at the nodes matches, value and gradient, at every sample |
| PostProcess.AffineSolutionExact | 02_Poisson_1D/src/PySFEM_Module_PostProcess.py:21-55 | for an affine exact solution and nodally exact values, both squared errors are 0 |

## Left out

- File and console I/O: the CSV solution table, read in `compute_L2error`, is an in-memory sequence of `ElementRecord`s. The gradient dump at mesh 1024 and all prints are not modelled.
- The solvers, the visualisation and the driver's orchestration. These are boundary detection with `np.isclose`, the condition number, convergence rates and the CSR conversion; they call libraries whose behaviour is not visible. The one assumption taken from the driver is `Prefilled`.
- The exact solution, its derivative and the source term: their hyperbolic-function formulas are not modelled. They enter as uninterpreted functions, and the `eps` parameter is folded into them.
- Floating-point rounding: all arithmetic is exact. The source's float results, including sums in a different order, only approximate these identities.
- More than one dof per node: the dof map and its injectivity are general, but the element kernel, the scatter and the elimination use one dof per node, as the driver does. The source's `Ke[i * ndf, j * ndf]` fills only the first dof of each node.
- Negative node indices: Python would wrap them around; nodes are `nat` here.
- Node ids in `conn` or in the boundary list at or beyond the number of nodes: the source raises an `IndexError` when it reads `coords[nodes_on_elem]`, `u[...]`, `FVector[a_global]`, `KMatrix[a_global, b_global]`, `KMatrix[dof_idx, :]` or `coords[node_id]`. `ValidMesh` and `InRange` exclude such configurations instead of modelling the failure.
- A zero Jacobian at a Gauss point: the source divides by it. The model requires it to be non-zero (`NonDegenerate`, `ValidRecords`).
- A `lint` outside 1..4 and a node count other than 2 or 3 make the source fail on an unbound name. `Gauss` requires `1 <= lint <= 4`, and `Topology` has exactly the two elements.
- A P1/P2 label other than `P1` or `P2` in `compute_L2error`: the source fails on an unbound name there too. `Topology` selects the branch.
- Square roots are not computed. `sqrt` is a parameter constrained by `IsSqrt`. Below zero it is unspecified, where numpy returns NaN.
- FourPointNearlyExact: claims exactness only to within 1e-15. The four-point table is rounded decimals: its weights sum to 1.9999999999999998, so not even degree 0 is integrated exactly.
- ComputeL2Error: states non-negativity and the zero case only for well-shaped elements. On other elements a negative Jacobian can make a squared error negative, and the root of a negative number is left unspecified (see `IsSqrt`).
