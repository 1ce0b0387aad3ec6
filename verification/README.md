# MPEC constraint-qualification diagrams: a verified model of their computational core

The repository draws illustrations of constraint qualifications for
mathematical programs with equilibrium constraints (MPEC). Nearly all of it
is plotting. This project models the parts that compute something, in exact
real arithmetic, and proves what those parts promise:

- **The run splitter** `get_feasible_contour_segments` of the feasible-region
  diagram (`ContourSegments`). For each contour path, it keeps every maximal
  run of consecutive vertices whose condition value reaches the threshold
  0.01, and drops runs of a single vertex. `SplitPath` follows the source
  loop (`seg`, `in_segment`, the flush at an invalid vertex and at the end of
  the path). It also returns the index span of each segment. Its contract
  says the spans are exactly the maximal valid runs of two or more vertices,
  listed left to right. `RunPartitionUnique` shows that this contract leaves
  only one possible answer.
- **The parabola/circle complementarity example** (`FeasibleRegion`): the
  signs of G and H, the region masks, and the two marked intersection
  points. sqrt(5) and sqrt(t) enter as parameters that satisfy their
  defining equations.
- **The MFCQ illustration** (`MfcqIllustration`): h, g, the coded gradient
  vectors, the point x*, the choice between the two perpendicular candidate
  directions, and the line-103 mask of the highlighted curve.
- **The LICQ violation** (`LicqViolation`): two unit circles that touch at
  x* = (0.5, 0.5). Both are active there, their gradients are collinear, and
  the feasible set is the single point x*.
- **The implication graph** (`CqHierarchy`): the node, label and subtitle
  tables, the six implication arrows, and the node colours. Every arrow goes
  down exactly one layout layer, so the graph is acyclic and has no shortcut
  arrows. LICQ is the only node that implies all others, and GCQ is the only
  node implied by all others.

`Geometry` holds the shared points, vectors, dot product, determinant and the
0/1 indicator that models `astype(float)`.

Where comments and code disagree, the model follows the code:

- The docstring of `get_feasible_contour_segments`
  (mpec_feasible_region.py:35) says it keeps points where the condition is
  `>= 0`. The code uses the threshold 0.01 (lines 39 and 51).
- licq_violation.py describes the arrow directions in two contradicting ways
  (lines 81-82 against lines 87 and 97). The model uses the coded gradients
  (0, -2) and (0, 2).
- The header of mpec_cq_hierarchy.py (line 3) and its layout comment
  (line 31) list only ACQ -> GCQ into GCQ. The `implications` table also has
  CPLD -> GCQ, and the model uses the table.
- mfcq_illustration.py's docstrings (lines 26 and 30) call the coded vectors
  the gradients of h and g, but their x-components have the wrong sign. The
  model keeps the coded vectors. See "## Findings" for what this does to the
  drawn direction.

## Model

| member | source | states |
|---|---|---|
| `ContourSegments.Mask` | mpec_feasible_region.py:48-51 | The mask has one entry per vertex, and entry k is true exactly when the condition at vertex k is at least the threshold. |
| `ContourSegments.SplitPath` | mpec_feasible_region.py:53-70 | The emitted spans are exactly the maximal runs of valid vertices that have two or more vertices. Each is listed once, strictly left to right. Each segment is the slice of the path's vertices that its span names. |
| `ContourSegments.ExtendRun` | mpec_feasible_region.py:58-61 | Appending a valid vertex keeps the open run all-valid and closed on the left. No maximal run can end at a valid vertex, so no emitted run is missed. |
| `ContourSegments.CloseRun` | mpec_feasible_region.py:62-70 | Closing the open run, at an invalid vertex or at the end of the path, lists it exactly when it has more than one vertex. It keeps the list ordered, and afterwards every emitted run ending up to that point is listed. |
| `ContourSegments.CloseRunCovers` | mpec_feasible_region.py:62-70 | After a flush, every maximal run of length two or more that ends at or before the current index is in the list. The run ending here must start where `seg` started. |
| `ContourSegments.RunEndingAt` | mpec_feasible_region.py:57-66 | A maximal run that ends where the current run ends starts where the current run started. |
| `ContourSegments.GetFeasibleContourSegments` | mpec_feasible_region.py:33-72 | Every segment comes from exactly one path and is an emitted run of that path's mask. Segments are ordered by path and then by position. Every emitted run of every path appears. Every segment has at least two vertices, and the condition is at least the fixed threshold 0.01 at each of them. |
| `ContourSegments.ShortPathHasNoRuns` | mpec_feasible_region.py:43-44 | Skipping a path with fewer than two vertices loses nothing, because such a path has no emitted run. |
| `ContourSegments.AppendPath` | mpec_feasible_region.py:41-70 | Appending one path's segments keeps the output sound, in output order and complete up to that path. Segments never span two paths. |
| `ContourSegments.AppendComplete` | mpec_feasible_region.py:41-70 | After appending path p's segments, every emitted run of paths up to p has an origin in the output. |
| `ContourSegments.RunVerticesPass` | mpec_feasible_region.py:51-70 | An emitted run has at least two vertices, and every one of them satisfies `cond >= threshold`. |
| `ContourSegments.RunPartitionUnique` | mpec_feasible_region.py:53-70 | Two span lists that are both the ordered, complete list of emitted runs of a mask are equal. The splitter's output is therefore fully determined. |
| `ContourSegments.OrderedSpansEqual` | mpec_feasible_region.py:53-70 | Two left-to-right ordered lists of non-empty spans that have the same elements are equal. |
| `FeasibleRegion.GSign` | mpec_feasible_region.py:13-17 | G >= 0 exactly on and above the parabola y = 1 - x^2, and G = 0 exactly on it. |
| `FeasibleRegion.HSign` | mpec_feasible_region.py:19-23 | H >= 0 exactly on and outside the unit circle about (0, 1), and H = 0 exactly on it. |
| `FeasibleRegion.MaskBoth` | mpec_feasible_region.py:78-80 | The product mask is 1.0 exactly where G >= 0 and H >= 0, and 0.0 everywhere else. |
| `FeasibleRegion.MaskInsideCircle` | mpec_feasible_region.py:104-105 | The white overlay mask is the complement of the H >= 0 mask: the two add up to 1.0 at every point. |
| `FeasibleRegion.IntersectionT` | mpec_feasible_region.py:138-141 | t = (sqrt(5) - 1)/2 lies strictly between 0 and 1 and solves t^2 + t = 1. |
| `FeasibleRegion.MarkedPointsAreCommonZeros` | mpec_feasible_region.py:138-147 | If t > 0, t^2 + t = 1 and x_int^2 = t, then both (x_int, 1 - t) and (-x_int, 1 - t) are zeros of G and of H. |
| `FeasibleRegion.CommonZeroShape` | mpec_feasible_region.py:13-23 | Every common zero of G and H has y = 1 - x^2, and x^2 is a non-negative root of t^2 + t - 1. |
| `FeasibleRegion.NonNegativeRootUnique` | mpec_feasible_region.py:138-141 | t^2 + t = 1 has only one non-negative root. |
| `FeasibleRegion.CommonZerosAreMarkedPoints` | mpec_feasible_region.py:138-147 | A point is a common zero of G and H exactly when it is one of the two marked points (+-x_int, 1 - t). |
| `FeasibleRegion.GArcsAreWings` | mpec_feasible_region.py:119-120 | A point of G = 0 with H >= 0.01 has x^2 > t, so it lies strictly outside the two marked points: the highlighted parabola pieces are its wings. |
| `FeasibleRegion.HArcIsUpper` | mpec_feasible_region.py:121-122 | A point of H = 0 with G >= 0.01 has y > 1 - t, so it lies strictly above the two marked points: the highlighted circle pieces are on its upper arc. |
| `FeasibleRegion.FeasibleArcs` | mpec_feasible_region.py:114-122 | Every highlighted piece of the G = 0 contour has at least two vertices, all with H >= 0.01. Every highlighted piece of the H = 0 contour has at least two vertices, all with G >= 0.01. |
| `MfcqIllustration.XStar` | mfcq_illustration.py:41-43 | The point above any abscissa on y = 0.3 x^2 + 0.5 lies exactly on h = 0. |
| `MfcqIllustration.CandidatesPerpendicular` | mfcq_illustration.py:56-59 | Both candidates are perpendicular to the vector they are built from. The second is the negation of the first, so their products with any vector are negatives of each other. |
| `MfcqIllustration.ChooseDirection` | mfcq_illustration.py:53-65 | The chosen d is one of the two candidates and is perpendicular to grad h. grad g . d is never positive, and it is strictly negative exactly when grad g . candidate 1 is nonzero. |
| `MfcqIllustration.CandidateProductAtCurve` | mfcq_illustration.py:25-59 | With the coded vectors at a point of h = 0 with abscissa x, grad g . candidate 1 equals 0.5 + 0.6 x. |
| `MfcqIllustration.ElseBranchChosen` | mfcq_illustration.py:25-65 | For every x > -5/6 the else branch runs: d is candidate 2, and grad g . d = -0.5 - 0.6 x < 0. |
| `MfcqIllustration.MfcqDirection` | mfcq_illustration.py:41-65 | The script's x* lies on h = 0, and its direction is (1, -0.5442). That direction is perpendicular to the coded grad h and has a strictly negative product with the coded grad g. |
| `MfcqIllustration.XStarApproximatesContact` | mfcq_illustration.py:34-42 | The chosen x* = 0.907 is only approximately on g = 0: exactly, g(x*) = 0.0002947. |
| `MfcqIllustration.ExactContactPoint` | mfcq_illustration.py:34-40 | The positive root (sqrt(1.09) - 0.5)/0.6 solves 0.3 x^2 + 0.5 x - 0.7 = 0, and its point on the curve lies on both h = 0 and g = 0. |
| `MfcqIllustration.DerivativesExact` | mfcq_illustration.py:11-17 | The true gradients (-0.6 x, 1) of h and (0.5, 1) of g predict the change of g exactly, and the change of h up to -0.3 s^2. |
| `MfcqIllustration.CodedDirectionNotTangent` | mfcq_illustration.py:25-65 | The coded vectors are not the true gradients. At x*, the direction the script draws has product -1.0884 with the true gradient of h, and it is not parallel to the curve's tangent. |
| `MfcqIllustration.TangentDirection` | mfcq_illustration.py:53-65 | The selection rule applied to the true gradients gives a d parallel to the tangent (1, 0.6 x) of h = 0, along which g does not increase. For x > -5/6 this d is (-1, -0.6 x), and g strictly decreases along it. |
| `MfcqIllustration.CorrectedMfcqDirection` | mfcq_illustration.py:53-65 | At the script's x*, the corrected direction is (-1, -0.5442). It is tangent to h = 0 and strictly decreases g. |
| `MfcqIllustration.CurvePoints` | mfcq_illustration.py:100-101 | There is one curve point per abscissa. Each has that abscissa and lies exactly on h = 0. |
| `MfcqIllustration.CurveMask` | mfcq_illustration.py:100-103 | Sample k is kept exactly when g <= 0 at its curve point. Equivalently, it is kept exactly when 0.3 x^2 + 0.5 x - 0.7 <= 0. |
| `MfcqIllustration.InequalityMask` | mfcq_illustration.py:72-74 | The shading mask is 1.0 exactly below or on the line y = -0.5 x + 1.2, and 0.0 above it. |
| `LicqViolation.BothActiveAtXStar` | licq_violation.py:12-38 | g1 and g2 are both zero at x* = (0.5, 0.5). |
| `LicqViolation.GradientsCollinearAtXStar` | licq_violation.py:26-42 | At x* the gradients are (0, -2) and (0, 2). One is -1 times the other, and their determinant is 0, so they are linearly dependent. |
| `LicqViolation.GradientsExact` | licq_violation.py:12-32 | The coded gradients are the true ones: a step (s, t) changes each constraint by the gradient's product with the step plus s^2 + t^2. |
| `LicqViolation.ConstraintSum` | licq_violation.py:12-18 | g1 + g2 is twice the squared distance from x*. |
| `LicqViolation.OutsideAwayFromXStar` | licq_violation.py:12-18 | At every point other than x*, at least one of g1 and g2 is positive. |
| `LicqViolation.FeasibleSetIsXStar` | licq_violation.py:12-38 | g1 <= 0 and g2 <= 0 hold together exactly at x*, so the circles are tangent there. |
| `LicqViolation.FeasibleMask` | licq_violation.py:51-52 | The feasible mask is 1.0 exactly at x* and 0.0 at every other point. |
| `LicqViolation.Linspace` | licq_violation.py:20-22 | The first sample is the lower end and the last sample is the upper end. |
| `LicqViolation.LinspaceStep` | licq_violation.py:20-22 | Consecutive samples are evenly spaced, (hi - lo)/(n - 1) apart. |
| `LicqViolation.FeasibleMaskZeroOnGrid` | licq_violation.py:20-52 | No grid point has x = 0.5 or y = 0.5, so the feasible mask is 0.0 on the whole plotting grid. |
| `CqHierarchy.EndpointsAreNodes` | mpec_cq_hierarchy.py:115-117 | Both ends of every implication are keys of `nodes`, so the position lookups in the arrow loop never fail. |
| `CqHierarchy.TablesShareKeys` | mpec_cq_hierarchy.py:33-60 | `labels` and `full_names` have exactly the keys of `nodes`. |
| `CqHierarchy.LabelsNameTheirKeys` | mpec_cq_hierarchy.py:42-50 | Every label is the bold "MPEC-" mathtext form of its own key. |
| `CqHierarchy.EdgesDescendOneLayer` | mpec_cq_hierarchy.py:33-70 | Every implication goes from a node to a node exactly one layer (2.0) lower in the layout. |
| `CqHierarchy.PathDescends` | mpec_cq_hierarchy.py:33-70 | A chain of n implications descends exactly n layers. |
| `CqHierarchy.Acyclic` | mpec_cq_hierarchy.py:62-70 | No chain of one or more implications returns to its start. |
| `CqHierarchy.NoShortcutArrows` | mpec_cq_hierarchy.py:62-70 | The only chain between the two ends of an arrow is the arrow itself, so the drawing is a Hasse diagram. |
| `CqHierarchy.SourceAndSink` | mpec_cq_hierarchy.py:62-70 | No implication ends at LICQ, and none starts at GCQ. |
| `CqHierarchy.OnlyLicqReachesLicq` | mpec_cq_hierarchy.py:62-70 | Only LICQ itself implies LICQ. |
| `CqHierarchy.GcqReachesOnlyItself` | mpec_cq_hierarchy.py:62-70 | GCQ implies only itself. |
| `CqHierarchy.LicqReachesAll` | mpec_cq_hierarchy.py:192-194 | LICQ implies every node through chains of arrows. |
| `CqHierarchy.AllReachGcq` | mpec_cq_hierarchy.py:192-194 | Every node implies GCQ through chains of arrows. |
| `CqHierarchy.StrongestAndWeakest` | mpec_cq_hierarchy.py:192-194 | A node implies all nodes exactly when it is LICQ, and is implied by all nodes exactly when it is GCQ. |
| `CqHierarchy.StyleOf` | mpec_cq_hierarchy.py:76-86 | A box is filled `#bbdefb` with border `color_strong` exactly when its node is the strongest, and `#eceff1` with border `color_weak` exactly when it is the weakest. Every other node gets `color_node_fill` and `color_node_edge`. |
| `CqHierarchy.ArrowCentres` | mpec_cq_hierarchy.py:115-117 | The arrow loop looks up, in order, the two centres of each implication, and each arrow points strictly downward. |

## Left out

- All drawing and export: figures, patches, contour plotting, annotations,
  legends and the saved image. The model starts from the values these calls
  consume.
- The contour computation itself. A contour set is given as a sequence of
  vertex paths (`seq<seq<Point>>`), and a segment is a sequence of points
  rather than a pair of x and y arrays.
- Floating point. All arithmetic is exact `real`. The 0.01 threshold is the
  exact real 0.01. `np.sqrt` is replaced by a parameter constrained by its
  defining equation (sqrt(5), sqrt(t), sqrt(1.09)).
- The normalisation of gradients and directions to display lengths
  (`np.linalg.norm` scaling) and the arrow-offset geometry of the hierarchy
  diagram (mpec_cq_hierarchy.py:119-151). Both use square roots and exist
  only for drawing.
- The text annotations of the hierarchy diagram (title, legend, branch
  labels and the "all implications are strict" note). Strictness is a
  mathematical claim about the qualifications themselves, not something the
  code computes.
- The other scripts (mpec_acq.py, acq_failure.py, mpec_licq.py,
  mpec_intersection.py, mpec_gcq.py, gcq_illustration.py, mpec_mfcq.py).
  They only place drawing coordinates and compute nothing beyond them. Some
  of their comments hold for the coded numbers: the slopes -0.4 and 1.5 of
  mpec_acq.py:36-43 and its 90-degree offsets at lines 74 and 79. Others
  do not:
  - mpec_gcq.py:138 describes the polar fill as running from theta2_end + 90
    to theta1_start + 90, while lines 140-141 draw it from theta1_end + 90
    (105 degrees) to theta2_start + 90 (140 degrees).
  - gcq_illustration.py:125-131 computes the polar of T as [165, 295] and
    draws [165, 245]; line 148 draws the polar of L(x*) with the angles of
    T, so the angles set at line 140 are never used.
  - mpec_mfcq.py:78 and :91 call (-0.4, 1) and (1.5, 1) perpendicular to the
    lines of slope -0.4 and 1.5 drawn at lines 57 and 62; the normals of
    those lines are (0.4, 1) and (-1.5, 1). Lines 116-121 check d = (1, -0.5)
    against gradients (0.5, 1) and (-1.2, 1) that the script never uses.
- `linspace`/`meshgrid` sampling, except the LICQ grid samples on both
  axes, which `LicqViolation.Linspace` and `LicqViolation.GridPoint` give in
  exact arithmetic. Masks are stated pointwise rather than over the sampled
  arrays.
- FeasibleRegion.FeasibleArcs: states only the per-vertex guarantees of the
  two highlighted arc sets. Their provenance, order and completeness are
  stated once, by `ContourSegments.GetFeasibleContourSegments`, which it
  calls.

## Findings

| source | as written | input that shows it | evidently intended | confidence | as-written member | corrected member |
|---|---|---|---|---|---|---|
| mfcq_illustration.py:25-65 | `gradient_h` returns (0.6 x, 1) and `gradient_g` returns (-0.5, 1). Both have the sign of the x-component flipped relative to the partial derivatives of h and g. The direction d is chosen perpendicular to these vectors. | At x* = 0.907 the drawn d is (1, -0.5442). Its product with the true gradient (-0.5442, 1) of h is -1.0884, not 0. Its determinant with the tangent (1, 0.5442) is 1.0884, so d is not tangent to h = 0. | d perpendicular to the true gradient of h, with negative product with the true gradient of g (the intent stated at lines 53-57). This gives d = (-1, -0.5442), tangent to h = 0. | high; not executed | `MfcqIllustration.CodedDirectionNotTangent` | `MfcqIllustration.TangentDirection` |
