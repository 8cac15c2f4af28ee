# Ray tracer core, modelled in Dafny

This project models the core of a small ray tracer written in Rust, in the
style of "The Ray Tracer Challenge". Arithmetic is over Dafny's `real`,
not IEEE `f64`. The model covers:

- Tuples (points and vectors) and colours.
- Matrices as `seq<seq<real>>`: transpose, submatrix, minor and
  cofactor, the recursive determinant, the cofactor inverse, and the
  products of two matrices and of a matrix and a tuple.
- Rays and intersections, and `hit`, which selects the nearest hit.
- Spheres and planes built on shared shape data: transform, cached
  inverse, material and registry id.
- The append-only shape registry.
- Patterns: stripes, checkers, gradient and rings, the legacy stripe
  pattern, and the tagged `PatternType` dispatch.
- Phong lighting.
- The world: stable sorting of intersections, shadows, and the mutually
  recursive `colour_at` / `shade_hit` / `reflected_colour`, bounded by a
  bounce budget.
- The camera and canvas, and `view_transform`.
- The legacy shapes, which draw their ids from a global 32-bit counter.
- The projectile simulation.
- The two browser-facing pixel stores: the tiled render context and the
  projectile scene. Both keep a colour canvas and an RGBA byte buffer side
  by side.

Square roots and powers are fields of a `Numerics` record, constrained by
`Numerics.Valid()`: a square root is non-negative and squares back, and one
to any power is one. A caller supplies the record. The tangent of the half
field of view is supplied directly to `Cameras.New`.

The world takes three things as parameters of a `Geometry` record:
- one shape's intersection;
- `prepare_computations`;
- `lighting`.

Its facts therefore hold whatever those compute. A panic of the source is
modelled as `None` (see `Worlds.ColourAt`). A source check that panics
otherwise becomes a precondition, e.g. `Matrices.Inverse` requires a
non-zero determinant.

Three quirks of the source are modelled as they are:
- `shade_hit` panics when the world has no light: `is_shadowed` unwraps
  the light before the branch that would shade black is reached.
- `PatternType` gains a `Checkered` variant, because `src/world.rs` builds
  one although `src/pattern/mod.rs` lacks it.
- The determinant's only base case is 2x2, so a 1x1 matrix has determinant
  0 as written. The model keeps this version alongside a corrected one; see
  "## Findings".

## Model

| member | source | states |
|---|---|---|
| Tuples.Point | src/geometry.rs:9-11 | a point stores x, y, z and has w = 1 |
| Tuples.Vector | src/geometry.rs:12-14 | a vector stores x, y, z and has w = 0 |
| Tuples.PointVectorExclusive | src/geometry.rs:16-21 | no tuple is both a point and a vector; a tuple with w outside {0, 1} is neither |
| Colours.SubAddCancel | src/colour.rs:21-41 | (c1 - c2) + c2 = c1, and adding black changes nothing |
| Colours.AddCommutesAssociates | src/colour.rs:21-30 | colour addition is commutative and associative |
| Colours.ScaleUnitZero | src/colour.rs:43-52 | scaling by 1 is the identity, scaling by 0 gives black, and scaling distributes over addition |
| Colours.BlendCommutes | src/colour.rs:54-63 | the Hadamard product is commutative, white is its unit and black absorbs |
| Matrices.Zero | src/matrix.rs:13-19 | `Matrix::new` is rows x cols with every entry 0 |
| Matrices.Identity | src/matrix.rs:27-34 | the 4x4 identity: 1 on the diagonal, 0 elsewhere |
| Matrices.TranslationMoves | src/matrix.rs:36-42 | translation moves points by (x, y, z) and leaves vectors unchanged |
| Matrices.ScalingScales | src/matrix.rs:44-50 | scaling multiplies each spatial component and keeps w |
| Matrices.ShearingMoves | src/matrix.rs:91-100 | shearing adds to each spatial component the other two times their shear factors and keeps w |
| Matrices.Transpose | src/matrix.rs:102-112 | an r x c matrix becomes c x r, with entry (j, i) equal to entry (i, j) |
| Matrices.TransposeInvolution | src/matrix.rs:102-112 | transposing twice gives the matrix back |
| Matrices.TransposeIdentity | src/matrix.rs:102-112 | the identity is its own transpose |
| Matrices.Submatrix | src/matrix.rs:128-150 | the result is (rows-1) x (cols-1); entry (i, j) is the entry of m whose indices step past the removed row and column |
| Matrices.SubmatrixByCopy | src/matrix.rs:128-150 | the two nested copy loops with `continue` build exactly `Submatrix` |
| Matrices.Cofactor | src/matrix.rs:152-164 | the cofactor is the minor when row + col is even and its negation when odd |
| Matrices.DeterminantAsWrittenOneByOne | src/matrix.rs:114-124 | as written, a 1x1 matrix [[a]] has determinant 0; the corrected determinant gives a |
| Matrices.DeterminantAsWrittenAgrees | src/matrix.rs:114-124 | apart from 1x1 matrices, the determinant as written equals the corrected one |
| Inversion.DeterminantOfDiagonal | src/matrix.rs:114-124 | the determinant of a diagonal matrix of any size n >= 1 is the product of its diagonal |
| Inversion.ZeroRowDeterminant | src/matrix.rs:114-124 | a square matrix with a zero row has determinant 0 |
| Matrices.CofactorMatrix | src/matrix.rs:172-177 | entry (i, j) of the cofactor matrix is cofactor(i, j) |
| Matrices.InvertibleIsSourceGuard | src/matrix.rs:166-170 | a square matrix passes the source's guard (as-written determinant not 0) exactly when it is at least 2x2 with a non-zero determinant |
| Matrices.Inverse | src/matrix.rs:166-188 | for a square matrix of at least 2x2 with a non-zero determinant, entry (i, j) of the inverse is cofactor(j, i) / det |
| Matrices.InverseAsWritten | src/matrix.rs:166-188 | the source's inverse: entry (i, j) is the as-written cofactor(j, i) over the as-written determinant |
| Matrices.InverseAsWrittenTwoByTwo | src/matrix.rs:114-124 | as written, every 2x2 matrix with ad - bc != 0 passes the guard and inverts to the zero matrix |
| Matrices.InverseAsWrittenAgrees | src/matrix.rs:166-188 | from 3x3 up the source's inverse is the corrected inverse |
| InverseFour.DeterminantFour | src/matrix.rs:114-124 | a 4x4 determinant is the alternating sum of 3x3 minors along row 0, and equally along column 0 |
| InverseFour.RowExpansionFour | src/matrix.rs:114-164 | row i of a 4x4 matrix against the cofactors of row j gives the determinant when i = j and 0 otherwise |
| InverseFour.ColumnExpansionFour | src/matrix.rs:114-164 | column j against the cofactors of column i gives the determinant when i = j and 0 otherwise |
| InverseFour.InverseFourByFour | src/matrix.rs:166-188 | every invertible 4x4 matrix times its inverse is the identity, on both sides |
| InverseFour.InverseUndoes | src/matrix.rs:166-188 | mapping a tuple through an invertible 4x4 matrix and its inverse, in either order, gives it back |
| InverseFour.TranslationDeterminant | src/matrix.rs:36-42 | a translation has determinant 1 |
| InverseFour.InverseTranslation | src/matrix.rs:166-188 | the inverse of translation(x, y, z) is translation(-x, -y, -z), and it undoes the translation on both sides |
| InverseFour.InverseTranslationMoves | src/matrix.rs:36-42 | the inverse translation moves points back by (x, y, z) |
| Inversion.InverseTwoByTwoEntries | src/matrix.rs:166-188 | a 2x2 inverse has the entries swapped and negated, divided by ad - bc |
| Inversion.InverseTwoByTwo | src/matrix.rs:166-188 | every invertible 2x2 matrix times its inverse is the identity, on both sides |
| Inversion.InverseIdentity | src/matrix.rs:166-188 | the identity is invertible and is its own inverse |
| Inversion.InverseOfDiagonal | src/matrix.rs:166-188 | a diagonal matrix with no zero on the diagonal inverts to the diagonal of reciprocals |
| Inversion.InverseScaling | src/matrix.rs:166-188 | a scaling by non-zero factors inverts to the scaling by their reciprocals |
| Inversion.InverseScalingDivides | src/matrix.rs:166-188 | the inverse of a uniform scaling by k divides a point's coordinates by k |
| Matrices.Mul | src/matrix.rs:225-243 | an r x k matrix times a k x c matrix is r x c, with entry (i, j) the row-column sum |
| Matrices.IdentityUnit | src/matrix.rs:225-243 | the identity is a left and a right unit of the product |
| Inversion.MulTwoByTwo | src/matrix.rs:225-243 | the product of two 2x2 matrices, entry by entry |
| Matrices.MulTuple | src/matrix.rs:245-262 | component i of matrix times tuple is row i dotted with (x, y, z, w) |
| Matrices.IdentityTimesTuple | src/matrix.rs:245-262 | the identity leaves every tuple unchanged |
| Matrices.MulTupleMul | src/matrix.rs:225-262 | applying a product of 4x4 matrices to a tuple is applying the right factor, then the left one |
| Rays.TransformIdentity | src/shape/shape.rs:48-52 | transforming a ray by the identity leaves it unchanged |
| Rays.TransformTranslation | src/shape/shape.rs:48-52 | a translation moves a ray's origin and keeps its direction |
| Lights.PointLight | src/light.rs:10-15 | a point light stores its position and intensity |
| Intersections.New | src/intersection.rs:10-15 | an intersection keeps t and copies the object's id |
| Intersections.HitIndex | src/intersection.rs:18-22 | the position chosen has t >= 0, and no element with t >= 0 has a smaller t; ties go to the earliest |
| Intersections.Hit | src/intersection.rs:18-22 | None exactly when every t is negative; otherwise an element of the list with t >= 0 that is minimal among the non-negative t |
| Intersections.HitOrderIndependent | src/intersection.rs:18-22 | the t of the hit does not depend on the order of the list |
| IntersectionSort.SortByT | src/world.rs:257 | the sort is ascending in t, and for every t it keeps the elements with that t in their original order |
| IntersectionSort.SortSortedIsIdentity | src/world.rs:257 | an already ordered list is left unchanged |
| IntersectionSort.SortedWithSameGroupsEqual | src/world.rs:257 | any ordered list with the same elements at every t, in the same order, is the sorted list |
| IntersectionSort.InsertGroups | src/world.rs:257 | inserting x puts it at the front of its own group and leaves every other group alone |
| ShapeCore.DefaultData | src/shape/sphere.rs:16-26 | a new shape has id 0, the identity as transform and as cached inverse, and the default material |
| ShapeCore.DefaultDataConsistent | src/shape/sphere.rs:16-26 | the default shape data is consistent: the identity is invertible and its inverse is the cache |
| ShapeCore.SetId | src/shape/shape.rs:17-19 | `set_id` changes the id and nothing else |
| ShapeCore.SetIdPreserves | src/shape/shape.rs:17-25 | setting the id keeps the cached inverse consistent and the matrices well shaped |
| Shapes.SetTransform | src/shape/shape.rs:39-42 | stores an invertible t with inverse(t) as cache, so the shape stays consistent; id and material stay |
| Shapes.SetMaterial | src/shape/shape.rs:44-46 | replaces the material; the id and both transforms stay |
| Shapes.SetMaterialKeepsConsistent | src/shape/shape.rs:44-46 | setting the material keeps a consistent shape consistent |
| Shapes.Intersect | src/shape/shape.rs:48-52 | every intersection found is tagged with the shape's id |
| Shapes.IntersectUntransformed | src/shape/shape.rs:48-52 | an untransformed shape intersects the world ray directly |
| Shapes.ScaledSphereAxialRay | src/shape/sphere.rs:139-148 | a sphere scaled by k > 0 meets the ray from (0, 0, -5) along +z at t = 5 - k and 5 + k (3 and 7 for k = 2); the legacy sphere in src/shape.rs:186-195 has the same set_transform and intersect |
| Shapes.NormalAt | src/shape/shape.rs:54-59 | the local normal is carried back by the transposed inverse, with w forced to 0, then normalised: always a vector, of unit length unless it vanished |
| Shapes.SphereNormalUntransformed | src/shape/sphere.rs:72-74 | on an untransformed unit sphere the normal at a surface point p is p - origin |
| Shapes.PlaneNormalUntransformed | src/shape/plane.rs:47-49 | on an untransformed plane the normal is (0, 1, 0) everywhere |
| Spheres.New | src/shape/sphere.rs:16-26 | a sphere has id 0, identity transform and inverse, and the default material |
| Spheres.Glass | src/shape/sphere.rs:28-41 | a glass sphere differs from a new one only in transparency 1 and refractive index 1.5 |
| Spheres.LocalIntersect | src/shape/sphere.rs:53-70 | no intersections for a negative discriminant; otherwise exactly two, ordered, both tagged with the sphere's id; the legacy sphere's `local_intersect` in src/shape.rs:100-117 is the same computation |
| Spheres.RootsOrdered | src/shape/sphere.rs:63-68 | with a > 0 the first root is at most the second, equal when tangent |
| Spheres.RootSolves | src/shape/sphere.rs:54-67 | both returned t satisfy a t^2 + b t + c = 0 |
| Spheres.NoRootBelowZero | src/shape/sphere.rs:59-61 | with a negative discriminant the quadratic has no real root |
| Spheres.OnlyTheseRoots | src/shape/sphere.rs:63-67 | every real root of the quadratic is one of the two returned |
| Spheres.LocalIntersectExactlyRoots | src/shape/sphere.rs:53-70 | a value t is reported exactly when it is a real root of the ray-sphere quadratic |
| Spheres.RootOnSphere | src/shape/sphere.rs:54-67 | at a root, origin + t * direction lies on the unit sphere |
| Spheres.LocalNormalAt | src/shape/sphere.rs:72-74 | the local normal is the vector from the centre to the point |
| Planes.New | src/shape/plane.rs:16-26 | a plane is the shared default shape data (id 0, identity transform and inverse, default material), whose cached inverse is consistent |
| Planes.LocalIntersect | src/shape/plane.rs:38-45 | nothing when abs(direction.y) < 50000 times the f64 machine epsilon; otherwise one intersection at t = -origin.y / direction.y, tagged with the plane's id, where the ray has y = 0 |
| Planes.LocalIntersectUnique | src/shape/plane.rs:43-44 | a non-parallel ray meets y = 0 at exactly the reported t |
| Planes.CoplanarMisses | src/shape/plane.rs:39-41 | a ray running inside the plane is reported as a miss |
| Planes.LocalNormalAt | src/shape/plane.rs:47-49 | the normal is the vector (0, 1, 0) at every point |
| Registries.New | src/sphere_registry.rs:11-17 | a new registry is empty and its next id is 0 |
| Registries.Register | src/sphere_registry.rs:19-26 | returns the old next id; the counter grows by one; the shape is stored under that id with the id stamped on it and appended to the order |
| Registries.Get | src/sphere_registry.rs:28-30 | Some exactly for stored ids, and then the stored shape |
| Registries.RegisterThenGet | src/sphere_registry.rs:19-30 | after register returns id, get(id) is Some and the shape's id is id |
| Registries.GetUnissued | src/sphere_registry.rs:28-30 | an id never handed out finds nothing |
| Registries.GetByIndex | src/sphere_registry.rs:37-42 | the i-th registered shape, and None when i is at least the number registered |
| Registries.Len | src/sphere_registry.rs:45-47 | the length is the number of registrations |
| Registries.IsEmpty | src/sphere_registry.rs:49-51 | holds exactly when the length is 0 |
| Registries.RegisterGrowsLen | src/sphere_registry.rs:19-26 | registration adds exactly one to the length and makes the registry non-empty |
| Registries.Iter | src/sphere_registry.rs:65-70 | iteration yields the stored shapes in registration order, one per registration |
| Registries.RegisterExtendsIter | src/sphere_registry.rs:65-70 | registering appends exactly the stamped shape to the iteration |
| Registries.IterDistinct | src/sphere_registry.rs:65-70 | no two positions of the iteration hold the same id |
| Registries.FindShape | src/sphere_registry.rs:54-62 | Some only with a stored shape satisfying the predicate; None exactly when no stored shape does |
| Materials.New | src/materials.rs:23-35 | the default material: white, ambient 0.1, diffuse 0.9, specular 0.9, shininess 200, reflective 0, transparency 0, refractive index 1, no pattern |
| Materials.SetColour | src/materials.rs:62-64 | only the colour changes |
| Materials.SetAmbient | src/materials.rs:66-68 | only the ambient coefficient changes |
| Materials.SetDiffuse | src/materials.rs:70-72 | only the diffuse coefficient changes |
| Materials.SetSpecular | src/materials.rs:74-76 | only the specular coefficient changes |
| Materials.SetShininess | src/materials.rs:78-80 | only the shininess changes |
| Materials.SetPattern | src/materials.rs:82-84 | only the pattern changes |
| Materials.SurfaceColour | src/materials.rs:96-99 | the pattern's sample at the point when a pattern is set, else the material colour |
| Materials.PhongTerms | src/materials.rs:100-122 | diffuse and specular are black in shadow or with the light behind the surface; specular is black when the reflection points away from the eye; when lit, diffuse is colour x intensity x diffuse x (light . normal) |
| Materials.Lighting | src/materials.rs:100-124 | only the ambient term in shadow or with the light behind the surface; ambient + diffuse when the reflection points away from the eye; otherwise ambient + diffuse + specular intensity x specular x (reflect . eye)^shininess; never clamped |
| Materials.ShadowLeavesAmbient | src/materials.rs:108-110 | in shadow the result is surface colour x intensity x ambient |
| Materials.LightBehindSurface | src/materials.rs:108-110 | with the light behind the surface only the ambient term is left |
| Materials.HeadOn | src/materials.rs:112-124 | lit head-on with the eye on the normal, every term is at full strength |
| Materials.HeadOnDefault | src/materials.rs:145-157 | the default material under a white light head-on gives 0.1 + 0.9 + 0.9 = 1.9 in every channel |
| Patterns.SetTransform | src/pattern/pattern.rs:12-15 | stores an invertible transform with its inverse as cache; the colours stay |
| Patterns.PatternPointShifted | src/pattern/pattern.rs:17-21 | with the pattern translated by (x, y, z), the pattern point is the object-space point moved back by (x, y, z) |
| Patterns.PatternPointScaledShapeShiftedPattern | src/pattern/pattern.rs:93-101 | the shape's inverse is applied before the pattern's: with the shape scaled by k and the pattern translated by (x, y, z), the world point k o lands on o - (x, y, z); so (2.5, 3, 3.5) gives (0.75, 0.5, 0.25) for k = 2 and a shift of (0.5, 1, 1.5) |
| Patterns.PatternPointRoundTrip | src/pattern/pattern.rs:17-21 | mapping the pattern point back through the pattern's transform and then the shape's gives the world point |
| Patterns.PatternPointIdentity | src/pattern/pattern.rs:17-21 | with identity transforms the pattern point is the world point |
| Patterns.PatternPointObjectScaling | src/pattern/pattern.rs:76-81 | through an object scaled by 2, the point (2, 3, 4) is seen as (1, 1.5, 2) |
| Patterns.PatternPointPatternScaling | src/pattern/pattern.rs:85-90 | through a pattern scaled by 2, the point (2, 3, 4) is seen as (1, 1.5, 2) |
| Striped.New | src/pattern/striped.rs:33-43 | the colours with identity transform and inverse |
| Striped.StripeBand | src/pattern/striped.rs:23-29 | every x in [n, n + 1) gets a when n is even and b when n is odd, including negative n |
| Striped.StripeShift | src/pattern/striped.rs:24 | moving x by 2 keeps the colour; moving it by 1 swaps a and b |
| Striped.PatternAt | src/pattern/striped.rs:23-29 | the colour depends on x only |
| Striped.StripeAt | src/pattern/striped.rs:45-51 | `stripe_at` agrees with `pattern_at` at every point |
| Striped.PatternAtShape | src/pattern/striped.rs:14-30 | a where the floor of the pattern-space x is even, b where it is odd |
| Striped.StripeAtObject | src/pattern/striped.rs:53-57 | the stripe after the shape inverse and the freshly recomputed inverse of the pattern transform |
| Striped.StripeAtObjectAgrees | src/pattern/striped.rs:53-57 | while the cache is consistent, `stripe_at_object` agrees with `pattern_at_shape` |
| Striped.SetPatternTransform | src/pattern/striped.rs:59-61 | only the transform is overwritten; the cached inverse stays |
| Striped.SetPatternTransformIgnoredByCache | src/pattern/striped.rs:59-61 | after `set_pattern_transform`, `pattern_at_shape` still sees the old cache |
| Striped.SetPatternTransformSeenByObject | src/pattern/striped.rs:53-61 | after `set_pattern_transform`, `stripe_at_object` follows the new transform |
| Striped.StripeNegativeX | src/pattern/striped.rs:100-112 | x = -0.1 gives b and x = -1.1 gives a |
| Checkered.New | src/pattern/checkered.rs:33-44 | the colours with identity transform and inverse |
| Checkered.PatternAt | src/pattern/checkered.rs:22-29 | the result is always a or b |
| Checkered.CheckerCube | src/pattern/checkered.rs:22-29 | every point of the unit cube at (i, j, k) gets a exactly when i + j + k is even |
| Checkered.CheckerNeighbours | src/pattern/checkered.rs:61-91 | stepping one cube along any single axis swaps the colour |
| Checkered.CheckerPeriod | src/pattern/checkered.rs:23 | stepping two cubes along any single axis keeps the colour |
| Checkered.PatternAtShape | src/pattern/checkered.rs:22-29 | a where the floors of the pattern-space coordinates sum to an even number, b where odd |
| Gradient.New | src/pattern/gradient.rs:34-44 | the colours with identity transform and inverse |
| Gradient.Frac | src/pattern/gradient.rs:27 | the fractional part x - floor(x) lies in [0, 1) and x minus it is an integer |
| Gradient.GradientBetween | src/pattern/gradient.rs:22-30 | each channel lies between the corresponding channels of a and b |
| Gradient.GradientAtInteger | src/pattern/gradient.rs:27-29 | at integer x the result is exactly a |
| Gradient.GradientPeriodic | src/pattern/gradient.rs:27 | the result repeats every unit in x and ignores y and z |
| Gradient.GradientWhiteToBlack | src/pattern/gradient.rs:52-70 | white to black gives 0.75, 0.5 and 0.25 at x = 0.25, 0.5 and 0.75 |
| Gradient.PatternAtShape | src/pattern/gradient.rs:22-30 | a + (b - a) times the fractional part of the pattern-space x; every channel lies between those of a and b |
| Gradient.PatternAtShapePeriodic | src/pattern/gradient.rs:22-30 | two world points whose pattern-space x differ by 1 get the same colour |
| Ring.New | src/pattern/ring.rs:32-42 | the colours with identity transform and inverse |
| Ring.RingIndex | src/pattern/ring.rs:23 | the band index of s >= 0 is the n with n^2 <= s < (n + 1)^2 |
| Ring.RingIndexUnique | src/pattern/ring.rs:23 | at most one natural n has n^2 <= s < (n + 1)^2 |
| Ring.FloorSqrtIsRingIndex | src/pattern/ring.rs:23 | the floor of the square root of s is its band index |
| Ring.RingByBand | src/pattern/ring.rs:22-28 | the colour is a exactly when the band index of x^2 + z^2 is even |
| Ring.RingSymmetric | src/pattern/ring.rs:23 | the colour ignores y and is unchanged by negating x or z or swapping them |
| Ring.RingInBand | src/pattern/ring.rs:22-28 | a point whose squared radius lies in [n^2, (n + 1)^2) gets the colour of band n |
| Ring.RingAtOrigin | src/pattern/ring.rs:50-59 | the origin gets a |
| Ring.RingBandOne | src/pattern/ring.rs:50-59 | (1, 0, 0), (0, 0, 1) and (0.708, 0, 0.708) get b |
| Ring.PatternAtShape | src/pattern/ring.rs:22-28 | the ring at the point mapped into pattern space; always a or b |
| Ring.PatternAtShapeByBand | src/pattern/ring.rs:22-28 | a world point gets a exactly when the band index of the pattern point's x^2 + z^2 is even |
| StripePatterns.New | src/patterns.rs:11-17 | the two colours and the identity transform |
| StripePatterns.StripeAt | src/patterns.rs:19-25 | a where floor(x) is even, b where it is odd; y and z are ignored |
| StripePatterns.StripeAtMatchesStriped | src/patterns.rs:19-25 | the legacy stripes are the newer pattern's stripes with the same colours |
| StripePatterns.StripeAtObject | src/patterns.rs:27-31 | the stripe after the shape inverse and the inverse of the pattern transform |
| StripePatterns.SetPatternTransform | src/patterns.rs:33-35 | only the transform is replaced |
| PatternTypes.PatternAtShape | src/pattern/mod.rs:23-29 | each variant delegates to its own pattern's `pattern_at_shape` |
| PatternTypes.TwoColourVariants | src/pattern/mod.rs:25-27 | every variant except the gradient yields one of its two colours |
| Worlds.New | src/world.rs:24-29 | a new world has an empty registry and no light |
| Worlds.AddObject | src/world.rs:31-33 | returns the registry's fresh id; the shape is stored under it |
| Worlds.IntersectWorldSortsStably | src/world.rs:250-259 | the result is ascending, a permutation of the gathered list, and stable on equal t |
| Worlds.EmptyWorldMisses | src/world.rs:282-295 | a world without shapes finds no intersection for any ray |
| Worlds.IsShadowed | src/world.rs:297-310 | None without a light (the unwrap panics); otherwise true exactly when the nearest non-negative intersection toward the light lies closer than the light |
| Worlds.ColourAt | src/world.rs:282-295 | black when no intersection has t >= 0, and black when the hit cannot be prepared; otherwise `shade_hit` of the prepared hit |
| Worlds.ShadeHit | src/world.rs:261-280 | the light's contribution, checked for shadow at the over point, plus the reflected colour |
| Worlds.ReflectedColour | src/world.rs:312-325 | black when the budget is at most 0 or the material does not reflect; otherwise reflective times the colour along the reflected ray with one bounce fewer |
| Worlds.ColourAtTotal | src/world.rs:282-325 | with a light the recursion always terminates with a colour, for every budget |
| Worlds.NoLightPanicsOnShading | src/world.rs:261-264 | without a light, any ray that reaches shading panics |
| Worlds.NoBudgetSameColour | src/world.rs:312-315 | all budgets at or below 0 give the same colour |
| Worlds.ShadeHitReadsOnlyMaterial | src/world.rs:264-267 | shading reads only the hit object's material, since lighting is given a fresh sphere |
| Cameras.IndexIsRowMajor | src/camera.rs:21 | the pixel index is y * width + x |
| Cameras.IndexInjective | src/camera.rs:29 | distinct in-range pixels have distinct indices |
| Cameras.IndexInRange | src/camera.rs:20-21 | an in-range pixel has an index below width * height |
| Cameras.NewCanvas | src/camera.rs:10-17 | a width x height canvas with every pixel black |
| Cameras.PixelAt | src/camera.rs:19-25 | the stored colour in range, black outside |
| Cameras.WritePixel | src/camera.rs:27-31 | in range, pixel (x, y) becomes the colour and every other pixel is unchanged; out of range, nothing changes |
| Cameras.New | src/camera.rs:46-69 | half width and half height follow the two aspect branches; pixel size is twice the half width over hsize; identity transform |
| Cameras.AspectCases | src/camera.rs:51-57 | the two branches of the aspect test, stated without division |
| Cameras.PixelSizeLongerSide | src/camera.rs:67 | the pixel size is twice the half view over the longer side, so swapping hsize and vsize keeps it |
| Cameras.PixelSizeHeight | src/camera.rs:67 | the half height is vsize half-pixels |
| Cameras.SetTransform | src/camera.rs:71-74 | stores the transform with its inverse as cache |
| Cameras.CameraPoint | src/camera.rs:77-81 | the centre of pixel (x, y) is (half_width - (x + 0.5) size, half_height - (y + 0.5) size, -1) |
| Cameras.CentresSymmetric | src/camera.rs:77-81 | mirror-image pixels have mirror-image centres |
| Cameras.RayForPixel | src/camera.rs:76-89 | the ray starts at the camera origin taken to world space; its direction has unit length whenever the world-space pixel centre differs from the origin |
| Cameras.RayForPixelReachesPixel | src/camera.rs:76-89 | travelling along the ray for the (positive) distance from the origin to the world-space pixel centre lands exactly on that centre |
| Cameras.RayForPixelUntransformed | src/camera.rs:76-89 | an untransformed camera's ray starts at the origin and points at the pixel centre |
| Cameras.Paint | src/camera.rs:94-100 | every pixel of the canvas receives the value for its own (x, y) |
| Cameras.Render | src/camera.rs:91-103 | an hsize x vsize canvas whose every pixel is colour_at of its ray with the full bounce budget |
| Cameras.RenderToBuffer | src/camera.rs:105-114 | index y * hsize + x of the buffer holds that pixel's colour; the rest of the buffer is unchanged |
| Transformations.ViewTransform | src/transformations.rs:3-16 | a 4x4 affine transform with bottom row (0, 0, 0, 1) |
| Transformations.ViewTransformIsProduct | src/transformations.rs:3-16 | the view transform is the orientation times the translation by -from |
| Transformations.ViewTransformMapsPoint | src/transformations.rs:3-16 | a point's image is its offset from the eye measured along left, true up and backward; the eye goes to the origin |
| Transformations.ViewAlongNegativeZ | src/transformations.rs:25-34 | looking down -z with up +y gives the translation by -from: the identity from the origin; so from (0, 0, 8) it is translation(0, 0, -8), as src/transformations.rs:47-56 expects |
| Transformations.ViewAlongPositiveZ | src/transformations.rs:36-45 | looking down +z with up +y gives scaling(-1, 1, -1) after the translation by -from |
| LegacyShapes.ResetCounter | src/shape.rs:9-11 | after a reset the next id is 0 |
| LegacyShapes.FetchAdd | src/shape.rs:61 | yields the counter's value and advances it by one, wrapping from 2^32 - 1 to 0 |
| LegacyShapes.NewSphere | src/shape.rs:57-67 | the counter's id with the identity transforms and default material, consistent; the counter advances |
| LegacyShapes.SetTransform | src/shape.rs:87-90 | stores the transform with its inverse; id and material stay |
| LegacyShapes.SetMaterial | src/shape.rs:96-98 | only the material changes, so consistency is kept |
| LegacyShapes.SpawnIds | src/shape.rs:7 | spheres created one after another get consecutive ids modulo 2^32 |
| LegacyShapes.SpawnAfterReset | src/shape.rs:9-11 | after a reset the first 2^32 spheres get ids 0, 1, 2, ..., pairwise distinct; the counter then returns to 0 |
| LegacyShapes.NewBareSphere | src/sphere.rs:12-16 | the bare sphere takes the counter's id and the counter advances |
| LegacyShapes.BareIntersect | src/sphere.rs:19-37 | dividing by 2a gives exactly the intersections of the trait sphere with the same id |
| LegacyShapes.BareRootsAgree | src/sphere.rs:28-30 | the roots over 2a are the roots times 1 / 2a |
| LegacyShapes.StartInside | src/sphere.rs:77-85 | a ray starting inside the sphere meets it once behind and once ahead |
| LegacyShapes.SphereBehind | src/sphere.rs:88-96 | a ray starting outside and pointing away meets it only at negative t |
| Simulations.Tick | src/simulation.rs:18-23 | every projectile takes one step (velocity += gravity + wind, then position += velocity); number, order and environment stay |
| Simulations.StepKeepsKinds | src/simulation.rs:20-21 | a point position stays a point and a vector velocity a vector |
| Simulations.TickExample | src/simulation.rs:31-67 | gravity (0, -0.1, 0) and wind (-0.01, 0, 0) take (0, 1, 0) with velocity (1, 1, 0) to (0.99, 1.9, 0) with velocity (0.99, 0.9, 0) |
| Simulations.FlyVelocity | src/simulation.rs:18-23 | after n ticks the velocity is v + n (gravity + wind) |
| Simulations.FlyPosition | src/simulation.rs:18-23 | after n ticks the position is p + n v + (1 + ... + n)(gravity + wind) |
| Simulations.TriangleClosedForm | src/simulation.rs:18-23 | 1 + ... + n = n (n + 1) / 2 |
| Simulations.ForceFreeFlight | src/simulation.rs:20 | with no net force the velocity is invariant and the position advances by it each tick |
| Framebuffers.Clamp | src/render_context.rs:189-191 | the channel clamped to [0, 1] |
| Framebuffers.ChannelByte | src/render_context.rs:189-191 | the byte is the floor of the clamped channel times 255 |
| Framebuffers.Encode | src/render_context.rs:186-196 | four bytes per pixel: the truncated red, green and blue channels scaled to 0..255, then an opaque alpha 255 |
| Framebuffers.ChannelByteRange | src/scene.rs:114-116 | channels at or below 0 give 0, at or above 1 give 255, and the byte is monotone |
| Framebuffers.HalfIsTruncated | src/render_context.rs:189-191 | truncation, not rounding: 0.5 gives 127 |
| Framebuffers.EncodeAll | src/render_context.rs:184-198 | four bytes per colour: the quad at 4i is the encoding of pixel i: the truncated red, green and blue bytes and alpha 255 |
| Framebuffers.QuadsDetermine | src/render_context.rs:184-198 | two buffers agreeing quad by quad are equal |
| Framebuffers.New | src/render_context.rs:50-67 | width x height black pixels and a buffer of 4 width height zero bytes; the scene allocates the same (src/scene.rs:24-29) |
| Framebuffers.NewNotSynced | src/render_context.rs:50-67 | a fresh non-empty buffer is not the encoding of its pixels, since its alpha bytes are 0 |
| Framebuffers.GetPixelColour | src/render_context.rs:340-347 | the stored colour in range, black out of range; the scene's copy (src/scene.rs:145-152) is the same |
| Framebuffers.WritePixel | src/render_context.rs:322-338 | in range, the colour is stored and its four bytes written at 4 (y width + x), other quads unchanged; out of range a no-op; the scene's copy (src/scene.rs:127-143) is the same |
| Framebuffers.WriteThenGet | src/render_context.rs:380-388 | reading back an in-range written pixel gives its colour; other pixels read as before; the scene's round trip (src/scene.rs:200-208) is the same |
| Framebuffers.WritePixelKeepsSynced | src/render_context.rs:322-338 | a write keeps the buffer the encoding of the pixels |
| Framebuffers.UpdateBufferFromColours | src/render_context.rs:184-198 | afterwards the buffer is exactly the encoding of the pixels; the pixels are untouched; the scene's copy (src/scene.rs:109-123) is the same |
| RenderContexts.RayOrigin | src/render_context.rs:214 | every ray starts at the point (0, 0, -10) |
| RenderContexts.WallPoint | src/render_context.rs:229-235 | the wall point of a pixel is a point on z = 10 |
| RenderContexts.WallLayout | src/render_context.rs:215-233 | pixel (0, 0) looks at (3.5, 3.5); steps are 7 / full_height; row full_height is at y = -3.5, and rows up to it stay within [-3.5, 3.5] |
| RenderContexts.WallRayReachesWall | src/render_context.rs:235-237 | the ray starts at the eye, has a unit direction and reaches its wall point after the eye-to-wall distance |
| RenderContexts.TileColours | src/render_context.rs:227-261 | local pixel (lx, ly) of the tile has the colour of global pixel (tile_x + lx, tile_y + ly) at the row-major index |
| RenderContexts.RenderTile | src/render_context.rs:201-288 | tile_width tile_height quads; local pixel (lx, ly) holds, at quad ly tile_width + lx, the encoded colour of global pixel (tile_x + lx, tile_y + ly); full_width plays no part |
| RenderContexts.RenderTileIgnoresFullWidth | src/render_context.rs:201-288 | two values of full_width give the same bytes |
| RenderContexts.TileAgreesWithWholeImage | src/render_context.rs:227-274 | a tile's pixel holds the same bytes as the same global pixel of the whole image rendered as one tile |
| Scenes.ResetSimulation | src/scene.rs:154-167 | gravity (0, -0.25, 0), wind (-0.15, 0, 0), one projectile at (0.1 w, 0.2 h) with velocity (0.02 w, 0.025 h), tick count 0; pixels stay; `reset` (src/scene.rs:104-106) does the same |
| Scenes.New | src/scene.rs:24-46 | a fresh framebuffer, time 0, at most 100 ticks, and a reset simulation |
| Scenes.DotCorner | src/scene.rs:69-80 | a corner exactly when there is a projectile inside the viewport; its column is the truncated x and its row the truncated height - y |
| Scenes.Clear | src/scene.rs:52-57 | every pixel black; the bytes untouched |
| Scenes.DrawDot | src/scene.rs:83-92 | every in-range pixel of the 5 x 5 block becomes red and every other pixel stays |
| Scenes.Render | src/scene.rs:48-98 | ticks while tick_count < max_ticks and resets otherwise, so tick_count <= max_ticks; every pixel is red exactly when the block covers it and black otherwise; the buffer encodes the pixels |
| Scenes.LaunchVisible | src/scene.rs:154-167 | on a non-empty canvas the launch point is in the viewport and the block starts at column floor(0.1 w) and row floor(0.8 h) |
| Scenes.GroundLevelInvisible | src/scene.rs:74-80 | a projectile at y = 0 passes the viewport check, but its block starts at row h, so no pixel is red |

## Left out

- IEEE-754 behaviour is not modelled. This covers rounding, NaN (including the panic in the sort's `partial_cmp(...).unwrap()`), infinities, and the epsilon-tolerant matrix equality. The model uses exact `real` equality.
- Transcendental functions are not computed. `sqrt` and `powf` are parameters constrained by `Numerics.Valid()`. The tangent in `Camera::new` is supplied as `halfView`. The rotation matrices are left out, because they need `sin` and `cos`.
- The source files `src/tuple.rs` and `src/ray.rs` are not part of this model. The tuple and ray operations the model needs (add, subtract, scale, dot, cross, normalise, reflect, position, transform) are defined directly.
- `prepare_computations` is not part of this model, and neither is the refraction state it builds. It is a parameter of `Worlds.Geometry`, as are one shape's intersection and lighting inside `World`.
- `Registries.FindShape` searches in registration order. The source searches a hash map in unspecified order, so the contract promises only some matching shape.
- Ids, widths and heights are unbounded `nat`. The source's u32 and usize overflow is left out: `next_id += 1`, `y * width + x`, `width * height * 4` and `tile_x + local_x`. The exception is the legacy global counter, whose 2^32 wrap-around is modelled (`LegacyShapes.FetchAdd`).
- The legacy counters' atomic memory ordering and thread interleavings are left out. The counter is a value threaded through the calls.
- Saturating `as i32` / `as u8` casts are modelled as floor without saturation. This is exact for channels after clamping; for pattern coordinates it is exact below 2^31.
- The ray tracer binary, the benchmark, the wasm bindings, the getters that hand the buffer's address to the page, `performance_now` timing and console logging are left out.
- `RenderContext::render`, `update_light_position`, `update_sphere_position` and `render_tile_and_store` are left out. They drive a hard-coded one-sphere scene through the wasm interface.
- The shading inside `render_tile` enters as a parameter `trace: Ray -> Colour`. It calls functions of the older sphere module with the material and light of the context's fixed scene, and that scene module is not part of this model. The model keeps the geometry of the eye, the wall and the pixel size, and the buffer layout.
- The scene fixtures `default_world`, `test_world` and `third_world` are not modelled: they are construction data only.
- `get_projectiles`, which `Scene::render` calls, is not defined in the simulation source. It is read here as the list of projectiles.
- Spheres.LocalIntersect: requires a non-zero ray direction. The source divides by 2a and returns NaN roots when a = 0.
- Cameras.New: requires hsize, vsize > 0. The source divides by both.
- Matrices.Inverse: requires a square matrix of at least 2x2 with a non-zero determinant. The source panics when its as-written determinant is 0, which covers every 1x1 matrix (`Matrices.InvertibleIsSourceGuard`).
- RenderContexts.RenderTile: requires full_height > 0. The source divides by it and gets an infinite pixel size.
- Cameras.RenderToBuffer: requires the buffer to hold the whole image. The source panics on an index past the end.
- Worlds.ColourAt: the no-light panic is `None`.
- Cameras.Render: requires the world to have a light. Without one, the source renders black when every ray misses (src/world.rs:282-295) and panics when a ray reaches `shade_hit`; the model does not cover the first case.
- Cameras.RenderToBuffer: requires a light, for the same reason as `Cameras.Render`.
- The 0 x 0 determinant of the expansion's base case is 0, as in the source.

## Findings

| source | as written | input that shows it | evidently intended | confidence | as-written member | corrected member |
|---|---|---|---|---|---|---|
| src/matrix.rs:114-124 | only 2x2 has a base case, so a 1x1 matrix is expanded along row 0 into a 0x0 submatrix whose determinant is the empty sum 0 | the 1x1 matrix [[5]] has determinant 0, so every cofactor of a 2x2 matrix is 0 and `inverse` of an invertible 2x2 matrix is the zero matrix | the determinant of [[a]] is a, so 2x2 matrices invert correctly | not executed | Matrices.InverseAsWrittenTwoByTwo | Inversion.InverseTwoByTwo |
