# A verified model of the core of the `rt` ray tracer

`rt` is a C++ ray tracer. It builds a scene of triangles, quads, spheres and
planes with materials and textures, indexes the triangles in kd-trees, and
renders pixels in one of three ways: a Monte-Carlo path tracer, a
deterministic Phong-style shader with point and area lights, or a
"scene signature" shader that colours a pixel by the normal it sees. It
writes the pixel buffer as a binary PPM (P6) image and reads meshes with a
small OBJ tokenizer.

This project models that core in Dafny and proves properties of the model:

- **Arithmetic and vectors** (`Numerics`, `Vectors`, `VectorAlgebra`,
  `Matrices`, `Rays`). Doubles are reals, and C++ truncation, `%` and
  `clamp` are written out. Every product goes through `Numerics.Mul`. The
  vector operations carry their algebra: dot symmetry, cross-product
  orthogonality, reflection, unit length. So do the 3×3 matrix operations:
  linearity, associativity, transpose, adjugate inverse.
- **Geometry** (`Utils`, `Triangles`, `Quads`, `Spheres`, `Planes`,
  `MeshCentroids`). For each primitive the model has its ray intersection, hit
  record, (u, v) coordinates and sample point. The proofs show that hit points
  lie on the surface, that the sphere hit is the nearest root, that the
  barycentric test does not depend on orientation, and that the projections
  onto (u, v) invert each other.
- **Shading data** (`HitRecords`, `Materials`, `Textures`, `Dielectrics`,
  `PointLights`):
  - hit records with the front-face normal rule;
  - materials whose emission can change;
  - the photon grid of a texture, a class over a 160000-cell array;
  - checkerboard, solid and image textures;
  - Schlick reflectance and the dielectric scatter.
- **Spatial index** (`BoundingBoxes`, `PointTrees`, `BoxTrees`, `KDTrees`,
  `EarlyPointTrees`):
  - the point kd-tree, with its insertion and nearest-neighbour search;
  - the bounding-box tree over triangles and its ray traversal;
  - the earlier single-tree version of the index.
  Trees are owning datatypes held by a class. Each operation is proved
  against a specification over the set of stored points or triangles.
- **Scenes** (`Worlds`, `EarlyWorlds`): the object and light lists, the
  closest-hit query and the photon lookup. The model also has the
  shadow-ray query `has_path`.
- **The camera** (`Cameras`, `Shading`, `Pixels`, `Images`):
  - the lens ray and the jittered pixel ray;
  - the path tracer's radiance accumulation, against a recursive reference
    definition;
  - the Phong shader's light sampling and bounce;
  - the signature shader;
  - the per-pixel average;
  - the row-major pixel buffer and the P6 byte encoding.
- **OBJ input** (`ObjTokens`): the character reader as a class over the
  remaining text, the numeric, keyword and token scanners, and pure
  specifications of each scanner, together with their round-trips.

Calls into code the model does not contain are passed in as parameters.
This covers the square root, `exp`, `pow` and random draws, and the
virtual dispatch over objects, materials and lights. A lemma that needs a
law about such a parameter states it in its requires, for example
`Numerics.IsSqrt(sqrt)`.

A few places in the code do not do what their callers evidently expect.
Each is listed under "## Findings" with a member that models the code as
written and a corrected member. The operations that call such a place are
built on the corrected member; their rows say "corrected", and each of them
has a line under "## Left out".

## Model

| member | source | states |
|---|---|---|
| `Numerics.Clamp` | src/utils.cpp:24-32 | the result is min, x or max; for min <= max it lies in [min, max], and a value already inside is returned unchanged |
| `Numerics.ClampIdempotent` | src/utils.cpp:24-32 | clamping a clamped value again changes nothing when min <= max |
| `Numerics.Deg2Rad` | src/utils.cpp:39-42 | r 180 = M_PI deg, so 180 degrees is M_PI |
| `Numerics.Trunc` | src/world/camera.cpp:234 | a conversion of a double to an integer truncates toward zero: r <= v < r + 1 for v >= 0 and r - 1 < v <= r below zero |
| `Numerics.CppRem` | src/texture/checkerboard.cpp:21 | C++ `%`: a = (a / b) b + r, with r of the sign of a and smaller than b in magnitude |
| `Numerics.GridIndex` | src/world/camera.cpp:433 | the row-major index of a pixel of the image lies inside the buffer |
| `Numerics.GridIndexInverse` | src/world/camera.cpp:433 | the row and the column are recovered from the row-major index by / and % |
| `Utils.HitBox` | src/utils.cpp:108-138 | the out-parameters are left untouched exactly when the ray is parallel (below 1e-8) or the plane lies behind it; otherwise lambda is the non-negative plane parameter and the result is true iff 0 <= alpha <= u_length and 0 <= beta <= v_length |
| `Utils.Independent` | src/utils.cpp:117-121 | when the ray passes the parallel test, u x v is non-zero, so both coordinate denominators are non-zero |
| `Utils.HitBoxOnPlane` | src/utils.cpp:123-128 | the point at(lambda) lies on the plane: (u x v) . (at(lambda) - point) = 0 |
| `Utils.HitBoxCoordinates` | src/utils.cpp:128-135 | alpha and beta are the coordinates of the hit point in the basis (u, v) |
| `Utils.TextureProjectionMapsEdges` | src/utils.cpp:244-262 | for a non-degenerate triangle, T (a x + b y) = a u + b v with x, y the triangle's edges and u, v its texture edges |
| `Utils.TextureProjectionMatrix` | src/utils.cpp:244-262 | the matrix uv_basis adj(B^T B)^T B^T / det(B^T B) of a non-degenerate triangle; no contract of its own, `Utils.TextureProjectionMapsEdges` states what it maps |
| `Utils.GramProjection` | src/utils.cpp:254-261 | B^T applied to a x + b y gives the Gram products (x . w, y . w, 0) |
| `Utils.AdjugateInverts` | src/utils.cpp:256-257 | the adjugate of B^T B maps the Gram products back to det (a, b, 0) |
| `Utils.UVCombination` | src/utils.cpp:259-261 | the texture basis applied to det (a, b, 0), divided by det, gives a u + b v |
| `MeshCentroids.ComputeMeshCentroid` | src/utils.cpp:140-156 | the loop returns the area-weighted sum of the triangle centres divided by the total area |
| `MeshCentroids.SingleTriangleCentroid` | src/utils.cpp:140-156 | the centroid of a one-triangle mesh is that triangle's centre |
| `MeshCentroids.CentroidTranslates` | src/utils.cpp:140-156 | moving every triangle by d keeps the total area and moves the weighted sum by d times the total area, so the centroid moves by d |
| `Vectors.Vec3.Index` | ds/vec3.cpp:240-260 | indices 0, 1 and 2 select x, y and z; every other index fails with the source's "error: invalid dimension!" message |
| `Vectors.Vec3.Clamp` | ds/vec3.cpp:157-160 | for min <= max every component of the result lies in [min, max]; a vector already inside the box is returned unchanged |
| `Vectors.Less` | ds/vec3.cpp:117-130 | the axis loop returns true exactly when a precedes b in lexicographic order |
| `Vectors.LexLessIrreflexive` | ds/vec3.cpp:117-130 | no vector is less than itself |
| `Vectors.LexLessTransitive` | ds/vec3.cpp:117-130 | a < b and b < c give a < c |
| `Vectors.LexLessTrichotomy` | ds/vec3.cpp:112-130 | exactly one of a < b, b < a and a == b holds |
| `Vectors.EqualsIsEquality` | ds/vec3.cpp:112-115 | `operator==` holds exactly when the two vectors are equal |
| `Vectors.DotSymmetric` | ds/vec3.cpp:132-145 | a . b = b . a and the squared length is never negative |
| `Vectors.CrossProperties` | ds/vec3.cpp:137-140 | a x b is orthogonal to a and to b, and a x b = -(b x a) |
| `Vectors.ReflectPreservesLength` | ds/vec3.cpp:167-170 | reflection in a unit normal keeps the squared length |
| `Vectors.ReflectTwice` | ds/vec3.cpp:167-170 | reflecting twice in the same unit normal returns the original vector |
| `Vectors.NearZeroSmall` | ds/vec3.cpp:172-175 | a vector whose components are all below 1e-8 in magnitude has a squared length below 3e-16 |
| `Vectors.LengthSquaredPositive` | ds/vec3.cpp:142-145 | the squared length vanishes only at the zero vector |
| `Vectors.UnitLength` | ds/vec3.cpp:152-155 | `unit()` of a non-zero vector has length one |
| `Vectors.UnitAtMostOne` | ds/vec3.cpp:152-155 | `unit()` has squared length at most one, whatever its argument |
| `Vectors.Vec3Var.constructor` | ds/vec3.cpp:12-17 | the copy constructor holds the copied value |
| `Vectors.Vec3Var.Assign` | ds/vec3.cpp:24-31 | `operator=` stores the other vector and returns it |
| `Vectors.Vec3Var.AddAssign` | ds/vec3.cpp:84-89 | `+=` leaves the value of the binary `+` in place and returns it |
| `Vectors.Vec3Var.AddScalarAssign` | ds/vec3.cpp:91-96 | `+= d` leaves the value of the binary scalar `+` in place and returns it |
| `Vectors.Vec3Var.SubAssign` | ds/vec3.cpp:98-103 | `-=` leaves the value of the binary `-` in place and returns it |
| `Vectors.Vec3Var.ScaleAssign` | ds/vec3.cpp:105-110 | `*=` leaves the value of the binary `*` in place and returns it |
| `Vectors.Vec3Var.DivAssign` | ds/vec3.cpp:77-82 | `/=` leaves the value of the binary `/` in place and returns it |
| `Vectors.Vec3Var.SetIndex` | ds/vec3.cpp:240-249 | a write through `operator[]` succeeds exactly for indices 0..2 and changes only that component; any other index writes nothing |
| `Vectors.Vec3.Dot` | src/ds/vec3.cpp:141-144 | the dot product; no contract of its own, `Vectors.DotSymmetric` states that it is symmetric and that a vector's dot with itself is never negative |
| `Vectors.Vec3.Cross` | src/ds/vec3.cpp:146-149 | the cross product; no contract of its own, `Vectors.CrossProperties` states that it is orthogonal to both arguments and antisymmetric |
| `Vectors.Vec3.Unit` | src/ds/vec3.cpp:161-164 | the vector divided by its length; no contract of its own, `Vectors.UnitLength` states that it has length 1 for a non-zero vector |
| `Vectors.Vec3.Reflect` | ds/vec3.cpp:167-170 | v - 2 (v . n) n; no contract of its own, `Vectors.ReflectPreservesLength` states that it keeps the length for a unit normal |
| `Vectors.Vec3.Add` | ds/vec3.cpp:38-41 | the componentwise sum; no contract of its own, `Vectors.OperatorLaws` states that it commutes and that `-` undoes it |
| `Vectors.Vec3.AddScalar` | ds/vec3.cpp:43-46 | d added to every component; no contract of its own, `Vectors.OperatorLaws` states that it is the sum with (d, d, d) |
| `Vectors.Vec3.Neg` | ds/vec3.cpp:48-51 | every component negated; no contract of its own, `Vectors.OperatorLaws` states that it is the scaling by -1 |
| `Vectors.Vec3.Sub` | ds/vec3.cpp:53-56 | the componentwise difference; no contract of its own, `Vectors.OperatorLaws` states that a - b = a + (-b) and (a + b) - b = a |
| `Vectors.Vec3.Scale` | ds/vec3.cpp:57-65 | every component times d, in either operand order; no contract of its own, `Rays.ScaleLengthSquared` states that it scales the squared length by d^2 |
| `Vectors.Vec3.MulComponents` | ds/vec3.cpp:67-70 | the componentwise product; no contract of its own, `Vectors.OperatorLaws` states that the product with (d, d, d) is the scaling by d |
| `Vectors.Vec3.Div` | ds/vec3.cpp:72-75 | every component divided by a non-zero d; no contract of its own, `Vectors.OperatorLaws` states that it is the scaling by 1 / d |
| `Vectors.Vec3.LengthSquared` | ds/vec3.cpp:142-145 | the dot product with itself; no contract of its own, `Vectors.LengthSquaredPositive` states that it is non-negative and zero only for the zero vector |
| `Vectors.Vec3.Length` | ds/vec3.cpp:147-150 | the square root of the squared length; no contract of its own, `Vectors.LengthIsRoot` states that it is the non-negative root, zero exactly for the zero vector |
| `Vectors.OperatorLaws` | ds/vec3.cpp:38-75 | + commutes and - undoes it, unary - and / are scalings by -1 and 1 / d, + d adds (d, d, d), and the componentwise product with (d, d, d) is the scaling by d |
| `Vectors.LengthIsRoot` | ds/vec3.cpp:147-150 | with a lawful `sqrt`, `length()` is the non-negative square root of `length_squared()`, and zero exactly for the zero vector |
| `Vectors.Vec3.Equals` | ds/vec3.cpp:112-115 | all three components equal; no contract of its own, `Vectors.EqualsIsEquality` states that it is equality of vectors |
| `Vectors.Vec3.NearZero` | ds/vec3.cpp:172-175 | every component below 1e-8 in magnitude; no contract of its own, `Vectors.NearZeroSmall` bounds the squared length of such a vector by 3e-16 |
| `Vectors.LexLess` | ds/vec3.cpp:117-130 | the strict lexicographic order; no contract of its own, `Vectors.Less` states that the axis loop computes it, and `Vectors.LexLessIrreflexive`, `Vectors.LexLessTransitive` and `Vectors.LexLessTrichotomy` that it is a strict total order |
| `VectorAlgebra.CrossOfCombination` | src/object/quad.cpp:20-32 | v x (a u + b v) = a (v x u), the step that makes the alpha/beta quotients recover a and b |
| `VectorAlgebra.CoordinatesOfCombination` | src/object/quad.cpp:20-32 | for w = a u + b v, the two cross-product quotients used by find_alpha_beta and to_uv give back a and b |
| `VectorAlgebra.CrossDotReversed` | src/object/quad.cpp:36-46 | (v x u) . (u x v) = -\|u x v\|^2, negative unless u x v is zero |
| `Matrices.MulVecRows` | src/ds/mat3.cpp:51-58 | M b combines the columns with the coordinates of b, so each component is a row of M dotted with b |
| `Matrices.MulVecLinear` | src/ds/mat3.cpp:51-58 | the product with a vector is linear |
| `Matrices.MulMatAssociative` | src/ds/mat3.cpp:60-67 | (A B) x = A (B x) |
| `Matrices.MulScale` | src/ds/mat3.cpp:69-76 | (A d) x = (A x) d |
| `Matrices.TransposeEntries` | src/ds/mat3.cpp:78-87 | entry (i, j) of the transpose is entry (j, i); transposing twice returns the matrix |
| `Matrices.TransposeAdjoint` | src/ds/mat3.cpp:78-87 | (M^T a) . b = a . (M b) |
| `Matrices.Mat3.MulVec` | src/ds/mat3.cpp:51-58 | the column combination c1 b.x + c2 b.y + c3 b.z; no contract of its own, `Matrices.MulVecRows` states that each component is a row dotted with b |
| `Matrices.Mat3.MulMat` | src/ds/mat3.cpp:60-67 | the matrix whose columns are this times B's columns; no contract of its own, `Matrices.MulMatAssociative` states that (A B) x == A (B x) |
| `Matrices.Mat3.Transpose` | src/ds/mat3.cpp:78-86 | rows and columns exchanged; no contract of its own, `Matrices.TransposeEntries` states that entry (i, j) becomes (j, i) and that transposing twice gives the matrix back |
| `Matrices.Mat3.Scale` | src/ds/mat3.cpp:69-76 | every column scaled by d; no contract of its own, `Matrices.MulScale` states that (A d) x = (A x) d |
| `Rays.MakeRay` | src/ds/ray.cpp:13-15 | the two-argument constructor keeps origin and direction and sets the time to 0 |
| `Rays.AtProperties` | src/ds/ray.cpp:21-24 | at(0) is the origin and at(t) - origin is t times the direction |
| `Rays.CanRefractWhenNotDenser` | src/ds/ray.cpp:26-32 | with a unit normal and mu <= 1 the refraction test always passes |
| `Rays.NudgeForwardMoves` | src/ds/ray.cpp:34-37 | nudging keeps direction and time and moves the origin by 0.01 unit(direction), a move of length exactly 0.01 along a non-zero direction |
| `Rays.Ray.NudgeForward` | src/ds/ray.cpp:34-37 | keeps the direction and the time; `Rays.NudgeForwardMoves` states the move of the origin |
| `Rays.Ray.At` | src/ds/ray.cpp:21-24 | origin + t direction; no contract of its own, `Rays.AtProperties` states that at(0) is the origin and at(t) - origin is t times the direction |
| `Rays.Ray.CanRefract` | src/ds/ray.cpp:26-32 | mu sin(theta) <= 1 with cos(theta) capped at 1; no contract of its own, `Rays.CanRefractWhenNotDenser` states that a ray can always refract when mu is at most 1 |
| `Textures.Texture.constructor` | src/texture/texture.cpp:5-10 | a fresh grid of 400 x 400 = 160000 cells, all zero |
| `Textures.Texture.StorePhoton` | src/texture/texture.cpp:15-21 | the colour is added to the cell PhotonCell(uv) and every other cell keeps its value |
| `Textures.PhotonColumn` | src/texture/texture.cpp:17 | the column is floor(uv[0] 400), below 400 |
| `Textures.PhotonRow` | src/texture/texture.cpp:18 | the row is floor(uv[1] 400), below 400 |
| `Textures.PhotonCell` | src/texture/texture.cpp:20 | the index y 400 + x lies in the grid and gives back the row by / and the column by % |
| `Textures.PhotonCellInjective` | src/texture/texture.cpp:17-20 | two uv points land in the same cell exactly when they share column and row |
| `Textures.Checkerboard.ReadRgb255` | src/texture/checkerboard.cpp:24-27 | always fails with "Not implemented" |
| `Textures.Checkerboard.PhotonMap` | src/texture/checkerboard.cpp:12-15 | always zero |
| `Textures.CheckerboardParity` | src/texture/checkerboard.cpp:17-22 | the even colour exactly when floor(x) + floor(y) + floor(z) is even; a negative odd sum has C++ remainder -1, which is true and so odd |
| `Textures.CheckerboardIgnoresUV` | src/texture/checkerboard.cpp:17-22 | the colour does not depend on uv |
| `Textures.CheckerboardShiftFlips` | src/texture/checkerboard.cpp:19-21 | moving the point by exactly one along any axis swaps the two colours |
| `Textures.ImageTexture.PixelIndex` | src/texture/image_texture.cpp:36-39 | for uv in [0, 1) x [0, 1) the index floor(uv.y h) w + floor(uv.x w) is inside the pixel array, with row and column recovered by / and % |
| `Textures.ImageTexture.ReadRgb255` | src/texture/image_texture.cpp:34-42 | the channels of the pixel at that index, each in [0, 255] |
| `Textures.ImageTexture.ReadTextureUV` | src/texture/image_texture.cpp:27-32 | each of the three channels is (c / 255)^2 of the pixel's channel c and lies in [0, 1] |
| `Textures.ImageTexture.PhotonMap` | src/texture/image_texture.cpp:22-25 | always zero |
| `Textures.TextureRef.ReadTextureUV` | src/material/material.cpp:28-31 | the dispatched texture lookup: a solid texture gives its colour, a checkerboard one of its two colours, an image a colour in the unit cube |
| `Textures.Checkerboard.ReadTextureUV` | src/texture/checkerboard.cpp:17-22 | odd or even colour by the C++ remainder of floor(x) + floor(y) + floor(z) modulo 2; no contract of its own, `Textures.CheckerboardParity`, `Textures.CheckerboardIgnoresUV` and `Textures.CheckerboardShiftFlips` state the parity, the independence from uv and the flip on a unit step |
| `Materials.Material.constructor` | src/material/material.cpp:11-14 | keeps texture and normal map and starts with zero emission, so the material is not emissive |
| `Materials.Material.SetEmission` | src/material/material.cpp:33-41 | after `emission(c)`, `emission()` returns c |
| `Materials.Material.Normal` | src/material/material.cpp:16-26 | n itself without a normal map; otherwise tbn applied to the decoded texel |
| `Materials.IsEmissiveIffNonZero` | src/material/material.cpp:43-46 | emissive exactly when the emission is not the zero vector |
| `Materials.DecodeNormal` | src/material/material.cpp:23 | each channel c is decoded separately by DecodeChannel |
| `Materials.DecodeChannelRange` | src/material/material.cpp:23 | a channel in [0, 255] decodes to [-1, 1], with 0 to -1 and 255 to 1, strictly increasing |
| `Materials.Material.MakeDielectric` | src/material/dielectric.cpp:12-16 | the dielectric constructor: a white solid texture, no normal map and zero emission |
| `Materials.Material.Emission` | src/material/material.cpp:38-41 | the stored emission; no contract of its own, `Materials.Material.SetEmission` states that it reads back the value set |
| `Materials.Material.IsEmissive` | src/material/material.cpp:43-46 | the squared length of the emission is positive; no contract of its own, `Materials.IsEmissiveIffNonZero` states that this holds exactly when the emission is not zero |
| `Materials.Material.Color` | src/material/material.cpp:28-31 | the texture read at the record's uv and hit point, with no lemma of its own |
| `Dielectrics.ReflectanceAtNormalIncidence` | src/material/dielectric.cpp:65-72 | reflectance(1, eta) = r0 = ((1 - eta) / (1 + eta))^2 |
| `Dielectrics.R0InUnit` | src/material/dielectric.cpp:67-69 | for eta > 0, r0 lies in [0, 1) |
| `Dielectrics.ReflectanceRange` | src/material/dielectric.cpp:65-72 | for a cosine in [0, 1] and eta > 0 the reflectance lies in [r0, 1] |
| `Dielectrics.Scatter` | src/material/dielectric.cpp:23-63 | no refraction: reflect with probability 1; otherwise reflect with refl when the draw is below refl, else refract with 1 - refl; brdf is attenuation ray_prob / cosine, and absent exactly when the cosine is 0; ray_prob lies in [0, 1] for a ray against the normal |
| `Dielectrics.Refract` | src/ds/vec3.cpp:187-190 | Snell's law in vector form, standing in for `simd_refract`, which is not part of this model: with m = -unit(n), m x refract(d) = mu (m x unit(d)), whatever the square root returns |
| `Dielectrics.Attenuation` | src/material/dielectric.cpp:31-36 | entering glass the attenuation is 1 |
| `Dielectrics.RelativeIndexPositive` | src/material/dielectric.cpp:25 | mu is positive, and 1 / ior on a front-face hit |
| `Dielectrics.R0` | src/material/dielectric.cpp:67-69 | ((1 - eta) / (1 + eta))^2; no contract of its own, `Dielectrics.R0InUnit` states that it lies in [0, 1) for a positive index |
| `Dielectrics.Reflectance` | src/material/dielectric.cpp:65-72 | Schlick's approximation; no contract of its own, `Dielectrics.ReflectanceRange` states that it lies between r0 and 1, and `Dielectrics.ReflectanceAtNormalIncidence` that it is r0 at cosine 1 |
| `Dielectrics.RelativeIndex` | src/material/dielectric.cpp:25 | 1 / ior through the front face and ior otherwise; no contract of its own, `Dielectrics.RelativeIndexPositive` states that it is positive for a positive index and the reciprocal of ior on a front face |
| `PointLights.PointLight.DiffuseIntensity` | light/point_light.cpp:9-12 | Id at the light's own point, zero anywhere else |
| `PointLights.PointLight.SpecularIntensity` | light/point_light.cpp:14-17 | Is at the light's own point, zero anywhere else |
| `PointLights.PointLight.SamplePoint` | light/point_light.cpp:24-27 | the light's point |
| `PointLights.SampledIntensities` | light/point_light.cpp:9-27 | at its sampled point the light gives Id and Is, and it is a point light |
| `PointLights.PointLight.IsPointLight` | light/point_light.cpp:19-22 | always true; `PointLights.SampledIntensities` states it for every point light |
| `HitRecords.NewRecord` | src/world/hitrecord.cpp:5-7 | hit point and normal start at zero |
| `HitRecords.SetNormal` | src/world/hitrecord.cpp:9-21 | front_face iff direction . outward <= 0; the normal is the unit of outward or of its negation; nothing else changes |
| `HitRecords.SetNormalOpposesRay` | src/world/hitrecord.cpp:9-21 | the stored normal never points along the ray |
| `HitRecords.OutwardNormalRecovers` | src/world/hitrecord.cpp:23-26 | `outward_normal()` recovers the unit outward normal given to `setNormal` |
| `HitRecords.OutwardNormal` | src/world/hitrecord.cpp:23-26 | the stored normal, negated on a back-face hit; no contract of its own, `HitRecords.OutwardNormalRecovers` states that after setNormal it is the unit outward normal given |
| `Triangles.Tri.Hit` | src/object/triangle.cpp:74-93 | a hit exactly when `hit_box` with lengths (1, 1) reports a point inside the box and that point is `inside`; then lambda is hit_box's non-negative lambda, the hit point is at(lambda), uv is `to_uv` of it and the object is this triangle; on a miss the record is unchanged |
| `Triangles.Tri.Inside` | src/object/triangle.cpp:60-72 | the three edge values all positive or all negative; no contract of its own, `Triangles.InsideIgnoresOrientation` and `Triangles.CornersNotInside` state its properties |
| `Triangles.Tri.ToUV` | src/object/triangle.cpp:104-107 | the triangle's location maps to the texture corner t1; `Triangles.ToUVAfterLoad` states the other corners |
| `Triangles.FromEdges` | src/object/triangle.cpp:9-14 | location = point, the edges u and v as given, n = u x v |
| `Triangles.FromVertices` | src/object/triangle.cpp:16-21 | location = p1, u = p2 - p1, v = p3 - p1, n = the given normal, so the other corners are location + u and location + v |
| `Triangles.InsideIgnoresOrientation` | src/object/triangle.cpp:60-72 | reversing n does not change `inside`, because the three edge values flip sign together |
| `Triangles.CornersNotInside` | src/object/triangle.cpp:60-72 | the strict tests reject the three corners location, location + u and location + v |
| `Triangles.Triangle.constructor` | src/object/triangle.cpp:23-34 | the copy constructor holds the copied triangle |
| `Triangles.Triangle.Center` | src/object/triangle.cpp:51-58 | location moves by point - centre, nothing else changes, and the centre (3 location + u + v) / 3 becomes point |
| `Triangles.Triangle.LoadTextureCoordinates` | src/object/triangle.cpp:95-102 | stores t1, t2, t3 and the projection matrix of the corners onto them; the geometry is unchanged |
| `Triangles.CenterMoves` | src/object/triangle.cpp:51-58 | moving the corner by point - centre moves the centre to point |
| `Triangles.ToUVAfterLoad` | src/object/triangle.cpp:95-107 | after loading, `to_uv` maps location + a u + b v to t1 + a (t2 - t1) + b (t3 - t1) |
| `Triangles.AreaNonNegative` | src/object/triangle.cpp:133-136 | the area \|u x v\| is never negative |
| `Triangles.Tri.Area` | src/object/triangle.cpp:133-136 | the length of u x v; no contract of its own, `Triangles.AreaNonNegative` states that it is never negative |
| `Triangles.Tri.Tangent` | src/object/triangle.cpp:109-112 | u at every point; no contract of its own, `Triangles.TriFrame` states that it is orthogonal to the normal of a triangle built from its edges |
| `Triangles.Tri.Normal` | src/object/triangle.cpp:114-117 | the stored n at every point; no contract of its own, `Triangles.TriFrame` states that for a triangle built from its edges it is orthogonal to u and v |
| `Triangles.TriFrame` | src/object/triangle.cpp:109-117 | for a triangle built from its edges, the normal u x v is orthogonal to the tangent u and to v, and the square of the area is its squared length |
| `Quads.Quad.Hit` | src/object/quad.cpp:34-72 | no hit when normal . direction = 0; otherwise lambda = top / bottom with no sign check, and a hit exactly when both plane parameters lie in [0, 1]; the record then holds at(lambda), uv = find_alpha_beta of it and this quad; on a miss the record is unchanged |
| `Quads.Quad.FindAlphaBeta` | src/object/quad.cpp:20-32 | the third coordinate is 0 and the quad's location has coordinates (0, 0); `Quads.FindAlphaBetaInverts` states that it inverts get_point |
| `Quads.Quad.ToUV` | src/object/quad.cpp:84-87 | for every point get_point(a, b) of a non-degenerate quad, to_uv gives (a, b, 0) |
| `Quads.MakeQuad` | src/object/quad.cpp:9-13 | keeps location, v1 and v2 and starts two-sided |
| `Quads.HitNormalIsReversedCross` | src/object/quad.cpp:36 | v1 x (-v2) = v2 x v1 |
| `Quads.OneSidedNeverRejects` | src/object/quad.cpp:36-46 | normal . (v1 x v2) = -\|v1 x v2\|^2 <= 0, so the one-sided test never rejects |
| `Quads.OneSidedIsIrrelevant` | src/object/quad.cpp:44-46 | `hit` gives the same outcome whether the quad is one-sided or not |
| `Quads.FindAlphaBetaInverts` | src/object/quad.cpp:20-32 | when v1 x v2 is non-zero, find_alpha_beta(get_point(a, b)) = (a, b, 0) |
| `Quads.Quad.SamplePoint` | src/object/quad.cpp:94-97 | a point sampled with draws a, b in [0, 1] lies on a non-degenerate quad, with plane parameters (a, b) |
| `Quads.Quad.GetPoint` | src/object/quad.cpp:89-92 | location + alpha v1 + beta v2; no contract of its own, `Quads.FindAlphaBetaInverts` and `Quads.ToUVInverts` state that find_alpha_beta and to_uv give (alpha, beta, 0) back |
| `Quads.Quad.Area` | src/object/quad.cpp:99-102 | |v1 x v2|; no contract of its own, `Quads.QuadArea` states that it is non-negative and that its square is the squared length of the normal |
| `Quads.Quad.Tangent` | src/object/quad.cpp:74-77 | v1 at every point; no contract of its own, `Quads.QuadFrame` states that it is orthogonal to the normal |
| `Quads.Quad.Normal` | src/object/quad.cpp:79-82 | v1 x v2 at every point; no contract of its own, `Quads.QuadFrame` states that it is orthogonal to v1 and v2 and is the hit test's normal v1 x (-v2) reversed |
| `Quads.QuadFrame` | src/object/quad.cpp:74-82 | the normal v1 x v2 is orthogonal to the tangent v1 and to v2, and it is minus the normal v1 x (-v2) that `hit` uses |
| `Quads.QuadArea` | src/object/quad.cpp:99-102 | the area is non-negative and its square is the squared length of the normal |
| `Spheres.Sphere.Hit` | src/object/sphere.cpp:58-83 | a negative discriminant fails and leaves the record alone; otherwise the smaller root is taken when it is not negative, else the larger one, and when both are negative the test fails with only lambda written (the larger root); on success lambda >= 0, the hit point is at(lambda), uv is `to_uv` of it and the object is this sphere |
| `Spheres.Sphere.Roots` | src/object/sphere.cpp:69-72 | the two roots add up to -b / a: a (root1 + root2) = -b for the quadratic's coefficients a != 0 and b |
| `Spheres.AreaNonNegative` | src/object/sphere.cpp:111-114 | the area 4 M_PI r^2 is never negative |
| `Spheres.RootsOrdered` | src/object/sphere.cpp:69-73 | the first root tried is at most the second |
| `Spheres.RootsOnSurface` | src/object/sphere.cpp:59-73 | the points at both roots lie at squared distance radius^2 from the centre |
| `Spheres.HitOnSurface` | src/object/sphere.cpp:58-83 | every reported hit point lies on the sphere |
| `Spheres.HitIsNearest` | src/object/sphere.cpp:69-76 | the reported lambda is the least root that is not negative |
| `Spheres.PointAtSquaredDistance` | src/object/sphere.cpp:59-61 | \|at(t) - centre\|^2 - radius^2 = a t^2 + b t + c with the coefficients the source computes |
| `Spheres.QuadraticRoot` | src/object/sphere.cpp:69-73 | (-b +- sqrt(b^2 - 4ac)) / 2a solves a t^2 + b t + c = 0 |
| `Spheres.Sphere.Normal` | src/object/sphere.cpp:53-56 | the unit vector from the centre to the point; no contract of its own, `Vectors.UnitLength` states that its length is 1 for a point other than the centre |
| `Spheres.Sphere.Area` | src/object/sphere.cpp:111-114 | 4 pi r^2; no contract of its own, `Spheres.AreaNonNegative` states that it is never negative |
| `Planes.Plane.HitPoint` | object/plane.cpp:55-72 | fails when direction . n = 0 or t = top / bottom is negative, leaving point and lambda as they were; otherwise lambda = t >= 0 and point = at(t) |
| `Planes.Plane.Hit` | object/plane.cpp:74-83 | a hit exactly when `hit_point` succeeds; the hit point then lies in the plane at a non-negative lambda and the object is this plane; on a miss the record is unchanged |
| `Planes.Plane.Tangent` | object/plane.cpp:45-48 | always fails with "Not implemented!" |
| `Planes.Plane.Normal` | object/plane.cpp:50-53 | the unit normal, the same at every point |
| `Planes.OnPlane` | object/plane.cpp:57-69 | the point at t = top / bottom lies in the plane |
| `Planes.FromDirections` | object/plane.cpp:29-34 | u and v are normalised and n is the cross product of the directions as given |
| `Planes.FindVectorOnPlaneAsWrittenLeavesPlane` | object/plane.cpp:7-20 | for the normal (2, 1, 0) at (1, 0, 0) the vector found is (-1, 1, 1), whose dot product with the normal is -1, so it is not in the plane |
| `Planes.FindVectorOnPlane` | object/plane.cpp:7-20 | corrected: the vector is orthogonal to the normal, and it is zero exactly for the zero normal |
| `Planes.FromNormal` | object/plane.cpp:22-27 | corrected: keeps location and normal; u is the unit of the vector the corrected `findVectorOnPlane` finds, v = unit(n x u) |
| `Planes.FromNormalSpansPlane` | object/plane.cpp:22-27 | for a non-zero normal and a lawful `sqrt`, u and v form the orthonormal basis the comment at line 24 announces: both have length 1, they are orthogonal to each other, and both are orthogonal to n |
| `Planes.ToUVInverts` | object/plane.cpp:36-43 | when n . (v x u) is non-zero, to_uv(location + a u + b v) = (a, b, 0) |
| `Planes.Plane.ToUV` | object/plane.cpp:36-43 | the plane coordinates (alpha, beta, 0) of a point; no contract of its own, `Planes.ToUVInverts` states that it gives back (a, b, 0) for location + a u + b v |
| `Planes.FindVectorOnPlaneAsWritten` | object/plane.cpp:7-20 | as written, dividing by minus the point's coordinate; no contract of its own, `Planes.FindVectorOnPlaneAsWrittenLeavesPlane` exhibits a result that is not in the plane |
| `BoundingBoxes.Box.Split` | src/ds/kdtree.cpp:245-254 | the left box's max and the right box's min on the axis become value; every other coordinate is copied unchanged |
| `BoundingBoxes.Box.LongestDim` | src/ds/kdtree.cpp:256-271 | an axis in 0..2 whose extent is maximal, the lowest one on ties because of the strict `>`; -1 only when no extent exceeds -DBL_MAX |
| `BoundingBoxes.Box.Hit` | src/ds/kdtree.cpp:273-306 | the loop computes the slab interval over the three axes, skipping those with a zero direction component, and reports a hit iff lambda_min <= lambda_max and lambda_max >= 0 |
| `BoundingBoxes.SlabIntervalMeaning` | src/ds/kdtree.cpp:275-297 | t lies in the interval after k axes iff it is within [-DBL_MAX, DBL_MAX] and the ray point at t lies on every slab of those axes the ray is not parallel to |
| `BoundingBoxes.SlabTimesMeaning` | src/ds/kdtree.cpp:283-290 | on one axis, t lies between the ordered slab times iff the point at t is on the slab |
| `BoundingBoxes.HitReachesBox` | src/ds/kdtree.cpp:299-305 | when `hit` reports a hit, the point at lambda_max is on every slab the ray is not parallel to |
| `BoundingBoxes.ComputeBoundingBox` | src/ds/kdtree.cpp:80-92 | the loop returns the componentwise bounds of the points, starting from points[0] |
| `BoundingBoxes.BoundsOfContains` | src/ds/kdtree.cpp:80-92 | the box contains every point, and on each axis both bounds are attained by some point |
| `BoundingBoxes.Unbounded` | include/kdtree.hpp:15 | the default box is [-DBL_MAX, DBL_MAX] on every axis |
| `BoundingBoxes.Box.Inside` | src/ds/kdtree.cpp:308-316 | strictly between min and max on all three axes, with no lemma of its own; the triangle test `inside(Triangle *)` is built on it |
| `BoundingBoxes.Box.InsideAll` | src/ds/kdtree.cpp:318-326 | `inside(triangle)`: every vertex strictly inside the box; no contract of its own, `BoxTrees.LeftPartMembers` and `BoxTrees.RightPartMembers` state how it routes the triangles |
| `PointTrees.SplitAxisIsRemainder` | src/ds/kdtree.cpp:107 | the splitting axis of depth d is d % 3 |
| `PointTrees.InsertDepth` | src/ds/kdtree.cpp:105-128 | the stored multiset grows by exactly the new point, existing nodes keep point, box and axis, and an empty slot becomes a leaf holding the point, the box and axis depth % 3 |
| `PointTrees.InsertKeepsBelow` | src/ds/kdtree.cpp:105-128 | inserting a point below c into a tree below c keeps it below c |
| `PointTrees.InsertKeepsAtLeast` | src/ds/kdtree.cpp:105-128 | inserting a point at least c into a tree at least c keeps it so |
| `PointTrees.InsertKeepsOrdered` | src/ds/kdtree.cpp:119-125 | going left iff strictly smaller keeps every left subtree strictly below and every right subtree at least the node on its axis |
| `PointTrees.InsertIntoEmpty` | src/ds/kdtree.cpp:162-165 | inserting into an empty tree makes the point the root |
| `PointTrees.ClosestTo` | src/ds/kdtree.cpp:167-174 | one of the two points, no farther than either, and a when a is not strictly farther |
| `PointTrees.Near` | src/ds/kdtree.cpp:185-193 | the child on the query's side of the splitting plane |
| `PointTrees.Far` | src/ds/kdtree.cpp:185-193 | the sibling on the other side |
| `PointTrees.PlaneDistSq` | src/ds/kdtree.cpp:218-220 | the squared perpendicular distance to the plane is never negative |
| `PointTrees.PrunedSide` | src/ds/kdtree.cpp:218-221 | when the plane is strictly farther than the best point, no point on the far side is strictly closer, so pruning loses nothing |
| `PointTrees.NNFrom` | src/ds/kdtree.cpp:176-224 | the search returns the starting guess or a stored point |
| `PointTrees.NN` | src/ds/kdtree.cpp:176-224 | the recursive search `_nn`; no contract of its own, `PointTrees.NNFrom`, `PointTrees.NNBounded` and `PointTrees.NNCorrect` state its properties |
| `PointTrees.NNBounded` | src/ds/kdtree.cpp:176-224 | the search never returns a point farther than the starting guess |
| `PointTrees.NNCorrect` | src/ds/kdtree.cpp:176-224 | on an ordered tree no stored point is strictly closer to the query than the result |
| `PointTrees.FarSide` | src/ds/kdtree.cpp:218 | a point across the splitting plane is at least the plane's squared distance away |
| `PointTrees.NearestNeighbourCorrect` | src/ds/kdtree.cpp:226-229 | on a non-empty ordered tree the result is stored and no stored point is strictly closer |
| `PointTrees.NearestNeighbour` | src/ds/kdtree.cpp:226-229 | on a non-empty tree the result is a stored point |
| `PointTrees.SortByAxis` | src/ds/kdtree.cpp:238-240 | a permutation of the points sorted on the axis |
| `PointTrees.MedianSelect` | src/ds/kdtree.cpp:231-243 | a point of the list: the one at position size / 2 of the list sorted on the axis |
| `PointTrees.BelowMembers` | src/ds/kdtree.cpp:141-147 | the left list holds exactly the points strictly below the median on the axis |
| `PointTrees.AboveExceptMembers` | src/ds/kdtree.cpp:141-147 | the right list holds exactly the other points except copies of the median |
| `PointTrees.PartsShrink` | src/ds/kdtree.cpp:141-157 | both lists are shorter than the input, which makes the recursion terminate |
| `PointTrees.Partition` | src/ds/kdtree.cpp:138-147 | the loop builds exactly those two lists |
| `PointTrees.ConstructFromList` | src/ds/kdtree.cpp:130-160 | null exactly for no points; the tree is ordered, holds every distinct input point exactly once and keeps the given box at the root |
| `BoxTrees.LeftPartMembers` | src/ds/kdtree.cpp:350-359 | a triangle goes left iff it is strictly inside the left box or not strictly inside the right box |
| `BoxTrees.RightPartMembers` | src/ds/kdtree.cpp:350-359 | a triangle goes right iff it is not strictly inside the left box |
| `BoxTrees.PartsCover` | src/ds/kdtree.cpp:350-359 | every triangle goes to a side, and one strictly inside neither box goes to both |
| `BoxTrees.Distribute` | src/ds/kdtree.cpp:347-359 | the loop builds exactly those two lists |
| `BoxTrees.GatherVertices` | src/ds/kdtree.cpp:336-341 | the loop collects the vertices of all triangles in order |
| `BoxTrees.ChildrenCover` | src/ds/kdtree.cpp:361-372 | in a built node with children, every triangle is in one of them |
| `BoxTrees.ConstructBoundingBoxTree` | src/ds/kdtree.cpp:328-375 | null exactly for no triangles; a node keeps the box and all triangles; children exist only when both sides are strictly smaller; a box with no longest axis makes the vertex indexing throw |
| `BoxTrees.CoverNonEmpty` | src/ds/kdtree.cpp:366-368 | when both parts are strictly smaller than a non-empty list, neither is empty |
| `BoxTrees.PartSizes` | src/ds/kdtree.cpp:350-359 | the sizes of the two parts add up to at least the whole |
| `BoxTrees.Divide` | src/ds/kdtree.cpp:405-414 | an IEEE quotient: exact for a non-zero divisor; for a zero divisor NaN when the dividend is zero, otherwise an infinity of its sign |
| `BoxTrees.LessIsStrict` | src/ds/kdtree.cpp:416-422 | `<` on those values is a strict order and NaN compares with nothing |
| `BoxTrees.LeafHit` | src/ds/kdtree.cpp:384-402 | true iff some triangle's hit is accepted; the record is then the accepted hit of least lambda, the earliest on ties, and is otherwise unchanged |
| `BoxTrees.QueryTree` | src/ds/kdtree.cpp:377-430 | a ray that misses the node's box hits nothing; a leaf answers as the leaf loop; any reported record is the accepted hit of a triangle of the node; a miss leaves the record unchanged |
| `KDTrees.KDTree.constructor` | src/ds/kdtree.cpp:15-17 | `KDTree()` holds an empty tree |
| `KDTrees.KDTree.FromPoints` | src/ds/kdtree.cpp:23-26 | `KDTree(points)` stores every distinct point exactly once in the points' bounding box |
| `KDTrees.KDTree.Insert` | src/ds/kdtree.cpp:162-165 | the stored multiset grows by the point, the root's point stays the root, and an empty tree gets the point as root |
| `KDTrees.KDTree.NearestNeighbourOf` | src/ds/kdtree.cpp:226-229 | on a non-empty tree, a stored point with no stored point strictly closer |
| `KDTrees.KDTree.RayHit` | src/ds/kdtree.cpp:469-471 | any reported record is the accepted hit of a stored triangle; a miss leaves the record unchanged |
| `KDTrees.FromTriangles` | src/ds/kdtree.cpp:33-43 | the box tree holds all triangles in the bounding box of all their vertices |
| `KDTrees.KDTree.WithTrees` | src/ds/kdtree.cpp:33-43 | the tree object holds exactly the given point tree, box tree and vertex function |
| `EarlyPointTrees.InsertDepth` | kdtree.cpp:25-44 | the stored multiset grows by exactly the new point, existing nodes keep their points, and an empty slot becomes a leaf |
| `EarlyPointTrees.InsertKeepsOrdered` | kdtree.cpp:37-41 | going left iff strictly smaller on axis depth % 3 keeps the search invariant |
| `EarlyPointTrees.NNFrom` | kdtree.cpp:60-109 | the search returns the starting guess or a stored point |
| `EarlyPointTrees.NNBounded` | kdtree.cpp:60-109 | the search never returns a point farther than the starting guess |
| `EarlyPointTrees.PrunedSide` | kdtree.cpp:103-106 | when the squared plane distance is at least the best distance, no far-side point is strictly closer, so the strict test loses nothing |
| `EarlyPointTrees.NNCorrect` | kdtree.cpp:60-109 | on an ordered tree no stored point is strictly closer than the result |
| `EarlyPointTrees.KDTree.constructor` | kdtree.cpp:5-7 | an empty tree |
| `EarlyPointTrees.KDTree.Insert` | kdtree.cpp:46-49 | the stored multiset grows by the point; the first point inserted becomes the root and stays the root |
| `EarlyPointTrees.KDTree.NearestNeighbourOf` | kdtree.cpp:111-114 | on a non-empty tree, a stored point with no stored point strictly closer |
| `EarlyPointTrees.NN` | kdtree.cpp:60-109 | the recursive `_nn` with the strict pruning test; no contract of its own, `EarlyPointTrees.NNFrom`, `EarlyPointTrees.NNBounded` and `EarlyPointTrees.NNCorrect` state that it returns the guess or a stored point, never farther than the guess, with no stored point strictly closer on an ordered tree |
| `EarlyPointTrees.Near` | kdtree.cpp:69-76 | the left child when the query is strictly below the node on axis depth % 3, the right child otherwise |
| `EarlyPointTrees.Far` | kdtree.cpp:69-76 | the sibling that `_nn` keeps for later: the right child when the query is strictly below, the left one otherwise |
| `EarlyPointTrees.PlaneDistSq` | kdtree.cpp:103-105 | the squared perpendicular distance to the splitting plane is never negative |
| `Worlds.ScanClosest` | src/world/world.cpp:46-55 | the scan of the outcomes finds the accepted hit (0.001 < lambda < DBL_MAX) of least lambda, the first of equally near ones, and reports no hit iff none is accepted |
| `Worlds.Scan` | src/world/world.cpp:46-55 | the loop of `World::hit` over the outcomes; no contract of its own, `Worlds.ScanClosest`, `Worlds.ClosestAccept` and `Worlds.ClosestKeep` state its properties |
| `Worlds.ClosestAccept` | src/world/world.cpp:50-54 | a hit strictly nearer than the best so far and beyond 0.001 becomes the closest |
| `Worlds.ClosestKeep` | src/world/world.cpp:47-50 | any other outcome leaves the closest hit as it was |
| `Worlds.ClosestHit` | src/world/world.cpp:37-58 | the loop, threading curr_record through the tests, returns the closest accepted hit with first-found tie-break |
| `Worlds.PathRay` | src/world/world.cpp:87 | the ray from a along the unit vector towards b |
| `Worlds.HasClearPath` | src/world/world.cpp:85-95 | true when nothing is hit, otherwise true iff the nearest lambda exceeds \|b - a\| - 0.001; equivalently every accepted hit lies beyond that distance |
| `Worlds.HasPathToObjectAsWritten` | src/world/world.cpp:60-83 | the loop re-tests obj instead of curr, so the answer is exactly whether obj is hit |
| `Worlds.HasPathToObject` | src/world/world.cpp:60-83 | with curr tested in the loop: true iff obj is hit and no other object is hit in the window nearer than obj |
| `Worlds.NearPhotonsMembers` | src/world/world.cpp:110-115 | the near photons are exactly those within squared distance 0.025 of the point |
| `Worlds.ScaleCancels` | src/world/world.cpp:120 | (c / n) (n / N) = c / N for non-zero n and N |
| `Worlds.World.constructor` | src/world/world.cpp:15-17 | an empty scene |
| `Worlds.World.Add` | src/world/world.cpp:19-30 | obj is appended to the objects, and to the emissives iff it is a smooth object with an emissive material; nothing else changes |
| `Worlds.World.AddLight` | src/world/world.cpp:32-35 | appends to the lights and changes nothing else |
| `Worlds.World.Hit` | src/world/world.cpp:37-58 | the closest accepted hit over the objects in order, the first one on ties |
| `Worlds.World.HasPath` | src/world/world.cpp:85-95 | as HasClearPath over the scene's objects |
| `Worlds.World.HasPathTo` | src/world/world.cpp:60-83 | the corrected `has_path(r, obj)`: obj is hit and no other object is hit nearer |
| `Worlds.World.RandomLight` | src/world/world.cpp:97-104 | no light iff the emissives are empty, otherwise an emissive, which is a smooth object of the scene |
| `Worlds.World.PhotonMapColor` | src/world/world.cpp:106-121 | zero when no photon is near; otherwise the near photons' summed colour divided by the total number of photons |
| `EarlyWorlds.World.constructor` | world/world.cpp:9-11 | an empty scene |
| `EarlyWorlds.World.Add` | world/world.cpp:13-16 | only appends to the objects, with no emissive bookkeeping |
| `EarlyWorlds.World.AddLight` | world/world.cpp:18-21 | appends to the lights and changes nothing else |
| `EarlyWorlds.World.Hit` | world/world.cpp:23-44 | the closest accepted hit in (0.001, DBL_MAX) over the objects in order, the first one on ties |
| `EarlyWorlds.World.HasPath` | world/world.cpp:71-81 | true iff nothing is hit or the nearest lambda exceeds \|b - a\| - 0.001 |
| `EarlyWorlds.World.HasPathTo` | world/world.cpp:46-69 | the corrected `has_path(r, obj)`: obj is hit and no other object is hit nearer |
| `Cameras.LensRay` | src/world/camera.cpp:96-104 | the ray starts at the camera centre without defocus and at the disk sample with it, reaches the viewport point (du, dv) at parameter 1 and carries the drawn time |
| `Cameras.DefocusDiskSample` | src/world/camera.cpp:89-94 | the centre of the unit disk maps to the camera centre |
| `Cameras.PixelRay` | src/world/camera.cpp:96-99 | with `int` parameters the ray reaches the viewport point of a whole pixel at parameter 1 |
| `Cameras.SampleOffsetAsWrittenIsWhole` | src/world/camera.cpp:96-98 | converting i + jitter to `int` truncates the jitter away: pixel i > 0 with a negative jitter is sampled at the centre of pixel i - 1, every other sample at the centre of pixel i |
| `Cameras.SampleOffsetAsWrittenExample` | src/world/camera.cpp:398 | pixel 3 with jitter -0.25 is sampled at the centre of pixel 2 |
| `Cameras.JitteredRay` | src/world/camera.cpp:398 | the corrected jittered ray passes through a viewport point within half a pixel of the centre of pixel (i, j) |
| `Cameras.SampleLight` | src/world/camera.cpp:248-312 | zero and no light for a surface that is not Lambertian or a scene without emissives; `hit_light` is set exactly when the path to the sampled light point is clear, it is then an emissive, and a non-zero sample always sets it |
| `Cameras.LightContribution` | src/world/camera.cpp:300-311 | a light of zero emission contributes nothing |
| `Cameras.PathRadianceRecursive` | src/world/camera.cpp:367-382 | the accumulated radiance is the first radiance plus the first throughput times the accumulated radiance of the rest of the path |
| `Cameras.PathRadianceEmpty` | src/world/camera.cpp:367-382 | a path that recorded nothing has zero radiance |
| `Cameras.AccumulateRadiance` | src/world/camera.cpp:367-382 | the two loops return the sum of each radiance times the product of the throughputs before it, the empty product being (1, 1, 1) |
| `Cameras.NextRay` | src/world/camera.cpp:342-344 | the next ray follows the scattered direction with time 0 |
| `Cameras.Throughput` | src/world/camera.cpp:336-340 | a zero brdf gives a zero throughput; a zero pdf is taken as a zero throughput (see "## Left out") |
| `Cameras.HitRadiance` | src/world/camera.cpp:338-360 | the emission, plus the light sample when light sampling is on, the sample is non-zero and the next ray misses or hits an object other than the sampled light |
| `Cameras.TraceBounce` | src/world/camera.cpp:320-365 | one pass of the loop records one radiance and one throughput; a miss records the background with zero throughput; the loop stops exactly after a miss or an emissive hit |
| `Cameras.SinglePathColor` | src/world/camera.cpp:314-383 | at most depth bounces (at least one for depth > 0), equal numbers of radiances and throughputs, each bounce chained to the previous one's scattered ray, early stop only after a miss or an emissive hit, and the colour is the accumulated radiance of the recorded lists |
| `Cameras.SampleOffsetAsWritten` | src/world/camera.cpp:398 | as written: i + jitter converted to `int` on its way into `ray(int du, int dv)`; no contract of its own, `Cameras.SampleOffsetAsWrittenIsWhole` and `Cameras.SampleOffsetAsWrittenExample` state that the jitter is lost |
| `Shading.SampleCount` | src/world/camera.cpp:124-130 | one sample for a point light, the requested number for an area light, none when that is not positive |
| `Shading.AllLightHits` | src/world/camera.cpp:130-154 | one sample outcome per pass of the loop |
| `Shading.SampleOnce` | src/world/camera.cpp:131-153 | a sample is lit exactly when `has_path` to its light point holds, and a lit sample gives the diffuse and specular parts of that point |
| `Shading.SampleLightRaysAsWritten` | src/world/camera.cpp:111-160 | the loop as written returns diffuse times colour plus the specular part of the last lit sample only |
| `Shading.SampleLightRays` | src/world/camera.cpp:111-160 | the corrected loop returns diffuse times colour plus the sum of the specular parts of all lit samples |
| `Shading.LastSpecularOfOneSample` | src/world/camera.cpp:151-153 | with at most one sample the last specular part is the whole sum |
| `Shading.PointLightTermsAgree` | src/world/camera.cpp:124-151 | a point light is sampled once, so both forms agree on it |
| `Shading.LastSpecularDropsSamples` | src/world/camera.cpp:151 | two lit samples with the same non-zero specular part s sum to 2 s, but the assignment keeps s |
| `Shading.ShadowedSumsVanish` | src/world/camera.cpp:139-140 | blocked samples contribute nothing |
| `Shading.ShadowedLightIsDark` | src/world/camera.cpp:139-159 | a light none of whose sample points is visible adds nothing, in either form |
| `Shading.PointLightSample` | src/world/camera.cpp:124-153 | a point light is sampled once at its own position, lit iff that point is visible, and then gives its full Id and Is |
| `Shading.BounceBelowR0Reflects` | src/world/camera.cpp:189-199 | at a transparent surface that can refract, a draw below r0 always reflects along the nudged mirror direction with weight rg |
| `Shading.Bounce` | src/world/camera.cpp:184-215 | the bounce ray has time 0 and its weight is rg, or 1 - gamma at a transparent surface; an opaque surface always weighs rg |
| `Shading.BounceTotalReflection` | src/world/camera.cpp:205-208 | a ray that cannot refract is reflected from the hit point without the nudge, with weight rg |
| `Shading.LocalLight` | src/world/camera.cpp:179-182 | corrected: the ambient colour plus the corrected `sample_light_rays` (specular parts summed) of every light, in order |
| `Shading.RayColor` | src/world/camera.cpp:162-217 | corrected: the loop-free recursion computes the reference colour Shade of the ray, whose light term sums the specular parts |
| `Shading.HitColor` | src/world/camera.cpp:177-216 | corrected: the hit case at depth > 0 computes ShadeHit, with the light term of the corrected `sample_light_rays` |
| `Shading.ShadeInUnitBox` | src/world/camera.cpp:162-217 | every colour `ray_color` returns lies in [0, 1], except the unclamped texture colour of a hit at depth 0 |
| `Shading.ShadeWithoutBounce` | src/world/camera.cpp:179-216 | a surface whose bounced ray has weight 0 shows the ambient colour plus every light, times gamma, clamped |
| `Shading.OpaqueMatteHasNoBounce` | src/world/camera.cpp:209-215 | an opaque surface (gamma >= 1) with rg = 0 gives its bounced ray weight 0 |
| `Shading.RelativeIndex` | src/world/camera.cpp:192 | 1 / mu through the front face (0 for mu = 0) and mu otherwise; no contract of its own, `Shading.RelativeIndexAgrees` states that it is the dielectric's relative index for a non-zero mu |
| `Shading.RelativeIndexAgrees` | src/world/camera.cpp:192 | for a non-zero mu the relative index of the Phong bounce equals that of `Dielectric::scatter` (src/material/dielectric.cpp:25), and it is positive for a positive mu |
| `Pixels.SignatureDecodes` | src/world/camera.cpp:391 | for a hit, the signature colour times 2 minus (1, 1, 1) is the unit normal again |
| `Pixels.SignatureInUnitBox` | src/world/camera.cpp:385-392 | every signature colour, black on a miss, lies in [0, 1] |
| `Pixels.SceneSignatureColor` | src/world/camera.cpp:385-392 | returns the signature of the closest hit of the scene along the ray |
| `Pixels.SumConstant` | src/world/camera.cpp:396-406 | n equal samples sum to n times the sample |
| `Pixels.MeanConstant` | src/world/camera.cpp:408 | averaging equal samples gives that sample back |
| `Pixels.SumInBox` | src/world/camera.cpp:396-406 | a sum of n valid colours has each component in [0, n] |
| `Pixels.MeanInUnitBox` | src/world/camera.cpp:408 | the average of valid colours is a valid colour |
| `Pixels.SampleColor` | src/world/camera.cpp:398-405 | corrected: one sample is the path colour, the signature colour or the direct colour of the corrected jittered ray, as the flags choose |
| `Pixels.SampleRay` | src/world/camera.cpp:398 | corrected: the primary ray of sample k is the corrected jittered ray of draw k; no contract of its own, `Cameras.JitteredRay` states where it passes |
| `Pixels.TracePath` | src/world/camera.cpp:400-401 | with the path tracer on, the sample's colour is the radiance of a path of at most max_depth bounces that starts at the sample ray |
| `Pixels.SamplePixel` | src/world/camera.cpp:394-411 | corrected: the pixel colour is the mean of `samples_per_pixel` samples, sample k taken through the corrected ray jittered by draw k |
| `Pixels.SignaturePixelInUnitBox` | src/world/camera.cpp:394-411 | with the signature shader every pixel colour lies in [0, 1] |
| `Images.Row` | src/world/camera.cpp:432-433 | row j holds the colours of pixels (0, j) to (w - 1, j) in order |
| `Images.LayoutLength` | src/world/camera.cpp:418 | the buffer holds width times height pixels |
| `Images.LayoutRow` | src/world/camera.cpp:428-433 | row j occupies exactly the slice [j w, (j + 1) w) of the buffer |
| `Images.LayoutIndex` | src/world/camera.cpp:433 | pixel (i, j) is stored at index i + j w |
| `Images.LayoutByIndex` | src/world/camera.cpp:433 | entry k of the buffer is pixel (k mod w, k div w) |
| `Images.PixelOfIndex` | src/world/camera.cpp:433 | every index below w h names one pixel inside the image |
| `Images.IndexUnique` | src/world/camera.cpp:433 | distinct pixels are stored at distinct indices, so no thread's write overwrites another's |
| `Images.RenderBuffer` | src/world/camera.cpp:413-438 | the new buffer is the row-major layout of the pixel colours |
| `Images.RenderRow` | src/world/camera.cpp:429-437 | row j's pixels are written at indices j w to j w + w - 1, extending the layout by one row; later indices are unchanged |
| `Images.Render` | src/world/camera.cpp:477-495 | the pushed pixels number width times height and pixel k is the sampled colour of (k mod width, k div width) |
| `Images.Quantize` | src/world/camera.cpp:234 | one channel as written; `Images.QuantizeBlack`, `Images.QuantizeWhite` and `Images.QuantizeMonotone` state its range and order |
| `Images.QuantizeBlack` | src/world/camera.cpp:234 | a channel whose square root is at most 0 is written as 0 |
| `Images.QuantizeWhite` | src/world/camera.cpp:234 | a channel whose square root is at least 0.999 is written as 255 |
| `Images.QuantizeMonotone` | src/world/camera.cpp:234 | a brighter channel is never written as a smaller byte |
| `Images.P6DataIndex` | src/world/camera.cpp:228-234 | the data holds three bytes per pixel and byte 3k + c is channel c of pixel k |
| `Images.ExportP6` | src/world/camera.cpp:219-246 | the new byte buffer is exactly the P6 pixel data of the pixels |
| `Images.WritePixel` | src/world/camera.cpp:233-234 | the three gamma-corrected channel bytes of one pixel follow the bytes already written; the earlier bytes are unchanged |
| `ObjTokens.Run` | io/obj.cpp:47-112 | the length of the longest prefix of the text in a character class: every character before it is in the class and the one after it is not |
| `ObjTokens.RunIs` | io/obj.cpp:47-112 | any prefix in the class followed by the end or by a character outside it is that run |
| `ObjTokens.KeywordAsWrittenMisreads` | io/obj.cpp:68-84 | as written, "v" reads as a vertex normal, "vn" as a vertex, and "f" and the empty text as a vertex normal |
| `ObjTokens.KeywordAsWritten` | io/obj.cpp:68-84 | `parse_keyword` as written; no contract of its own, `ObjTokens.KeywordAsWrittenMisreads` and `ObjTokens.KeywordAsWrittenNeverFace` state what it returns |
| `ObjTokens.KeywordAsWrittenNeverFace` | io/obj.cpp:68-84 | as written, no text reads as a face or as an identifier |
| `ObjTokens.KeywordRoundTrip` | io/obj.cpp:68-84 | with the comparisons meant as equality, each keyword's text reads back as that keyword |
| `ObjTokens.Keyword` | io/obj.cpp:68-84 | `parse_keyword` with its comparisons meant as equality; no contract of its own, `ObjTokens.KeywordRoundTrip` and `ObjTokens.KeywordIdent` state what it returns |
| `ObjTokens.KeywordIdent` | io/obj.cpp:79-80 | with the comparisons meant as equality, text reads as an identifier exactly when it is none of "v", "vt", "vn", "f" |
| `ObjTokens.Decimal` | io/obj.cpp:47-53 | the decimal numeral of n is a non-empty string of digits |
| `ObjTokens.DecimalValueOfDecimal` | io/obj.cpp:47-53 | the digit loop reads the numeral of n back as n |
| `ObjTokens.IntegerRoundTrip` | io/obj.cpp:43-56 | the numeral of n followed by anything but a digit or '.' is read as the INTEGER n, consuming exactly the numeral |
| `ObjTokens.NumericToken` | io/obj.cpp:43-66 | `parse_numeric` on the text; no contract of its own, `ObjTokens.IntegerRoundTrip`, `ObjTokens.NumericFractionToken`, `ObjTokens.FractionTokenIs` and `ObjTokens.FloatBounds` state what it returns |
| `ObjTokens.FractionBelowOne` | io/obj.cpp:58-63 | k fraction digits add a value in [0, 1 - 10^-k] |
| `ObjTokens.FloatBounds` | io/obj.cpp:43-65 | a FLOAT lies in [whole part, whole part + 1) |
| `ObjTokens.NumericFractionToken` | io/obj.cpp:55-56 | when a '.' follows the digits, the token is the FLOAT read from the text after the '.', counted from one past it |
| `ObjTokens.FractionTokenIs` | io/obj.cpp:58-65 | the digits after the '.' are all consumed and the FLOAT is the whole part plus their fraction value |
| `ObjTokens.ScanTokenWithin` | io/obj.cpp:86-119 | `parse_token` never reads past the end of the text |
| `ObjTokens.ScanToken` | io/obj.cpp:86-119 | corrected: `parse_token` on the text, keywords read by the corrected `parse_keyword`; no contract of its own, the ScanToken lemmas below state what it returns |
| `ObjTokens.TokenAt` | io/obj.cpp:94-116 | corrected: the token at a non-blank character, keywords read by the corrected `parse_keyword`; no contract of its own, it is the second half of `ObjTokens.ScanToken` |
| `ObjTokens.ScanTokenEnd` | io/obj.cpp:88-118 | `parse_token` reaches the end of the file without a token exactly when only blanks remain |
| `ObjTokens.ScanTokenStuck` | io/obj.cpp:100-116 | corrected: a character that is no blank, '/', digit or lowercase letter is read as the corrected keyword of the empty text, an identifier, and left unread |
| `ObjTokens.ScanTokenSlash` | io/obj.cpp:94-98 | '/' is a SLASH token of one character |
| `ObjTokens.ScanTokenSkipsBlanks` | io/obj.cpp:90-93 | blanks before a token change nothing but the number of characters read |
| `ObjTokens.ObjFile.constructor` | io/obj.cpp:10-18 | the reader starts on the given text, with the current character and token not yet read |
| `ObjTokens.ObjFile.AdvanceChar` | io/obj.cpp:20-26 | returns the current character and moves one character on, reaching EOF at the end of the text |
| `ObjTokens.ObjFile.PeekChar` | io/obj.cpp:28-31 | returns the current character without moving: EOF exactly at the end of the text |
| `ObjTokens.ObjFile.MatchChar` | io/obj.cpp:33-41 | moves one character on exactly when the current character is c, and otherwise changes nothing |
| `ObjTokens.ObjFile.ReadDigits` | io/obj.cpp:47-53 | consumes the run of digits and returns its decimal value |
| `ObjTokens.ObjFile.NextDigit` | io/obj.cpp:59-62 | at a digit, returns its value and consumes exactly that character |
| `ObjTokens.ObjFile.ReadFraction` | io/obj.cpp:58-63 | consumes the run of digits and adds their fraction value to the whole part |
| `ObjTokens.ObjFile.ParseNumeric` | io/obj.cpp:43-66 | returns the numeric token of the text and consumes exactly its characters |
| `ObjTokens.ObjFile.ReadFloat` | io/obj.cpp:55-65 | after the '.', consumes the fraction digits and returns the FLOAT token of the whole text, leaving exactly what follows it |
| `ObjTokens.ObjFile.ReadIdent` | io/obj.cpp:105-116 | corrected: a run of lowercase letters that fits the 80-byte buffer is read as its corrected keyword; a longer one fails at the buffer's end |
| `ObjTokens.ObjFile.ReadToken` | io/obj.cpp:94-116 | corrected: at a non-blank character, returns the token the text starts with, keywords read by the corrected `parse_keyword`, and consumes exactly its characters |
| `ObjTokens.ObjFile.ParseToken` | io/obj.cpp:86-119 | corrected: returns the token after the leading blanks, or the end of the file, keywords read by the corrected `parse_keyword`, and consumes exactly what ScanToken says |
| `ObjTokens.ObjFile.AdvanceToken` | io/obj.cpp:121-128 | corrected: returns the old token and stores the next one, keywords read by the corrected `parse_keyword`; consumes what ScanToken says |

## Left out

- Virtual dispatch over objects, materials and lights is not modelled as dispatch. Each shader takes the outcome of the dispatched calls as data (`Cameras.PathSampler`, `Shading.ShadeSampler`, `Shading.LightView`, `Pixels.PixelSampler`, the hit test of `Worlds`).
- Operations that depend on those data are proved for every choice of them, so the concrete materials `lambertian`, `metal` and `phong` and the objects `smooth_object` and `quad_light` are not part of this model.
- `random_double`, `random_in_unit_disk` and every random draw are parameters, so no statement is made about their distribution.
- `sqrt`, `exp` and `std::pow` are parameters, because real arithmetic has no closed form for them. Lemmas that need a law of `sqrt` require `Numerics.IsSqrt`.
- `Vectors.Vec3.Reflect` follows ds/vec3.cpp:167-170. The later src/ds/vec3.cpp:177-180 normalises the normal before reflecting; the two agree for a unit normal. The callers pass a record's normal, which `HitRecords.SetNormal` stores as the unit vector of the outward normal or of its negation; the model does not state the case of a normal that is not a unit vector.
- `Vectors.Vec3.Unit`: the unit vector of the zero vector is taken as zero, where the source divides by zero and gets NaN.
- Floating-point infinities and NaN are not modelled. Where the source divides by zero, a member either takes the quotient as 0 or requires a non-zero divisor; the lines below name each one. The one place where an infinity matters, the kd-tree slab test, uses the extended reals of `BoxTrees`.
- `Planes.Plane.ToUV` requires `HasCoordinates`, a non-zero n . (v x u). The source (object/plane.cpp:38-40) divides by n . (v x u) and n . (u x v), and for a degenerate plane it gets infinite or NaN coordinates, which the model does not state.
- `Quads.Quad.FindAlphaBeta` and `Quads.Quad.ToUV` require `NonDegenerate`, a non-zero \|v2 x v1\|^2. The source (src/object/quad.cpp:24) divides by that square, and for a degenerate quad it gets infinite or NaN coordinates, which the model does not state.
- `Cameras.LightContribution`: a light point at distance 0 from the hit point gives a solid angle of 0, where the source divides by zero.
- `Cameras.Throughput`: a zero pdf gives a throughput of 0, where the source divides by zero.
- `Shading.RelativeIndex`: 1 / mu is taken as 0 for mu = 0 on a front face, where the source divides by zero.
- `Shading.Bounce`: the relative index 1 / mu is taken as 0 for mu = 0, and the reflectance at a relative index of -1 is taken as 0, where the source divides by zero.
- `Planes.FindVectorOnPlaneAsWritten`: a zero coordinate of the point gives a quotient of 0, where the source divides by zero.
- `Planes.FindVectorOnPlane` does not use the point. Dividing by the normal's component alone would still give the zero vector for a point whose two other coordinates are 1, so the corrected member takes those coordinates as 1 instead of 1 - point.y and 1 - point.z. The as-written half keeps the point.
- `Spheres.Sphere.Hit` requires a non-zero ray direction, and so do `Spheres.Sphere.Roots` and the sphere lemmas. For the zero direction the source divides by a = 0: its roots are NaN, NaN is never below 0, and so it reports a hit with a NaN lambda. The model does not state that case.
- `Triangles.Triangle.LoadTextureCoordinates` requires a triangle whose edges are independent (a non-zero Gram determinant), and so does `Utils.TextureProjectionMatrix`. For a degenerate triangle the source stores a matrix of infinities or NaN, which the model does not state.
- `MeshCentroids.ComputeMeshCentroid` requires a mesh of non-zero total area. For an empty mesh or one of zero area the source divides by zero, which the model does not state.
- `Dielectrics.R0`, `Dielectrics.Reflectance` and `Dielectrics.ReflectanceAtNormalIncidence` require a relative index other than -1, where the source divides by 1 + eta = 0.
- `Dielectrics.RelativeIndex` and `Dielectrics.Scatter` require a non-zero index of refraction, and `Dielectrics.Scatter` also requires a relative index other than -1. The source divides by zero in those cases.
- `Vectors.Vec3.Div` and `Vectors.Vec3Var.DivAssign` require a non-zero divisor. For a zero divisor the source gives infinities or NaN.
- `Pixels.SamplePixel`: the mean of zero samples is taken as black, where the source divides by zero.
- `Shading.LocalLight` sums the corrected `sample_light_rays`, in which the specular parts of all lit samples are added. The source as written keeps only the last lit sample's specular part (see "## Findings"), so for an area light with two or more lit samples these members do not compute the source's colour.
- `Shading.HitColor` and `Shading.RayColor` are built on `Shading.LocalLight`, so they share that difference.
- `Pixels.SampleColor` traces the corrected jittered ray. The source truncates the jittered pixel to a whole pixel (see "## Findings"), so a sample with a negative jitter goes through the centre of the previous pixel in the source.
- `Pixels.SamplePixel` averages samples of `Pixels.SampleColor`, so it shares that difference.
- `ObjTokens.ScanTokenStuck` reads keywords with the corrected `parse_keyword`. As written, `parse_keyword("")` gives a vertex normal (`ObjTokens.KeywordAsWrittenMisreads`), so the source reads such a character as a VERTEX_NORMAL token, not as an identifier.
- `ObjTokens.ObjFile.ReadIdent`, `ObjTokens.TokenAt` and `ObjTokens.ScanToken` read keywords with the corrected `parse_keyword`. As written, "v" reads as VERTEX_NORMAL, "vn" as VERTEX and "f" as VERTEX_NORMAL (see "## Findings").
- `ObjTokens.ObjFile.ReadToken`, `ObjTokens.ObjFile.ParseToken` and `ObjTokens.ObjFile.AdvanceToken` return and store the token of the corrected `ScanToken`, so they share that difference.
- Floating-point rounding is not modelled. Every comparison is exact in the reals, including the epsilon tests of 1e-8 and 0.001.
- `Images.RenderBuffer` takes the colour of each pixel as a function. Its `sample_pixel` calls are covered by `Images.Render` and `Pixels.SamplePixel`, because a colour predicate that reads the heap would not survive the writes to the buffer.
- Threads, semaphores and the progress bar of `render_multithreaded` are left out. The rows are rendered one after the other, which `Images.IndexUnique` shows gives the same buffer.
- File I/O is left out: `fopen` and its failure exit, the P6 and P3 headers, `fwrite` and the loading of image files for textures. `Images.ExportP6` returns the pixel bytes instead.
- `Images.Quantize`: the square root of a negative channel is whatever `sqrt` returns, where the source gets NaN.
- `Shading.RayColor` takes the depth as a natural number, so the source's behaviour for a negative depth is not modelled.
- `Cameras.PathRadianceRecursive` takes the depth as a natural number, so the source's behaviour for a negative depth is not modelled.
- The spherical background mapping `sph` is left out; the background is a parameter.
- `Camera::initialize` is left out; the camera's derived vectors are fields of `Cameras.Camera`.
- `photon_map_forward_pass` (src/world/world.cpp:123-189), which traces photons from the lights and stores them, is not part of this model. Only the photon lookup (`Worlds.World.PhotonMapColor`) and the update of a texture's grid (`Textures.Texture.StorePhoton`) are modelled.
- `Textures.Texture.StorePhoton`: the atomic update the source relies on across threads is not modelled.
- `ObjTokens.ObjFile.ParseNumeric`: the `int` conversion of an INTEGER is not bounded to 32 bits.
- `ObjTokens.ObjFile.PeekChar`: `fgetc`'s EOF is a separate value. The aliasing of EOF with the character 0xFF through `char` is not modelled.
- `ObjTokens.ObjFile.constructor`: the source leaves `curr_char` and `token` uninitialised. The model takes their initial values as parameters.
- `match_token`, `parse_vertex`, `parse_vertex_normal` and `parse_face` are left out. They call `peek_token` and `consume_token`, which the source does not define, and `parse_face` has no body yet. The vertex index maps they would fill are left out too.
- `difference_of_products` is not part of this model.
- `_bounding_box_hit` is left out: its body falls off the end without returning a value.
- Copying and deleting trees is not modelled, because the trees are owning values.
- The tinyobj, JSON and TOML scene loaders are not part of this model, and neither are `rt.cpp` and `main.cpp`.
- `Quads.Quad.Hit` does not use the quad's `normal` v1 x v2 (`Quads.Quad.Normal`): it intersects with its own normal v1 x (-v2), which `Quads.QuadFrame` states is the reverse.
- `Dielectrics.Refract`: `Vec3::refract` calls `simd_refract`, which is not part of this model. The member uses the standard vector form of Snell's law for a unit incident direction and a normal against it.
- `MeshCentroids.ComputeMeshCentroid`: the source calls `t->center()` with no argument, but `Triangle` defines only `void center(Vec3)`, which moves the triangle, so the source does not compile as it stands. The model reads the call as the triangle's centroid (3 location + u + v) / 3, the value `center(Vec3)` computes before it moves the triangle.
- `Triangle::sample_point` is not part of this model.
- The sphere's `to_uv` and tangent are not part of this model.

## Findings

| source | as written | input that shows it | evidently intended | confidence | as-written member | corrected member |
|---|---|---|---|---|---|---|
| object/plane.cpp:7-20 | `findVectorOnPlane` divides by minus a coordinate of the point instead of the same coordinate of the normal | normal (2, 1, 0) at point (1, 0, 0) gives (-1, 1, 1), whose dot product with the normal is -1, so it is not on the plane | a vector orthogonal to the normal that is non-zero for every non-zero normal, so that the constructor gets the orthonormal basis of line 24 | not executed | `Planes.FindVectorOnPlaneAsWritten` (`Planes.FindVectorOnPlaneAsWrittenLeavesPlane`) | `Planes.FindVectorOnPlane` (used, corrected, by `Planes.FromNormal`) |
| src/world/world.cpp:60-83, world/world.cpp:46-69 | the blocking loop of `has_path` tests `obj` instead of the current object `curr`, so any hit on `obj` counts as a clear path | a scene where an opaque object lies between the point and `obj`: the as-written loop reports a path | a path is clear only when `obj` is hit and no other object is hit first | not executed | `Worlds.HasPathToObjectAsWritten` | `Worlds.HasPathToObject` (used, corrected, by `Worlds.World.HasPathTo` and `EarlyWorlds.World.HasPathTo`) |
| src/world/camera.cpp:96-98 | `ray(int du, int dv)` takes whole numbers, so the jitter `i + random_double(-0.5, 0.5)` of `sample_pixel` is truncated toward zero | pixel 3 with jitter -0.25 is sampled through pixel 2 | the ray through the jittered point, within half a pixel of the centre | not executed | `Cameras.SampleOffsetAsWritten` (`Cameras.SampleOffsetAsWrittenIsWhole`, `Cameras.SampleOffsetAsWrittenExample`) | `Cameras.JitteredRay` (used, corrected, by `Pixels.SampleRay`, so by `Pixels.SampleColor` and `Pixels.SamplePixel`) |
| src/world/camera.cpp:151 | the specular part is assigned with `=`, not added with `+=`, so only the last lit sample of an area light counts | two lit samples with the same non-zero specular part s give s instead of 2 s | the sum of the specular parts of all lit samples, as for the diffuse part | not executed | `Shading.SampleLightRaysAsWritten` (`Shading.LastSpecularDropsSamples`) | `Shading.SampleLightRays` (used, corrected, by `Shading.LocalLight`, so by `Shading.HitColor` and `Shading.RayColor`) |
| io/obj.cpp:68-84 | `parse_keyword` uses the non-zero result of `strcmp` as "equal" for "vn", "v" and "f" | "v" reads as a vertex normal, "vn" as a vertex, and nothing reads as a face | each keyword reads as its own token, anything else as an identifier | not executed | `ObjTokens.KeywordAsWritten` (`ObjTokens.KeywordAsWrittenMisreads`, `ObjTokens.KeywordAsWrittenNeverFace`) | `ObjTokens.Keyword` (`ObjTokens.KeywordRoundTrip`, `ObjTokens.KeywordIdent`; used, corrected, by `ObjTokens.TokenAt` and `ObjTokens.ObjFile.ReadIdent`, so by `ObjTokens.ScanToken` and the reader's `ReadToken`, `ParseToken` and `AdvanceToken`) |
