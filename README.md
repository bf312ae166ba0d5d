# Vangers tractor-converter: mesh kernel, m3d assembly and config cursor in Dafny

This project is a verified model of the core of the Vangers model converter. The converter
turns Wavefront OBJ meshes into the game's `*.m3d`/`*.a3d` files and back. The model covers
four parts of it.

- **The `volInt` mesh kernel** (`lib/volInt/volInt.cpp`):
  - the 3-vector helpers and the bounding box `model_extreme_points`;
  - the `polyhedron` operations: winding reversal, Newell face normals and plane offsets, and
    the removal of faces without a normal;
  - the "reverse once if the volume is negative" repair;
  - the vertex-normal smoothing `recalc_vertNorms`;
  - the reference-point search `find_ref_points` and `calculate_rmax`;
  - Mirtich's polyhedral volume integrals with their dominant-axis choice;
  - the checks and overrides of `calculate_c3d_properties`.
- **OBJ to m3d assembly** (`src/helpers/wavefront_obj_to_m3d_operations.cpp`):
  - `remove_polygons`: face erasure, vertex/normal compaction and index remapping;
  - `get_wheels_steer`: wheel sub-meshes renumbered in first-occurrence order;
  - `get_wheels_data` boxes, the debris count and the weapon-slot bitmask;
  - the custom inertia tensor and volume overrides;
  - the c3d/m3d/a3d file sizes and the vertex order `write_polygon` writes.
- **m3d to OBJ reconstruction** (`src/helpers/m3d_to_wavefront_obj_operations.cpp`):
  - `set_color_id` and the validation and reversed index order of `read_c3d`;
  - the wheel grouping by shared vertex, the nearest-wheel matching, the wheel move and the
    ghost classification of `mark_wheels`;
  - the mesh append `merge_helper_move_model_into_main` and `read_m3d_weapon_slots`.
- **The config reader and writer** (`src/helpers/vangers_cfg_operations.cpp`):
  - the keystream `xzip_crypt::crt` on 32-bit words, `decrypt` and the `decompress` dispatch;
  - `fix_game_lst_path`;
  - the whitespace-delimited key search of `sicher_cfg_reader` and its `pos`/`end_pos` cursor;
  - the segment copying of `sicher_cfg_writer`.

Modelling choices:

- `volInt::polyhedron` is the class `Polyhedra.Polyhedron`. Its vertex, normal and face lists
  are `seq` fields that the methods reassign. Faces are datatype values (`Geometry.Face`).
- Addresses of list elements (`face*`, `point*`) become indices.
- Coordinates are `real`. `std::sqrt`, `acos` and the normalisation used by `read_c3d` are
  uninterpreted functions, with only the facts the code relies on (a square root is
  non-negative and is 0 only at 0).
- The globals of the volume integration (`A`, `B`, `C`, `P1`…, `T0`, `T1`, `T2`, `TP`) are
  returned values.
- Unordered containers are `set`/`map`. Where the source iterates over one, the iteration
  order is a parameter.
- Constants from headers that are not part of this model are module constants without a
  value. Examples: `distinct_distance`, `max_colors_ids`, the c3d record sizes, the key
  position, `multiplier` and `bin_or`. Every property holds for any value of them.
- The face record carries both tag layouts the sources use: `wheel_weapon_id`, and
  `wheel_id`/`weapon_id`.
- The byte-level reads (`raw_bytes_to_num`) are not part of this model. `read_c3d` and
  `read_m3d_weapon_slots` therefore take the already decoded header, vertices, normals and
  polygon records. They still check and transform those values exactly as the source does.
- Thrown exceptions become `Result`/`Option` error values or a `false` flag.

Module layout:

| file | module | source |
|---|---|---|
| common.dfy | `Common` | `Option`/`Result`, filtering, reversal |
| geometry.dfy | `Geometry` | vector helpers, `model_extreme_points`, `face` |
| volint.dfy | `VolInt` | reversal, Newell normals, `faces_calc_params(_inv_neg_vol)` |
| mirtich.dfy | `Mirtich` | `compProjectionIntegrals`, `compFaceIntegrals`, `compVolumeIntegrals` |
| mass_props.dfy | `MassProperties` | the arithmetic of `calculate_c3d_properties` |
| vert_normals.dfy | `VertNormals` | `recalc_vertNorms`, `get_vertex_angle` |
| ref_points.dfy | `RefPoints` | `find_ref_points` |
| polyhedron.dfy | `Polyhedra` | the `polyhedron` class and its methods |
| remove_polygons.dfy | `RemovePolygons` | `remove_polygons` and its helpers |
| wheels_steer.dfy | `WheelsSteer` | `get_wheels_steer` |
| obj_to_m3d.dfy | `ObjToM3d` | the rest of `wavefront_obj_to_m3d_model` |
| wheel_groups.dfy | `WheelGroups` | `mark_wheels_helper_get_wheels` and helpers |
| mark_wheels.dfy | `MarkWheels` | the loops of `mark_wheels` |
| m3d_to_obj.dfy | `M3dToObj` | `read_c3d`, `mark_wheels`, the merge, `read_m3d_weapon_slots` |
| vangers_cfg.dfy | `VangersCfg` | `sicher_cfg_reader`, `sicher_cfg_writer`, `xzip_crypt` |

## Model

| member | source | states |
|---|---|---|
| Common.Drop | src/helpers/vangers_cfg_operations.cpp:183 | `erase(0, n)` keeps the bytes from `n` on, or nothing when the string is shorter |
| Common.FilterMembers | src/helpers/wavefront_obj_to_m3d_operations.cpp:2503-2548 | `erase(remove_if(...))` keeps an element exactly when it is in the list and passes the predicate |
| Common.ReverseReverse | lib/volInt/volInt.cpp:948-973 | reversing a list twice restores it |
| Geometry.Sqrt | lib/volInt/volInt.cpp:439-442 | the square root used by `vector_length` is non-negative and is 0 exactly at 0 |
| Geometry.Invert | lib/volInt/volInt.cpp:287-294 | `vector_invert` negates every coordinate |
| Geometry.Plus | lib/volInt/volInt.cpp:307-315 | `vector_plus` adds coordinatewise |
| Geometry.Minus | lib/volInt/volInt.cpp:329-337 | `vector_minus` subtracts coordinatewise |
| Geometry.Scale | lib/volInt/volInt.cpp:373-381 | `vector_multiply(vec, num)` multiplies every coordinate by `num` |
| Geometry.DivideBy | lib/volInt/volInt.cpp:417-425 | `vector_divide(vec, num)` divides every coordinate by a non-zero `num` |
| Geometry.Cross | lib/volInt/volInt.cpp:479-487 | `vector_cross_product` is orthogonal to both arguments |
| Geometry.PlusInvert | lib/volInt/volInt.cpp:287-315 | inverting a sum is summing the inversions |
| Geometry.InvertInvert | lib/volInt/volInt.cpp:287-294 | `vector_invert` is an involution |
| Geometry.Length | lib/volInt/volInt.cpp:439-442 | `vector_length` is 0 exactly for the zero vector |
| Geometry.DotSelfZero | lib/volInt/volInt.cpp:471-475 | a vector's dot product with itself is 0 only for the zero vector |
| Geometry.VectorEqualSymmetric | lib/volInt/volInt.cpp:456-467 | `vector_equal` is symmetric |
| Geometry.VectorScale | lib/volInt/volInt.cpp:171-191 | `vector_scale(norm, vec)` is a multiple of `vec`, non-negative for a positive `norm`; zero for a zero `vec`, non-zero for a non-zero `vec` and `norm` |
| Geometry.ScaleKeepsNonZero | lib/volInt/volInt.cpp:171-191 | scaling a non-zero vector to a positive length gives a non-zero vector |
| Geometry.VectorScaleInvert | lib/volInt/volInt.cpp:171-191 | scaling a vector and its inversion to one length gives opposite vectors |
| Geometry.VectorAngleSymmetric | lib/volInt/volInt.cpp:491-510 | `vector_angle` does not depend on the order of its arguments |
| Geometry.CmpCurPoint | lib/volInt/volInt.cpp:661-675 | after `get_most_extreme_cmp_cur(point)` the box contains the point; max never decreases and min never increases |
| Geometry.CmpCurBox | lib/volInt/volInt.cpp:645-659 | `get_most_extreme_cmp_cur(other)` gives a box containing both boxes and bounded by their corners |
| Geometry.Center | lib/volInt/volInt.cpp:717-724 | `get_center` is equally far from `min` and `max` on every axis, and inside the box when `min <= max` |
| Geometry.MostExtreme | lib/volInt/volInt.cpp:677-693 | `get_most_extreme`: the box contains every point and each bound is reached by a point |
| Geometry.FoldPointsContains | lib/volInt/volInt.cpp:661-675 | folding points into a box one by one gives a box that contains them all and the starting box |
| Geometry.FoldFromDefaultTight | lib/volInt/volInt.cpp:533-539 | folding from the default box (±DBL_MAX) gives the tight box of `get_most_extreme` |
| Geometry.NewFace | lib/volInt/volInt.cpp:789-798 | `face(numVerts)`: `numVerts` vertex and normal slots, every one set to -1 |
| Geometry.VerticesOfFaces | lib/volInt/volInt.cpp:1466-1488 | `get_vertices_by_polygons`: a vertex is in the set exactly when one of the given faces uses it |
| VolInt.ReversePrefix | lib/volInt/volInt.cpp:948-973 | reverses the first `n` entries and leaves the rest |
| VolInt.ReverseFace | lib/volInt/volInt.cpp:948-973 | one face's first `n` vertex and normal slots back to front, its length and tags kept |
| VolInt.ReverseFaceTwice | lib/volInt/volInt.cpp:948-973 | reversing a face's winding twice restores the face |
| VolInt.ReverseFaceReversedVerts | lib/volInt/volInt.cpp:948-973 | a reversed face lists its vertices in reverse order |
| VolInt.NewellReverse | lib/volInt/volInt.cpp:977-995 | the Newell normal of the reversed polygon is the exact negation of the original |
| VolInt.PlaneOffset | lib/volInt/volInt.cpp:999-1007 | `face_calc_offset_w`: the first vertex lies on the plane `norm . x + w == 0` |
| VolInt.PlaneOffsetInvert | lib/volInt/volInt.cpp:999-1007 | negating the normal negates the offset |
| VolInt.FaceParams | lib/volInt/volInt.cpp:1018-1032 | one face after the first loop of `faces_calc_params`: its normal is the scaled Newell normal and its first vertex lies on its plane; slots and tags are unchanged |
| VolInt.ParamsAll | lib/volInt/volInt.cpp:1018-1032 | every face gets its plane, and no face is dropped yet |
| VolInt.SurvivorsMembers | lib/volInt/volInt.cpp:1035-1047 | the erase keeps a face exactly when it has a non-zero normal |
| VolInt.SurvivorsAll | lib/volInt/volInt.cpp:1035-1047 | when every face has a normal, nothing is erased |
| VolInt.CalcParamsKeeps | lib/volInt/volInt.cpp:1012-1048 | `faces_calc_params` keeps exactly the recomputed faces whose normal is non-zero, in their order |
| VolInt.CalcParamsSound | lib/volInt/volInt.cpp:1012-1048 | every kept face has a non-zero normal, lies on its plane and keeps its slots |
| VolInt.CalcParamsShape | lib/volInt/volInt.cpp:1012-1048 | the kept faces are well shaped, carry their Newell normals and can be integrated |
| VolInt.ReverseAll | lib/volInt/volInt.cpp:948-973 | `reverse_polygons_orientation` reverses the first `numFaces` faces and leaves the rest |
| VolInt.ReverseAllTwice | lib/volInt/volInt.cpp:948-973 | reversing all faces twice restores them |
| VolInt.FlipFace | lib/volInt/volInt.cpp:977-1007 | recomputing the plane of a reversed planar face gives the negated normal and offset |
| VolInt.RepairPassFlips | lib/volInt/volInt.cpp:1052-1063 | the repair pass keeps every face, each the flip of its first-pass face |
| VolInt.RepairNegatesVolume | lib/volInt/volInt.cpp:1052-1063 | on planar faces the repair pass negates all volume integrals |
| VolInt.InvNegVolOutcome | lib/volInt/volInt.cpp:1052-1063 | `faces_calc_params_inv_neg_vol` repairs at most once, and only when `check_volume` is negative |
| VolInt.InvNegVolNonNegative | lib/volInt/volInt.cpp:1052-1063 | with planar faces the result has a non-negative signed volume |
| VolInt.InvertAll | lib/volInt/volInt.cpp:940-946 | `invertVertNorms` negates every vertex normal |
| VolInt.InvertAllTwice | lib/volInt/volInt.cpp:940-946 | `invertVertNorms` is an involution |
| VolInt.ReverseFaceSlots | lib/volInt/volInt.cpp:952-972 | the slot copies of `reverse_polygons_orientation` for one face produce `ReverseFace` |
| VolInt.FaceNormal | lib/volInt/volInt.cpp:977-995 | the loop of `face_calc_normal` computes the Newell sum |
| VolInt.FacePlane | lib/volInt/volInt.cpp:1018-1032 | one step of the first loop computes `FaceParams` |
| VolInt.RecomputePlanes | lib/volInt/volInt.cpp:1018-1032 | the first loop of `faces_calc_params` computes `ParamsAll` |
| VolInt.PlanesAndErase | lib/volInt/volInt.cpp:1012-1048 | both loops of `faces_calc_params` compute `CalcParams` |
| VolInt.EraseMarked | lib/volInt/volInt.cpp:1035-1047 | erasing the marked indices keeps exactly the faces with a normal, in order |
| Mirtich.DominantAxes | lib/volInt/volInt.cpp:2369-2375 | (A, B, C) is a permutation of the axes with \|n[C]\| largest, ties going to the later axis |
| Mirtich.DominantComponentNonZero | lib/volInt/volInt.cpp:2331 | a non-zero normal has a non-zero dominant component, so `1 / n[C]` is defined |
| Mirtich.DominantAxesInvert | lib/volInt/volInt.cpp:2369-2375 | a negated normal gets the same axes |
| Mirtich.EdgeTermAntisymmetric | lib/volInt/volInt.cpp:2276-2306 | running an edge backwards negates every projection-integral term |
| Mirtich.CompProjectionIntegrals | lib/volInt/volInt.cpp:2264-2318 | the edge loop and the final divisions compute the projection integrals of the face |
| Mirtich.EdgeSumReverse | lib/volInt/volInt.cpp:2276-2306 | reversing a closed polygon negates the sum of an antisymmetric edge term |
| Mirtich.ProjectionIntegralsReversed | lib/volInt/volInt.cpp:2264-2318 | a reversed face has negated projection integrals |
| Mirtich.P1IsSignedArea | lib/volInt/volInt.cpp:2288-2308 | P1 is the signed area of the face's projection on the (A, B) plane |
| Mirtich.CompFaceIntegrals | lib/volInt/volInt.cpp:2320-2353 | `compFaceIntegrals` computes the twelve face integrals from the projection integrals, the normal and the offset |
| Mirtich.FaceIntegralsOfFlipped | lib/volInt/volInt.cpp:2320-2353 | negating the projection integrals, the normal and the offset together leaves every face integral unchanged |
| Mirtich.CompVolumeIntegrals | lib/volInt/volInt.cpp:2355-2395 | the face loop and final divisions compute T0, T1, T2 and TP |
| Mirtich.FaceContributionFlipped | lib/volInt/volInt.cpp:2365-2390 | a flipped face contributes the same face integrals about the same axes |
| Mirtich.FlippedContributions | lib/volInt/volInt.cpp:2365-2390 | flipped faces stay integrable and contribute what the originals do |
| Mirtich.VolumeIntegralsFlipped | lib/volInt/volInt.cpp:2355-2395 | reversing every face and negating its plane negates T0, T1, T2 and TP |
| MassProperties.VolumeCheck | lib/volInt/volInt.cpp:1836-1858 | a negative volume is refused for every model; a zero volume only for a model that is not a wheel |
| MassProperties.CenterOfMass | lib/volInt/volInt.cpp:1866-1872 | the centre of mass is the first moments divided by the volume |
| MassProperties.Inertia | lib/volInt/volInt.cpp:1874-1897 | the tensor is 3x3 and symmetric |
| MassProperties.InertiaAboutCenter | lib/volInt/volInt.cpp:1874-1897 | with the computed volume and centre (the parallel-axis theorem): each moment of inertia is `density` times the sum of two central second moments `T2 - T1 T1 / T0`, each product of inertia `-density` times the central product moment `TP - T1 T1 / T0` |
| MassProperties.Computed | lib/volInt/volInt.cpp:1860-1897 | volume, `rcm` and `J` are kept when their `*_overwritten` flag is set and computed otherwise; a computed `J` is symmetric |
| MassProperties.ComputedIsCentral | lib/volInt/volInt.cpp:1860-1897 | with nothing overwritten the stored tensor is the central one |
| Polyhedra.MaxLength | lib/volInt/volInt.cpp:1798-1810 | an upper bound of every vertex distance from the origin, and at least 0 |
| Polyhedra.MaxLengthAttained | lib/volInt/volInt.cpp:1798-1810 | unless it is 0, the bound is the distance of one of the vertices |
| Polyhedra.Rmax | lib/volInt/volInt.cpp:1800-1809 | the loop of `calculate_rmax` computes `MaxLength` |
| Polyhedra.Polyhedron.Empty | lib/volInt/volInt.cpp:802-826 | `polyhedron()`: no vertices, normals or faces |
| Polyhedra.Polyhedron.constructor | lib/volInt/volInt.cpp:903-934 | `numFaces` copies of `face(verts_per_poly)`, zeroed vertices and normals, and the counts |
| Polyhedra.Polyhedron.InvertVertNorms | lib/volInt/volInt.cpp:940-946 | every vertex normal negated, nothing else changed |
| Polyhedra.Polyhedron.ReversePolygonsOrientation | lib/volInt/volInt.cpp:948-973 | every face's winding reversed; vertex and normal lists kept |
| Polyhedra.Polyhedron.FaceCalcNormal | lib/volInt/volInt.cpp:977-995 | the Newell sum of the face's vertices |
| Polyhedra.Polyhedron.FaceCalcOffsetW | lib/volInt/volInt.cpp:999-1007 | the offset that puts the face's first vertex on its plane |
| Polyhedra.Polyhedron.FacesCalcParams | lib/volInt/volInt.cpp:1012-1048 | faces become `CalcParams` of the old faces, `numFaces == faces.size()` and `numVertTotal == numFaces * numVertsPerPoly` |
| Polyhedra.Polyhedron.FacesCalcParamsInvNegVol | lib/volInt/volInt.cpp:1052-1063 | faces become `CalcParamsInvNegVol`; the normals are inverted exactly when the first pass had a negative volume |
| Polyhedra.Polyhedron.RepairOrientation | lib/volInt/volInt.cpp:1058-1062 | the repair branch: normals inverted, faces reversed, planes recomputed |
| Polyhedra.Polyhedron.CheckVolume | lib/volInt/volInt.cpp:1365-1369 | `check_volume` is T0 of the volume integrals |
| Polyhedra.Polyhedron.RecalcVertNorms | lib/volInt/volInt.cpp:1087-1360 | the faces' normal indices point at group averages of the smoothed slot normals; every index is below `numVertNorms`; the loops run over `numFaces`, required to be the face count |
| Polyhedra.Polyhedron.FindRefPoints | lib/volInt/volInt.cpp:1633-1792 | the reference slots and the result are those of the search `RefSearch` |
| Polyhedra.Polyhedron.GetExtremePoints | lib/volInt/volInt.cpp:1375-1378 | the tight bounding box of all vertices |
| Polyhedra.Polyhedron.CalculateRmax | lib/volInt/volInt.cpp:1798-1810 | `rmax` is `MaxLength` of the vertices |
| Polyhedra.Polyhedron.CalculateC3dProperties | lib/volInt/volInt.cpp:1814-1897 | box and `rmax` always; the volume errors of `VolumeCheck`; otherwise volume, `rcm` and `J` as `Computed` gives them |
| Polyhedra.Polyhedron.StoreMassProperties | lib/volInt/volInt.cpp:1860-1897 | the assignments after the checks store `Computed` |
| VertNormals.SlotIdsDistinct | lib/volInt/volInt.cpp:1095-1106 | the ids `f * vpp + k` of distinct slots are distinct |
| VertNormals.SlotIdRange | lib/volInt/volInt.cpp:1095-1106 | the slot id of slot `k` of face `f` lies in `0 .. numFaces * vpp - 1` |
| VertNormals.SlotIdDivMod | lib/volInt/volInt.cpp:1095-1106 | a slot id gives back its face and slot |
| VertNormals.NumberSlots | lib/volInt/volInt.cpp:1095-1106 | the first loop numbers slot `k` of face `f` with `f * vpp + k` |
| VertNormals.RawFaceNorms | lib/volInt/volInt.cpp:1113-1120 | one Newell normal per face |
| VertNormals.CalcRawFaceNorms | lib/volInt/volInt.cpp:1113-1120 | the second loop computes `RawFaceNorms` |
| VertNormals.SlotNeighbours | lib/volInt/volInt.cpp:1067-1082 | the previous and next slots of `get_vertex_angle` are the ring neighbours and inverse to each other |
| VertNormals.VertexAngleReversed | lib/volInt/volInt.cpp:1067-1082 | reading a face backwards gives the same angle at every vertex |
| VertNormals.LastSlot | lib/volInt/volInt.cpp:1145-1158 | the slot recorded for a vertex is the last slot of the face holding it, or -1 |
| VertNormals.VertToFaces | lib/volInt/volInt.cpp:1145-1158 | each vertex maps to exactly the faces using it, each with its last slot |
| VertNormals.PairedBelowStep | lib/volInt/volInt.cpp:1165-1196 | one more vertex adds exactly the pairs of distinct faces through it |
| VertNormals.AnglesBetweenFaces | lib/volInt/volInt.cpp:1165-1196 | the keys are the pairs of distinct faces sharing a vertex; each holds the angle between their normals |
| VertNormals.AnglesSymmetric | lib/volInt/volInt.cpp:1186-1187 | the angle map is symmetric |
| VertNormals.SmoothFaces | lib/volInt/volInt.cpp:1205-1222 | `smooth_faces` holds exactly the keyed pairs whose angle passes the threshold |
| VertNormals.SmoothSymmetric | lib/volInt/volInt.cpp:1205-1222 | the smooth relation is symmetric and relates distinct faces sharing a vertex at a small enough angle |
| VertNormals.CalcVertAngles | lib/volInt/volInt.cpp:1127-1136 | `vert_angles` is `get_vertex_angle` at every slot |
| VertNormals.NoNeighbourSumZero | lib/volInt/volInt.cpp:1248-1285 | without a smooth neighbour a slot adds nothing from other faces |
| VertNormals.NeighbourSumDependsOnNeighbours | lib/volInt/volInt.cpp:1248-1285 | only smooth neighbours count |
| VertNormals.HardVertexKeepsFaceNormal | lib/volInt/volInt.cpp:1230-1289 | a slot with no smooth neighbour keeps its own angle-weighted face normal |
| VertNormals.SlotNormalsAt | lib/volInt/volInt.cpp:1230-1289 | entry `f * vpp + k` of the raw normals is the normal of slot `k` of face `f` |
| VertNormals.AccumulateNormals | lib/volInt/volInt.cpp:1230-1289 | the accumulation loop computes `SlotNormals` |
| VertNormals.NormalizedDirection | lib/volInt/volInt.cpp:1298-1305 | normalising keeps each normal's direction and maps zero to zero |
| VertNormals.NormalizeAll | lib/volInt/volInt.cpp:1298-1305 | the normalising loop computes `Normalized` |
| VertNormals.AverageOfEqual | lib/volInt/volInt.cpp:1329-1337 | averaging a group of equal normals gives that normal |
| VertNormals.AverageGroups | lib/volInt/volInt.cpp:1324-1337 | end normal `g` is the average of group `g`; `numVertNorms` is the number of groups |
| VertNormals.RawToEndMap | lib/volInt/volInt.cpp:1340-1350 | every grouped id maps to a group holding it |
| VertNormals.RawToEndPartition | lib/volInt/volInt.cpp:1340-1350 | with a partition, each id maps to the one group holding it |
| VertNormals.RemapFaces | lib/volInt/volInt.cpp:1353-1359 | every normal index of every face goes through the map |
| VertNormals.NumberedUniform | lib/volInt/volInt.cpp:1095-1106 | numbering changes only the normal indices |
| VertNormals.SmoothPairsIsSmoothSet | lib/volInt/volInt.cpp:1165-1222 | the computed smooth pairs are the distinct faces sharing a vertex at a small enough angle |
| VertNormals.RecalcVertNormsOf | lib/volInt/volInt.cpp:1087-1360 | `recalc_vertNorms` on values: merged faces, averaged groups, every index below the number of groups |
| VertNormals.SmoothedSlotNormals | lib/volInt/volInt.cpp:1095-1305 | slot numbering, then the smoothed normalised normal of every slot |
| VertNormals.MergeGroups | lib/volInt/volInt.cpp:1316-1359 | one averaged normal per group; every slot's index moved to its group |
| VertNormals.SlotPointsAtItsGroup | lib/volInt/volInt.cpp:1324-1359 | after the merge each slot points at the average of a group holding it |
| VertNormals.MergeLossless | lib/volInt/volInt.cpp:1316-1359 | when groups hold equal normals only, every slot reads back its own normal |
| RefPoints.NotCollinearIsCross | lib/volInt/volInt.cpp:1725-1727 | the three checked minors are the cross product's components up to sign |
| RefPoints.NotCollinearSpans | lib/volInt/volInt.cpp:1725-1727 | a third vertex that passes spans a plane with the first two |
| RefPoints.FarEnoughDistinct | lib/volInt/volInt.cpp:1677-1679 | a second vertex that passes is a different point |
| RefPoints.LastTwoIsLast | lib/volInt/volInt.cpp:1681-1683 | once a pair has passed before the stop, `ref_vert_two_ind` is set |
| RefPoints.FindThird | lib/volInt/volInt.cpp:1688-1739 | the first slot in search order that passes the third-vertex test, or none |
| RefPoints.SearchSecond | lib/volInt/volInt.cpp:1655-1743 | the second-vertex loops for one first slot, up to the stop |
| RefPoints.SearchFace | lib/volInt/volInt.cpp:1642-1744 | the first-vertex loop over one face |
| RefPoints.SearchRefSlots | lib/volInt/volInt.cpp:1638-1746 | the whole search stops at the first complete triple in lexicographic order; otherwise the first slot is the last one tried |
| RefPoints.TripleOutcome | lib/volInt/volInt.cpp:1736-1746 | a found triple is the first one |
| RefPoints.NoTripleOutcome | lib/volInt/volInt.cpp:1761-1764 | without a triple the first slot ends at the last slot tried, the second at the last passing pair, and the third is untouched |
| RefPoints.FindRefPointsOf | lib/volInt/volInt.cpp:1633-1792 | the slots of the search; true exactly when the first two slots are set (possibly with no third); then the relative positions and the `atan2` angle, otherwise the old values |
| RemovePolygons.EraseFaces | src/helpers/wavefront_obj_to_m3d_operations.cpp:2503-2548 | exactly the faces matching the erase predicate go, the rest keep their order; the mechos variant also drops steering wheels |
| RemovePolygons.Skipped | src/helpers/wavefront_obj_to_m3d_operations.cpp:2552-2568 | the skip count is at most `n` |
| RemovePolygons.KeptPlusSkipped | src/helpers/wavefront_obj_to_m3d_operations.cpp:2552-2568 | each index is either kept or skipped |
| RemovePolygons.SkippedMonotone | src/helpers/wavefront_obj_to_m3d_operations.cpp:2552-2568 | the change map is non-decreasing |
| RemovePolygons.IndChangeMap | src/helpers/wavefront_obj_to_m3d_operations.cpp:2552-2568 | `ret[i]` counts the dropped indices up to `i`; for a kept `i`, `i - ret[i]` is the number of kept indices below it |
| RemovePolygons.Compact | src/helpers/wavefront_obj_to_m3d_operations.cpp:2604-2625 | compaction shortens the list by the number of dropped indices |
| RemovePolygons.CompactAt | src/helpers/wavefront_obj_to_m3d_operations.cpp:2604-2645 | a kept element moves down by the number of dropped indices below it |
| RemovePolygons.CompactOnto | src/helpers/wavefront_obj_to_m3d_operations.cpp:2604-2625 | every compacted position holds a kept element |
| RemovePolygons.CompactOf | src/helpers/wavefront_obj_to_m3d_operations.cpp:2604-2625 | `erase(remove_if(...))` with the running counter computes `Compact` |
| RemovePolygons.KeepSets | src/helpers/wavefront_obj_to_m3d_operations.cpp:2595-2602 | the keep sets are exactly the vertices and normals the surviving faces use |
| RemovePolygons.ShiftIndices | src/helpers/wavefront_obj_to_m3d_operations.cpp:2638-2645 | every index shifted down by the change map |
| RemovePolygons.ShiftedTarget | src/helpers/wavefront_obj_to_m3d_operations.cpp:2630-2645 | a shifted index of a kept element names the same element after compaction |
| RemovePolygons.ShiftedFacesSame | src/helpers/wavefront_obj_to_m3d_operations.cpp:2630-2646 | each shifted face names its old coordinates in the compacted lists |
| RemovePolygons.ShiftedVertsUsed | src/helpers/wavefront_obj_to_m3d_operations.cpp:2594-2646 | every vertex left is used by some face |
| RemovePolygons.ShiftedNormsUsed | src/helpers/wavefront_obj_to_m3d_operations.cpp:2594-2646 | every normal left is used by some face |
| RemovePolygons.RemovePolygonsOf | src/helpers/wavefront_obj_to_m3d_operations.cpp:2572-2651 | surviving faces in order, each naming its old coordinates through valid indices; every remaining vertex and normal used |
| ObjToM3d.ObjToM3dModel.RemovePolygons | src/helpers/wavefront_obj_to_m3d_operations.cpp:2572-2651 | the model after `remove_polygons`, with `numFaces`, `numVerts`, `numVertNorms` and `numVertTotal` updated; one face must survive |
| WheelsSteer.FlattenMembers | src/helpers/wavefront_obj_to_m3d_operations.cpp:1734-1771 | an index is in the flattened lists exactly when some list holds it |
| WheelsSteer.FirstSeenMembers | src/helpers/wavefront_obj_to_m3d_operations.cpp:1734-1771 | the first-occurrence order holds exactly the indices that occur |
| WheelsSteer.FirstSeenDistinct | src/helpers/wavefront_obj_to_m3d_operations.cpp:1734-1771 | the first-occurrence order holds each index once |
| WheelsSteer.FirstSeenExtends | src/helpers/wavefront_obj_to_m3d_operations.cpp:1734-1771 | later occurrences change nothing; the order only grows at its end |
| WheelsSteer.RenumberId | src/helpers/wavefront_obj_to_m3d_operations.cpp:1736-1770 | a known index takes its number, a new one the next number, which is its position in first-occurrence order |
| WheelsSteer.RenumberIds | src/helpers/wavefront_obj_to_m3d_operations.cpp:1734-1771 | a face's indices renumbered densely in first-occurrence order |
| WheelsSteer.CopyByMap | src/helpers/wavefront_obj_to_m3d_operations.cpp:1800-1809 | position `new` holds the point at `old` for every map entry |
| WheelsSteer.OrderInRange | src/helpers/wavefront_obj_to_m3d_operations.cpp:1800-1809 | every renumbered index names an existing vertex and normal |
| WheelsSteer.AddWheelFace | src/helpers/wavefront_obj_to_m3d_operations.cpp:1719-1772 | one face of the wheel copied and renumbered |
| WheelsSteer.ExtractWheel | src/helpers/wavefront_obj_to_m3d_operations.cpp:1716-1809 | the wheel's faces in order, renumbered densely, with `verts[new] == main.verts[old]`, the counts and `numVertTotal == numFaces * v_per_poly` |
| WheelsSteer.AssembledSameCoordinates | src/helpers/wavefront_obj_to_m3d_operations.cpp:1716-1809 | every slot of the wheel model names the coordinates its original slot named |
| WheelsSteer.AssembledDense | src/helpers/wavefront_obj_to_m3d_operations.cpp:1716-1809 | every vertex and normal of the wheel model is used by one of its faces |
| WheelsSteer.GetWheelsSteerOf | src/helpers/wavefront_obj_to_m3d_operations.cpp:1686-1809 | one model per steering wheel: extracted for a non-ghost wheel, empty for a ghost one |
| ObjToM3d.FacePoints | src/helpers/wavefront_obj_to_m3d_operations.cpp:1958-2013 | the coordinates of the listed indices, in order |
| ObjToM3d.FoldFace | src/helpers/wavefront_obj_to_m3d_operations.cpp:1958-2013 | the inner loop of `get_wheels_data` folds the face's vertices into the box |
| ObjToM3d.BoxesStep | src/helpers/wavefront_obj_to_m3d_operations.cpp:1958-2013 | one more face moves only its own wheel's box |
| ObjToM3d.WheelBoxes | src/helpers/wavefront_obj_to_m3d_operations.cpp:1958-2013 | one box per wheel number, over all of that wheel's vertices |
| ObjToM3d.WheelDataEnclosesWheel | src/helpers/wavefront_obj_to_m3d_operations.cpp:1958-2013 | the wheel record encloses the wheel: every vertex lies within half the width along x and within the radius along z of the centre |
| ObjToM3d.ObjToM3dModel.GetWheelsData | src/helpers/wavefront_obj_to_m3d_operations.cpp:1958-2013 | `n_wheels` and one record per wheel, read off that wheel's box |
| ObjToM3d.DebrisNum | src/helpers/wavefront_obj_to_m3d_operations.cpp:2017-2030 | `min(debris, bounds)` when bound models are present, otherwise the number of debris models |
| ObjToM3d.ObjToM3dModel.GetDebrisData | src/helpers/wavefront_obj_to_m3d_operations.cpp:2017-2030 | `n_debris` is `DebrisNum` |
| ObjToM3d.SetBit | src/helpers/wavefront_obj_to_m3d_operations.cpp:1591 | `mask \| (1 << slot)` sets that bit and keeps the others |
| ObjToM3d.SlotMaskBits | src/helpers/wavefront_obj_to_m3d_operations.cpp:1578-1592 | bit `k` of the mask is set exactly when slot `k` exists |
| ObjToM3d.SlotMaskZero | src/helpers/wavefront_obj_to_m3d_operations.cpp:1537-1592 | the mask is 0 exactly when no slot exists |
| ObjToM3d.ObjToM3dModel.GetWeaponsData | src/helpers/wavefront_obj_to_m3d_operations.cpp:1535-1592 | without an attachment point nothing exists; otherwise slot `k` exists exactly when its three reference points were found, and the mask has exactly those bits |
| ObjToM3d.RowMajor | src/helpers/wavefront_obj_to_m3d_operations.cpp:516-530 | nine values as a 3x3 matrix, row by row |
| ObjToM3d.RowMajorRoundTrip | src/helpers/wavefront_obj_to_m3d_operations.cpp:516-530 | flattening the filled tensor gives the nine values back, and conversely |
| ObjToM3d.ObjToM3dModel.OverwriteVolume | src/helpers/wavefront_obj_to_m3d_operations.cpp:506-512 | the volume is the given one and `volume_overwritten` is set |
| ObjToM3d.ObjToM3dModel.OverwriteJ | src/helpers/wavefront_obj_to_m3d_operations.cpp:516-530 | `J` filled row-major from the nine values and `J_overwritten` set |
| ObjToM3d.ObjToM3dModel.ApplyCustomJ | src/helpers/wavefront_obj_to_m3d_operations.cpp:658-665 | the tensor is overridden only with exactly `J_cfg_num_of_values` values, otherwise it is unchanged |
| ObjToM3d.C3dFileSizeGrows | src/helpers/wavefront_obj_to_m3d_operations.cpp:2424-2435 | one more face costs one polygon record; one more vertex or normal one record of its own |
| ObjToM3d.SumSizesAtLeastHeaders | src/helpers/wavefront_obj_to_m3d_operations.cpp:2424-2435 | `n` c3d blocks take at least `n` headers |
| ObjToM3d.SteerWheelsSizeMissing | src/helpers/wavefront_obj_to_m3d_operations.cpp:2459-2468 | the size is missing (`.at` throws) exactly when a steering wheel has no model |
| ObjToM3d.SteerWheelsSizeNonSteer | src/helpers/wavefront_obj_to_m3d_operations.cpp:2459-2468 | the models of non-steering wheels do not count |
| ObjToM3d.M3dSizeSlotData | src/helpers/wavefront_obj_to_m3d_operations.cpp:2446-2452 | slot data is counted exactly when the mask is non-zero, and then `max_slots` records |
| ObjToM3d.SteerWheelsSizeOf | src/helpers/wavefront_obj_to_m3d_operations.cpp:2459-2468 | the wheel loop computes the steering wheels' c3d sizes |
| ObjToM3d.PiecesSize | src/helpers/wavefront_obj_to_m3d_operations.cpp:2469-2482 | the debris loops compute the sum of the pieces' c3d sizes |
| ObjToM3d.ObjToM3dModel.M3dFileSize | src/helpers/wavefront_obj_to_m3d_operations.cpp:2439-2484 | header, wheel records, slot data when a slot exists, main model and bound, steering wheels, debris and their bounds |
| ObjToM3d.A3dSizeStep | src/helpers/wavefront_obj_to_m3d_operations.cpp:2488-2497 | one more frame adds its c3d block |
| ObjToM3d.ObjToM3dModel.A3dFileSize | src/helpers/wavefront_obj_to_m3d_operations.cpp:2488-2497 | the header plus one c3d block per frame |
| ObjToM3d.WritePolygon | src/helpers/wavefront_obj_to_m3d_operations.cpp:1089-1113 | the header fields, then the (vertex, normal) pairs from the last slot to the first |
| WheelGroups.SharesSymmetric | src/helpers/m3d_to_wavefront_obj_operations.cpp:977-989 | sharing a vertex is symmetric, for vertex lists of any length |
| WheelGroups.SameVertex | src/helpers/m3d_to_wavefront_obj_operations.cpp:976-989 | `same_vertex` is true exactly when the two polygons share a vertex |
| WheelGroups.PolyInGroup | src/helpers/m3d_to_wavefront_obj_operations.cpp:855-879 | whether the polygon is in a group, and then the first such group |
| WheelGroups.CompareStep | src/helpers/m3d_to_wavefront_obj_operations.cpp:968-1063 | one comparison keeps the loop invariant through all four merge cases |
| WheelGroups.GroupPolygons | src/helpers/m3d_to_wavefront_obj_operations.cpp:947-1076 | the nested loops leave groups that hold every polygon once, with sharers together, every two members of a group connected through a chain of shared vertices, and `non_empty_groups_num` non-empty groups |
| WheelGroups.KeepNonEmpty | src/helpers/m3d_to_wavefront_obj_operations.cpp:1080-1087 | the end list is the non-empty groups in order |
| WheelGroups.EndGroupsPartition | src/helpers/m3d_to_wavefront_obj_operations.cpp:1080-1087 | the end groups are non-empty and partition the polygons; their number is `non_empty_groups_num` |
| WheelGroups.NonSteeringWheelCenter | src/helpers/m3d_to_wavefront_obj_operations.cpp:881-928 | the middle of the box around the group's vertices |
| WheelGroups.GroupCenterInside | src/helpers/m3d_to_wavefront_obj_operations.cpp:881-928 | on every axis the centre lies between two vertices of the group |
| WheelGroups.GetWheels | src/helpers/m3d_to_wavefront_obj_operations.cpp:932-1132 | the groups partition the polygons, are non-empty, keep sharers together and are each connected through chains of shared vertices; one centre per group |
| WheelGroups.WheelsAreComponents | src/helpers/m3d_to_wavefront_obj_operations.cpp:932-1087 | groups that partition, keep sharers together and are connected are exactly the connected components: a polygon of a group is connected to precisely that group's polygons |
| MarkWheels.WheelPolygonsExact | src/helpers/m3d_to_wavefront_obj_operations.cpp:839-853 | the selection holds exactly the wheel-coloured faces, each once, in increasing order |
| MarkWheels.GetPolygons | src/helpers/m3d_to_wavefront_obj_operations.cpp:839-853 | the loop selects `WheelPolygonsOf` |
| MarkWheels.ClosestIsNearest | src/helpers/m3d_to_wavefront_obj_operations.cpp:1231-1256 | the match is a non-steering wheel at least distance, the first one on a tie |
| MarkWheels.ClosestFallback | src/helpers/m3d_to_wavefront_obj_operations.cpp:1231-1256 | with no non-steering wheel nearer than `DBL_MAX` the match stays wheel 0 |
| MarkWheels.ClosestWheel | src/helpers/m3d_to_wavefront_obj_operations.cpp:1231-1256 | the scan computes `Closest` |
| MarkWheels.GroupVertexIds | src/helpers/m3d_to_wavefront_obj_operations.cpp:1157-1164 | the set of the group's vertex ids, each once |
| MarkWheels.ShiftVertices | src/helpers/m3d_to_wavefront_obj_operations.cpp:1166-1172 | each listed vertex moved once |
| MarkWheels.MoveNonSteeringWheelToCenter | src/helpers/m3d_to_wavefront_obj_operations.cpp:1136-1173 | every vertex of the group moved once by `end - start`, every other vertex unchanged |
| MarkWheels.SetGroupWheelId | src/helpers/m3d_to_wavefront_obj_operations.cpp:1267-1270 | the group's faces get the wheel id, nothing else changes |
| MarkWheels.TagAllOnlyIds | src/helpers/m3d_to_wavefront_obj_operations.cpp:1267-1270 | tagging changes nothing but wheel ids |
| MarkWheels.MoveAllExactlyOnce | src/helpers/m3d_to_wavefront_obj_operations.cpp:1226-1280 | each group's vertices are moved exactly once by their group's offset; other vertices stay |
| MarkWheels.TagAllOnce | src/helpers/m3d_to_wavefront_obj_operations.cpp:1226-1280 | each group's faces carry their wheel; no other face changes |
| MarkWheels.MatchGroups | src/helpers/m3d_to_wavefront_obj_operations.cpp:1226-1280 | the loop over the centres: matches, tags, moves and non-ghost marks for all groups |
| MarkWheels.MatchGroup | src/helpers/m3d_to_wavefront_obj_operations.cpp:1231-1279 | one pass: match, tag, move, mark |
| MarkWheels.MarkGhosts | src/helpers/m3d_to_wavefront_obj_operations.cpp:1289-1319 | fails exactly when a steering wheel has no known model (`.at` throws); otherwise steering wheels are ghosts exactly when their model has no faces, non-steering wheels exactly when unmatched, and the non-steering ghosts are counted |
| MarkWheels.SplitSteer | src/helpers/m3d_to_wavefront_obj_operations.cpp:1182-1194 | every wheel index goes to the steering or the non-steering set by its flag |
| MarkWheels.SteerSplit | src/helpers/m3d_to_wavefront_obj_operations.cpp:1182-1194 | from empty sets, `wheels_steer` and `wheels_non_steer` partition the wheel indices |
| MarkWheels.GhostSplit | src/helpers/m3d_to_wavefront_obj_operations.cpp:1226-1319 | when every group matched a non-steering wheel, every wheel ends in exactly one of the ghost and non-ghost sets |
| MarkWheels.GhostOverlapOnFallback | src/helpers/m3d_to_wavefront_obj_operations.cpp:1231-1319 | a group with no near non-steering wheel falls back to wheel 0; a ghost steering wheel 0 then ends in both sets |
| M3dToObj.Recolor | src/helpers/m3d_to_wavefront_obj_operations.cpp:14-22 | the colour is replaced only when below `max_colors_ids`; the wheel/weapon id is always set |
| M3dToObj.SetColorId | src/helpers/m3d_to_wavefront_obj_operations.cpp:10-23 | every face recoloured, nothing else changed |
| M3dToObj.RecolorIdempotent | src/helpers/m3d_to_wavefront_obj_operations.cpp:10-23 | recolouring twice with a standard colour is recolouring once |
| M3dToObj.RecolorTwice | src/helpers/m3d_to_wavefront_obj_operations.cpp:10-23 | a second recolouring sees the first's colour only when it was standard |
| M3dToObj.ClampColor | src/helpers/m3d_to_wavefront_obj_operations.cpp:623-627 | ids from `max_colors_ids` on become `body`; others are kept |
| M3dToObj.FaceOfRecord | src/helpers/m3d_to_wavefront_obj_operations.cpp:592-646 | slot `k` takes pair `expected - 1 - k` of the record; clamped colour |
| M3dToObj.ReadPolygons | src/helpers/m3d_to_wavefront_obj_operations.cpp:571-647 | the first record with an unexpected vertex count is an error; otherwise every record becomes its face |
| M3dToObj.FacesOfRecords | src/helpers/m3d_to_wavefront_obj_operations.cpp:571-647 | one face per record, in order |
| M3dToObj.ReadWritePolygon | src/helpers/m3d_to_wavefront_obj_operations.cpp:635-646 | reading back what `write_polygon` wrote gives the face's own slots in their order |
| M3dToObj.ScaleMatrix | src/helpers/m3d_to_wavefront_obj_operations.cpp:457-468 | every tensor entry times the factor |
| M3dToObj.OffsetFace | src/helpers/m3d_to_wavefront_obj_operations.cpp:1530-1540 | vertex indices up by the main vertex count, normal indices by the main normal count |
| M3dToObj.OffsetIndices | src/helpers/m3d_to_wavefront_obj_operations.cpp:1530-1540 | the index loops compute `OffsetFace` |
| M3dToObj.MoveModelIntoMain | src/helpers/m3d_to_wavefront_obj_operations.cpp:1530-1555 | main lists become old ++ moved, moved faces offset by the old counts, and the counts add |
| M3dToObj.MergedIndicesSame | src/helpers/m3d_to_wavefront_obj_operations.cpp:1530-1555 | every shifted index of a moved face names in the merged lists what it named before |
| M3dToObj.MainIndicesSame | src/helpers/m3d_to_wavefront_obj_operations.cpp:1543-1551 | the main model's own indices name the same vertices after the append |
| M3dToObj.SlotFlags | src/helpers/m3d_to_wavefront_obj_operations.cpp:1851-1852 | `exists[k]` is bit `k` of the mask |
| M3dToObj.SlotFlagsRoundTrip | src/helpers/m3d_to_wavefront_obj_operations.cpp:1811-1859 | the flags packed by `get_weapons_data` are exactly those unpacked, and the mask is non-zero exactly when a slot exists |
| M3dToObj.SlotOf | src/helpers/m3d_to_wavefront_obj_operations.cpp:1828-1852 | slot `k` with its scaled position, angle and bit of the mask |
| M3dToObj.M3dToObjModel.ReadC3d | src/helpers/m3d_to_wavefront_obj_operations.cpp:396-666 | an error exactly on a wrong version or an unexpected vertex count; otherwise the scaled, read and repaired model |
| M3dToObj.M3dToObjModel.MarkWheels | src/helpers/m3d_to_wavefront_obj_operations.cpp:1178-1320 | the steering split, the matched, tagged and moved groups with recomputed planes, and the ghost classification |
| M3dToObj.M3dToObjModel.StoreMarked | src/helpers/m3d_to_wavefront_obj_operations.cpp:1178-1320 | the computed state written back into the model and the wheel list |
| M3dToObj.M3dToObjModel.ReadM3dWeaponSlots | src/helpers/m3d_to_wavefront_obj_operations.cpp:1811-1859 | the mask stored; the cursor advances past the mask, and past `max_slots` records only when the mask is non-zero |
| M3dToObj.MatchWheelGroupsValues | src/helpers/m3d_to_wavefront_obj_operations.cpp:1197-1280 | the wheel polygons grouped, each group matched with its nearest wheel, tagged and moved |
| M3dToObj.MatchAndPlane | src/helpers/m3d_to_wavefront_obj_operations.cpp:1197-1284 | the matching followed by `faces_calc_params` |
| M3dToObj.BuildModel | src/helpers/m3d_to_wavefront_obj_operations.cpp:472-663 | the model built from a valid block: scaled header and vertices, normalised normals, faces with planes and one orientation repair |
| M3dToObj.StoreBlock | src/helpers/m3d_to_wavefront_obj_operations.cpp:428-567 | offsets and `rcm` scaled by `scale_size`, volume by its cube, `J` by its fifth power |
| M3dToObj.ReadFacesUniform | src/helpers/m3d_to_wavefront_obj_operations.cpp:571-647 | faces read from valid records have the expected shape and indices in range |
| VangersCfg.ToLower | src/helpers/vangers_cfg_operations.cpp:144 | ASCII lower-casing: upper-case letters map to lower case, other bytes are kept |
| VangersCfg.Crt | src/helpers/vangers_cfg_operations.cpp:133-140 | one keystream step; the new key is below 2^31 |
| VangersCfg.KeyIterateBelow31Bits | src/helpers/vangers_cfg_operations.cpp:133-140 | every keystream value after the first step fits in 31 bits |
| VangersCfg.XorKeystream | src/helpers/vangers_cfg_operations.cpp:185-188 | the cipher keeps the text length |
| VangersCfg.InitialKey | src/helpers/vangers_cfg_operations.cpp:176-180 | the initial key has the `bin_or` bits set |
| VangersCfg.Decrypted | src/helpers/vangers_cfg_operations.cpp:174-189 | length is input length minus `enc_beg_pos`; byte `i` is input byte `enc_beg_pos + i` XOR the keystream |
| VangersCfg.XorKeystreamInvolution | src/helpers/vangers_cfg_operations.cpp:185-188 | applying the same keystream twice restores the text |
| VangersCfg.Opened | src/helpers/vangers_cfg_operations.cpp:154-170 | a file whose first byte is not 0 is kept as it is; opening fails only when decompression fails |
| VangersCfg.Decompressed | src/helpers/vangers_cfg_operations.cpp:191-219 | the prefix is stripped either way; inflation only when the label is non-zero, failing exactly when inflation fails |
| VangersCfg.StaleEndPosOnUncompressed | src/helpers/vangers_cfg_operations.cpp:160-218 | an encrypted file with label 0 keeps an end position past the end of its text |
| VangersCfg.AsWrittenEndPosElsewhere | src/helpers/vangers_cfg_operations.cpp:160-218 | in every other case the end position is the text's end |
| VangersCfg.FixGameLstPath | src/helpers/vangers_cfg_operations.cpp:144-150 | same length, no Windows separator left, every other byte lower-cased |
| VangersCfg.FixGameLstPathIdempotent | src/helpers/vangers_cfg_operations.cpp:144-150 | fixing a path twice is fixing it once |
| VangersCfg.FirstNul | src/helpers/vangers_cfg_operations.cpp:293-318 | the first NUL at or after the start, or the string's end |
| VangersCfg.StrStr | src/helpers/vangers_cfg_operations.cpp:299-300 | `strstr`: the first occurrence inside the C string, or none |
| VangersCfg.FirstNonSpace | src/helpers/vangers_cfg_operations.cpp:223-233 | the first index at or after the cursor that is not whitespace, or `end_pos`; only whitespace before it |
| VangersCfg.NextValueSound | src/helpers/vangers_cfg_operations.cpp:293-318 | a returned position ends a key occurrence with whitespace on both sides, before `end_pos` |
| VangersCfg.FirstOccurrenceAccepted | src/helpers/vangers_cfg_operations.cpp:293-318 | when the first occurrence is delimited and before `end_pos`, it is the answer |
| VangersCfg.NoOccurrenceNoValue | src/helpers/vangers_cfg_operations.cpp:293-318 | with no occurrence there is no value |
| VangersCfg.SicherCfgReader.Raw | src/helpers/vangers_cfg_operations.cpp:158-160 | `pos` at the first byte, `end_pos` at the terminator |
| VangersCfg.SicherCfgReader.Decrypt | src/helpers/vangers_cfg_operations.cpp:174-189 | `m_str` becomes `Decrypted` of the old string, `pos` at its start |
| VangersCfg.SicherCfgReader.Decompress | src/helpers/vangers_cfg_operations.cpp:191-219 | `m_str` becomes `Decompressed` of the old string; false when inflation fails |
| VangersCfg.SicherCfgReader.Open | src/helpers/vangers_cfg_operations.cpp:154-170 | decrypts and decompresses exactly when the first byte is 0; the text is `Opened` |
| VangersCfg.SicherCfgReader.SkipSpacesUntilValue | src/helpers/vangers_cfg_operations.cpp:224-233 | `pos` moves to the first non-space byte, never past `end_pos` |
| VangersCfg.SicherCfgReader.MovePosAfterStrValue | src/helpers/vangers_cfg_operations.cpp:237-259 | an unquoted value stops at the first whitespace; at a quote `pos` does not move; `pos <= end_pos` |
| VangersCfg.SicherCfgReader.GetCurPosValueStr | src/helpers/vangers_cfg_operations.cpp:237-289 | a length error exactly when the first non-whitespace byte is a quote; otherwise the value runs from that byte up to the next whitespace (or `end_pos`), where `pos` stops |
| VangersCfg.SicherCfgReader.ReadStrValue | src/helpers/vangers_cfg_operations.cpp:237-289 | as intended: a quoted value is the bytes after the opening quote up to the closing quote or line end, and holds no quote; an unquoted value runs up to the next whitespace |
| VangersCfg.SicherCfgReader.GetPosOfNextValue | src/helpers/vangers_cfg_operations.cpp:293-318 | never moves `pos`; the result is `NextValue` |
| VangersCfg.SicherCfgReader.MovePosToValue | src/helpers/vangers_cfg_operations.cpp:322-331 | a key-not-found error exactly when there is no next value; otherwise `pos` at it |
| VangersCfg.SicherCfgReader.CheckNextValue | src/helpers/vangers_cfg_operations.cpp:335-338 | true exactly when there is a next value |
| VangersCfg.SicherCfgWriter.constructor | src/helpers/vangers_cfg_operations.cpp:383-394 | an empty output and nothing copied yet |
| VangersCfg.SicherCfgWriter.WriteUntilPos | src/helpers/vangers_cfg_operations.cpp:398-405 | appends `m_str[non_copied_pos, pos)` and sets `non_copied_pos = pos` |
| VangersCfg.SicherCfgWriter.WriteUntilEnd | src/helpers/vangers_cfg_operations.cpp:409-416 | appends the rest up to `end_pos` |
| VangersCfg.SicherCfgWriter.AppendValueStr | src/helpers/vangers_cfg_operations.cpp:421-443 | the new value appended to the output |
| VangersCfg.CopyThrough | src/helpers/vangers_cfg_operations.cpp:398-416 | with no overwrite in between, the output equals the text |

## Left out

- Floating point: coordinates and integrals are `real`. Rounding, overflow to infinity and NaN
  are not modelled, nor is the float conversion of the vertices `read_c3d` reads.
- `std::sqrt`, `acos`, `atan2`, `normalize_self` and `sicher_angle_to_radians` are
  uninterpreted functions. So are the angle `ref_angle` and the rotation checks of
  `get_weapons_data`, which enter only as inputs.
- Raw DEFLATE inflation (`raw_uncompress`) is an uninterpreted function that may fail. zlib is
  foreign code.
- The byte decoding `raw_bytes_to_num` and the `write_*_to_m3d` templates are not part of this
  model. The readers take decoded records, and `write_polygon` produces a record. The
  per-vertex byte offsets of `read_c3d` are therefore not modelled; its final cursor position
  is not modelled either.
- `strtod`/`strtol` value parsing (`get_cur_pos_value_str<int/double>`, `move_pos_after_value`)
  and the option parsing of `read_file_cfg_m3d` are left out. Only the nine-value rule for `J`
  is modelled (`ApplyCustomJ`).
- `get_groups_of_connected_items` is not part of this model. `recalc_vertNorms` takes its
  groups as a parameter that is required to be a partition of the slot ids.
- `get_ref_points_for_part_of_model`, `get_compare_points`, `rotate_c3d_by_axis` and
  `move_model_to_point` are not part of this model. `move_model_into_main` starts from the
  already rotated and moved model, and `GetWeaponsData` takes the search results as inputs.
- `WheelsSteer.GetWheelsSteerOf`, `WheelsSteer.ExtractWheel`: the centring of each extracted
  steering wheel at the end of `get_wheels_steer` (`move_coord_system_to_point_inv_neg_vol`)
  is left out. It needs `get_model_center` and the
  coordinate move, which are outside the modelled core. `WheelsSteer.ExtractWheel` states the
  model before that move.
- `WheelsSteer.GetWheelsSteerOf`: the iteration order of the `unordered_set`/`unordered_map`
  is a parameter. The result does not depend on it.
- Thrown exceptions are error values, or a `false` flag on a method. On the error path the
  state the source leaves half-written is not stated: `MarkWheels` with `ok == false`
  (`.at` throws) and `GetWeaponsData` with `ok == false`.
- `M3dToObj.M3dToObjModel.MarkWheels` requires the main model to be a regular c3d model, with
  every face counted and each face naming four vertices in range. That is what `read_c3d`
  produces for a regular model. It also requires at least one wheel record when a wheel
  polygon exists, because the fallback match `cur_wheel_data[0]` is otherwise out of bounds.
- `M3dToObj.M3dToObjModel.ReadC3d` requires that records with the expected vertex count carry
  that many index pairs, with vertex indices in range. The byte layout guarantees the first;
  the second is not checked by the source and is needed by `faces_calc_params`.
- `Polyhedra.Polyhedron.FindRefPoints` keeps the source's tests as written. The second vertex
  must differ in y as well as in x or z (`volInt.cpp:1677-1679`). The search can return true
  with no third reference vertex set (`volInt.cpp:1761-1786`). The dereference of the unset
  third vertex is not modelled.
- `VangersCfg.SicherCfgReader.MovePosToValue`: on the error path the source sets `pos` to a
  null address before it throws. The reader's state after that error is not stated.
- `VangersCfg.NextValue`, `VangersCfg.SicherCfgReader.GetPosOfNextValue`, `MovePosToValue` and
  `CheckNextValue` require a non-empty key. With an empty key `strstr` returns the search
  position itself and the source's scan never advances. Every call site passes a non-empty
  literal key.
- `M3dToObj.MoveModelIntoMain`: the source moves the elements of the moved model's vectors out
  with `std::move`, leaving them in a moved-from state. The model leaves them intact; nothing
  reads them afterwards.
- `VangersCfg.SicherCfgReader.GetPosOfNextValue`: when a key occurs at index 0 the source reads
  the byte before the buffer. The model takes that byte to be non-whitespace.
- `Polyhedra.Polyhedron.CalculateC3dProperties`: the division by a zero volume (a wheel with
  T0 == 0 passes the checks) is a fixed uninterpreted value rather than IEEE infinity or NaN.
- Orchestration, file I/O, `create_game_lst`, `create_prm`, bound-model generation, the scale
  computation and the OBJ reading and writing are outside the modelled core.

## Findings

| source | as written | input that shows it | evidently intended | confidence | as-written member | corrected member |
|---|---|---|---|---|---|---|
| src/helpers/vangers_cfg_operations.cpp:160-218 | `end_pos` is set from the raw file before `decrypt`; `decrypt` and `decompress` erase header bytes, but only re-set `end_pos` when the data was inflated (label non-zero) | a file whose first byte is 0 and whose label after decryption is 0: the text shrinks by `enc_beg_pos + comp_beg_pos` bytes, while `end_pos` still points at the old end | `end_pos` at the end of the decrypted, stripped text | not executed | VangersCfg.StaleEndPosOnUncompressed | VangersCfg.SicherCfgReader.Open |
| src/helpers/vangers_cfg_operations.cpp:237-289 | the quoted branch of `move_pos_after_str_value` starts its scan on the opening quote, which stops it at once; `pos - value_beg_pos` is then -1 and the `std::string` constructor throws a length error | the cfg line `Name "a.m3d"`, read by `get_next_value<std::string>("Name")` at src/helpers/m3d_to_wavefront_obj_operations.cpp:2221-2226 | the value is the bytes between the quotes | not executed | VangersCfg.SicherCfgReader.GetCurPosValueStr | VangersCfg.SicherCfgReader.ReadStrValue |
