# GLyphy texture encoder, modelled in Dafny

GLyphy renders glyphs on the GPU. It approximates each outline by circular
arcs and stores those arcs in a texture that a fragment shader reads. This
project models the encoder stage of `generate_texture` in `glyphy_lib.cc`.
That stage turns the near-arc list of every grid cell into RGBA texels. It
packs the runs into one shared payload and reuses earlier payload where the
bytes already match. Then it folds the buffer into rows of the texture's
width. The bounding square computed at the start of the function is
modelled too.

The model has six modules, one per piece of the source:

- `Bits` (`bits.dfy`): the `UPPER_BITS`, `LOWER_BITS` and `MIDDLE_BITS`
  macros, over unsigned values. `>>` and `<<` are division and
  multiplication by powers of two. `&` and `|` are defined bit by bit. Lemmas
  prove that a low mask is a remainder and that or-ing disjoint fields adds
  them.
- `Records` (`records.dfy`): the endpoint record of `arc_encode` and the
  cell header of `arclist_encode`, each a texel of four bytes r, g, b, a.
  Each is written with the bit macros, as in the source. Each also has a
  plain arithmetic reading (`Record`, `Header`), and the contracts prove
  that the bit-level encoders produce exactly that reading. The
  specifications further up are stated over the arithmetic form.
- `Runs` (`runs.dfy`): the records one cell's near arcs turn into. There is
  a contour-start marker whenever an arc does not continue the previous
  one, then the arc's end point. The run is specified over endpoints (a
  quantised point and its d), and `EncodeAll` turns them into records.
- `Packer` (`packer.dfy`): the growing `tex_data` vector. It is a class
  `TextureBuilder` that holds the buffer, the payload offset and the
  saved-bytes counter. Its methods append a run, search for an earlier
  window, drop the run on a hit, write the header and pad the buffer. The
  functional specification of one cell is `Dedup` followed by `Commit`.
  `FindMatch` is the pointer-walking search loop.
- `Bounds` (`bounds.dfy`): the min/max fold over the arcs' integer extrema,
  and the forced square.
- `Texture` (`texture.dfy`): the row-major loop over all 16 × 16 cells.
  `PackUpTo` is its functional specification: the buffer and the
  placements after the first n cells. `GenerateTexture` is the method. It
  is proved to produce exactly the padded `PackUpTo` buffer, with every cell
  stored (`StoresCells`).

Points are an abstract type with an equality test. The quantiser `q`
stands for the float normalisation and rounding that `ARC_ENCODE` performs,
and gives the 12-bit coordinates. It is a value of the one-field datatype
`Quantiser` rather than a bare function parameter. An arc's `d` is carried
already quantised. The near arcs and the inside flag of each cell are
inputs, because `closest_arcs_to_cell` computes them.

The code and the prose description of the system differ in four places.
The model follows the code in each:

- Header offsets are texel indices into the whole buffer, counted from the
  first header, not byte offsets into the payload.
- A reused window reproduces the run except for its first record's r byte.
  `memcmp` skips exactly that byte, so the match is not byte-for-byte.
- Nothing checks for an empty arc list, and nothing checks a cell's
  endpoint count. A count of 256 wraps to 0, and a count of 255 reads like
  the solid-interior sentinel (`HeaderCountAliases`).
- The payload can hold the same bytes twice. The search only looks for a
  new cell's run among the windows already there, so nothing makes the
  payload free of duplicates, and the model does not claim it.

`grid_min_y` starts at 65335, as written, while `grid_min_x` starts at 65535.

The texel type `rgba_t` is declared in `glyphy.h`, which is not part of
this model. It is taken to be four `unsigned char` fields r, g, b, a in that
order with no padding. The `memcmp` trick that skips one byte relies on
this layout.

## Model

| member | source | states |
|---|---|---|
| Bits.UpperBits | glyphy_lib.cc:234 | `v >> (total - bits)` is the r with `r·2^(total-bits) <= v < (r+1)·2^(total-bits)`, and it is below `2^bits` when v fits in `total` bits |
| Bits.LowerBits | glyphy_lib.cc:235 | `v & ((1 << bits) - 1)` is `v mod 2^bits`: below `2^bits`, at most v, and differing from v by a multiple of `2^bits` |
| Bits.MiddleBits | glyphy_lib.cc:236 | the `bits` bits just below bit `upper_bound`, i.e. `(v mod 2^ub) / 2^(ub-bits)`, below `2^bits` |
| Bits.AndLowMask | glyphy_lib.cc:235 | and-ing with a mask of n one-bits gives the remainder modulo `2^n` |
| Bits.OrDisjoint | glyphy_lib.cc:266 | or-ing a value shifted left by k with a value below `2^k` equals their sum |
| Bits.ToByte | glyphy_lib.cc:263-266 | storing into an `unsigned char` keeps a value below 256 that differs from the input by a multiple of 256 |
| Records.HighNibbles | glyphy_lib.cc:266 | or-ing `(ix >> 8) << 4` with `iy >> 8` gives `(ix/256)·16 + iy/256`, and it fits a byte for 12-bit coordinates |
| Records.ArcEncode | glyphy_lib.cc:241-268 | r is id (0 for an infinite d), g and b are the low bytes of ix and iy, a is `(ix/256)·16 + iy/256`; requires the 12-bit and 8-bit budgets asserted at 249, 251, 261 |
| Records.EndpointRoundTrip | glyphy_lib.cc:248-266 | `(a >> 4)·256 + g == ix` and `(a & 15)·256 + b == iy`; r is id, and r is 0 for an infinite d |
| Records.EndpointInjective | glyphy_lib.cc:263-266 | two endpoint records are equal exactly when their coordinates and r bytes are equal |
| Records.ArclistEncode | glyphy_lib.cc:271-282 | `r·65536 + g·256 + b == offset mod 2^24` (and `== offset` below 2^24); a is 255 for an empty inside cell, else the count mod 256 whatever the flag |
| Records.ArclistEncodeIsHeader | glyphy_lib.cc:275-280 | the header's r, g and b are the offset's bytes 2, 1 and 0, and a is the count's low byte or the sentinel 255, for every offset, count and flag |
| Records.HeaderSentinel | glyphy_lib.cc:278-280 | the count byte is 255 exactly when the cell is inside and empty, or the count is 255 mod 256 |
| Records.HeaderCountRoundTrip | glyphy_lib.cc:278-280 | below 255 points the count byte reads back the count, and it is 255 exactly for an empty inside cell |
| Records.HeaderCountAliases | glyphy_lib.cc:278-280 | 255 outside points give the header of an empty inside cell; 256 inside points give the header of an empty outside cell |
| Records.HeaderOffsetInjective | glyphy_lib.cc:275-277 | below 2^24, equal headers carry equal offsets |
| Runs.EncodeEndpoint | glyphy_lib.cc:446-449 | `arc_encode` on the quantised point gives the record `Encode` specifies |
| Runs.EncodeAll | glyphy_lib.cc:458-460 | one record per endpoint |
| Runs.EncodeAllAt | glyphy_lib.cc:458-460 | the i-th record is the encoding of the i-th endpoint |
| Runs.EncodeAllConcat | glyphy_lib.cc:453-462 | encoding two endpoint lists one after the other gives the concatenation of their records |
| Runs.EndpointsEncodable | glyphy_lib.cc:249-261 | when every arc fits the bit budgets, so does every endpoint the loop emits |
| Runs.RunUpToStep | glyphy_lib.cc:453-462 | one loop pass appends a marker for p0 exactly when the arc starts a chain, then the p1 record with d |
| Runs.ChainsStep | glyphy_lib.cc:457 | arc n-1 adds one to the chain count exactly when it starts a chain |
| Runs.EndpointsUpToLength | glyphy_lib.cc:452-464 | the first n arcs emit n endpoints plus one per chain they start, with at least one and at most n chains |
| Runs.RunLength | glyphy_lib.cc:452-464 | a run has one record per arc plus one per chain: 0 records for 0 arcs, and between n+1 and 2n records for n > 0 arcs |
| Runs.EndpointsUpToPrefix | glyphy_lib.cc:452-464 | the endpoints of the first k arcs are a prefix of those of the first n >= k |
| Runs.RunStartsWithMarker | glyphy_lib.cc:457-458 | a non-empty run starts with the contour-start marker for the first arc's p0, whose r byte is 0 |
| Runs.RecordsOfArc | glyphy_lib.cc:452-464 | arc i's records follow those of the earlier arcs: a marker for p0 (r byte 0) exactly when i is 0 or its p0 differs from the previous p1, then the p1 record with d |
| Packer.CellIndex | glyphy_lib.cc:493 | `row·GRID_X + col` lies inside the header area |
| Packer.FlattenInjective | glyphy_lib.cc:478-480 | equal byte images of equally long texel ranges mean equal texels |
| Packer.SkipFirstByteIsFirstR | glyphy_lib.cc:474-479 | comparing two record ranges from their second byte on is equality except for the first record's r byte |
| Packer.FirstMatchIsLeast | glyphy_lib.cc:474-486 | the scan from j finds the least reusable window at or after j, or there is none |
| Packer.FindMatch | glyphy_lib.cc:466-486 | the needle is the buffer past `offset`. A hit is the least window from the header length on that serves it within the old payload. A miss means the needle is empty or no window serves it |
| Packer.DedupStores | glyphy_lib.cc:466-494 | the payload is unchanged on a reuse and extended by the run otherwise; the offset is past the headers and names a range that reproduces the run except for its first r byte |
| Packer.DedupChoice | glyphy_lib.cc:466-491 | a non-empty run is reused exactly when some window serves it, then at the least such window with the buffer cut back to the old offset; an empty run is not searched and points at the end |
| Packer.SearchIsDedup | glyphy_lib.cc:466-491 | the outcome of the search loop is what `Dedup` specifies |
| Packer.PlacedStable | glyphy_lib.cc:489-494 | a stored cell stays stored while its header and the payload are left alone and the buffer only grows |
| Packer.Commit | glyphy_lib.cc:487-494 | one cell's step never shrinks the buffer below its old length |
| Packer.EncodeHeader | glyphy_lib.cc:493 | `arclist_encode` as the loop calls it gives the arithmetic header |
| Packer.CommitFrame | glyphy_lib.cc:487-494 | the step changes no old entry except the cell's header, and on a miss the new tail is the run itself |
| Packer.CommitStores | glyphy_lib.cc:487-494 | after the step the cell is stored at the offset `Dedup` chose, with its run and flag |
| Packer.CommitKeeps | glyphy_lib.cc:487-494 | the step keeps every other stored cell stored |
| Packer.CommitPlaces | glyphy_lib.cc:487-494 | writing the next cell's header stores that cell and keeps every earlier cell stored |
| Packer.HeaderLocatesRun | glyphy_lib.cc:271-282 | below 2^24 texels and 255 endpoints, a stored cell's header fields give back its offset and count, the range they name reproduces the run, and the count byte is 255 exactly for an empty inside cell |
| Packer.CeilDiv | glyphy_lib.cc:499 | `(len + w - 1) / w` is the least h with `len <= h·w`, so `len <= h·w < len + w` |
| Packer.TextureBuilder.constructor | glyphy_lib.cc:430-434 | the buffer is GRID_X·GRID_Y zero headers, the offset is the header length and no bytes are saved |
| Packer.TextureBuilder.AppendRun | glyphy_lib.cc:452-462 | the buffer becomes the old buffer followed by the cell's run |
| Packer.TextureBuilder.PlacePendingRun | glyphy_lib.cc:464-494 | the buffer becomes `Commit` of the part before `offset` with the pending run; the placement is recorded, every cell stays stored, and saved bytes grow by 4 per record on a reuse |
| Packer.TextureBuilder.ProcessCell | glyphy_lib.cc:436-494 | the buffer becomes the `Dedup` payload with the header at `row·GRID_X + col` set to the chosen offset, the count and the flag; every earlier cell stays stored; saved bytes grow by 4 per record on a reuse |
| Packer.TextureBuilder.Pad | glyphy_lib.cc:497-500 | the height is the ceiling of length / width; the buffer is the old buffer followed by zero texels up to width·height |
| Bounds.BoundingSquare | glyphy_lib.cc:403-429 | each of min/max x/y is bounded by its initial value (65535, -65535, 65335, -65535) and every arc's extremum and equals one of them; width == height == max of the box's sides; min_dimension equals that side |
| Texture.CellRuns | glyphy_lib.cc:436-462 | one run per cell |
| Texture.CellRunsAt | glyphy_lib.cc:436-462 | cell c's entry is the run of its near arcs with its inside flag |
| Texture.PackUpTo | glyphy_lib.cc:430-494 | after n cells the buffer holds the full header area and there are n placements |
| Texture.PackStepFrame | glyphy_lib.cc:487-494 | one cell's step only grows the buffer and changes no earlier entry except its own header |
| Texture.PackPlacesAll | glyphy_lib.cc:436-494 | after n cells, each of them is stored at the place the packer chose for it |
| Texture.PlacedPrefix | glyphy_lib.cc:436-494 | placements are only appended: those after k cells are a prefix of those after n >= k |
| Texture.PlacementOfCell | glyphy_lib.cc:466-494 | cell c's placement carries its run and flag, and its offset is the `Dedup` choice on the buffer as it stood before cell c |
| Texture.CellsStored | glyphy_lib.cc:436-500 | the packed buffer, and any buffer that extends it, stores all 256 cells with their own runs and flags |
| Texture.ProcessRow | glyphy_lib.cc:437-494 | one row of the grid advances the packer from `PackUpTo` after `row·GRID_X` cells to `PackUpTo` after `(row+1)·GRID_X` cells |
| Texture.PackGrid | glyphy_lib.cc:430-494 | the buffer after the whole grid is `PackUpTo` after all 256 cells |
| Texture.GenerateTexture | glyphy_lib.cc:424-500 | the result is the packed buffer padded with zero texels to width·height, the least multiple of the width that holds it, and every one of the 256 cells is stored at the place the packer chose |

## Left out

- Shader compilation and linking, `create_program` and the `gl(...)` wrapper: OpenGL calls and shader source text, outside the encoder.
- `face_to_outline` and `create_texture`: FreeType loading, texture upload and uniform binding.
- `approximate_glyph_to_arcs`: a wrapper over a foreign bezier-to-arc library. Its arc list is an input.
- `closest_arcs_to_cell`: floating-point geometry on foreign arc types. Each cell's near arcs and inside flag are inputs (`Texture.Cell`).
- The float steps of `arc_encode` and `ARC_ENCODE`: division by the glyph size, the `MAX_D` scaling and `lround`. The quantiser `q` and the already quantised d stand for them, and the float asserts on them become `requires` clauses.
- `leftmost`, `rightmost`, `lowest`, `highest`, `floor` and `ceil`: foreign float geometry. `Bounds.BoundingSquare` takes the integer extrema as input. Its results feed only the float steps above, so `Texture.GenerateTexture` does not call it.
- The cell corners `cp0`/`cp1` and `origin`: they only feed `closest_arcs_to_cell`.
- The `new char[]` and `memcpy` hand-off of the buffer, and the disabled `atlas_t` block.
- Arithmetic wrap-around: offsets, counts and sizes are unbounded naturals. `unsigned int` wraps only past 2^32 texels, and `ArclistEncode` still keeps only the low 24 bits of the offset and the low 8 bits of the count, as the code does.
- Texture.GenerateTexture: does not return `saved_bytes`, which the source never reads. `Packer.TextureBuilder.ProcessCell` states how it grows.
- The initial `p1 = point_t (0, 0)` at glyphy_lib.cc:452: `AppendRun` starts `p1` at an arbitrary point, because `i == 0` short-circuits its only read before the first assignment.
