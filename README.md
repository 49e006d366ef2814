# Witness type gate and glyph texture atlas

This project models two small pieces of the DarkFi code base in Dafny and proves properties of them.

**The zkas witness gate** (`src/zk/debug.rs`, module `ZkDebug`). A prover calls this before it creates a proof.
- `zkas_type_checks` walks the circuit's witnesses and the compiled binary's declared variable types in lock-step, and stops at the shorter of the two. It rejects the first slot whose witness variant is not the declared type, with `WrongWitnessType(i)`.
- It then counts the `ConstrainInstance` opcodes of the circuit. It rejects a set of public inputs of a different size with `IncorrectPublicInputsCount`.
- `export_witness_json` builds a debugging document. It holds one record per witness and one string per public input. A `Base` or `Scalar` witness becomes a record keyed by its variant and holds the value's rendering when the value is known. Any other variant aborts the export.

**The glyph texture atlas** (`bin/darkwallet/src/text2/atlas.rs`, modules `TextAtlas` and `AtlasImage`).
- An `Atlas` collects glyphs, skipping any id it already holds.
- It packs their sprites left to right on one strip, with `ATLAS_GAP` = 2 pixels around each sprite.
- It renders them into one RGBA byte buffer that starts zeroed, except for a white pixel at the origin. `copy_image` blits each sprite at its x position and row `ATLAS_GAP`.
- `make` refuses an atlas with no glyphs. Otherwise it returns a `RenderedAtlas`, in which `fetch_uv` looks up a glyph's UV rectangle by a linear search.

How the code is modelled:
- The code works by mutation, so the model does too:
  - `Atlas` is a class whose fields its methods reassign;
  - `render` and `copy_image` write into an `array`;
  - the loops of `zkas_type_checks`, `export_witness_json`, `push` and `fetch_uv` are `for` loops with invariants.
- Each method is proved equal to a specification function, such as `TypeChecks`, `WitnessDocument`, `PushGlyphSpec`, `PushSpec`, `CopyImageSpec`, `PutPixel`, `Rendered`, `ComputeUvs` or `IndexOf`. The lemmas state what those functions guarantee.
- Pallas field elements, curve points and Merkle paths are abstract types.
- The `{:?}` rendering of field elements is a pair of function parameters (`renderBase`, `renderScalar`).
- The f32 UV-rectangle formula of `compute_uvs` is a function parameter `uv` of `Make`.
- Integers are unbounded.

## Model

| member | source | states |
|---|---|---|
| ZkDebug.IsPass | src/zk/debug.rs:68-77 | defines the per-variant comparison: a witness passes exactly the `VarType` of the same name, whatever its payload, and never an `OtherType` |
| ZkDebug.FirstMismatch | src/zk/debug.rs:65-87 | no slot of the zipped witnesses and declared types fails exactly when the walk finds nothing; otherwise it returns a failing slot below the shorter length, and every earlier slot passes |
| ZkDebug.InstancesCount | src/zk/debug.rs:89-95 | defines the instance count: one for each opcode whose first component is `ConstrainInstance`, scanning the program in order |
| ZkDebug.TypeChecks | src/zk/debug.rs:60-105 | defines the outcome of the gate: `WrongWitnessType` at the first mismatching zipped slot, else `IncorrectPublicInputsCount` when the number of instances is not the count, else `Ok` |
| ZkDebug.ZkasTypeChecks | src/zk/debug.rs:60-105 | the two loops return exactly the outcome `TypeChecks` defines: the first mismatching slot, else a count mismatch, else success |
| ZkDebug.IsPassIffTag | src/zk/debug.rs:68-77 | a witness passes a declared type iff that type is the witness's own tag, so each witness passes exactly one declared type (`EcPoint` is not `EcNiPoint`, `Base` is not `Scalar`) |
| ZkDebug.PayloadIrrelevant | src/zk/debug.rs:68-77 | two circuits whose witnesses agree slot by slot on their variants, with any payloads including absent ones, get the same verdict |
| ZkDebug.FirstMismatchPayloadIrrelevant | src/zk/debug.rs:68-77 | the first mismatch depends only on the witnesses' variants, never on their payloads |
| ZkDebug.ExtraWitnessesIgnored | src/zk/debug.rs:65-66 | witnesses beyond the number of declared types are never inspected |
| ZkDebug.ExtraDeclaredTypesIgnored | src/zk/debug.rs:65-66 | declared types beyond the number of witnesses are never inspected |
| ZkDebug.TypeChecksOkIff | src/zk/debug.rs:60-104 | the gate succeeds iff every zipped slot passes and the instance count equals the number of `ConstrainInstance` opcodes |
| ZkDebug.WrongWitnessTypeIff | src/zk/debug.rs:65-86 | the result is `WrongWitnessType(i)` iff slot i exists in both sequences, fails, and every slot before it passes |
| ZkDebug.IncorrectCountIff | src/zk/debug.rs:65-103 | the result is `IncorrectPublicInputsCount` iff every slot passes and the instance count differs from the opcode count, so a type error always wins |
| ZkDebug.InstancesCountAppend | src/zk/debug.rs:89-95 | the count of a concatenated program is the sum of the counts of its parts |
| ZkDebug.InstancesCountIsPositions | src/zk/debug.rs:89-95 | the counting loop's result is the number of positions that hold `ConstrainInstance` |
| ZkDebug.InstancesCountInsertOther | src/zk/debug.rs:89-95 | inserting or removing an opcode of another kind anywhere leaves the count unchanged |
| ZkDebug.InstancesCountPermutation | src/zk/debug.rs:89-95 | reordering the opcodes leaves the count unchanged |
| ZkDebug.ScenarioAccept | src/zk/debug.rs:60-105 | `[Base, EcPoint, MerklePath]` against the same declared types and no opcodes is accepted with no instances |
| ZkDebug.ScenarioWrongType | src/zk/debug.rs:65-86 | `[Base, EcPoint]` declared as `[Base, Scalar]` is rejected at slot 1 |
| ZkDebug.ScenarioOtherTypeRejected | src/zk/debug.rs:65-86 | a single witness of any variant, in a slot declared with a type outside the eight, is rejected at slot 0 whatever the number of instances |
| ZkDebug.ScenarioCountMismatch | src/zk/debug.rs:89-103 | a program with two `ConstrainInstance` among five opcodes rejects one instance and accepts two |
| ZkDebug.ScenarioNoInstances | src/zk/debug.rs:89-104 | a program without `ConstrainInstance` and with no witnesses accepts an empty instance list and rejects any other number of instances with `IncorrectPublicInputsCount` |
| ZkDebug.WitnessRecord | src/zk/debug.rs:22-37 | defines one witness's record: `Base` or `Scalar` with a known value gives the single key `"Base"` or `"Scalar"` holding its rendering, an unknown value the empty map, any other variant the abort |
| ZkDebug.WitnessRecords | src/zk/debug.rs:20-39 | defines the `witnesses` array: the records of the witnesses in order, or the abort as soon as one witness has none |
| ZkDebug.InstanceStrings | src/zk/debug.rs:41-44 | defines the `instances` array: the rendering of each public input in order |
| ZkDebug.WitnessDocument | src/zk/debug.rs:46-51 | defines the exported document: an object with the keys `witnesses` and `instances`, or the abort |
| ZkDebug.ExportWitnessJson | src/zk/debug.rs:15-56 | the two loops build exactly the document `WitnessDocument` defines, or the abort |
| ZkDebug.WitnessRecordsSomeIff | src/zk/debug.rs:20-39 | the export succeeds iff every witness is `Base` or `Scalar` |
| ZkDebug.UnsupportedAborts | src/zk/debug.rs:36 | a witness of any other variant, at any position, aborts the whole export |
| ZkDebug.WitnessRecordsContents | src/zk/debug.rs:20-39 | on success there is one record per witness, in order; a known value gives a single key named after the variant holding its rendering, and an unknown value gives an empty record |
| ZkDebug.InstanceStringsContents | src/zk/debug.rs:41-44 | the instances list has one rendering per public input, with the same length and order |
| ZkDebug.ScenarioExport | src/zk/debug.rs:15-51 | `[Base(x), Scalar(y)]` with instances `[z]` gives the document with keys `witnesses` and `instances` and the expected three strings |
| AtlasImage.SrcIndex | bin/darkwallet/src/text2/atlas.rs:161-162 | defines `off_src + c` for pixel (i, j) and channel c: 4·(i·bmp_width + j) + c |
| AtlasImage.DestIndex | bin/darkwallet/src/text2/atlas.rs:164-165 | defines `off_dest + c` for pixel (i, j) of a sprite at (x, y) and channel c: 4·((y+i)·atlas_width + x + j) + c |
| AtlasImage.OffsetsInBounds | bin/darkwallet/src/text2/atlas.rs:161-170 | for every pixel of a sprite whose bitmap holds 4·w·h bytes and which fits the destination, all four source and destination offsets are in bounds |
| AtlasImage.PutPixel | bin/darkwallet/src/text2/atlas.rs:167-170 | writing one pixel keeps the buffer length and puts the four source bytes at the four destination bytes |
| AtlasImage.PutPixelElsewhere | bin/darkwallet/src/text2/atlas.rs:167-170 | writing one pixel changes no byte outside its four destination bytes |
| AtlasImage.CopyRow | bin/darkwallet/src/text2/atlas.rs:160-171 | defines the buffer after the first j pixels of row i are copied, column by column; keeps the length |
| AtlasImage.CopyRows | bin/darkwallet/src/text2/atlas.rs:159-172 | defines the buffer after the first i rows are copied, row by row; keeps the length |
| AtlasImage.CopyImageSpec | bin/darkwallet/src/text2/atlas.rs:158-173 | the blit keeps the buffer length |
| AtlasImage.CopyImage | bin/darkwallet/src/text2/atlas.rs:158-173 | the nested loops leave the array equal to the row-by-row, column-by-column fold of pixel writes, and every index they use is in bounds |
| AtlasImage.CopyPixel | bin/darkwallet/src/text2/atlas.rs:167-170 | the four array writes equal one `PutPixel` |
| AtlasImage.CopyRowsUntouched | bin/darkwallet/src/text2/atlas.rs:158-173 | after any number of rows, a byte outside every pixel slot of the sprite is unchanged |
| AtlasImage.CopyImageUntouched | bin/darkwallet/src/text2/atlas.rs:158-173 | a byte outside every pixel slot of the sprite is unchanged by the blit |
| AtlasImage.CopyRowWritten | bin/darkwallet/src/text2/atlas.rs:160-171 | after j columns of a row, each of those pixels holds its source bytes |
| AtlasImage.CopyRowsWritten | bin/darkwallet/src/text2/atlas.rs:159-172 | when the sprite does not overhang the row, the pixels of every finished row hold their source bytes |
| AtlasImage.RowUntouched | bin/darkwallet/src/text2/atlas.rs:160-171 | copying one row changes no byte outside that row's pixel slots |
| AtlasImage.CopyImageWritten | bin/darkwallet/src/text2/atlas.rs:158-173 | when the sprite does not overhang the row, byte 4·((y+i)·atlas_width + x + j) + c of the result is byte 4·(i·bmp_width + j) + c of the sprite, for every pixel and channel |
| TextAtlas.Extent | bin/darkwallet/src/text2/atlas.rs:64-81 | the strip width is at least one gap and includes the last sprite with a gap on each side |
| TextAtlas.PackedHeight | bin/darkwallet/src/text2/atlas.rs:75-77 | the strip height is at least two gaps, and every sprite fits in it with a gap above and below |
| TextAtlas.NewState | bin/darkwallet/src/text2/atlas.rs:50-62 | defines the fields of `Atlas::new`: no glyphs, width `ATLAS_GAP`, height 2·`ATLAS_GAP` |
| TextAtlas.PushGlyphSpec | bin/darkwallet/src/text2/atlas.rs:64-81 | defines `push_glyph`: a present id leaves the fields as they are; a new one appends id, sprite and x = width, grows the width by bmp_width + gap and sets the height to the maximum of the old height and bmp_height + 2·gap |
| TextAtlas.PushSpec | bin/darkwallet/src/text2/atlas.rs:85-89 | defines `push`: `push_glyph` applied to each glyph of the list in order |
| TextAtlas.NewStatePacked | bin/darkwallet/src/text2/atlas.rs:50-62 | a new atlas satisfies the packing invariant |
| TextAtlas.PushGlyphPreservesPacked | bin/darkwallet/src/text2/atlas.rs:64-81 | `push_glyph` preserves the packing invariant: equal lengths of the three vectors (the asserts of `make`, lines 142-143), distinct glyph ids, each x position the width of the sprites before it, and width and height those of the strip |
| TextAtlas.PushGlyphEffect | bin/darkwallet/src/text2/atlas.rs:64-81 | a present id changes nothing; a new one is appended to the ids, its sprite to the sprites and the old width to the x positions; the width grows by bmp_width + gap and the height becomes the maximum of the old height and bmp_height + 2·gap; the height never decreases and the id is present afterwards |
| TextAtlas.PushSpecPreservesPacked | bin/darkwallet/src/text2/atlas.rs:85-89 | pushing any list preserves the packing invariant |
| TextAtlas.PushSpecContains | bin/darkwallet/src/text2/atlas.rs:85-89 | after a push, every earlier id and every pushed id is present |
| TextAtlas.PushSpecPresentNoop | bin/darkwallet/src/text2/atlas.rs:85-89 | pushing glyphs whose ids are all present changes nothing |
| TextAtlas.PushSpecIdempotent | bin/darkwallet/src/text2/atlas.rs:85-89 | pushing the same list a second time changes nothing |
| TextAtlas.ExtentGrows | bin/darkwallet/src/text2/atlas.rs:73-80 | an earlier sprite's span plus a gap ends no later than the start of any later sprite |
| TextAtlas.PackedHorizontal | bin/darkwallet/src/text2/atlas.rs:73-80 | in a packed atlas each sprite ends a gap before the width; the next sprite starts at x + bmp_width + gap; earlier sprites never overlap later ones |
| TextAtlas.PlacedInStrip | bin/darkwallet/src/text2/atlas.rs:73-80 | sprite k starts after the leading gap and ends a gap before the width |
| TextAtlas.PlacedNext | bin/darkwallet/src/text2/atlas.rs:73-80 | sprite k + 1 starts at x position of sprite k + bmp_width + gap |
| TextAtlas.PlacedBefore | bin/darkwallet/src/text2/atlas.rs:73-80 | for k1 < k2, sprite k1 ends at least one gap before sprite k2 starts |
| TextAtlas.PackedVertical | bin/darkwallet/src/text2/atlas.rs:75-77 | in a packed atlas every sprite placed at row `ATLAS_GAP` fits with a gap below |
| TextAtlas.Atlas.constructor | bin/darkwallet/src/text2/atlas.rs:50-62 | empty vectors, width `ATLAS_GAP`, height 2·`ATLAS_GAP`, and the invariant holds |
| TextAtlas.Atlas.PushGlyph | bin/darkwallet/src/text2/atlas.rs:64-81 | the fields become `PushGlyphSpec` of the old fields, and the invariant is kept |
| TextAtlas.Atlas.Push | bin/darkwallet/src/text2/atlas.rs:85-89 | the fields become the in-order fold of `push_glyph` over the list, and the invariant is kept |
| TextAtlas.Atlas.Render | bin/darkwallet/src/text2/atlas.rs:91-108 | a new array equal to the blank buffer with every sprite blitted at (x position, `ATLAS_GAP`), in order |
| TextAtlas.Atlas.Make | bin/darkwallet/src/text2/atlas.rs:138-153 | fails with `AtlasIsEmpty` iff there are no glyphs; otherwise it keeps the glyph ids, gives one UV rectangle per sprite, and gives the rendered buffer with its width and height |
| TextAtlas.MakeTextureAtlas | bin/darkwallet/src/text2/atlas.rs:17-24 | fails iff the glyph list is empty; otherwise it gives the atlas of a fresh push of the list |
| TextAtlas.PushSpecSpritesFit | bin/darkwallet/src/text2/atlas.rs:85-89 | if every pushed bitmap holds 4·w·h bytes, so does every sprite of the atlas |
| TextAtlas.PlacementsFit | bin/darkwallet/src/text2/atlas.rs:100-105 | under the packing invariant the buffer of 4·width·height bytes holds the origin pixel and every sprite at its placement |
| TextAtlas.PlacementFits | bin/darkwallet/src/text2/atlas.rs:100-105 | sprite k at (x position, `ATLAS_GAP`) fits in the 4·width·height buffer |
| TextAtlas.RenderPrefix | bin/darkwallet/src/text2/atlas.rs:92-105 | after any number of sprites the buffer still has 4·width·height bytes |
| TextAtlas.RenderPrefixUntouched | bin/darkwallet/src/text2/atlas.rs:103-105 | blitting more sprites does not change a byte outside their pixel slots |
| TextAtlas.RenderStepUntouched | bin/darkwallet/src/text2/atlas.rs:103-105 | blitting one sprite does not change a byte outside its pixel slots |
| TextAtlas.Blank | bin/darkwallet/src/text2/atlas.rs:92-98 | defines the freshly allocated buffer: every byte 0 except bytes 0..3, which are 255 |
| TextAtlas.Rendered | bin/darkwallet/src/text2/atlas.rs:91-108 | defines the buffer `render` returns: the blank buffer with every sprite copied, in order, at (x position, `ATLAS_GAP`) |
| TextAtlas.RenderedBackground | bin/darkwallet/src/text2/atlas.rs:92-105 | a byte outside every sprite keeps its initial value: 255 in the origin pixel, 0 elsewhere |
| TextAtlas.RenderedCorner | bin/darkwallet/src/text2/atlas.rs:95-100 | the rendered buffer's bytes 0..3 are 255, since no sprite starts above row `ATLAS_GAP` |
| TextAtlas.LaterSpriteDisjoint | bin/darkwallet/src/text2/atlas.rs:100-105 | every byte of a sprite's pixels lies outside the pixel slots of every later sprite |
| TextAtlas.RenderedSprite | bin/darkwallet/src/text2/atlas.rs:91-108 | every pixel of every sprite appears intact in the rendered buffer at row `ATLAS_GAP` + i, column x position + j |
| TextAtlas.ComputeUvs | bin/darkwallet/src/text2/atlas.rs:117-131 | defines one UV rectangle per sprite, in glyph order, from its x position, the sprite, and the atlas width and height; the f32 formula itself is the parameter `uv` |
| TextAtlas.RenderedAtlas.FetchUv | bin/darkwallet/src/text2/atlas.rs:186-196 | returns the UV rectangle at the first index holding the id, or `None` when the id is absent |
| TextAtlas.IndexOf | bin/darkwallet/src/text2/atlas.rs:190-195 | `None` iff the value is absent; otherwise an index holding it with no earlier occurrence |
| TextAtlas.IndexOfDistinct | bin/darkwallet/src/text2/atlas.rs:190-195 | in a duplicate-free sequence the first position of its k-th element is k |
| TextAtlas.FetchUvAfterMake | bin/darkwallet/src/text2/atlas.rs:186-196 | after `make`, each pushed glyph id is found at its own index, and its UV rectangle is the one computed for its own sprite |

## Left out

- The `error!` log messages and the human-readable type names of `zkas_type_checks` are left out. They are diagnostics and do not affect the result.
- Pallas field and curve arithmetic and the `{:?}` formatting are left out. They belong to a foreign library, so the model uses abstract types and rendering parameters.
- The definitions of the zkas `VarType` and `Opcode` enums are not part of this model. `VarType` has the eight variable types a witness can have, plus `OtherType(code)` for any further zkas type; no witness passes a slot declared `OtherType`, as no arm of the match at debug.rs lines 68-77 compares against one. For opcodes only `ConstrainInstance` is told apart; every other opcode is `Other(code)`, and opcode arguments are a type parameter.
- Formatting JSON text, creating the file and writing it are left out in `export_witness_json`. These are file I/O and a foreign serialiser. The JSON object is modelled as a map, so key order is not modelled. The `expect` panics are not modelled, and `unimplemented!()` is the outcome `Failure(Unimplemented)`.
- `compute_uvs` is left out: it uses f32 division. `Make` takes its per-sprite formula as the parameter `uv`, applied to the x position, the sprite, and the atlas width and height.
- `RenderApi::new_texture`, `TextureId` and the `as u16` casts of the texture size are left out: it is a GPU call. The error that `make` passes on from `new_texture` with `?` (atlas.rs line 147) is therefore not modelled: in the source `make` and `make_texture_atlas` can also fail with that error, while `Make` and `MakeTextureAtlas` fail only with `AtlasIsEmpty`. `RenderedAtlas` holds the pixel buffer and its size in place of the texture id, and the render API handle is not a field of `Atlas`.
- Async execution of `make` and `make_texture_atlas` is not modelled; both are sequential methods.
- `usize` overflow in the index arithmetic and widths is not modelled: integers are unbounded.
- Bitmaps shorter than 4·bmp_width·bmp_height bytes are excluded by the precondition of `CopyImage`, `Render` and `Make`. For such bitmaps the source panics on the out-of-bounds index.
- AtlasImage.CopyImageWritten: requires x + bmp_width <= atlas_width. `CopyImage` itself does not need this: it models every write in loop order even when a sprite overhangs its row. Sprites placed by `Atlas` never overhang, as `TextAtlas.PackedHorizontal` shows.
- AtlasImage.CopyRowsWritten: requires the same no-overhang condition as `CopyImageWritten`.
- Unequal numbers of witnesses and declared types follow the code's `zip`: the walk stops at the shorter sequence, so the extra entries cannot cause an error.
- TextAtlas.RenderedAtlas.FetchUv: requires `|glyphIds| == |uvRects|`, in place of the `assert_eq!` panic of `fetch_uv` (atlas.rs line 188). A `RenderedAtlas` built by `Make` always meets it, since `ComputeUvs` gives one rectangle per glyph.
