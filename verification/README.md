# Yumi SDK: verified models of the glyph pipeline, the surface compositor and the handle table

This project models the stateful core of YumiBrowser in Dafny and proves what
it keeps over whole runs of calls. `dafny verify dfyconfig.toml` checks it.

| file | models |
|---|---|
| `HandleTable.dfy` | `include/handle_table.h`: handles for host pointers, free stack, generations, growth |
| `GlyphCache.dfy`, `FontAtlas.dfy` | `sdk/wasm_font.h`: the lazily filled outline atlas of one font |
| `FontRegistry.dfy`, `FontFallback.dfy` | `sdk/font_fallback.h`: fonts, their atlases and the GPU buffers that mirror them |
| `ShapeLine.dfy` | `sdk/text_shaping.h`: one line of positioned glyphs |
| `GpuGlyphs.dfy` | `sdk/font_fallback.h`: from the requests and a shaped line to what is on the GPU |
| `HostText.dfy` | the loops of `src/text_bindings.c` behind `text_shape` and `text_bidi` |
| `BitmapAtlas.dfy` | `sdk/font_bitmap_atlas.h`: the bitmap cache and its upload |
| `SurfaceSizing.dfy`, `Blit.dfy` | `sdk/wasm_surface.c`: resize policy; clipping, texture coordinates, blending of pixels |
| `Compositor.dfy`, `CompositorClass.dfy` | `sdk/wasm_surface.c`: surfaces, their GPU objects, passes and the scratch pool |
| `CompositorEffects.dfy` | `sdk/wasm_surface.c`: what each call does for its caller; the sizes of textures |
| `ScratchPasses.dfy` | `sdk/wasm_surface.c`: render passes left open on scratch surfaces |
| `Sequences.dfy` | prefixes and distinctness, shared by the others |

How the parts fit together. Each C structure that is updated in place is a class
with the same fields and loops. Fixed-size C arrays and the handle table's buffers
are arrays; the growing buffers of the glyph pipeline are sequence fields whose
length is the allocated capacity. Each class is
proved against functions on values (the `*Spec` modules), and the run theorems are
lemmas about those functions over every sequence of calls (the `*Runs` modules).
What the functions on values mean is stated apart from their definitions, in terms of
the caller's arguments: texel by texel for blits (`BlitTexelByTexel`), glyph by glyph
for lines (`LineGlyphAt`, `LineReady`) and host shaping (`GlyphOfGroup`), call by call
for the compositor (`CompositorEffects`). A
whole atlas is determined by one sequence, the glyph ids in order of first use;
everything in its buffers is a function of that sequence and the font. A surface
appears twice: in `Blit.dfy` as pixels, in `Compositor.dfy` as the GPU objects it
owns. `ReachableBlitInside` ties the two: the bounds on which the pixel model rests
hold of every blit in every reachable state of the compositor.

What the model takes as given. Host services that are foreign code are
function-valued parameters: the glyph source of a font, the rasteriser, HarfBuzz,
ICU, texture sampling and blend equations. The stated bounds on them are `FontOk`
(a glyph has at most 256 segments and that many records are written; the host
clamps to this at `src/font_bindings.c:583`), `RasteriserOk`, `ShapeEnvOk`. What
`shape_line` needs of the text host, `TextHostOk`, is proved of the host's own
loops (`HostContract.HostMeetsContract`). Blending reads the destination texel at the
fragment's own position, in both paths: the blend shader is not part of the
repository's C code, and of the destination it is given only the logical size
(`sdk/wasm_surface.c:1004`). Floats are exact reals, the factors
1.15f and 0.30f are 23/20 and 3/10. Memory allocation succeeds. Host object ids
are names that are never reissued while their count is not exhausted.

Where the code and its documentation disagree the model follows the code:

- `htable_remove` is documented to make stale handles resolve to NULL. Lookup never
  reads the generation, and the free list is a stack, so the next insertion revives
  the stale handle (`StaleHandleReused`). A removed handle reads NULL in every later
  state if and only if no prefix of the later calls has more non-NULL insertions
  than removals in range (`RemovedReadsNull`).
- Removing a dead handle in range corrupts the free list; removal is sound if and
  only if the handle is zero, out of range or live (`RemoveKeepsInvIff`).
- `font_get_glyph` is documented to return 1 or 0 but is used as, and is, a segment
  count (`sdk/wasm_font.h:412-421`).
- `pixel_buf_size` is documented as the size of the last upload but is used as the
  capacity (`sdk/font_bitmap_atlas.h:201`); an upload that does not fit clears the
  dirty flag without writing: `RunMirroredIffSafe` gives the exact condition, and
  `UploadLost` the runs on a new atlas that fail it.
- The bitmap key leaves the font handle out. Every request of a run is answered with
  its own handle's bitmap if and only if no earlier delivering request with its key
  used another handle (`OwnHandleIff`); one handle per font index is enough
  (`OneHandlePerIndex`), and any run that breaks the condition serves the other
  handle's pixels (`OtherHandleServed`).
- Growing the id map asks for 4 * (id + 256) bytes, which fit 32 bits exactly below
  id 2^30 - 256 (`MapBytesFitIff`); the atlas therefore asks for smaller ids.
- A scratch entry is lost for good when its creation fails (`AcquireLeaksIff`,
  `LeakIsForever`), which filling the pool from start-up brings about
  (`LeakFromStart`), and destroying a pooled scratch surface directly leaves it
  dangling (`DestroyHeldIff`).
- Releasing a scratch surface does not end its pass, and beginning a pass on it then
  does nothing (`BeginOnOpenPass`). Acquiring can nowhere in a run get such a
  surface if and only if no pooled surface is released mid-pass (`NeverLendsOpenIff`);
  three calls from start-up are enough (`OpenPassFromStart`).
- `shape_line` is documented to shape a line of codepoints. Once bidi analysis finds
  a run, only those of the first 4096 codepoints whose code units lie in the first 32
  runs are shaped, and the rest is dropped (`ReachedIff`).
- Bidi analysis sees the given text if and only if no two neighbouring codepoints
  are a high and a low surrogate value (`EncodeFaithfulIff`).

## Model

| member | source | states |
|---|---|---|
| HandleTableSpec.GetIsLookup | include/handle_table.h:144-147 | lookup is map lookup for every handle, valid or not |
| HandleTableSpec.InitInv | include/handle_table.h:82-90 | a new table stands for the empty map and its free stack lists every slot once |
| HandleTableSpec.GrowInv | include/handle_table.h:118-131 | doubling keeps the free-stack invariant and the map |
| HandleTableSpec.InsertRefines | include/handle_table.h:116-135 | insertion returns a non-zero handle outside the domain and adds exactly that pair, growing or not |
| HandleTableSpec.RemoveLiveRefines | include/handle_table.h:157-163 | removing a live handle, or a no-op handle, removes exactly that key |
| HandleTableSpec.RemoveKeepsInvIff | include/handle_table.h:157-163 | removal keeps the invariant if and only if the handle is zero, out of range or live |
| HandleTableSpec.DoubleRemoveAliases | include/handle_table.h:157-163 | for every table and live handle, removing twice makes the next two insertions share the handle |
| HandleTableSpec.StaleHandleReused | include/handle_table.h:144-163 | the insertion after a removal revives the removed handle, and a stale copy reads the new pointer |
| HandleTableRuns.RunRefinesMap | include/handle_table.h:82-163 | every legal run, with growth and reuse, is a run of a partial map with the same results, and every handle reads as in that map |
| HandleTableRuns.AbsentUntilReturned | include/handle_table.h:144-163 | on the map, a handle outside the domain stays outside until an insertion returns it |
| HandleTableRuns.RemovedReadsNull | include/handle_table.h:144-163 | a removed handle reads NULL in every later state if and only if no prefix of the later calls has more non-NULL insertions than removals in range, and if and only if no insertion returns it |
| HandleTableRuns.NullIffNotRaised | include/handle_table.h:116-163 | the same for any free slot, at any depth of the free stack: its handle reads NULL throughout exactly as long as the calls do not raise it past the top |
| HandleTableRuns.NotReturnedReadsNull | include/handle_table.h:144-163 | any absent handle, never issued ones included, reads NULL after a run in which no insertion returns it |
| HandleTableRuns.IssuesCharacterised | include/handle_table.h:116-163 | which (handle, generation) pairs a run has given out can be read off its final table, both ways |
| HandleTableRuns.GenerationsFresh | include/handle_table.h:116-163 | no two insertions of a run without counter wrap get the same handle and generation |
| HandleTableRuns.WrapRepeatsPair | include/handle_table.h:161 | the wrap condition is needed: after any wrap, the first or a later one, the next insertion repeats a pair of the run |
| HandleTableRuns.CapacityDoubles | include/handle_table.h:118-131 | after any run the capacity is the initial one times a power of two |
| HandleTableRuns.CapacityBoundedByPeak | include/handle_table.h:118-131 | after any run the capacity is the initial one or at most 2 * (peak live - 1) |
| HandleTableRuns.GrowthCopies | include/handle_table.h:118-131 | slots copied by all reallocations of a run are exactly the capacity gained, and bounded by insertions |
| HandleTableRuns.AmortisedGrowth | include/handle_table.h:82-135 | from a new table, growth copies fewer than two slots per insertion |
| HandleTableRuns.HandlesInOrder | include/handle_table.h:82-135 | from a packed table, insertions alone return consecutive handles across growth; NULL insertions return 0 and use none up |
| HandleTableRuns.NthInsertReturnsN | include/handle_table.h:82-135 | in a run without removals the n-th insertion of a non-NULL pointer returns handle n |
| HandleTableClass.HandleTable.constructor | include/handle_table.h:82-90 | the arrays of a new table are those of the initial table value |
| HandleTableClass.HandleTable.Get | include/handle_table.h:144-147 | the array read is map lookup |
| HandleTableClass.HandleTable.GrowBuffers | include/handle_table.h:118-131 | twice the slots, old slots and generations kept, and a free stack of exactly the new slots |
| HandleTableClass.HandleTable.Insert | include/handle_table.h:116-135 | on the arrays: NULL gives 0 and no change; any other pointer gets a handle that was not in use and only that handle's reading changes |
| HandleTableClass.HandleTable.Remove | include/handle_table.h:157-163 | on the arrays: only the given handle disappears, its generation advances, and the push stays inside the free-list buffer |
| GlyphCache.RunHoldsFirstUses | sdk/wasm_font.h:402-453 | after any request sequence a new atlas holds exactly the first 4096 different ids in order of first use |
| GlyphCache.FirstUsesDistinct | sdk/wasm_font.h:402-453 | the reference order lists each requested id once and nothing else |
| GlyphCache.AnswerIsFirstUseRank | sdk/wasm_font.h:402-453 | the answer for an id is its rank of first use, or -1 when 4096 other ids came first |
| GlyphCache.TouchAllKeeps | sdk/wasm_font.h:402-453 | any run of requests only appends to the cached ids, never duplicates one and never exceeds 4096 |
| GlyphCache.RecordsTile | sdk/wasm_font.h:418-433 | records tile the segment buffer in order without gap or overlap, and each slice is the font's outline of that glyph |
| GlyphCache.StoredReply | sdk/wasm_font.h:412-433 | what is stored for a cached glyph is the font's reply for it: its metrics, and its segments one by one at the record's place |
| GlyphCache.BitmapIff | sdk/wasm_font.h:421-424 | the bitmap flag is set exactly for a record without segments and with positive advance, unless the host reported an error |
| GlyphCache.RecordStable | sdk/wasm_font.h:402-453 | no later request moves an index, changes a record or changes stored segments |
| GlyphCache.SegmentsBound | sdk/wasm_font.h:238-246 | the segment total is at most 256 per glyph |
| GlyphCache.ByteSizesFit | sdk/wasm_font.h:224-271 | record and segment byte sizes of any atlas fit a signed 32-bit int |
| GlyphCache.MapBytesFitIff | sdk/wasm_font.h:437-446 | the bytes asked for when the id map grows fit 32 bits exactly for ids below 2^30 - 256 |
| FontAtlasClass.IdMapBijective | sdk/wasm_font.h:436-449 | the id map is injective on cached ids and onto 0..glyph_count |
| FontAtlasClass.FontAtlas.constructor | sdk/wasm_font.h:316-338 | a new atlas is empty and clean, its id map all -1 |
| FontAtlasClass.FontAtlas.GrowGlyphs | sdk/wasm_font.h:356-376 | there is room for one more record, and all records and flags are kept |
| FontAtlasClass.FontAtlas.GrowSegments | sdk/wasm_font.h:384-400 | the buffer fits the new segments, keeps the old ones, and its byte size stays within 32 bits |
| FontAtlasClass.FontAtlas.StoreRecord | sdk/wasm_font.h:416-424 | the new record and bitmap flag are those of the glyph, at the current segment total |
| FontAtlasClass.FontAtlas.StoreSegments | sdk/wasm_font.h:426-433 | the segment buffer gains exactly the glyph's outline |
| FontAtlasClass.FontAtlas.StoreIndex | sdk/wasm_font.h:437-449 | the id map, grown if needed, gains exactly the new glyph |
| FontAtlasClass.FontAtlas.Load | sdk/wasm_font.h:409-453 | first use appends the glyph to every buffer consistently and sets the dirty flag |
| FontAtlasClass.FontAtlas.Get | sdk/wasm_font.h:402-453 | the answer is the id's position in the request order, -1 only when full; all buffers agree with the new order; dirty exactly if something was added |
| FontAtlasClass.FontAtlas.ClearDirty | sdk/wasm_font.h:464-466 | clears the flag and nothing else |
| FontAtlasClass.FontAtlas.IsBitmap | sdk/wasm_font.h:455-458 | true exactly for a cached glyph without segments and with positive advance |
| FontAtlasClass.ExtendMap | sdk/wasm_font.h:437-446 | the larger id map keeps the old entries and is -1 elsewhere |
| RegistrySpec.SendEffect | sdk/font_fallback.h:148-165 | a send leaves the data at the start of the returned buffer, replaces at most that one buffer, and touches no other |
| RegistrySpec.SendKeepsRest | sdk/font_fallback.h:148-165 | a buffer that is not replaced keeps what lies beyond the data sent |
| RegistrySpec.FindHandle | sdk/font_fallback.h:129-134 | the first entry of a handle, or -1 when no entry has it |
| RegistrySpec.DoubleUntilCap | sdk/font_fallback.h:172-173 | doubling the segment buffer never passes 2^20 records |
| RegistrySpec.UploadEntryOk | sdk/font_fallback.h:143-183 | uploading an entry cleans it, mirrors both arrays, never replaces the glyph buffer, and touches only its own buffers |
| RegistrySpec.CreateEntryInv | sdk/font_fallback.h:90-113 | creating an entry keeps the registry invariant and all other buffers |
| RegistrySpec.AtlasGetInv | sdk/font_fallback.h:136-140 | a glyph lookup in any entry, valid index or not, keeps the registry invariant |
| RegistrySpec.UploadAtInv | sdk/font_fallback.h:142-184 | one step of an upload pass keeps the registry invariant and the buffers of other owners |
| RegistrySpec.TwoBuffersPerEntry | sdk/font_fallback.h:90-113 | live buffers are the foreign ones plus exactly two per entry |
| RegistryRuns.StepKeeps | sdk/font_fallback.h:90-184 | every call keeps the invariant, every index, handle and cached glyph, and foreign buffers |
| RegistryRuns.RunKeeps | sdk/font_fallback.h:77-184 | the same over every run of calls |
| RegistryRuns.ReachableMirror | sdk/font_fallback.h:90-184 | in every reachable state a clean entry's GPU buffers begin with exactly its arrays, sizes fit 32 bits, the glyph buffer never grew, and two buffers per entry are live |
| RegistryRuns.UploadPassCleans | sdk/font_fallback.h:142-184 | an upload pass leaves every entry clean and no cached glyph changed |
| RegistryRuns.UploadMirrorsAll | sdk/font_fallback.h:142-184 | after an upload every entry is mirrored on the GPU |
| RegistryRuns.RefersForever | sdk/font_fallback.h:77-140 | a reference to a cached glyph stays good through every later run of calls |
| RegistryRuns.RequestOutcome | sdk/text_shaping.h:117-127 | a request ends in the right font's entry with a good reference, or with -1 because the id is not drawable or the atlas full |
| RegistryRuns.PrimaryEffect | sdk/font_fallback.h:90-127 | creating an entry adds one for its font, empty and clean, and changes no other |
| RegistryRuns.FetchEffect | sdk/font_fallback.h:136-140 | fetching appends the glyph to the one entry unless it is there or 4096 others are; an index out of range changes nothing |
| GpuGlyphs.CleanGlyphOnGpu | sdk/font_fallback.h:142-184 | in a clean entry the GPU record at a glyph's atlas index is the font's reply, and its range of the segment buffer exactly its segments |
| GpuGlyphs.ReachableGlyphOnGpu | sdk/font_fallback.h:77-184 | the same in every reachable state |
| GpuGlyphs.HoldsWhatWasAsked | sdk/font_fallback.h:129-140 | after any run of requests, lookups and uploads a font has an entry exactly if it was named, with exactly the first 4096 different drawable ids asked of it, in order |
| GpuGlyphs.LineReady | sdk/text_shaping.h:116-149 | after any later calls and an upload, everything a shaped line refers to is on the GPU; a glyph has no index exactly if it is .notdef, missing, or came after 4096 others |
| RegistryRuns.DestroyUpto | sdk/font_fallback.h:200-207 | the GPU after the first n entries are torn down: exactly their buffers are gone, each destroyed while live |
| RegistryRuns.DestroyReleasesAll | sdk/font_fallback.h:200-212 | teardown destroys each owned buffer once and leaves exactly the foreign ones |
| FontFallbackClass.SendData | sdk/font_fallback.h:148-180 | the doubling loop ends at a capacity that fits, the old buffer is destroyed only after it was outgrown, and the write stays inside |
| FontFallbackClass.FontFallback.constructor | sdk/font_fallback.h:68-75 | a new registry is empty and owns no buffer |
| FontFallbackClass.FontFallback.CreateEntry | sdk/font_fallback.h:77-113 | appends one entry with an empty atlas and two new buffers; existing entries are kept |
| FontFallbackClass.FontFallback.Search | sdk/font_fallback.h:130-132 | the loop finds the first entry of a handle, or none |
| FontFallbackClass.FontFallback.FindOrCreate | sdk/font_fallback.h:129-134 | returns the first entry of the handle, creating it if there is none |
| FontFallbackClass.FontFallback.AtlasGet | sdk/font_fallback.h:136-140 | the atlas lookup changes just that entry; -1 for an index out of range |
| FontFallbackClass.FontFallback.SendAtlas | sdk/font_fallback.h:147-181 | what reaches the GPU is exactly the used part of the atlas arrays, in buffers large enough for it |
| FontFallbackClass.FontFallback.UploadOne | sdk/font_fallback.h:143-183 | a clean entry is left alone; a dirty one is sent, cleaned and keeps handle, atlas object and glyphs |
| FontFallbackClass.FontFallback.UploadDirty | sdk/font_fallback.h:142-184 | the loop reaches the state of an upload pass over all entries, so all are clean and mirrored; atlas objects are kept |
| FontFallbackClass.FontFallback.Destroy | sdk/font_fallback.h:200-212 | all owned buffers are destroyed once, foreign ones kept, the entries dropped |
| LineSpec.TruncatedRun | sdk/text_shaping.h:95-113 | asking each run, empty ones included, only for the room left yields the first 256 glyphs of the whole line |
| LineSpec.FullLineDone | sdk/text_shaping.h:95 | stopping once the line is full loses none of its first 256 glyphs |
| LineSpec.RunTextAt | sdk/text_shaping.h:101-111 | the text of a run is the codepoints at its own place in the line |
| LineSpec.LineGlyphAt | sdk/text_shaping.h:76-113 | the j-th glyph of run r is the shaper's j-th for the codepoints at the run's own place, in its direction, after all glyphs of the runs before; 256 glyphs or all there are |
| LineSpec.LineShowsItsText | sdk/text_shaping.h:104-147 | if the shaper picks glyphs by codepoint, every output glyph is that of the codepoint at its own cluster |
| LineSpec.PenMoves | sdk/text_shaping.h:140-150 | the first glyph is at its own offset, each further one the advance of the one before further on |
| LineSpec.ClustersValid | sdk/text_shaping.h:145 | every cluster of the shaped runs is an index into the text and lies in one of the runs |
| LineSpec.LineClustersValid | sdk/text_shaping.h:145 | every cluster of the output line is an index into the input and lies in a run of the line |
| LineSpec.GlyphHoldsLater | sdk/text_shaping.h:116-149 | registry growth never invalidates an output glyph |
| LineSpec.LineHoldsForever | sdk/text_shaping.h:67-153 | a shaped line stays valid, glyph by glyph, through every later run of registry calls |
| LineClass.Lookup | sdk/text_shaping.h:117-138 | entry, atlas index and bitmap flag of one shaped glyph |
| LineClass.Emit | sdk/text_shaping.h:115-150 | one output glyph with position, cluster and references, all earlier ones still valid |
| LineClass.EmitRun | sdk/text_shaping.h:114-151 | the run's glyphs are emitted in order from the current cursor, every earlier glyph stays valid, and the cursor advances by their sum |
| LineClass.ShapeRun | sdk/text_shaping.h:96-151 | one run, cut to the room left, is appended to the line; an empty run adds nothing |
| LineClass.ShapeRuns | sdk/text_shaping.h:92-152 | the runs in order, until the line is full, give exactly the first 256 of all their glyphs |
| LineClass.ShapeLine | sdk/text_shaping.h:67-153 | the line is exactly the first 256 glyphs of its visual runs, each placed at the fold of all earlier advances plus its offset, with the entry of its own font and an index to exactly its glyph; the width is the fold of all; the registry served one request per glyph |
| HostShaping.WriteGroup | src/text_bindings.c:413-434 | a font group's glyphs are appended, converted, as far as they fit |
| HostShaping.ShapeInto | src/text_bindings.c:344-442 | whatever the room, the caller gets the first glyphs of the full shaping of the run; nothing without an active font or with arguments out of range |
| HostShaping.ClustersInRun | src/text_bindings.c:421-425 | every reported cluster is an index into the run |
| HostGlyphs.GlyphOfGroup | src/text_bindings.c:380-434 | each glyph is the j-th of a longest stretch served by one font, lengths scaled by size over units per em, cluster moved by the start of the stretch, font the handle of its font |
| HostGlyphs.FontOfCluster | src/text_bindings.c:344-434 | a glyph's font is that of the codepoint at its cluster; no glyphs without an active font or for texts that are too long |
| HostGlyphs.OneGlyphEach | src/text_bindings.c:380-434 | if HarfBuzz maps codepoints one to one, so does the run across all its fonts: none lost, repeated or moved |
| HostBidi.ToUtf16 | src/text_bindings.c:135-153 | the buffer is the UTF-16 encoding and the table gives each codepoint's first unit |
| HostBidi.InvertTable | src/text_bindings.c:155-162 | every code unit is mapped to the codepoint it belongs to |
| HostBidi.TableRoundTrip | src/text_bindings.c:135-162 | the two tables are inverse: a codepoint's first unit leads back to it |
| HostBidi.MapRunExact | src/text_bindings.c:501-509 | a codepoint is in the mapped run exactly when its units are in the original one; the direction is that of the original |
| HostBidi.OnlyRunIff | src/text_bindings.c:501-505 | a codepoint is in exactly one mapped run, the k-th, if and only if its first unit is in exactly the k-th run |
| HostBidi.PartitionKept | src/text_bindings.c:501-505 | runs that partition the code units partition the codepoints |
| HostBidi.BidiRuns | src/text_bindings.c:458-525 | the reported runs are the first runs of the analysis, in codepoints |
| HostBidi.EncodeFaithfulIff | src/text_bindings.c:135-153 | the analysed text is the given one, values beyond Unicode replaced, if and only if no high surrogate value is followed by a low one |
| HostContract.HostMeetsContract | src/text_bindings.c:344-525 | the host's loops satisfy everything line shaping asks of its text host |
| HostContract.RunsForLine | src/text_bindings.c:458-525 | asked for 32 runs, the loops report exactly the runs the contract gives a line |
| HostContract.GlyphsForLine | src/text_bindings.c:344-442 | asked for the room left in a line, the loops report exactly the glyphs the contract gives it |
| HostContract.ReachedIff | sdk/text_shaping.h:76-91 | a codepoint is in a run of the line if and only if the analysis found no run, or it is among the first 4096 and its units are in one of the first 32 runs |
| HostContract.ReachedByRank | sdk/text_shaping.h:76-91 | an analysed codepoint in run k alone is shaped exactly if k is below 32 |
| BitmapSpec.FindKey | sdk/font_bitmap_atlas.h:130-139 | the first entry with the key, or -1 when there is none |
| BitmapSpec.ServeAllKeeps | sdk/font_bitmap_atlas.h:141-196 | over every run keys stay unique, entries keep their index, and only delivered bitmaps are stored |
| BitmapSpec.LoadsAreLogged | sdk/font_bitmap_atlas.h:190-196 | every request whose rasterisation succeeds ends up with an entry for its key |
| BitmapSpec.LoggedAreFirst | sdk/font_bitmap_atlas.h:190-196 | every entry comes from the first successful request of its key |
| BitmapSpec.EntriesTile | sdk/font_bitmap_atlas.h:158-186 | entries tile the pixel buffer and each slice is what the rasteriser returned for that entry |
| BitmapSpec.RepeatedRequest | sdk/font_bitmap_atlas.h:190-196 | a repeated request returns the same entry and changes nothing, whatever came in between |
| BitmapSpec.AnswerIsFirstDelivery | sdk/font_bitmap_atlas.h:130-196 | an answered request gets the entry of the first delivering request of its key, and its own handle exactly if that request used it |
| BitmapSpec.AnswerIsAsAsked | sdk/font_bitmap_atlas.h:141-196 | an answered request gets an entry of the font index, glyph and size it asked for, with the metrics and exactly the pixels that the rasteriser returned for them; of its own handle if the earlier deliveries agree |
| BitmapSpec.AnsweredIff | sdk/font_bitmap_atlas.h:141-196 | a request is answered exactly if it or an earlier one for the same font index, glyph and size got a bitmap with pixels |
| BitmapSpec.SharedIff | sdk/font_bitmap_atlas.h:130-139 | two answered requests share an entry exactly if font index, glyph and size agree |
| BitmapSpec.OwnHandleIff | sdk/font_bitmap_atlas.h:130-196 | every request of a run is answered with its own handle's entry if and only if no earlier delivering request with its key used another handle |
| BitmapSpec.OneHandlePerIndex | sdk/font_bitmap_atlas.h:130-139 | with one handle per font index every request is answered with its own handle's entry |
| BitmapSpec.OtherHandleServed | sdk/font_bitmap_atlas.h:130-196 | once a request has loaded, a later one with its key under another handle is served the first one's entry and pixels, whatever came before and in between |
| BitmapUpload.StepMirrorsIffSafe | sdk/font_bitmap_atlas.h:198-204 | one call keeps the GPU mirror if and only if it is safe |
| BitmapUpload.RunMirroredIffSafe | sdk/font_bitmap_atlas.h:141-204 | clean implies mirrored in every state of a run if and only if every clearing upload fits and buffers are attached only while an upload is due |
| BitmapUpload.UploadLost | sdk/font_bitmap_atlas.h:198-204 | on a new atlas, for every bitmap and every buffer too small for it, the upload clears the flag and writes nothing |
| BitmapAtlasClass.BitmapAtlas.constructor | sdk/font_bitmap_atlas.h:107-119 | a new atlas is empty, clean and without a GPU buffer |
| BitmapAtlasClass.BitmapAtlas.Find | sdk/font_bitmap_atlas.h:130-139 | the loop finds the first entry with the key, or none |
| BitmapAtlasClass.BitmapAtlas.StorePixels | sdk/font_bitmap_atlas.h:158-166 | the pixel buffer, doubled until it fits, gains exactly the bitmap |
| BitmapAtlasClass.BitmapAtlas.StoreEntry | sdk/font_bitmap_atlas.h:168-184 | the entry array, doubled if full, gains exactly the new entry, within 32-bit byte sizes |
| BitmapAtlasClass.BitmapAtlas.Load | sdk/font_bitmap_atlas.h:141-188 | a successful load appends one entry and its pixels; a failed one returns -1 and changes no entry or pixel |
| BitmapAtlasClass.BitmapAtlas.Get | sdk/font_bitmap_atlas.h:190-196 | returns the entry of the font index, glyph and size asked for, loading it on first use |
| BitmapAtlasClass.BitmapAtlas.Attach | sdk/font_bitmap_atlas.h:102-103 | the caller's new buffer replaces the old one with a size it has room for, and nothing else changes |
| BitmapAtlasClass.BitmapAtlas.Upload | sdk/font_bitmap_atlas.h:198-204 | writes the used pixels when dirty, attached and fitting; clears the flag even when they do not fit |
| SurfaceSizing.OverallocDim | sdk/wasm_surface.c:81-85 | the over-allocated size is the integer nearest to 1.15 times the size, or the next larger one where that is no increase |
| SurfaceSizing.Resized | sdk/wasm_surface.c:681-730 | the logical size is as asked and fits the allocation, for every resize of a fitting surface |
| SurfaceSizing.KeepsAllocationIff | sdk/wasm_surface.c:697-725 | the allocated size stays exactly if the size is the same or fits without being below 30% both ways; otherwise it is over-allocated anew |
| SurfaceSizing.GivesBack | sdk/wasm_surface.c:703-706 | after a change to any size but the empty one the textures are not too large by the 30% rule |
| SurfaceSizing.GrowthFrom | sdk/wasm_surface.c:681-730 | from an over-allocated surface, k reallocations of a growing run need 1.15^k times the area, and the shrink branch is never taken |
| SurfaceSizing.AmortisedResize | sdk/wasm_surface.c:681-733 | from a created surface, k >= 1 reallocations of a growing run need 1.15^(k-1) times the created area, and the shrink branch is never taken |
| BlitGeometry.ClipAxisIntersects | sdk/wasm_surface.c:1021-1024 | clipping an axis is exactly intersection with the destination, for every point |
| BlitGeometry.GetDstRect | sdk/wasm_surface.c:1010-1025 | the clipped rectangle is exactly the target intersected with the destination, and lies inside both when not empty |
| BlitGeometry.ClippedInside | sdk/wasm_surface.c:1021-1024 | what is left after clipping lies inside every allocation at least as large as the destination |
| BlitGeometry.CorrectionPreservesSampling | sdk/wasm_surface.c:1207-1218 | at every position the clipped rectangle with the corrected window samples the coordinate of the unclipped blit |
| BlitGeometry.WindowMapsOnto | sdk/wasm_surface.c:992-1002 | the source window, stretched over the target, maps every position to the texel as far into the source rectangle, or the whole source, as it is into the target |
| BlitGeometry.SourceWindowInUnit | sdk/wasm_surface.c:992-1002 | an absent or contained source rectangle gives a window inside the texture |
| BlitGeometry.CorrectedInUnit | sdk/wasm_surface.c:1207-1218 | correction for clipping keeps the window inside the texture |
| BlitGeometry.BlitWindowInUnit | sdk/wasm_surface.c:986-1025 | the window of a whole blit lies in [0,1] for every target rectangle |
| BlitPixels.PingPongIsInPlace | sdk/wasm_surface.c:1087-1158 | clear, draw to the second texture and copy back equals blending in place, whatever the second texture held; the copied region lies inside both |
| BlitPixels.BlendedIsDraw | sdk/wasm_surface.c:1065-1076 | a texture is the quad drawn in place if and only if its covered pixels are combined with the source, all others kept, and its extent is the same |
| BlitPixels.ClippedDrawIsReference | sdk/wasm_surface.c:1196-1220 | drawing the clipped rectangle with the corrected window is the reference blit, pixel by pixel |
| BlitPixels.FragmentIsTexel | sdk/wasm_surface.c:986-1002 | between rectangles of one size a pixel's fragment is the texel at the same place in the source rectangle |
| BlitClass.BlitTexelByTexel | sdk/wasm_surface.c:1164-1229 | between rectangles of one size every covered pixel is the blend of its own texel and itself, by the fixed-function stage for modes 0, 1, 2 and 31, by the shader otherwise; all others stay |
| BlitClass.BlitHardware | sdk/wasm_surface.c:1031-1081 | each covered pixel is combined with the source at its coordinate, every other pixel is kept, the extent is the same; viewport and scissor meet the bound the device demands |
| BlitClass.BlitShader | sdk/wasm_surface.c:1087-1158 | pixel by pixel the same as the fixed-function path, whatever the second texture held; viewport, scissor and copy region meet the bound the device demands |
| BlitClass.Blit | sdk/wasm_surface.c:1164-1229 | in every mode and for every pair of rectangles the destination becomes the reference blit; refused blits change nothing |
| CompositorSpec.Conservation | sdk/wasm_surface.c:607-733 | three live textures and views per live surface; encoders created minus submitted is the number of open passes |
| CompositorSpec.ChangeKeepsInv | sdk/wasm_surface.c:607-905 | any change of one surface that swaps just its own objects keeps the ownership invariant of the pool |
| CompositorSpec.CreateSlotChange | sdk/wasm_surface.c:607-657 | creating a surface adds exactly six new objects |
| CompositorSpec.EndPassChange | sdk/wasm_surface.c:886-905 | ending a pass submits exactly the surface's open encoder |
| CompositorSpec.ReleaseTargetsChange | sdk/wasm_surface.c:671-676 | the six objects are released, each once and while live |
| CompositorSpec.DestroySlotChange | sdk/wasm_surface.c:659-679 | destroying ends an open pass and releases exactly the surface's objects |
| CompositorSpec.ResizeSlotChange | sdk/wasm_surface.c:681-733 | a resize follows the size policy and swaps objects only when it reallocates |
| CompositorSpec.BeginPassChange | sdk/wasm_surface.c:755-880 | beginning opens exactly one encoder, or nothing when a pass is open |
| CompositorSpec.OneShotChange | sdk/wasm_surface.c:739-749 | clear, blit and present submit every encoder they open |
| CompositorRuns.FirstFree | sdk/wasm_surface.c:48-60 | the lowest unused pool slot, or none when all are used |
| CompositorRuns.NewSurfaceInv | sdk/wasm_surface.c:607-657 | a new surface takes a free slot with the given size; an exhausted pool changes nothing |
| CompositorRuns.DestroySurfaceInv | sdk/wasm_surface.c:659-679 | destroying frees exactly that slot and keeps the ownership invariant |
| CompositorRuns.AcquireInv | sdk/wasm_surface.c:1395-1423 | acquiring grants a live surface that nobody else has, of the size asked for and a sufficient allocation, or NULL |
| CompositorRuns.ReplaceFails | sdk/wasm_surface.c:1412-1419 | replacing a scratch entry fails exactly when it was empty and the pool is exhausted |
| CompositorRuns.ReleaseInv | sdk/wasm_surface.c:1425-1436 | a released pooled surface stays live for reuse, an overflow surface is destroyed |
| CompositorRuns.DestroyHeldIff | sdk/wasm_surface.c:659-679 | destroying an acquired surface directly is sound if and only if it is not pooled |
| CompositorRuns.AcquireLeaksIff | sdk/wasm_surface.c:1412-1419 | an entry leaks if and only if nothing fits, the first idle entry is empty and the pool is exhausted |
| CompositorRuns.LeakIsForever | sdk/wasm_surface.c:1395-1436 | a leaked entry stays leaked through every later run |
| CompositorRuns.LeakFromStart | sdk/wasm_surface.c:1395-1423 | from start-up, after any 512 creations, the first acquisition of any size returns NULL and loses entry 0 |
| ScratchPasses.AcquireOpenPassIff | sdk/wasm_surface.c:1395-1423 | acquiring gets a surface with an open pass if and only if the entry it reuses has one |
| ScratchPasses.BeginOnOpenPass | sdk/wasm_surface.c:755-880 | beginning on a surface with an open pass changes nothing, depth mode included |
| ScratchPasses.ReleaseIdleIff | sdk/wasm_surface.c:1425-1436 | a release leaves the idle surfaces closed if and only if its own surface is not pooled in the middle of a pass |
| ScratchPasses.StepClosedIff | sdk/wasm_surface.c:607-1436 | of all calls only such a release leaves an open pass in the pool |
| ScratchPasses.IdleClosedMeans | sdk/wasm_surface.c:1395-1410 | an open pass waits in the pool if and only if one of the next eight smallest acquisitions gets it |
| ScratchPasses.NeverLendsOpenIff | sdk/wasm_surface.c:607-1436 | acquiring can nowhere in a run get an open pass if and only if the run never releases a pooled surface mid-pass |
| ScratchPasses.NoOpenPassLent | sdk/wasm_surface.c:1395-1436 | after such a run from start-up no acquisition of any size gets an open pass |
| ScratchPasses.ReleaseMidPassLends | sdk/wasm_surface.c:1395-1436 | in every state with the invariant, beginning a pass on a held pooled surface and releasing it lets a later acquisition get the open pass |
| ScratchPasses.OpenPassFromStart | sdk/wasm_surface.c:1395-1436 | from start-up, acquire, begin and release lead there, for every size |
| CompositorRuns.StepInv | sdk/wasm_surface.c:607-1436 | each of the eleven calls keeps object ownership, sizes within allocations, and who holds which surface |
| CompositorRuns.RunInv | sdk/wasm_surface.c:607-1436 | the same over every run of legal calls |
| CompositorRuns.StartInv | sdk/wasm_surface.c:45-46 | the zeroed globals satisfy the invariant |
| CompositorRuns.RunConserves | sdk/wasm_surface.c:607-1436 | from start-up, every run conserves textures, views and encoders, keeps every surface inside its allocation and every held surface live |
| CompositorRuns.BlitInside | sdk/wasm_surface.c:986-1025 | between surfaces that fit their allocations, the drawn region lies in the destination's allocation and the sampled window in the source texture, if the source rectangle is absent or inside the source |
| CompositorRuns.ReachableBlitInside | sdk/wasm_surface.c:607-1436 | in every reachable state, every blit that goes ahead draws inside its destination's allocation and samples inside its source |
| CompositorRuns.DrawCallMaps | sdk/wasm_surface.c:1196-1220 | a blit's draw call, clipped or not, stretches the source rectangle over the rectangle asked for |
| CompositorEffects.CreateEffect | sdk/wasm_surface.c:607-630 | creating yields one surface of exactly the width and height asked for, logical and allocated, in a slot that was free; or nothing, exactly when none is free |
| CompositorEffects.BindEffect | sdk/wasm_surface.c:632-657 | the swapchain surface has the reported size, over-allocated |
| CompositorEffects.DestroyEffect | sdk/wasm_surface.c:659-679 | exactly that slot becomes free |
| CompositorEffects.ResizeEffect | sdk/wasm_surface.c:681-733 | nothing for the present size; otherwise the pass ends, the size is as asked, and the textures are kept exactly if it fits without being below 30% both ways; new ones are new |
| CompositorEffects.BeginEffect | sdk/wasm_surface.c:755-880 | opens the pass in the mode asked for with one new encoder, or nothing if a pass is open |
| CompositorEffects.EndEffect | sdk/wasm_surface.c:886-905 | submits the surface's own encoder, or nothing without a pass |
| CompositorEffects.ClearEffect | sdk/wasm_surface.c:739-749 | one encoder opened and submitted outside a pass, nothing inside one |
| CompositorEffects.PresentEffect | sdk/wasm_surface.c:1235-1295 | nothing but for the swapchain; there the open pass is submitted, and one more encoder if the host has a view |
| CompositorEffects.BlitEffect | sdk/wasm_surface.c:1171-1202 | draws with one encoder exactly if both surfaces are there, distinct and outside a pass, the mode is one of the 32, and some pixel of the rectangle lies in the destination; otherwise nothing |
| CompositorEffects.AcquireReuses | sdk/wasm_surface.c:1401-1410 | whenever an idle scratch surface is large enough one is lent as it is, with only its logical size changed and no GPU object made or destroyed |
| CompositorEffects.AcquireFailsIff | sdk/wasm_surface.c:1395-1423 | NULL exactly if nothing fits, all 512 slots are used and no idle scratch surface can make way |
| CompositorEffects.AcquireNewSize | sdk/wasm_surface.c:1395-1423 | the size lent is the one asked for, 0 counting as 1, and a new surface is allocated without slack |
| CompositorEffects.ReleaseEffect | sdk/wasm_surface.c:1425-1436 | a pooled surface stays as it is and becomes idle, an overflow surface is destroyed, no other is touched |
| SurfaceExtents.ReachableExtents | sdk/wasm_surface.c:192-250 | in every reachable state the three textures of every surface are live and were made with exactly its allocated size |
| CompositorClass.GpuHost.MakeTargets | sdk/wasm_surface.c:192-250 | three texture and view pairs of the size asked for, all new |
| CompositorClass.GpuHost.DropTargets | sdk/wasm_surface.c:671-676 | releases the six objects in the source's order |
| CompositorClass.Compositor.constructor | sdk/wasm_surface.c:45-46 | the zeroed globals are the start state |
| CompositorClass.Compositor.FindFree | sdk/wasm_surface.c:48-60 | the loop finds the lowest unused slot, or none |
| CompositorClass.Compositor.Make | sdk/wasm_surface.c:607-657 | the lowest free slot becomes live with six new objects; an exhausted pool changes nothing and gives NULL |
| CompositorClass.Compositor.FinishPass | sdk/wasm_surface.c:886-905 | an open pass is submitted and closed, a closed one left alone; no other surface changes |
| CompositorClass.Compositor.DestroyAt | sdk/wasm_surface.c:659-679 | the slot becomes free, its pass is submitted, its six objects released, and object ownership still balances |
| CompositorClass.Compositor.Create | sdk/wasm_surface.c:607-630 | a surface of exactly the given width and height, logical and allocated, owned by the caller, or NULL with nothing changed, exactly when no slot is free |
| CompositorClass.Compositor.BindSwapchain | sdk/wasm_surface.c:632-657 | the swapchain surface is over-allocated for the reported size |
| CompositorClass.Compositor.Destroy | sdk/wasm_surface.c:659-679 | NULL is a no-op; otherwise exactly that surface goes, with every invariant kept |
| CompositorClass.Compositor.Resize | sdk/wasm_surface.c:681-733 | NULL is a no-op; otherwise the surface has the new size inside its allocation, with every invariant kept |
| CompositorClass.Compositor.ResizeAt | sdk/wasm_surface.c:681-733 | same size changes nothing; otherwise the pass ends, the size is as asked, and the textures are kept exactly if it fits without being below 30% both ways |
| CompositorClass.Compositor.Begin | sdk/wasm_surface.c:755-880 | opens exactly one encoder unless a pass is open, in which case mode and encoder stay |
| CompositorClass.Compositor.End | sdk/wasm_surface.c:886-905 | submits exactly the surface's encoder if a pass is open; otherwise nothing |
| CompositorClass.Compositor.ClearSurface | sdk/wasm_surface.c:739-749 | refused during a pass, otherwise one encoder opened and submitted |
| CompositorClass.Compositor.Present | sdk/wasm_surface.c:1235-1295 | only for the swapchain; ends an open pass; one encoder when the host yields a view |
| CompositorClass.Compositor.Blit | sdk/wasm_surface.c:1164-1229 | draws once, with one encoder, exactly when the blit is neither refused nor clipped away; the region is the clipped rectangle inside the destination's allocation and the window lies in the source texture for an absent or contained source rectangle |
| CompositorClass.Compositor.FindFit | sdk/wasm_surface.c:1401-1410 | the first idle scratch entry that is large enough, or none |
| CompositorClass.Compositor.FindIdle | sdk/wasm_surface.c:1413-1414 | the first idle scratch entry, or none |
| CompositorClass.Compositor.AcquireScratch | sdk/wasm_surface.c:1395-1423 | the surface returned is live, large enough and lent to nobody else; the pool stays consistent even when creation fails |
| CompositorClass.Compositor.ReleaseScratch | sdk/wasm_surface.c:1425-1436 | a pooled surface becomes idle, an overflow surface is destroyed, NULL is a no-op; every invariant kept |

## Left out

- Crypto, networking, the group registrar, the client, DuckDB, media, SDL and the dashboard: separate subsystems with their own state.
- Shaders, pipelines, bind groups, samplers and the occluder (`sdk/wasm_surface.c:192-601`, `911-980`): descriptor filling; bind groups are never released there.
- `fallback_set_primary` metrics and `fallback_measure_codepoint`: a copy of four numbers, and one request followed by a default; the registry effect is `CreateEntry` and `RequestGlyph`.
- `font_atlas_destroy`, `htable_destroy`, `bitmap_atlas_destroy` and the lazily allocated scratch buffers: heap memory is not modelled beyond capacities.
- FontFallback: the 32-bit byte size of the entry array itself is not modelled; it would matter from 48 million fonts on.
- Floating-point rounding: positions, texture coordinates and the over-allocation factor are exact.
- Present and its swapchain view: the view is acquired and released inside the call and is not owned by any surface.
- HarfBuzz, ICU, FreeType and font resolution on the host: function-valued parameters.
- `levels` of `text_bidi`: written but not read by `shape_line`.
