# Verified model of the tile pipeline

Dafny models and proofs of the part of the document server that renders tiles and keeps remote
clients up to date: the delta codec with its vector encoder and its cache, the browser code that
decodes keyframes and deltas, the hash of tile contents, the work pool and the batch rendering
around them, and four small algorithms used nearby. `dafny verify dfyconfig.toml` checks all of it.

## How it is built

- **Codec.** `Pixels`, `RowCodec`, `BitmapRow`, `DeltaSimd` and `Buffer` hold pixels, the run-length
  row format, both encoders and the row iterator. A word that only serves as a set of bits is
  modelled by its 64 bits, and the bit that walks over it by its index. `RowDiff` and `DeltaMaker`
  are the delta compiler; `DeltaFormat` is its instruction set: bytes, parser and meaning.
- **Client.** `ClientKeyframe` and `ClientDelta` are the browser's reader. The delta generator and
  this reader are connected by round trips and by running programs on images.
- **Cache.** `Tiles` and `DeltaGenerator` are the classes; `CacheProtocol` states what each call may
  do on values, and proves that the client stays in step over every run. `ConcurrentCache` cuts the
  calls of one batch into steps of several threads; `Duplicates` shows what goes wrong when a batch
  has two tiles at one place.
- **Rendering.** `ThreadPool` is the work pool as a state machine over its critical sections;
  `Rectangle`, `TileGeometry` and `RenderTiles` place the tiles, run the jobs one at a time and
  cut the output. `ConcurrentRender` runs them interleaved, with the output they share, up to the
  client that reads the messages; `BrowserScreen` is that client, with its own names for tiles.
- **Others.** `Spooky` is the streaming hash, for every choice of its mixing functions;
  `Levenshtein`, `JsonEscape`, `StreamSearch` and `Tokenizer` are what their names say.

Some predicates are wrapped in a few empty steps of recursion, and a lemma `Open...` beside each says
what it is equivalent to; the wrapping has no meaning of its own. Most are used inside proofs only, but
`Encodes`, `At`, `SameBetween`, `Collected` and `IsWhole` also stand in contracts, among them those of
`Identical`, `Next`, `SkipSame`, `RowRuns`, `CollectDiff` and `RendersStayInStep`. They say that a row holds
the encoding of given pixels, that the iterator stands on pixel n, that two rows agree on a range, that a run
is a piece of a row, and that a call of `doRender` meets `Renders`.

## Where the code does not do what one might expect

- A row wider than 256 pixels is stored whole but the iterator does not read all of it back
  (`RowCodec.IteratorReadsRowIff` says exactly when it does). `createDelta` refuses such tiles.
- `run` with exactly one worker relies on `_cond` having no spurious wakes, which the standard
  allows (`ThreadPools.SafeIff`, `ThreadPools.LoneWorkerFails`).
- The `Rectangle` constructor drops an addition that overflows; a tile on the grid whose far end
  overflows then lies outside the pixmap (`TileGeometry.TilesFitIff`, `TileGeometry.FarTileDoesNotFit`).
- `escapeJSONValue` leaves control characters without a short escape as they are, so that the text
  is no JSON string (`JsonEscape.RoundTripIff`).
- `tokenize` returns nothing for a string that starts with NUL, so that joining tokens and cutting
  again can lose them all (`Tokenizer.RetokenizeIff`, `Tokenizer.RetokenizeLoses`).
- An empty batch leaves `doRender` with an inside-out rectangle, whose slot counts wrap to almost 2^64
  (`TileGeometry.AreaExistsIff`, `TileGeometry.CoverTiles`, `TileGeometry.EmptyBatchSlots`).
- Wire ids are 32-bit numbers that wrap around. "Oldest first" goes by them, so that around the wrap
  the newest entries are evicted (`RenderTiles.WireIdsCountUpIff`, `RenderTiles.WrapDropsNewest`).
- Rendering relies on an assert that no place occurs twice in a batch. Without it a message need not be
  that of the serial order and the client can end with a tile that is not the last one
  (`Duplicates.SerialIffNoDuplicates`, `Duplicates.InStepIffNoDuplicates`).
- The comment on `Mix` in the hash header speaks of 96 bytes; the code takes the short form below 192.

## Model

| member | source | states |
|---|---|---|
| `BitmapRows.InitPixRowCpu` | kit/Delta.hpp:192-241 | The scalar encoder stores exactly the changed pixels of the row and sets exactly the mask bits of the pixels that repeat their left neighbour; a row wider than the mask has its rest stored verbatim. |
| `RowCodec.EncodingIsCanonical` | kit/Delta.hpp:192-241 | For two rows of equal width, mask and stored pixels are the same if and only if the rows are. |
| `RowCodec.IteratorReadsRowIff` | kit/Delta.hpp:88-137 | The iterator shows every pixel of a row if and only if no pixel behind the mask differs from pixel 255. |
| `RowCodec.WideRowIsCut` | kit/Delta.hpp:88-137 | A blank row of 256 pixels with one more that is not blank: the iterator shows the last one as blank. |
| `RowCodec.NextPixel` | kit/Delta.hpp:116-136 | One step of the iterator, early stop at the end of the data included: it never reads past the stored pixels, and it shows the next pixel of the row. |
| `Pixels.SentPixel` | kit/Delta.hpp:523-537 | A pixel is sent as its four bytes in memory, with bytes 0 and 2 exchanged for BGRA. |
| `BitmapRows.PixIterator.Next` | kit/Delta.hpp:116-136 | After n + 1 steps the iterator stands on pixel n + 1, with mask word, bit and data pointer in step. |
| `BitmapRows.PixIterator.GetPixel` | kit/Delta.hpp:108-111 | The k-th pixel read is the k-th pixel of the row, for every row the mask covers. |
| `BitmapRows.DeltaBitmapRow.Identical` | kit/Delta.hpp:294-305 | Two rows of equal width are found identical if and only if their pixels are. |
| `BitmapRows.DeltaBitmapRow.PackForNetwork` | kit/Delta.hpp:159-189 | Size, mask and converted pixels at the front of the buffer; what lies behind them is untouched. |
| `BitmapRows.DeltaBitmapRow.constructor` | kit/Delta.hpp:245-292 | Whichever encoder runs, vector or scalar, the row holds the same encoding of the same pixels. |
| `Buffers.CopyRow` | kit/Delta.hpp:523-537 | The memory copy with the in-place swap of red and blue gives the bytes of the converted pixels and nothing else changes. |
| `DeltaSimd.InitGatherLut` | kit/DeltaSimd.c:39-63 | For each of the 256 masks the table entry lists the clear bits in order and is padded with lane 0. |
| `DeltaSimd.DiffMask` | kit/DeltaSimd.c:86-91 | Bit j of the mask is set if and only if lanes j are equal. |
| `DeltaSimd.LeftNeighbours` | kit/DeltaSimd.c:127-138 | Shift, mask and merge give every lane its left neighbour, lane 0 that of the vector before. |
| `DeltaSimd.KeptLanes` | kit/DeltaSimd.c:140-155 | The lanes whose mask bit is clear are the changed pixels of the chunk, in order. |
| `DeltaSimd.PackedLanes` | kit/DeltaSimd.c:150-152 | Permuting by the table entry of the mask moves exactly the kept lanes to the front. |
| `DeltaSimd.StoreLanes` | kit/DeltaSimd.c:154-173 | The store of eight lanes lies inside the scratch, keeps every pixel kept before and leaves the rest behind it alone. |
| `DeltaSimd.MaskBytesAreMasks` | kit/DeltaSimd.c:147-148 | The 32 mask bytes, read as four little-endian words, are the mask of the row. |
| `DeltaSimd.InitPixRowSimd` | kit/DeltaSimd.c:103-186 | On every row of 256 pixels the vector encoder yields the mask, the length and the pixels of the scalar one. |
| `RowDiff.DiffRowTo` | kit/Delta.hpp:308-359 | The patches of a row are runs of current pixels of at most 254, with equal pixels between them, and their bytes are appended. |
| `RowDiff.SkipSame` | kit/Delta.hpp:317-327 | Both iterators go on together over equal pixels and stop at the first difference or the end of the row. |
| `RowDiff.CollectDiff` | kit/Delta.hpp:329-340 | The collected run is a piece of the current row, at most 254 long and not empty while pixels are left, so that the outer loop advances; it ends exactly where the merging rule says. |
| `RowDiff.RowRunsInside` | kit/Delta.hpp:313-358 | Every run lies inside the row. |
| `RowDiff.RowRunsIncreasing` | kit/Delta.hpp:313-358 | Runs are disjoint and increasing. |
| `RowDiff.RowRunsCover` | kit/Delta.hpp:313-358 | Every differing pixel lies in some run. |
| `RowDiff.RowRunsApply` | kit/Delta.hpp:313-358 | Applied to the old row, the runs give the new row. |
| `RowDiff.RowRunsEnd` | kit/Delta.hpp:329-340 | Every run of a row ends where the merging rule says: after the first three pixels it takes only differing ones, and it stops at an equal one, at 254 or at the end of the row. |
| `DeltaMaker.ProbeUnwrapped` | kit/Delta.hpp:579-598 | The wrap-around of `match - y` in size_t and the addition in the next hunt cancel out. |
| `DeltaMaker.ProbesVisit` | kit/Delta.hpp:577-579 | The probes of one hunt visit every row of the previous tile. |
| `DeltaMaker.HuntRow` | kit/Delta.hpp:575-611 | A match is found if and only if some previous row equals the current one, and it is the first such row from the offset of the last copy on, going round the tile. |
| `DeltaMaker.GrowCopy` | kit/Delta.hpp:583-596 | The last copy is extended in place: its bytes parse as one row more, still in one byte and inside the previous tile. |
| `DeltaMaker.OpsOkInBounds` | kit/Delta.hpp:583-603 | Every source row, target row and run of a program lies inside the tile, however often the last copy has grown. |
| `DeltaMaker.DeltaRows` | kit/Delta.hpp:566-614 | The program turns the previous tile into the current one down to the last row, each copy names equal rows, each patched row equals no previous row, and every field fits its byte. |
| `DeltaMaker.ProgressDone` | kit/Delta.hpp:566-624 | Running the program on the previous tile gives exactly the current one, and it is empty if and only if the tiles are equal. |
| `DeltaMaker.MakeDelta` | kit/Delta.hpp:539-652 | Refuses tiles of different size and appends nothing; else appends a correct delta for the two tiles, whose copies are grown as far as the code grows them and found in the order it hunts. |
| `DeltaMaker.EmitCopy` | kit/Delta.hpp:581-607 | The last copy grows when the row follows it in both tiles and the row behind is inside, else a copy of one row is added; so no two consecutive copies could have been one, and each starts at the first match from where the last one was taken. |
| `DeltaFormat.ParseSerialize` | kit/Delta.hpp:626-627 | The stream is unambiguous: whatever the pixels and whatever follows, the bytes parse back to the operations and end at their own terminator. |
| `DeltaFormat.OpWritten` | kit/Delta.hpp:592-600 | A copy is 99, count, source, destination; a run is 100, row, column, number of pixels and their bytes. |
| `DeltaFormat.RunOpsConcat` | browser/src/layer/tile/CanvasTileUtils.ts:176-247 | One program after another does what both do, reading the old tile throughout. |
| `ClientKeyframe.PackedBit` | kit/Delta.hpp:960-969 | The byte-wise mask test of the keyframe reader agrees with the 64-bit one. |
| `ClientKeyframe.PackedRowLayout` | kit/Delta.hpp:159-189 | A packed row byte by byte: the number of stored pixels, low byte first; a bit for each pixel that repeats its left neighbour; the stored pixels. |
| `ClientKeyframe.UnrleReads` | kit/Delta.hpp:951-971 | After x pixels the keyframe reader stands where the row iterator does. |
| `ClientKeyframe.KeyframeRoundTrip` | kit/Delta.hpp:932-974 | Reading the packed rows of a tile gives its converted pixels, and the reader finds the end of the data. |
| `ClientDelta.ApplyDeltaChunk` | browser/src/layer/tile/CanvasTileUtils.ts:155-247 | The client applies exactly the operations of the chunk, copies from the old image, and stops at its terminator. |
| `ClientDelta.UpdateImageFromDeltas` | browser/src/layer/tile/CanvasTileUtils.ts:97-153 | Chunk by chunk the client does what the whole stream of deltas says. |
| `ClientDelta.UnrleOneRow` | browser/src/layer/tile/CanvasTileUtils.ts:53-92 | The row reader writes the pixels of the packed row and nothing else, and goes on behind the row. |
| `ClientDelta.UnrleKeyframe` | browser/src/layer/tile/CanvasTileUtils.ts:44-95 | The reader writes the pixels of the keyframe from the given offset on and nothing else, and returns where the keyframe ends. |
| `ClientDelta.ChainShowsLast` | browser/src/layer/tile/CanvasTileUtils.ts:97-153 | Concatenated deltas split at the right terminators: a chain of them leads from the first tile to the last. |
| `ClientDelta.DecodeTile` | browser/src/layer/tile/CanvasTileUtils.ts:97-153 | A keyframe followed by any chain of deltas is decoded to the last tile of the chain. |
| `Tiles.DeltaData.constructor` | kit/Delta.hpp:368-392 | Cuts the sub-rectangle row by row out of the pixmap; every row read lies inside it. |
| `Tiles.SubRowsAt` | kit/Delta.hpp:387-391 | Pixel x of row y of the tile is the pixel of the pixmap at (startY + y) * bufferWidth + startX + x. |
| `Tiles.WholePixmap` | kit/Delta.hpp:387-391 | The rows of a tile as large as the pixmap are the pixmap, row after row. |
| `Tiles.DeltaData.ReplaceAndFree` | kit/Delta.hpp:443-458 | Takes over wire id, size and rows of the replacement and keeps the location. |
| `DeltaGenerator.SortByWid` | kit/Delta.hpp:509-517 | All locations, each once, oldest first. |
| `DeltaGenerator.DroppedAreOldest` | kit/Delta.hpp:509-519 | Erasing the front of the sorted entries drops that many and none that is newer than one kept. |
| `DeltaGenerator.DeltaGenerator.RebalanceDeltasT` | kit/Delta.hpp:501-521 | Nothing is dropped while the cache fits; else the oldest go until three quarters of the limit are left, or nothing when all is dropped. |
| `DeltaGenerator.DeltaGenerator.RebalanceDeltas` | kit/Delta.hpp:661-667 | Takes over a positive limit only; afterwards at most the limit are left, and nothing is dropped if and only if they fitted. |
| `DeltaGenerator.DeltaGenerator.SetSessionCount` | kit/Delta.hpp:670-673 | The limit is 96 for no session and 96 for each of up to (2^63 - 1) / 96 sessions; nothing is dropped if and only if the cache has no more entries than that. |
| `DeltaGenerator.DeltaGenerator.DropCache` | kit/Delta.hpp:675-679 | Leaves no entry. |
| `DeltaGenerator.DeltaGenerator.UpdateEntry` | kit/Delta.hpp:738-761 | The entry is brought up to date in place; a delta against what it held is made unless a keyframe is forced or the size differs. |
| `DeltaGenerator.DeltaGenerator.CreateDelta` | kit/Delta.hpp:702-764 | Odd widths and tiles over 256 pixels are refused without a trace; else the tile is in the cache afterwards and a delta is appended exactly when the location was cached with the same size and no keyframe is forced. |
| `DeltaGenerator.DeltaGenerator.CompressOrDelta` | kit/Delta.hpp:770-906 | Appends one message and does one step of the protocol: delta against the cached tile, or keyframe. |
| `CacheProtocol.EvictionBounds` | kit/Delta.hpp:501-521 | After a rebalance at most the limit remain; if anything was dropped, exactly three quarters of it, rounded down, and nothing kept is older than anything dropped. |
| `CacheProtocol.ClientStaysInStep` | kit/Delta.hpp:661-906 | Over every run of compress, rebalance, session count and drop calls, after every message, the client shows exactly the last tile of every location. |
| `CacheProtocol.DeltasAreRelative` | kit/Delta.hpp:726-763 | Every delta of a run is relative to the tile the client shows at that moment. |
| `CacheProtocol.UnchangedTileIsFree` | kit/Delta.hpp:616-624 | A delta is the single byte `D` if and only if the tile has not changed. |
| `CacheProtocol.MessageCodes` | kit/Delta.hpp:820-906 | A delta starts with byte 68 and goes on with 99 or 100 up to a last byte 116; a keyframe starts with 90. |
| `ConcurrentCache.AssertsHold` | kit/Delta.hpp:460-470 | In no state of a batch without duplicates does a step trip the asserts of `use`, `unuse` or `replaceAndFree`. |
| `ConcurrentCache.StepKeepsSim` | kit/Delta.hpp:726-763 | Every step of every job, and every eviction between them, keeps the correspondence with the serial order of the lookups. |
| `ConcurrentCache.BatchIsSerial` | kit/Delta.hpp:726-763 | In every interleaving the cache has one entry per location, no assert fires, and each finished job has the message it gets in the serial order. |
| `ConcurrentCache.BatchLeavesCache` | kit/Delta.hpp:726-763 | Once all jobs that were begun are done the cache is that of the serial order and no entry is in use. |
| `ConcurrentCache.SentIsMessage` | kit/Delta.hpp:820-906 | The messages of the serial order are those of the protocol. |
| `ConcurrentCache.BatchShows` | common/RenderTiles.hpp:219-223 | The messages of a batch may arrive in any order, whatever the order of the lookups: the client shows every tile. |
| `ConcurrentCache.RenderedEach` | common/RenderTiles.hpp:219-223 | Each tile of the batch is what its location shows, whichever message comes after. |
| `ConcurrentCache.BatchKeepsInStep` | common/RenderTiles.hpp:180-229 | A client in step with the cache before a batch is in step with it again once the messages of all jobs that were begun are delivered, in any order. |
| `ConcurrentCache.BatchesStayInStep` | common/RenderTiles.hpp:180-271 | Over every sequence of concurrent batches, with entries dropped between and during them, the client shows exactly the last tile of every location and is in step with the cache. |
| `Duplicates.AssertsIffNoDuplicates` | kit/Delta.hpp:460-470 | For batches of real tiles, the asserts of `use`, `unuse` and `replaceAndFree` hold in every interleaving if and only if no location occurs twice: the second look-up finds the entry in use. |
| `Duplicates.SerialIffNoDuplicates` | common/RenderTiles.hpp:78-80 | For batches of real tiles (accepted, not empty, of one shape, one tile to a location), with the asserts off: messages are always those of the serial order if and only if no location occurs twice; with two jobs for one, the second can make its delta against the tile the first is about to replace. |
| `Duplicates.InStepIffNoDuplicates` | common/RenderTiles.hpp:78-80 | For the same batches: a client that gets all messages, in any order, always stays in step with the cache if and only if no location occurs twice; two deltas against one tile, applied one after the other, swap two rows and swap them back. |
| `Rectangles.Rectangle.constructor` | common/Rectangle.hpp:53-68 | The far ends are the near ones plus the extent, or the near ones when the addition overflows upwards. |
| `Rectangles.Rectangle.Inverse` | common/Rectangle.hpp:43-49 | Inside out; both its extents read as INT_MIN. |
| `Rectangles.Rectangle.Extend` | common/Rectangle.hpp:79-89 | Encloses both rectangles and no side goes further than one of them. |
| `TileGeometry.CoverTiles` | common/RenderTiles.hpp:82-104 | Each tile has its rectangle, and the area is the smallest that encloses all tiles; without a tile it stays inside out, of width INT_MIN. |
| `TileGeometry.AreaExistsIff` | common/RenderTiles.hpp:82-102 | A batch has a smallest area that encloses its tiles if and only if it has a tile. |
| `TileGeometry.EmptyBatchSlots` | common/RenderTiles.hpp:106-107 | For an empty batch the width of the area is INT_MIN, and its quotient by any tile width, converted to size_t, is at least 2^64 - 2^31. |
| `TileGeometry.TilesFit` | common/RenderTiles.hpp:106-112 | When no far end overflows, every tile lies inside the pixmap, aligned or not. |
| `TileGeometry.TilesFitIff` | common/Rectangle.hpp:51-68 | On a grid every tile lies inside the pixmap if and only if no far end overflows: the dropped addition leaves the area too short. |
| `TileGeometry.FarTileDoesNotFit` | common/Rectangle.hpp:51-68 | One tile at the far end of the coordinates does not fit the pixmap made for it. |
| `TileGeometry.TilesDisjoint` | common/RenderTiles.hpp:152-158 | On a grid, tiles at different places share no pixel of the pixmap. |
| `TileGeometry.OffsetsScale` | common/RenderTiles.hpp:152-156 | On a grid, a tile lies as far from the corner of the pixmap, in pixels, as it lies from the corner of the area, in tile units. |
| `RenderTiles.ShownPixel` | common/RenderTiles.hpp:152-203 | Pixel (x, y) of a tile as the client shows it is the painted pixel at that place behind the offsets of the tile, in the byte order of the mode. |
| `RenderTiles.QueueJobs` | common/RenderTiles.hpp:150-181 | Each tile is queued with its offsets, its location, whose size is the width of its rectangle, and the next value of the 32-bit counter of wire ids. |
| `RenderTiles.QueuedLocations` | common/RenderTiles.hpp:196-203 | The jobs of any two batches have one location if and only if position, tile width, part, view and edit mode agree. |
| `RenderTiles.WireIdsCountUpIff` | common/RenderTiles.hpp:58-65 | The wire ids of a batch count up if and only if the 32-bit counter does not wrap around within it. |
| `RenderTiles.WrapDropsNewest` | kit/Delta.hpp:509-519 | Of two entries rendered around the wrap, eviction drops the newer one. |
| `RenderTiles.RenderOutput.PushRendered` | common/RenderTiles.hpp:219-223 | Appends the image and its size together, so that sizes and output stay in line. |
| `RenderTiles.RenderOutput.SendEach` | common/RenderTiles.hpp:255-267 | Message i is the header of tile i and exactly its image; the slices use up the output. |
| `RenderTiles.RenderOutput.SendCombined` | common/RenderTiles.hpp:242-253 | One header for all tiles, then all images. |
| `RenderTiles.SizesFindImages` | common/RenderTiles.hpp:257-267 | For every order of completion the running sum of the sizes finds each image, and the slices partition the output. |
| `RenderTiles.SmallestBatchPaints` | common/RenderTiles.hpp:106-118 | A batch of one tile and its pixmap is a batch to render. |
| `RenderTiles.DoRender` | common/RenderTiles.hpp:67-273 | Every tile of the batch is cut out where it lies and served by one step of the protocol; one message goes out for all images, or one for each, in the order their jobs ended; then the cache is rebalanced. |
| `RenderTiles.BatchKeepsInStep` | common/RenderTiles.hpp:67-273 | A client in step before the batch is in step after each of its jobs and after the rebalancing. |
| `ConcurrentRender.JobsDifferIff` | wsd/TileDesc.hpp:575-597 | Comparing the positions of the tiles is enough: no two of them are equal if and only if no two jobs are for one location of the cache. |
| `ConcurrentRender.RenderSound` | common/RenderTiles.hpp:180-224 | In every interleaving of jobs, pushes and evictions the output is the images one after the other, their sizes are right, no tile is in it twice, and each image is what its job made. |
| `ConcurrentRender.AnnouncedTile` | common/RenderTiles.hpp:219-223 | Each rendered tile is announced with the size of its image and its wire id, counted up from the last batch in 32 bits. |
| `ConcurrentRender.CutOutImages` | wsd/DocumentBroker.cpp:5037-5047 | Behind the header, at the running sum of the sizes, the reader of a message finds each image, in one message for all or one for each. |
| `ConcurrentRender.RenderKeepsInStep` | common/RenderTiles.hpp:180-267 | However the jobs of a batch are interleaved and in whatever order their images come to the output: a client that reads the messages cut from it is shown each tile and is again in step with the cache. |
| `ConcurrentRender.ColdBatchRenders` | common/RenderTiles.hpp:180-228 | Every batch without duplicates, previews among it or not, can be rendered to its end from an empty cache. |
| `ConcurrentRender.RendersByLocation` | common/RenderTiles.hpp:67-273 | Over every sequence of such calls from an empty cache, with entries dropped during and between them, a client that keeps its tiles by cache location shows exactly the last tile of each and is in step with the cache. |
| `BrowserScreen.RendersStayInStep` | common/RenderTiles.hpp:67-273 | The same for a browser that knows a tile by position, width, part, view and edit mode, not by what the server keeps it under: it shows exactly the last tile of every place. |
| `ThreadPools.StepKeepsJobs` | common/ThreadPool.hpp:92-124 | Every step keeps each pushed job exactly once in the queue, in flight or done, begins jobs in the order of pushing, and keeps `_working` the number of threads inside a job. |
| `ThreadPools.StepKeepsInv` | common/ThreadPool.hpp:65-161 | Unless the only worker wakes unnotified, every step keeps the invariant and meets its asserts, but for work pushed to a stopped pool. |
| `ThreadPools.RunsEveryJobOnce` | common/ThreadPool.hpp:126-149 | In every run of every schedule: no job is lost or doubled, the caller waits only with a job in flight or its notification under way, and `run` returns only when all jobs pushed are done. |
| `ThreadPools.AssertsMean` | common/ThreadPool.hpp:68-148 | The asserts in terms of the fields. |
| `ThreadPools.WakesAll` | common/ThreadPool.hpp:101-142 | `run` wakes all waiting workers if there are more than one of them and more than one job, and none else; `stop` wakes them all. |
| `ThreadPools.LoneWorkerFails` | common/ThreadPool.hpp:126-161 | With one worker and a spurious wake, two jobs are enough for `run` to return while a job is in flight. |
| `ThreadPools.LatePushFails` | common/ThreadPool.hpp:92-99 | With any number of workers, work pushed after `stop` trips an assert. |
| `ThreadPools.SafeIff` | common/ThreadPool.hpp:65-161 | No run trips an assert if and only if there is not exactly one worker or `_cond` has no spurious wakes, and no work is pushed after `stop`. |
| `ThreadPools.NeverStuck` | common/ThreadPool.hpp:77-90 | While the caller is in `run` or `stop`, some thread can go on without a spurious wake. |
| `ThreadPools.CallerComesBack` | common/ThreadPool.hpp:126-161 | The number of productive steps before `run` or `stop` returns is bounded, however many spurious wakes come between. |
| `ThreadPools.ProductivesCount` | common/ThreadPool.hpp:126-161 | The productive steps are all steps of threads inside the pool but wakes without a notification. |
| `Spooky.Hash128` | common/SpookyV2.cpp:140-199 | Computes the hash of the whole message: the short form below 192 bytes, else fold, padded last block and final mixing. |
| `Spooky.SeedsFillLanes` | common/SpookyV2.cpp:163-165 | From 192 bytes on the twelve lanes start as first seed, second seed and 0xdeadbeefdeadbeef, in turn. |
| `Spooky.BlocksInOrder` | common/SpookyV2.cpp:167-187 | Every whole block of 96 bytes is mixed in once, in order. |
| `Spooky.LastBlock` | common/SpookyV2.cpp:189-194 | The last block is what is left over, zeros, and in byte 95 how much was left over. |
| `Spooky.ShortForm` | common/SpookyV2.cpp:146-150 | Below 192 bytes the short form is the hash. |
| `Spooky.SpookyHash.constructor` | common/SpookyV2.cpp:204-210 | Stands for the empty message under the two seeds. |
| `Spooky.SpookyHash.Update` | common/SpookyV2.cpp:214-314 | Adds a fragment of any length: afterwards the state stands for the concatenation. |
| `Spooky.SpookyHash.Final` | common/SpookyV2.cpp:318-363 | The hash of all fragments so far equals the one-shot hash; what is written to the stash lies behind the stashed bytes, so the state stands for the same message. |
| `Spooky.HashEach` | common/SpookyV2.h:95-104 | However a message is cut, and although a hash is asked for after every fragment, every hash is that of the concatenation so far. |
| `Spooky.HashSubBuffer` | common/SpookyV2.cpp:365-384 | The hash of a rectangle is that of its rows one after the other, of nothing when its height is not positive; 0 when the rectangle is larger than the buffer. |
| `Spooky.SubBufferAt` | common/SpookyV2.cpp:374-378 | Byte k of row y of the rectangle is byte 4 * ((startY + y) * bufferWidth + startX) + k of the pixmap. |
| `Levenshtein.GetLevenshteinDist` | common/JsonUtil.hpp:54-84 | The last cell of the matrix is the distance of the two strings. |
| `Levenshtein.DiagonalSuffices` | common/JsonUtil.hpp:71-74 | Taking only the diagonal on equal characters never gives more than the other two moves. |
| `Levenshtein.DistanceIsLeastCost` | common/JsonUtil.hpp:54-84 | The distance is the least cost of all insert, delete and replace scripts that turn one string into the other. |
| `Levenshtein.ZeroIffEqual` | common/JsonUtil.hpp:54-84 | The distance is zero if and only if the strings are equal. |
| `Levenshtein.Symmetric` | common/JsonUtil.hpp:54-84 | The distance is symmetric. |
| `Levenshtein.Triangle` | common/JsonUtil.hpp:54-84 | The triangle inequality, by composing scripts. |
| `JsonEscape.WriteEscapedSequence` | common/JsonUtil.hpp:180-209 | Writes the two-character escape, or the six-character one of U+2028 and U+2029. |
| `JsonEscape.EscapeJSONValue` | common/JsonUtil.hpp:211-246 | Writes the pieces of the value one after the other. |
| `JsonEscape.HexDigits` | common/JsonUtil.hpp:180-209 | The reader the text is held against: the digits of both cases stand for their numbers and nothing else does. |
| `JsonEscape.Utf8Bits` | common/JsonUtil.hpp:180-209 | The reader the text is held against: the bytes of a code point are its bits, in the shortest form. |
| `JsonEscape.RoundTripIff` | common/JsonUtil.hpp:211-246 | Read by section 7 of RFC 8259, the text gives back the value if and only if every byte of it is 8, 9, 10, 12, 13 or at least 32; else it is no JSON string. |
| `JsonEscape.WrittenAs` | common/JsonUtil.hpp:211-246 | What is written for each byte and for each separator, in numbers. |
| `JsonEscape.NoBareSlash` | common/JsonUtil.hpp:226-229 | Every slash that is written stands behind a backslash. |
| `JsonEscape.NulIsNoString` | common/JsonUtil.hpp:211-246 | The value of one NUL comes out as it is, which is no JSON string. |
| `JsonEscape.NoSeparators` | common/JsonUtil.hpp:195-205 | The text never holds a raw U+2028 or U+2029. |
| `StreamSearch.WindowMatch` | common/Util.cpp:533-548 | The first match in the window is the first in the stream, even across the window boundary. |
| `StreamSearch.AfterMiss` | common/Util.cpp:549-557 | What is carried over is enough to find a match that straddles the boundary, and no more. |
| `StreamSearch.ProcessToMatch` | common/Util.cpp:506-561 | Found if and only if the pattern occurs; the stream then stands at its first occurrence and exactly what is before it has been written, else everything; the scratch is never overrun. |
| `Tokenizer.TokensAreUnique` | common/StringVector.hpp:60-86 | The maximal delimiter-free runs of a line form one list only. |
| `Tokenizer.TokensMean` | common/StringVector.hpp:60-86 | The tokens, by index: each a maximal run, in order, and every other character a delimiter. |
| `Tokenizer.Tokenize` | common/StringVector.hpp:61-86 | For every data and delimiter: nothing for data that is empty or starts with NUL, else the maximal delimiter-free runs of the first line. |
| `Tokenizer.TokenizeForeach` | common/StringVector.hpp:88-117 | The visitor sees the same tokens in the same order, up to and including the first at which it stops. |
| `Tokenizer.StringVector.PushBack` | common/StringVector.hpp:203-207 | Adds one word and keeps the others. |
| `Tokenizer.StringVector.Cat` | common/StringVector.hpp:218-244 | The words of the range with the separator between them; empty for an empty range. |
| `Tokenizer.CatThenTokenize` | common/StringVector.hpp:218-244 | Joining words and cutting again gives them back if and only if the first does not start with NUL and the delimiter does not end the line. |
| `Tokenizer.NulTokenIff` | common/StringVector.hpp:61-86 | The first token starts with NUL if and only if the data does not, but the first character of its first line that is no delimiter is NUL. |
| `Tokenizer.RetokenizeIff` | common/StringVector.hpp:61-86 | Cutting, joining and cutting again gives the same tokens if and only if it is not so that the data starts with a delimiter and the first character of its first line that is none is NUL. |
| `Tokenizer.RetokenizeLoses` | common/StringVector.hpp:61-65 | A space and NUL, cut at spaces: one token, and none when it is cut again. |

## Left out

- zstd: an identity codec that never fails; the error paths of compression and allocation are not modelled.
- `Mix`, `End` and `Short` of SpookyHash: parameters; their mixing quality is not stated.
- Spooky.SpookyHash.Update: asks that the total length stays below 2^64; the wrap-around of `m_length` is not modelled.
- Spooky.HashSubBuffer: asks for a width that is not negative when there are rows to hash, where the source would read outside the buffer.
- TileGeometry.TilesFit: tiles have no negative positions, as their descriptor refuses them.
- Levenshtein.GetLevenshteinDist: does not model the overflow of `int` cells for strings of 2^31 characters.
- RenderTiles.DoRender: runs the jobs one at a time in any order of completion, for a batch with a tile in which no far end overflows; `ConcurrentRender` has the jobs interleaved, on values.
- ConcurrentRender.RenderKeepsInStep: the reader is given the tiles a header announces and the length of the header; headers as text are not modelled. A preview never goes to the cache; its image is not read here.
- ConcurrentRender.RenderSound: that every job comes to its end is not stated here; the work pool is modelled in `ThreadPools`.
- RenderTiles.QueueJobs: offsets are unbounded numbers, not `int`.
- Rectangles.Rectangle.constructor: asks that a negative extent does not overflow downwards, where the addition is undefined.
- DeltaGenerator.DeltaGenerator.CompressOrDelta: asks for an even width and at most 256 by 256 pixels, as its assert does; `CreateDelta` models the refusals.
- DeltaGenerator.SortByWid: an insertion sort that takes ties in any order stands for `std::sort`.
- ClientDelta.ApplyDeltaChunk: asks for a stream whose operations parse and stay inside the tile; the browser does not check malformed ones.
- ClientDelta.UpdateImageFromDeltas: asks for a stream whose chunks parse and stay inside the tile, as above.
- ClientDelta.UnrleKeyframe: reads bytes behind the end of the data as zero, and does not model what the browser makes of a truncated keyframe.
- ThreadPools.StepKeepsJobs: the pool is modelled on values, step by step; memory order of the atomic flag is not modelled.
- ConcurrentCache.BatchIsSerial: wire ids are not part of the concurrent model; an eviction may drop any set of entries.
- The cache is a map from location to entry; the hash of a location and the buckets of the set are not modelled.
- Pixmap rows are cut out as sequences; the scratch of `diffRowTo` is a sequence of at most 254 pixels, rows are not allocated or freed, and a null `_rleData` is the empty sequence.
- Tile dumping, logging, timing, the watermark and the PNG encoder: input and output only. The painted pixmap, the PNG data of previews and the headers of messages are parameters.
- `expand` as a function of its own: the keyframe reader of the browser is the same loop and is modelled instead.
- Big-endian branches and unaligned reads.
- `tokenize` by a delimiter string and by any of several characters, `substrFromToken` and the other queries of `StringVector`.
- Sessions, sockets, configuration, the kit queue and the document classes around the core.
