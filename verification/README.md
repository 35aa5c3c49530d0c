# Level codecs of libgamemaps

libgamemaps reads and writes the level files of old games. Each format has an `open` (bytes to
layers of items), a `write` (layers to bytes) and an `isInstance` (is this a file of the format?).
This project models the formats in which these are real algorithms, and proves what comes back
when a level is saved and opened again, what a detector's answer is worth, and what every step
of a loop keeps.

The loops of the code are methods over arrays and sequences; each is proved against a
specification function (`Meaning`, `Parse`, `FileOf`, `Scanned`, ...) that says what a file means
or what a writer puts. The theorems are about those functions, so that `open` after `write` is a
statement about what two loops compute. Most formats end in a method `SaveAndReopen`, which calls
the two loops one after the other and states what comes back.

| files | format |
|---|---|
| `Bytes`, `Grid` | bytes, 16-bit words; items scattered into a row-major grid and gathered again |
| `Nukem2*` | Duke Nukem II: three forms of a cell, packing, run-length code with literals |
| `CrystalCaves*` | Crystal Caves: raster scan with vines, signs and tiles that claim their neighbours |
| `WordRescue*` | Word Rescue: greedy run-length code, two layers back to back, sorted items, detector |
| `GodOfThunder*` | God of Thunder: one map cut into 120 screens, slots for actors and objects |
| `SecretAgent*` | Secret Agent: lines of text, of which some belong to the row before |
| `DangerousDave` | Dangerous Dave: path of signed byte steps with an end marker among them |
| `Sweeney*` | Xargon and Jill: string table, detector against parser, objects and their texts, writer |
| `MonsterBash*` | Monster Bash: three layers in one word, sprite records |
| `Zone66` | Zone 66: dictionary in order of first appearance |
| `BaseMapType` | the wrapper that makes every save all or nothing |

## How the model stands to the code

* Words and codes are unbounded integers, and every cut to 8, 16 or 32 bits is written out. Codes
  of Crystal Caves tiles are 32-bit values taken with their sign; -1 is "no tile".
* Bit masks on separate bits are written as sums and remainders in Duke Nukem II. Monster Bash
  keeps real bit operations, because there the layers may overlap.
* A thrown exception is a `Result` value. Assertions of the writers about item positions are
  preconditions. Several bounds checks compare with `>` where `>=` is meant, and so let items just
  past the right and bottom edge through. Such an item lands in another cell, or past the end of
  a buffer; the preconditions (`Lands`, `OnScreens`, `NamesScreens`) leave out only the latter, and
  the error for items further out is modelled.
* A neighbour outside the buffers reads as "no tile" in Crystal Caves. A read past the end of the
  buffer is an error in Secret Agent. What memory holds past the mappings is a parameter in Zone 66.
* The Crystal Caves and Secret Agent tables are parameters. The hypotheses (`Valid`, `Decodable`)
  ask that entries have distinct codes, none of them the empty or the "next" code, and that no
  tile has the code 0x20 which marks a cell as dealt with.

## What the code does not do, against what it says

* Duke Nukem II: a foreground tile from 0x80 on over a background tile loses bit 7, and the last
  two cells have no extra bits at all. Exactly the levels without such cells come back
  (`LayersExact`, `HighForegroundLost`). A comment says that a literal of length 0x80 freezes the
  game; the final flush writes one exactly if at least 0x80 bytes are pending (`EncodeExtra`). No
  level of up to 32740 cells, so none of width 32, 64, 128 or 256, comes to that
  (`SmallLevelNothingPending`), but a larger one can (`SaveAlternatingLevel`).
  A level whose width divides 32750 cannot be saved again after it was opened (`CanSaveAgain`).
* Crystal Caves: a tile whose movement or overlay tile the tables do not know is dropped without
  notice, and so is the right end of a beam without the beam (`PlainRoundTrip`, `UnknownTileLost`).
  Walls, beams and underscore platforms come back in the one colour, movement and overlay that the
  reader has for each (`RoundTrip`, `WallRecoloured`). The writer allows 200 rows, the detector at
  most 99.
* Word Rescue: the detector counts the seven letters twice, so that a level whose attribute layer
  takes fewer than fourteen pairs is not recognised (`WrittenIsRecognised`,
  `SmallPlainLevelNotRecognised`).
* God of Thunder: actors and objects with code 255 vanish (`SortedExactly`, `LastCodeDropped`). A
  cell without an item comes back with a tile of the default code (`EmptyCellFilled`).
* Secret Agent: the writer accepts 46 rows, but the file gets its size only up to 43 rows, or for
  44 rows with two foreground lines (`SizeExact`). With all 46 lines in use the reader runs past
  its buffer (`FullMapOverruns`, `FullMapNotOpened`), and a background row that starts with `*` is
  read as foreground (`FileLines`, `MarkedRowMisread`). The writer looks only at the last cell of a
  tile of several cells, so that a level shows the same again exactly if all parts of its tiles are
  in place or covered (`LevelExact`); near the left or upper edge parts are put past it (`LayerOnMap`).
* Dangerous Dave: the error for a path whose last point looks like the end marker can never be
  thrown, and a step onto the marker comes back one pixel lower (`ExactPath`, `EndMarkerMoved`).
* Xargon and Jill: the detector takes a length field of 65535 for a string of 65535 characters,
  the parser for an empty one without a terminator (`DetectorAndReaderAgree`, `OverflowingString`).
  The writer puts a text with one byte for its length and no terminator, the reader takes two bytes
  and a terminator, so that no text comes back but a single empty one (`ObjectsExact`).
* Zone 66: a cell without a tile comes back with the code of the first tile in the list, and the
  limit of 256 different tiles is one of 128 (`RoundTrip`, `EmptyCellsFilled`, `FaultIffTooMany`). A
  layer comes back exactly if it has one 16-bit tile for every cell, in order (`LayerExact`).
* All formats: a failed save is promised to leave all streams unchanged. That holds when the
  format's writer throws; when a stream of the caller fails, it holds exactly if the streams
  before it had the same bytes already and it fails at once or before any byte changes
  (`PromiseKept`).

## Model

| member | source | states |
|---|---|---|
| Grid.CellUnique | src/fmt-map-ddave.cpp:198-206 | `y*w+x` and `(i%w, i/w)` are inverse for `x < w` |
| Grid.ScanPaint | src/fmt-map-ddave.cpp:286-300 | gathering a grid undoes scattering items over it if and only if the items are in strict row-major order and not blank |
| Grid.GridRebuilt | src/fmt-map-ddave.cpp:196-206 | scattering what was gathered from a grid rebuilds the grid |
| Grid.PaintInto | src/fmt-map-nukem2.cpp:682-698 | the layout loop: every cell gets the code of the last item on it, the rest stays |
| Grid.BytesReadBack | src/fmt-map-ddave.cpp:286-300 | items come back from a byte layer if and only if they are in reading order and their codes are bytes |
| Nukem2Rle.EncodeExtra | src/fmt-map-nukem2.cpp:731-800 | the coded bytes are a sequence of codes that decodes to the input up to dropped zeros, then 00 00; `3*L <= 4*n + 10`; every run count is positive; a literal of length 0x80 occurs if and only if 0x80 bytes are pending at the end |
| Nukem2Rle.FlushLiterals | src/fmt-map-nukem2.cpp:742-755 | pending bytes become literals of at most the limit each, with the bytes' own meaning |
| Nukem2Rle.FlushRun | src/fmt-map-nukem2.cpp:761-766 | a run of any length becomes runs of at most 0x7F with the same meaning |
| Nukem2Rle.SameByte | src/fmt-map-nukem2.cpp:739-757 | the encoder's invariant holds after a byte equal to the last one, and nothing is pending then |
| Nukem2Rle.NewByte | src/fmt-map-nukem2.cpp:758-773 | the encoder's invariant holds after a different byte |
| Nukem2Rle.FinishExtra | src/fmt-map-nukem2.cpp:775-800 | finishing drops only a last run of zeros and adds the terminator |
| Nukem2Decode.DecodeLiteral | src/fmt-map-nukem2.cpp:439-452 | a literal fills the next cells with its bytes' bits, and stops early only at the last group |
| Nukem2Decode.DecodeRun | src/fmt-map-nukem2.cpp:453-469 | a run fills the next cells; a run of zeros moves on and leaves zeros |
| Nukem2Decode.DecodeExtra | src/fmt-map-nukem2.cpp:429-476 | for a section that codes some bytes, the cells hold exactly these bytes' bits and the stream ends exactly `lenExtra` bytes on, whether or not the loop stopped early |
| Nukem2.CellReadBack | src/fmt-map-nukem2.cpp:703-718 | the three forms of a cell never collide: both layers come back from the word and the extra bits |
| Nukem2.ExtraReadBack | src/fmt-map-nukem2.cpp:721-729 | packing, coding, decoding and unpacking give back the extra bits of every cell but the last two |
| Nukem2File.ReadLayers | src/fmt-map-nukem2.cpp:478-522 | the two layers are those that the cell values and extra values stand for |
| Nukem2File.CellForms | src/fmt-map-nukem2.cpp:480-520 | for every word: from 0x8000 on ten bits of background and five of foreground, below 8000 a background tile, else a foreground tile, of which five words each stand for one |
| Nukem2File.Open | src/fmt-map-nukem2.cpp:288-540 | a file with every part and a well formed section is read as the level it means, names included |
| Nukem2File.WriteCells | src/fmt-map-nukem2.cpp:703-719 | every cell is written in its form and the bits that do not fit are kept aside |
| Nukem2File.PackExtra | src/fmt-map-nukem2.cpp:721-729 | four cells' extra bits go into each byte |
| Nukem2File.Write | src/fmt-map-nukem2.cpp:591-810 | the bytes written are the file of the level with a lossless coding of its extra bits whose length fits its field |
| Nukem2Theorems.RoundTrip | src/fmt-map-nukem2.cpp:288-810 | for every level that can be written and every lossless coding, the file has all its parts and means the level as it is seen again |
| Nukem2Theorems.SaveAndReopen | src/fmt-map-nukem2.cpp:288-810 | saving and opening, with the real encoder and decoder, gives exactly that level |
| Nukem2Theorems.LayersExact | src/fmt-map-nukem2.cpp:703-718 | layers in reading order: the background always comes back, the foreground if and only if no foreground tile over a background one is above 0x7F, or above 0x1F in the last two cells |
| Nukem2Theorems.HighForegroundLost | src/fmt-map-nukem2.cpp:712-716 | a foreground code from 0x80 on over any background tile comes back 0x80 lower |
| Nukem2Theorems.SmallLevelNothingPending | src/fmt-map-nukem2.cpp:721-788 | a level of at most 32740 cells leaves nothing pending for the final flush |
| Nukem2Theorems.AlternatingLevelPending | src/fmt-map-nukem2.cpp:721-788 | a level of 32749 cells whose groups of four alternate leaves 8186 bytes pending |
| Nukem2Theorems.SaveAlternatingLevel | src/fmt-map-nukem2.cpp:591-810 | saving that level writes a literal of length 0x80 |
| Nukem2Theorems.SecondSaveIsStable | src/fmt-map-nukem2.cpp:591-810 | saving and opening what came back changes nothing more |
| Nukem2Theorems.CanSaveAgain | src/fmt-map-nukem2.cpp:702 | a level that came back passes the writer's checks again if and only if its width does not divide 32750 |
| Nukem2Theorems.WrittenIsRecognised | src/fmt-map-nukem2.cpp:244-280 | every file written is recognised for certain |
| Nukem2Theorems.RecognisedHasParts | src/fmt-map-nukem2.cpp:244-280 | a file recognised for certain, of non-zero width, has every part that `open` reads |
| Nukem2Theorems.AnswerExactly | src/fmt-map-nukem2.cpp:244-280 | for every file, which of the parts must not fit for each of the four answers |
| Nukem2Theorems.CutAnswer | src/fmt-map-nukem2.cpp:244-280 | the answer for every beginning of a written file, and for one with bytes after it |
| Nukem2Theorems.UnknownWord | src/fmt-map-nukem2.cpp:591-702 | the unknown word before the actors is zero |
| CrystalCaves.MovementRoundTrip | src/fmt-map-ccaves.cpp:109-141 | flags to movement and back is the identity exactly on the four flags, and movement to flags and back exactly on the four movements |
| CrystalCaves.BestSignIsFirstBest | src/fmt-map-ccaves.cpp:635-666 | the sign chosen is the first table entry with the highest confidence; none is chosen if and only if none fits |
| CrystalCavesCells.ConfidenceCounts | src/fmt-map-ccaves.cpp:635-662 | the confidence in a sign is the number of its tiles in place, in four rows of four, and one more for the right movement; zero without the first two |
| CrystalCavesCells.FirstIsTaken | src/fmt-map-ccaves.cpp:618-742 | the entry taken could stand for the tile, and no entry of an earlier table, nor an earlier one of the same table but for signs, could |
| CrystalCavesCells.CellWritten | src/fmt-map-ccaves.cpp:668-725 | in coordinates: an unclaimed tile of an entry, at its column and row of 4x4, 2x2 or 4x1 cells from the anchor, is put as "next", the second tile of a sign as the second code |
| CrystalCavesCells.WideWritten | src/fmt-map-ccaves.cpp:711-725 | a tile of four cells in a row is put as its code and three times "next" |
| CrystalCavesCells.SmallWritten | src/fmt-map-ccaves.cpp:693-709 | a tile of two by two cells is put as its code and "next" to the right, below, and below to the right |
| CrystalCavesScan.StepFrame | src/fmt-map-ccaves.cpp:614-742 | one step puts bytes only in free cells from the current one on, marks the later ones as dealt with and changes nothing else |
| CrystalCavesScan.ClaimedAfresh | src/fmt-map-ccaves.cpp:604-612 | one entry never claims a cell twice |
| CrystalCavesScan.PutOnce | src/fmt-map-ccaves.cpp:597-742 | every output byte is put at most once in the whole scan, over the 0x20 filling, and keeps its value from then on |
| CrystalCavesScan.ClaimedStaysClaimed | src/fmt-map-ccaves.cpp:604-742 | a cell claimed by an earlier anchor neither anchors anything nor is claimed again |
| CrystalCavesWrite.PickSign | src/fmt-map-ccaves.cpp:635-666 | the search loop finds the entry that the specification calls best |
| CrystalCavesWrite.Pick | src/fmt-map-ccaves.cpp:618-742 | vines, signs, tiles and blocks are tried in this order and the first that fits is taken |
| CrystalCavesWrite.PutEntry | src/fmt-map-ccaves.cpp:668-691 | an entry's code is put in its cell and its parts are claimed one by one |
| CrystalCavesWrite.ScanCells | src/fmt-map-ccaves.cpp:597-742 | the bytes are those of the scan of the whole board |
| CrystalCavesWrite.LayTiles | src/fmt-map-ccaves.cpp:541-582 | the code and the movement flags of the last tile on each cell |
| CrystalCavesWrite.Write | src/fmt-map-ccaves.cpp:508-753 | the file is the scanned bytes in rows with their lengths, or the error for a width other than 40 or more than 200 rows |
| CrystalCavesOpen.Lookup | src/fmt-map-ccaves.cpp:311-398 | the first entry for the byte, of vines, signs, tiles and wide tiles in this order |
| CrystalCavesOpen.FollowVine | src/fmt-map-ccaves.cpp:323-330 | the vine's tiles in the cells above, as far as they are marked as belonging to one below |
| CrystalCavesOpen.TakeAll | src/fmt-map-ccaves.cpp:291-300 | the marked cells of an entry's parts become tiles and are blanked |
| CrystalCavesOpen.ReadAnchor | src/fmt-map-ccaves.cpp:311-398 | what each kind of entry adds to the layers |
| CrystalCavesOpen.Open | src/fmt-map-ccaves.cpp:214-400 | the layers that the file means, row by row, with the reader's moving pointer |
| CrystalCavesCells.EntryRead | src/fmt-map-ccaves.cpp:335-396 | for every file: at an entry's code the tiles of its marked cells are added, each in its own column and row, the first with the entry's movement; the marks are blanked, the overlay tile is added |
| CrystalCavesCells.WideRead | src/fmt-map-ccaves.cpp:387-396 | the code of a wide tile with three marks behind it is read as four tiles in one row |
| CrystalCavesCells.SmallRead | src/fmt-map-ccaves.cpp:365-384 | the code of a tile of two by two cells with its marks is read as four tiles in two rows |
| CrystalCavesCells.VineRead | src/fmt-map-ccaves.cpp:311-334 | for every file: a vine with `k` marked cells above is read as `k + 1` tiles, its own and the middle one without movement in each of these cells |
| CrystalCavesCells.UnknownRead | src/fmt-map-ccaves.cpp:302-398 | a byte that no entry has as its code adds nothing |
| CrystalCavesCells.LooksShown | src/fmt-map-ccaves.cpp:240-262 | the one colour that the reader has for each piece of a beam, of a wall and for the underscore |
| CrystalCavesTidy.Decodes | src/fmt-map-ccaves.cpp:311-398 | every entry is found again from its codes |
| CrystalCavesTidy.PartStep | src/fmt-map-ccaves.cpp:291-300 | where the part is tidy, the reader takes it and the writer has claimed it, or neither, and both stay in step |
| CrystalCavesTidy.PartExact | src/fmt-map-ccaves.cpp:291-300 | tidy is exactly that: a part is tidy if and only if the reader takes what the writer claimed, in the same cell; beyond the right edge the reader meets a row length or the cell before the writer's |
| CrystalCavesTheorems.Simulates | src/fmt-map-ccaves.cpp:302-400 | reader and writer go through the cells in step: whatever the writer has dealt with, the reader has found |
| CrystalCavesTheorems.BlockAgrees | src/fmt-map-ccaves.cpp:365-384 | a block written through the reverse table is read as the entry with its code, and takes the right end of its beam, which the writer has put as "next" |
| CrystalCavesTheorems.RoundTrip | src/fmt-map-ccaves.cpp:302-742 | for every board whose parts do not meet those of other entries, with vines, signs, tiles of several cells, walls, beams and unknown tiles, the written file is read cell by cell as each cell's own entry says; the board comes back as it was if and only if every cell is an entry's with the reader's tile, movement and overlay, or nothing |
| CrystalCavesTheorems.KeptLook | src/fmt-map-ccaves.cpp:618-741 | a cell is seen as it was if and only if it is a vine that goes on or ends as the file has it, a sign, a tile or a block with what the reader has for it, part of an earlier entry, or empty |
| CrystalCavesPlain.PlainEntry | src/fmt-map-ccaves.cpp:693-741 | a tile of single-cell entries anchors the first entry with its overlay tile and movement, else the first block, else nothing |
| CrystalCavesPlain.PlainSeen | src/fmt-map-ccaves.cpp:302-742 | what is seen of a cell of single-cell tiles and blocks follows from the cell, its left neighbour and the tables alone |
| CrystalCavesPlain.PlainRoundTrip | src/fmt-map-ccaves.cpp:302-742 | a board of single-cell tiles and blocks comes back cell by cell: tiles the tables know as they were, blocks in the reader's colour, movement and overlay, the end of a beam only with the beam, all else not at all; so as it was if and only if that is every cell's own look |
| CrystalCavesPlain.UnknownTileLost | src/fmt-map-ccaves.cpp:693-742 | in a file with the moving platform alone, the platform is read again if and only if its movement is the one in the tables |
| CrystalCavesPlain.WallRecoloured | src/fmt-map-ccaves.cpp:728-741 | a wall of either of two colours is read in the reader's colour |
| CrystalCavesPlain.SaveAndReopen | src/fmt-map-ccaves.cpp:214-753 | saving and opening: the error cases, and both theorems, each with its exact condition, for the map's own board |
| CrystalCavesDetect.IsInstance | src/fmt-map-ccaves.cpp:167-206 | yes if and only if the file is 1 to 99 rows of length 40 with codes up to 0xFE |
| CrystalCavesDetect.RecognisedExactly | src/fmt-map-ccaves.cpp:167-206 | yes if and only if the file is 1 to 99 times 41 bytes, every 41st one 40 and all others up to 0xFE |
| CrystalCavesDetect.WrittenIsRecognised | src/fmt-map-ccaves.cpp:167-206 | a written level is recognised if and only if it has 1 to 99 rows |
| WordRescueRle.RleWrite | src/fmt-map-wordresc.cpp:306-346 | the pairs written stand for the data, none is empty, their number is the greedy one, and the result is the number of bytes written |
| WordRescueRle.NoShorterFrom | src/fmt-map-wordresc.cpp:306-346 | no pairs for the rest of the data are fewer than the greedy ones |
| WordRescueRle.Optimal | src/fmt-map-wordresc.cpp:306-346 | no sequence of pairs with counts up to 255 for the same data, even with empty pairs, is shorter than the one written |
| WordRescue.ReadPoints | src/fmt-map-wordresc.cpp:553-582 | a counted block of points, or the error if it runs past the file |
| WordRescue.ReadItems | src/fmt-map-wordresc.cpp:553-646 | the seven item blocks one after the other |
| WordRescue.ReadTiles | src/fmt-map-wordresc.cpp:713-732 | the pairs are read until all cells are counted, and only the blank ones make no item |
| WordRescue.ReadAttributes | src/fmt-map-wordresc.cpp:750-796 | the attribute cells, codes turned into flags |
| WordRescue.Open | src/fmt-map-wordresc.cpp:470-838 | the level that the file means, or the error for a file that ends early |
| WordRescueWrite.SplitFine | src/fmt-map-wordresc.cpp:883-905 | every fine kind keeps its items in order; the last entrance and exit count |
| WordRescueWrite.SplitCoarse | src/fmt-map-wordresc.cpp:880-925 | every coarse kind keeps its items in order; of each letter the last one counts |
| WordRescueWrite.PlaceTiles | src/fmt-map-wordresc.cpp:963-982 | the background grid, or the first tile outside the map |
| WordRescueWrite.PlaceAttrs | src/fmt-map-wordresc.cpp:984-1017 | the attribute grid shifted by one column, with codes rebuilt from flags |
| WordRescueWrite.Write | src/fmt-map-wordresc.cpp:840-1020 | header, seven blocks and two coded layers of exactly the grids' bytes |
| WordRescueTheorems.ItemsReadBack | src/fmt-map-wordresc.cpp:939-961 | parsing the seven printed blocks gives the items in file order and ends where the layers begin |
| WordRescueTheorems.LayerReadBack | src/fmt-map-wordresc.cpp:713-732 | counting cells stops after the last pair of a layer, whatever follows |
| WordRescueTheorems.RoundTrip | src/fmt-map-wordresc.cpp:470-1020 | both layers and the items come back from any non-empty pairs for the two grids, with no length between them |
| WordRescueTheorems.SaveAndReopen | src/fmt-map-wordresc.cpp:470-1020 | saving and opening gives that level for sizes below 0x8000, or the error for a tile outside the map |
| WordRescueCut.CutFile | src/fmt-map-wordresc.cpp:470-796 | every beginning of a written file: an error up to the end of the background, and from there on the level with the attributes of the complete pairs |
| WordRescueCut.LayerStops | src/fmt-map-wordresc.cpp:713-732 | of any pairs, empty ones too, those up to the first that completes the layer are read, with all their cells |
| WordRescueCut.NoCells | src/fmt-map-wordresc.cpp:470-796 | a map without columns or rows has no background, and the tile set zero is not counted down |
| WordRescueCut.AttrSizeCut | src/fmt-map-wordresc.cpp:752-753 | the size of the attribute layer is twice the map's, cut to sixteen bits |
| WordRescueTheorems.OutsideExactly | src/fmt-map-wordresc.cpp:963-1011 | exactly which items stop a level from being written |
| WordRescueTheorems.LastIsLast | src/fmt-map-wordresc.cpp:880-925 | the last item of a kind counts, and one at the origin if there is none |
| WordRescueTheorems.DripFrequency | src/fmt-map-wordresc.cpp:950-961 | every drip is written with the frequency 0x44 |
| WordRescueTheorems.AttributeSeen | src/fmt-map-wordresc.cpp:765-1010 | what any single attribute comes back as, by its flags if it blocks anything, else by the low byte of its code |
| WordRescueTheorems.ColumnZero | src/fmt-map-wordresc.cpp:984-1011 | attributes in column zero are not written |
| WordRescueTheorems.BackgroundExact | src/fmt-map-wordresc.cpp:963-982 | the background comes back if and only if it is in reading order with byte codes |
| WordRescueTheorems.AttributesExact | src/fmt-map-wordresc.cpp:750-1017 | the attributes come back if and only if they are those that a reader makes of a grid of bytes |
| WordRescueTheorems.FineKept | src/fmt-map-wordresc.cpp:883-961 | each fine kind keeps its items in order; one entrance and one exit come back |
| WordRescueTheorems.CoarseKept | src/fmt-map-wordresc.cpp:880-961 | each coarse kind keeps its items in order; each letter comes back once |
| WordRescueDetect.CheckBlocks | src/fmt-map-wordresc.cpp:414-439 | the block counts stay inside the file, with the size counted always ahead of the stream |
| WordRescueDetect.CheckTiles | src/fmt-map-wordresc.cpp:441-458 | the loop over pairs ends on every input, even with pairs that count no cells |
| WordRescueDetect.IsInstance | src/fmt-map-wordresc.cpp:393-462 | yes if and only if blocks and background layer are inside the file with valid codes |
| WordRescueDetect.RecognisedCanBeOpened | src/fmt-map-wordresc.cpp:393-732 | whatever is recognised can be opened without running past the file |
| WordRescueDetect.WrittenIsRecognised | src/fmt-map-wordresc.cpp:393-462 | a written level is recognised if and only if its codes are up to 240 or 255 and its attributes take at least fourteen pairs |
| WordRescueDetect.NoCellsNotRecognised | src/fmt-map-wordresc.cpp:393-412 | a level without columns or rows is not recognised |
| WordRescueDetect.SmallPlainLevelNotRecognised | src/fmt-map-wordresc.cpp:393-462 | a small level without attributes is written but not recognised |
| GodOfThunder.CellToPlace | src/fmt-map-got.cpp:453-460 | the reader's coordinates undo the writer's screen and offset |
| GodOfThunder.PlaceToCell | src/fmt-map-got.cpp:285-303 | the writer's index undoes the reader's coordinates, for all 120 screens of 240 cells |
| GodOfThunder.PlaceUnique | src/fmt-map-got.cpp:440-461 | no two cells of the map share a place |
| GodOfThunder.WrapKeepsPlace | src/fmt-map-got.cpp:450-460 | an item just past the right edge is put, and seen again, on the next row of screens |
| GodOfThunder.SortIsStable | src/fmt-map-got.cpp:498-583 | sorting by screen keeps each screen's items and their order |
| GodOfThunder.SortIsOrdered | src/fmt-map-got.cpp:498-583 | the result is in order of screens |
| GodOfThunder.SortIsPermutation | src/fmt-map-got.cpp:498-583 | nothing is lost or duplicated |
| GodOfThunderFile.LayBg | src/fmt-map-got.cpp:440-461 | the buffer of all screens holds the last item of every cell at the cell's place, or the error for an item outside |
| GodOfThunderFile.LayMusic | src/fmt-map-got.cpp:479-496 | one song a screen; the first item outside or below 256 decides the error |
| GodOfThunderFile.FillSlots | src/fmt-map-got.cpp:498-557 | every screen's slots are its items in order |
| GodOfThunderFile.WriteScreens | src/fmt-map-got.cpp:559-587 | 512 bytes for each screen |
| GodOfThunderFile.Write | src/fmt-map-got.cpp:423-590 | the file of the buffers, or the first error of the five layers |
| GodOfThunderFile.Open | src/fmt-map-got.cpp:271-352 | the layers of the 120 screens, or the error for a file that is too short |
| GodOfThunderTheorems.ScreensReadBack | src/fmt-map-got.cpp:325-351 | the slots of the first screens read as the kept items of these screens |
| GodOfThunderTheorems.UnusedIsZero | src/fmt-map-got.cpp:559-587 | slots not in use and the bytes behind the tables of a screen are zero |
| GodOfThunderTheorems.ActorsFound | src/fmt-map-got.cpp:320-334 | of every screen, whoever wrote it, each non-zero slot is read as an actor in the cell that its position counts to, in order, and nothing else is |
| GodOfThunderTheorems.ObjectsFound | src/fmt-map-got.cpp:336-351 | likewise for objects, with words for column and row |
| GodOfThunderTheorems.FaultExactly | src/fmt-map-got.cpp:440-557 | when a map is written, and which of the errors it is if not: the first song that is wrong decides |
| GodOfThunderTheorems.RoundTrip | src/fmt-map-got.cpp:285-587 | every cell comes back once, in its place, with its last code or, without an item, the default code; one default tile and song a screen; actors and objects sorted by screen |
| GodOfThunderTheorems.EmptyCellFilled | src/fmt-map-got.cpp:285-303 | a cell without an item comes back with a tile of code 0xB0 |
| GodOfThunderTheorems.LayersExact | src/fmt-map-got.cpp:285-496 | as lists, the background comes back if and only if it has one item with a byte code for every cell, screen by screen; default tiles and songs if and only if they have one item for every screen, in order, with codes up to 255, or from 256 to 511 |
| GodOfThunderTheorems.SortedExactly | src/fmt-map-got.cpp:498-583 | actors, or objects, come back as the stable sort by screen if and only if all codes are at most 254 |
| GodOfThunderTheorems.WrittenComesBack | src/fmt-map-got.cpp:271-590 | whatever passes the bounds checks is read where it was put |
| GodOfThunderTheorems.LastCodeDropped | src/fmt-map-got.cpp:521-583 | a level whose one actor has code 255 is read without actors |
| GodOfThunderTheorems.SaveAndReopen | src/fmt-map-got.cpp:271-590 | saving and opening: every error case, and otherwise the statements above, with the exact condition for each of the five layers; items inside the map are read where they are |
| SecretAgent.BackdropReadBack | src/fmt-map-sagent.cpp:247-272 | each of the 17 backdrops comes back from its number; any other choice becomes the first |
| SecretAgent.EncodeCell | src/fmt-map-sagent.cpp:476-590 | each layer's code is that of its first table entry, or of its light shadow |
| SecretAgent.BackdropTiles | src/fmt-map-sagent.cpp:476-590 | a tile of a backdrop is written as a blank or as its light shadow, by the first backdrop it belongs to; every other tile as the table has it |
| SecretAgentWrite.Encode | src/fmt-map-sagent.cpp:456-594 | all cells' codes, the rows with foreground tiles, and the number of lines |
| SecretAgentWrite.Emit | src/fmt-map-sagent.cpp:636-669 | header, lines and padding |
| SecretAgentWrite.Write | src/fmt-map-sagent.cpp:406-672 | the file of the codes, or the errors for size, lines and final length |
| SecretAgentWrite.SizeExact | src/fmt-map-sagent.cpp:651-670 | the file has 2016 bytes if and only if there are at most 43 rows, or 44 with two foreground lines |
| SecretAgentOpen.ReadCode | src/fmt-map-sagent.cpp:319-359 | the tiles that a code stands for |
| SecretAgentOpen.Open | src/fmt-map-sagent.cpp:233-362 | the level that the file means, through the loop that changes row counter and height on the way |
| SecretAgentTheorems.LinesReadBack | src/fmt-map-sagent.cpp:305-362 | from any row on, the remaining lines and the height come back if and only if the map can be framed |
| SecretAgentTheorems.FileLines | src/fmt-map-sagent.cpp:305-669 | all lines come back, each with its own row, and the height, if and only if there are rows, at most 45 lines, and no background row starts with the mark |
| SecretAgentTheorems.PlainLinesRead | src/fmt-map-sagent.cpp:305-362 | of any file with background lines only, these are the map up to the first line without a line break; no line at all is an error |
| SecretAgentTheorems.CutLine | src/fmt-map-sagent.cpp:305-362 | a line that the file cuts off is an error |
| SecretAgentTheorems.SecondLine | src/fmt-map-sagent.cpp:641-649 | the second line of the header, byte by byte |
| SecretAgentTheorems.MarkedRowMisread | src/fmt-map-sagent.cpp:306-316 | a map with the tile of code 42 in its first cell is written, but its row is taken for foreground and the file cannot be opened |
| SecretAgentTheorems.FullMapOverruns | src/fmt-map-sagent.cpp:305-316 | with all 46 lines in use and no marked row, reading runs past the end of the file |
| SecretAgentTheorems.FullMapNotOpened | src/fmt-map-sagent.cpp:305-672 | a map of 44 rows with two foreground tiles is written so, and cannot be opened |
| SecretAgentTheorems.RoundTrip | src/fmt-map-sagent.cpp:233-669 | a level of single-cell tiles with codes of their own comes back as lists: height, backdrop, and both layers in reading order |
| SecretAgentSeen.CellSeen | src/fmt-map-sagent.cpp:319-359 | after opening, every cell of any level shows what the latest of the twelve codes around it has for it |
| SecretAgentSeen.SeenInPlace | src/fmt-map-sagent.cpp:319-359 | a cell shows its own tile if and only if every part of a tile on it is that tile or covered by a tile further right or below, and a part is there unless the cell is empty |
| SecretAgentSeen.LayerOnMap | src/fmt-map-sagent.cpp:337-359 | no tile is put left of the first column or above the first row if and only if no code of the layer has a part there |
| SecretAgentSeen.LevelExact | src/fmt-map-sagent.cpp:233-669 | a framed level of any tiles comes back with height and backdrop; each layer shows the same, cell by cell, if and only if all cells of the map are so in place; tiles are put past the edges exactly for tiles of the map that reach there |
| SecretAgentSeen.SaveAndReopen | src/fmt-map-sagent.cpp:233-672 | saving and opening a map of any size: the errors of the writer and of the reader, which decide for every map without a marked row; else the statements above |
| DangerousDave.WritePath | src/fmt-map-ddave.cpp:239-284 | the path section; it never fails, so that the last-point error is dead code |
| DangerousDave.ReadPath | src/fmt-map-ddave.cpp:167-187 | the points up to the first end marker |
| DangerousDave.StepFor | src/fmt-map-ddave.cpp:257-270 | no step written is the end marker |
| DangerousDave.PathReadBack | src/fmt-map-ddave.cpp:167-284 | the reader stops at the terminator and nowhere else: as many points as were written |
| DangerousDave.NearlyExact | src/fmt-map-ddave.cpp:239-284 | with steps up to 127, every x is exact and every y exact or one greater, and the next step makes up for it |
| DangerousDave.ExactPath | src/fmt-map-ddave.cpp:239-284 | the path comes back if and only if every step fits a signed byte and none is the end marker |
| DangerousDave.EndMarkerMoved | src/fmt-map-ddave.cpp:262-267 | a step onto the end marker comes back one pixel lower |
| DangerousDave.Write | src/fmt-map-ddave.cpp:231-306 | path, background and padding, or the error for a tile outside |
| DangerousDave.InBoundsExactly | src/fmt-map-ddave.cpp:288-300 | the error for tiles outside counts every tile, but not those one column or row past the edges |
| DangerousDave.Open | src/fmt-map-ddave.cpp:163-206 | path and background items, or the error for a short file |
| DangerousDave.SaveAndReopen | src/fmt-map-ddave.cpp:163-306 | the path as read back; the background if and only if it is in reading order with byte codes |
| DangerousDave.IsInstance | src/fmt-map-ddave.cpp:136-156 | yes if and only if the size and all background codes are right |
| Sweeney.IsInstance | src/fmt-map-xargon.cpp:288-324 | yes if and only if there is a table of at most 512 strings up to the end of the file, or none |
| Sweeney.ReadStrings | src/fmt-map-xargon.cpp:408-435 | the strings, with the length added to in 16 bits, or the truncation error |
| Sweeney.FirstString | src/fmt-map-xargon.cpp:419-432 | one turn of the loop takes exactly one of the detector's strings if and only if its length does not overflow |
| Sweeney.DetectorAndReaderAgree | src/fmt-map-xargon.cpp:288-435 | for every accepted file the parser's strings are the detector's, at most 512, and nothing is left over, if and only if no length is 65535 |
| Sweeney.OverflowingString | src/fmt-map-xargon.cpp:307-322 | a string of 65535 characters is accepted but not found |
| Sweeney.TableExactly | src/fmt-map-xargon.cpp:288-324 | the detector finds these strings if and only if they are at most 512 and follow one another up to the end of the file |
| Sweeney.ReadObjects | src/fmt-map-xargon.cpp:437-495 | the objects of all records, with the strings in order for those with a pointer |
| Sweeney.AcceptedFilesOpen | src/fmt-map-xargon.cpp:288-495 | an accepted file without an overflowing length opens, and its objects get the texts that the detector saw |
| SweeneyWrite.Write | src/fmt-map-xargon.cpp:535-650 | background, records, save data and texts, or the error for a text of more than 255 characters |
| SweeneyWrite.TooLongExactly | src/fmt-map-xargon.cpp:639-647 | the error is for any text of more than 255 characters |
| SweeneyWrite.RecordConstants | src/fmt-map-xargon.cpp:579-627 | the words of a record that the reader passes over: size 16 by 16, and zeros |
| SweeneyWrite.OpenLevel | src/fmt-map-xargon.cpp:371-495 | background column by column without the empty spots, and the objects |
| SweeneyWrite.OpensExactly | src/fmt-map-xargon.cpp:371-495 | a level opens if and only if its objects do, and never without the count of objects |
| SweeneyWrite.RecordsReadBack | src/fmt-map-xargon.cpp:437-627 | from any file that holds the printed records every object is read with its place, code and speed, and the j-th object with a text gets the j-th string |
| SweeneyWrite.FirstStringDiffers | src/fmt-map-xargon.cpp:419-647 | whatever is read of written texts, the first string is not the first text |
| SweeneyWrite.ObjectsExact | src/fmt-map-xargon.cpp:437-647 | the objects come back if and only if their fields fit and there is no text but a single empty one |
| SweeneyWrite.BackgroundExact | src/fmt-map-xargon.cpp:382-557 | the background comes back if and only if its tiles are in order, column by column, with 16-bit codes whose low ten bits are not all zero |
| SweeneyWrite.SaveAndReopen | src/fmt-map-xargon.cpp:371-650 | saving and opening: the error, and both exact conditions |
| MonsterBash.MaskBits | src/fmt-map-bash.cpp:871-895 | which bit stands for which flag: sides only if the item blocks, movement only with a limit |
| MonsterBash.FlagsReadBack | src/fmt-map-bash.cpp:585-606 | the flags made of a word give its attribute bits again |
| MonsterBash.Open | src/fmt-map-bash.cpp:545-621 | the layers of as many words as the map and the file have |
| MonsterBash.PutTiles | src/fmt-map-bash.cpp:857-869 | the last tile's code in each cell, or the error for a tile outside |
| MonsterBash.OutsideExactly | src/fmt-map-bash.cpp:857-869 | the error for items outside counts every item, but not those one column or row past the edges |
| MonsterBash.MergeAttrs | src/fmt-map-bash.cpp:871-895 | the bits of all attributes of a cell are merged in |
| MonsterBash.MergePoints | src/fmt-map-bash.cpp:897-910 | the interactive bit is merged in; items outside are passed over |
| MonsterBash.WriteBackground | src/fmt-map-bash.cpp:850-926 | header and merged words |
| MonsterBash.MergeUndoesSplit | src/fmt-map-bash.cpp:570-926 | after any number of words, merging the layers gives the words' bits layer by layer |
| MonsterBash.GridKept | src/fmt-map-bash.cpp:570-926 | every grid of 16-bit words is reproduced exactly |
| MonsterBash.SecondSave | src/fmt-map-bash.cpp:545-926 | saving an opened background writes its words again |
| MonsterBashExact.SplitIsScan | src/fmt-map-bash.cpp:570-621 | each layer is gathered from its own bits, and every attribute says the same in code and flags |
| MonsterBashExact.MergedCell | src/fmt-map-bash.cpp:850-910 | the three numbers of a merged word are those of the last item of each layer |
| MonsterBashExact.LayersExact | src/fmt-map-bash.cpp:570-926 | layers come back if and only if each is inside the map in strict reading order, tiles have codes 1 to 0x1FF, attributes a non-zero mask with matching code and flags, and points the code 1 |
| MonsterBash.RoundTrip | src/fmt-map-bash.cpp:545-926 | width and height come back if and only if they fit their fields, and then the layers of the merged words; the four words of the header in numbers |
| MonsterBashExact.CutFile | src/fmt-map-bash.cpp:545-621 | every beginning of a written background, and the whole with anything after it: the map with the cells that are there, or an error without any |
| MonsterBashExact.NoColumns | src/fmt-map-bash.cpp:545-621 | a file of width zero has no cells |
| MonsterBashSprites.Write | src/fmt-map-bash.cpp:986-1014 | a record for every item that is a sprite |
| MonsterBashSprites.Open | src/fmt-map-bash.cpp:740-776 | the sprites up to the end of the file or a record that claims too much |
| MonsterBashSprites.RecordReadBack | src/fmt-map-bash.cpp:1002-1014 | the parts of a record are found wherever it stands |
| MonsterBashSprites.SpritesReadBack | src/fmt-map-bash.cpp:740-1015 | the records of a list of items parse to its sprites, in order |
| MonsterBashSprites.RecordZeros | src/fmt-map-bash.cpp:1002-1014 | all bytes of a record but length, place and name are zero |
| MonsterBashSprites.UnknownName | src/fmt-map-bash.cpp:760-770 | a name is read as code zero if and only if no sprite has it |
| MonsterBashSprites.CutFile | src/fmt-map-bash.cpp:740-776 | a file that ends within a record gives the sprites before it, but for one that ends before the record's place |
| MonsterBashSprites.SaveAndReopen | src/fmt-map-bash.cpp:740-1015 | the list comes back if and only if all items are sprites with 32-bit places |
| Zone66.DictDistinct | src/fmt-map-zone66.cpp:227-255 | no code is in the dictionary twice |
| Zone66.DictCounts | src/fmt-map-zone66.cpp:227-255 | the dictionary has one entry for every different code |
| Zone66.FaultIffTooMany | src/fmt-map-zone66.cpp:243-254 | for items that pass the bounds check, writing fails if and only if there are more than 128 different codes |
| Zone66.FaultFirst | src/fmt-map-zone66.cpp:227-254 | a tile outside is the error unless more than 128 codes come before it |
| Zone66.FindMapping | src/fmt-map-zone66.cpp:234-242 | the search finds the first of a code's two places |
| Zone66.LayOut | src/fmt-map-zone66.cpp:219-255 | every cell's byte is the place of its last item's code, and the table holds every code twice |
| Zone66.WriteTable | src/fmt-map-zone66.cpp:260-281 | the table file, with the words from past the mappings |
| Zone66.Open | src/fmt-map-zone66.cpp:125-174 | the code of every cell; short level files are filled up, short table files are an error |
| Zone66.TableReadBack | src/fmt-map-zone66.cpp:139-157 | every dictionary entry is found at its first place, cut to 16 bits |
| Zone66.TableLookup | src/fmt-map-zone66.cpp:139-174 | each byte stands for the mapping in its place of any table that has so many, else for the default code |
| Zone66.TableSizeExactly | src/fmt-map-zone66.cpp:139-150 | a table that claims more than 256 mappings is read as one of 256 |
| Zone66.CutLevel | src/fmt-map-zone66.cpp:159-174 | a level file cut short reads like one filled up with zeros, and bytes past its end do not count |
| Zone66.RoundTrip | src/fmt-map-zone66.cpp:125-281 | every cell comes back with its last item's code, or the first item's if it has none |
| Zone66.LayerExact | src/fmt-map-zone66.cpp:125-281 | a layer comes back if and only if it has one item for every cell, in reading order, with 16-bit codes |
| Zone66.EmptyCell | src/fmt-map-zone66.cpp:125-281 | a cell without an item comes back empty if and only if there are no items or the first has the default code |
| Zone66.EmptyCellsFilled | src/fmt-map-zone66.cpp:222-255 | with one item on the map, every other cell is read from the two files with that item's code |
| Zone66.SaveAndReopen | src/fmt-map-zone66.cpp:125-281 | for items that pass the bounds check: too many codes is the only error, and otherwise the three statements above |
| BaseMapType.Stream.Write | src/base-maptype.cpp:56-57 | bytes are put over what is there and past the end |
| BaseMapType.PutReads | src/base-maptype.cpp:56-57 | what is at each place of a stream after bytes are put: these, what was there, or zeros in between |
| BaseMapType.PutTwice | src/base-maptype.cpp:56-57 | bytes put twice stand one after the other |
| BaseMapType.CutReads | src/base-maptype.cpp:54 | a stream cut to a length keeps its bytes, and is filled with zeros |
| BaseMapType.Overwritten | src/base-maptype.cpp:53-58 | a stream cut to a length and overwritten holds exactly the bytes, whatever was in it |
| BaseMapType.RunFormat | src/base-maptype.cpp:40-50 | a format's writer only changes its buffers, even if it throws half way |
| BaseMapType.PlainWriter | src/base-maptype.cpp:40-50 | a format that only puts bytes to a stream leaves them there, one after the other, whatever it does to other streams |
| BaseMapType.HeaderRewritten | src/base-maptype.cpp:40-50 | a format that seeks back to put a size in its header has the rest as it was |
| BaseMapType.CopyBack | src/base-maptype.cpp:61-70 | the target then holds the source's bytes, or what is left of it when a step fails |
| BaseMapType.Write | src/base-maptype.cpp:37-73 | if the format's writer throws, every stream of the caller is unchanged; if nothing fails, every stream holds exactly what was written for it, the last use counting for one given twice; if a stream fails, those before it are written, it is torn, the rest unchanged |
| BaseMapType.TornUnchanged | src/base-maptype.cpp:52-58 | a failed copy leaves a stream's bytes as they were if and only if it fails at once, or the length and the bytes already copied are the same |
| BaseMapType.PromiseKept | include/camoto/gamemaps/maptype.hpp:127-134 | for a failing stream the promise of unchanged streams is kept if and only if the streams before it already held their bytes and its own bytes are unchanged |

## Left out

- Grid.PaintInto: formats whose whole reader and writer are this one loop (Captain Comic, Dark Ages, Rockford, Hocus Pocus, Duke Nukem, Vinyl, Cosmo) are not modelled; neither is the Monster Bash foreground layer.
- Nukem2File.Write: codes outside 0 to 999 and 0 to 159, which the layers do not offer, and a width of zero are preconditions.
- Nukem2File.Open: says nothing about a section that is cut short by its own length field; the width zero, by which the code divides, is an error value.
- CrystalCavesTheorems.RoundTrip: that no part of an entry meets a cell of another (`Tidy`) is stated on the writer's scan, except for single-cell tiles and blocks, which always are so; where it fails the reader may still come to the same cells through another entry, so that `PartExact` is exact for each part but `Tidy` is only sufficient for a whole board; the lists of tiles are compared cell by cell, not as lists.
- CrystalCavesOpen.Open: the list of permitted items is not part of this model.
- WordRescue.Open: the product of width and height is unbounded, so that the overflow of levels of 2^31 cells is not modelled.
- WordRescueWrite.Write: layers whose buffers are of 2^31 bytes and more are a precondition, and what the whole reader makes of attribute layers of 0x8000 cells and more in width or height is left open; the attribute texts are not modelled.
- GodOfThunderFile.FillSlots: the fixed arrays of slots are lists of the slots in use; more than 16 actors or 30 objects on a screen, which overrun the arrays, are a precondition.
- SecretAgentOpen.Open: of the number on the first line only leading digits are read, where the code accepts any floating point number; the world map with its own table is not modelled, nor is the detector.
- SecretAgentTheorems.RoundTrip: as lists, only levels of single-cell codes are shown to come back; for all others `LevelExact` says what each cell shows.
- DangerousDave.WritePath: more than 128 points, which overrun the buffer before the check, are a precondition.
- SweeneyWrite.Write: sizes, states, links and flags of objects are written as constants, as in the code, and passed over by the reader; more than 65535 objects are left out of the theorems.
- MonsterBashSprites.Open: a name in a record is taken to end at its first zero byte; a record shorter than its fixed part is an error; the list of used sprites and the file names of the header are not modelled.
- Zone66.WriteTable: the scores and destruction flags after the mappings are zeros as in the code; their meaning is not modelled.
- BaseMapType.Write: with one stream given twice, what a failure of a stream leaves behind is not stated.
- Images, palettes, tile sets, lists of permitted items, attribute descriptions, `create` and file extensions are not modelled.
- Halloween Harry, Wacky Wheels and the remaining formats are not modelled.
