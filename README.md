# AgriSeg U-Net preprocessing, modelled in Dafny

AgriSeg U-Net segments vegetation in drone orthomosaics. Before training, it
prepares the data on disk in three steps, and this project models those steps.

1. **Tiling.** `split_images` and `split_images_and_generate_masks` list a
   directory of images and keep the files with an image suffix that decode.
   Each image is cut into `tile_size × tile_size` tiles along a grid:
   `y` over `range(0, h, tile_size)` is the outer loop, `x` over
   `range(0, w, tile_size)` the inner one. Tiles that run past the edge are
   zero-padded. Each tile is written as `stem_x_y.jpg`. When masks are
   generated, a synthetic mask is also written as `stem_x_y.png`: the grey
   conversion of the tile, thresholded at `binarize_threshold` to 0/255.
2. **Train/validation split.** `split_train_val` pairs the two listings by
   position, keeping the pairs whose names agree before their first dot. It
   shuffles the pairs in place and cuts them at `int(N * p)`. It then moves
   each train pair, and after that each validation pair, into their
   directories.
3. **Loading for training.** The pairing loop of `load_data` walks the
   sorted image names. For each one it takes the first sorted mask with the
   same `os.path.splitext` stem. It skips images with no mask, or where either
   file fails to load. Otherwise it appends the two decoded arrays.

The project has these modules:

- `Text` (text.dfy): file names. Decimal rendering, `splitext`,
  `split('.')[0]`, the suffix filter, sort order, and the tile-name scheme
  with its injectivity.
- `Raster` (raster.dfy): pixels, images, the tile grid, the padded tile, and
  the grey/threshold mask.
- `Files` (files.dfy): the file system as a `FileStore` class whose `dirs`
  map is updated in place by `CreateDirectory`, `Write` (cv2.imwrite) and
  `Move` (shutil.move).
- `Tiling` and `TilingFacts` (tiling.dfy): the tiling loops as methods on the
  file store, proved against the functions `Emitted` and `SourcesEmitted`.
  Also the per-tile facts about the resulting files.
- `TrainValSplit` (split.dfy): pairing, the in-place Fisher–Yates shuffle on
  an array, the split index and the two move loops.
- `Loading` (loading.dfy): the `load_data` pairing loop and the first-match
  rule.

What the program reads from outside is passed in as parameters:

- `os.listdir` results, which `load_data` receives already sorted;
- what `cv2.imread` decodes, or `None`;
- the random source of `random.shuffle`, as a function `rand` whose value at
  `i` reduced modulo `i + 1` is the index `randbelow(i + 1)` draws.

The split proportion `p` is the fraction `num / den`. `main.py` passes a
tile size of 256 and a threshold of 128. The model keeps both as parameters.

## Model

| member | source | states |
|---|---|---|
| Text.Decimal | src/preprocessing.py:45 | `f"{x}"` of a non-negative int is a non-empty string of digits with no leading zero |
| Text.DecimalRoundTrip | src/preprocessing.py:45 | reading the digits back gives the number again, so the origin in a tile name can be recovered |
| Text.FirstDotPrefix | src/preprocessing.py:121 | `name.split('.')[0]` is a dot-free prefix of the name, followed by a dot or by the end of the name |
| Text.SplitExt | src/preprocessing.py:45 | `os.path.splitext`: stem + extension is the name; the extension is empty or one dot followed by no dot, and the stem is not all dots |
| Text.StemOfDottedName | src/utils.py:32 | a name made of a base holding a non-dot character and a one-dot extension splits into exactly that base and extension |
| Text.SortedIsDistinct | src/utils.py:28-29 | a strictly sorted listing names every file once |
| Text.TileNameInjective | src/preprocessing.py:45 | two names `stem_x_y.ext` are equal only when their stems and both coordinates are equal |
| Text.TileAndMaskShareStem | src/preprocessing.py:90-91 | the image tile and the mask tile of one origin both have the splitext stem `stem_x_y` |
| Text.TilePairFirstDotPrefix | src/preprocessing.py:121 | the image tile and mask tile of one origin agree before their first dot; when the source stem has no dot this text is their splitext stem |
| Raster.Mask | src/preprocessing.py:86-87 | the mask has the tile's shape, every value is 0 or 255, and a value is 255 exactly when the grey value exceeds the threshold |
| Raster.CeilDiv | src/preprocessing.py:36-37 | the number of values in `range(0, n, s)` is the least q with n <= q·s |
| Raster.RangeMembers | src/preprocessing.py:36-37 | the values of `range(0, n, s)` are exactly the multiples of s below n |
| Raster.RangeIncreasing | src/preprocessing.py:36-37 | `range(0, n, s)` is strictly increasing |
| Raster.OriginCount | src/preprocessing.py:36-37 | an h × w image has ceil(h/s) · ceil(w/s) tile origins |
| Raster.OriginsAreGridMultiples | src/preprocessing.py:36-37 | (x, y) is an origin exactly when x < w, y < h and both are multiples of s |
| Raster.OriginsRowMajor | src/preprocessing.py:36-37 | origins are visited row by row and left to right, each once |
| Raster.InteriorTileIsSlice | src/preprocessing.py:38 | a tile inside the image is the plain slice `image[y:y+s, x:x+s]` |
| Raster.PixelInItsTile | src/preprocessing.py:35-43 | the pixel (r, c) appears in the tile at its coordinates rounded down to multiples of s, at offset (r mod s, c mod s) |
| Raster.TileOfPixelUnique | src/preprocessing.py:35-37 | an origin whose tile reaches the pixel (r, c) is that rounded-down origin, so no two tiles overlap |
| Raster.TilesCoverImage | src/preprocessing.py:35-43 | every pixel lies in exactly one tile, the one at its coordinates rounded down to multiples of s, at offset (r mod s, c mod s) |
| Files.WithDirectory | src/preprocessing.py:7-15 | after `create_directory` the directory exists; existing directories keep their files, and a new one is empty |
| Files.CreateDirectoryIdempotent | src/utils.py:5-13 | creating a directory twice leaves the same file system as creating it once |
| Files.Written | src/preprocessing.py:46 | after a sequence of writes a directory holds its old files plus the written names |
| Files.WrittenAppend | src/preprocessing.py:46 | writing a + b is writing a, then b |
| Files.WrittenLookup | src/preprocessing.py:93-94 | with distinct names, each written name holds what was written under it, and the other files are untouched |
| Files.FileStore.CreateDirectory | src/utils.py:12-13 | the new state is `WithDirectory` of the old one |
| Files.FileStore.Write | src/preprocessing.py:46 | cv2.imwrite stores the data under the name in that directory only |
| Files.FileStore.Move | src/preprocessing.py:131 | shutil.move takes the file out of the source directory and puts it, with its content, into the destination |
| Tiling.CutTile | src/preprocessing.py:38-43 | the tile is s × s; in-image pixels are copied and the padding is black (the padded path fills a zeroed array in place) |
| Tiling.TileImage | src/preprocessing.py:35-46 | the nested y/x loops leave the file system that `Emitted` gives for all origins in visiting order |
| Tiling.TileRow | src/preprocessing.py:37-46 | the inner x loop writes the tiles of one row, in order |
| Tiling.WriteTile | src/preprocessing.py:77-94 | one origin: write the tile and, with a mask directory, its mask |
| Tiling.SourcesEmitted | src/preprocessing.py:27-33 | tiling the listing never adds or removes a directory (the file names it adds are stated by `TilingFacts.SourcesEmittedNames` and `TilingFacts.SourcesEmittedMaskNames`) |
| Tiling.TileSources | src/preprocessing.py:63-70 | the listing loop tiles the files that pass the suffix filter and load, and skips the rest |
| Tiling.SplitImages | src/preprocessing.py:17-47 | the output directory is created, then every listed image is tiled into it |
| Tiling.SplitImagesAndGenerateMasks | src/preprocessing.py:49-96 | both output directories are created, then every listed image is tiled, with masks |
| TilingFacts.TileWritesDistinct | src/preprocessing.py:90-91 | within one image no two tiles, and no two masks, get the same file name |
| TilingFacts.TileWritesNames | src/preprocessing.py:90-91 | one image writes exactly the tile names of its origins |
| TilingFacts.TiledImageFiles | src/preprocessing.py:72-94 | after one image: each `stem_x_y.jpg` holds the padded tile and each `stem_x_y.png` its binary mask; other files and directories are unchanged |
| TilingFacts.MaskPairsWithTile | src/preprocessing.py:86-91 | each mask has the same splitext stem as its tile, is s × s, is 0/255, and is 255 exactly where the tile's grey value exceeds the threshold |
| TilingFacts.SourcesEmittedNames | src/preprocessing.py:27-33 | a run adds to the output directory exactly the `.jpg` tile names of the files it could read; skipped files add nothing and do not stop the run |
| TilingFacts.SourcesEmittedMaskNames | src/preprocessing.py:63-70 | with masks, a run adds to the mask directory exactly the `.png` mask names of the files it could read; skipped files add nothing |
| TrainValSplit.PairByPosition | src/preprocessing.py:121 | the pairs are at most as many as either listing, and each agrees before the first dot |
| TrainValSplit.PairByPositionMembers | src/preprocessing.py:121 | a pair is kept exactly when its names sit at the same position of both listings and agree before their first dot |
| TrainValSplit.FirstDotGuardExample | src/preprocessing.py:121 | the guard keeps `a.b_0_0.jpg` with `a.b_256_0.png`, whose splitext stems differ |
| TrainValSplit.PairByPositionUnrelated | src/preprocessing.py:117-121 | listings that name each file once give pairs that share no image and no mask |
| TrainValSplit.ShuffledPermutes | src/preprocessing.py:124 | the shuffle is a permutation, and every pair keeps its multiplicity |
| TrainValSplit.ShuffledUnrelated | src/preprocessing.py:124 | after shuffling, no two pairs share a file |
| TrainValSplit.Shuffle | src/preprocessing.py:124 | the in-place swap loop from the last index down to 1 leaves the array as `Shuffled` |
| TrainValSplit.ShuffledPairs | src/preprocessing.py:124 | shuffling a fresh list of the pairs yields `Shuffled` of them |
| TrainValSplit.SplitIndex | src/preprocessing.py:125 | `int(N * p)` is the floor of N·num/den, at most N |
| TrainValSplit.CutPartition | src/preprocessing.py:126-127 | `[:k]` and `[k:]` hold the pairs between them and share no file |
| TrainValSplit.SplitIsPartition | src/preprocessing.py:121-127 | train has floor(N·p) pairs and val the rest; together they are the shuffled pairs, each once; they share no file; every pair agrees before the first dot |
| TrainValSplit.Without | src/preprocessing.py:131 | removing names keeps the other files with their contents |
| TrainValSplit.Transfer | src/preprocessing.py:131-132 | moved files arrive with their source content, and other destination files are kept |
| TrainValSplit.MovePairs | src/preprocessing.py:130-132 | the move loop moves each image and each mask of the list from source to destination |
| TrainValSplit.MovedFilesContents | src/preprocessing.py:130-136 | one move loop: the moved names leave the sources and arrive in the destinations with their contents; the files left in the sources and the destinations' earlier files are unchanged, and no other directory changes |
| TrainValSplit.SplitFileFates | src/preprocessing.py:130-136 | after both loops each train pair is in the train directories and each val pair in the val directories, with its original content; each destination gains exactly its moved names and keeps its earlier files; the sources keep only the unpaired files, with their content; other directories are unchanged |
| TrainValSplit.PairedFilesExist | src/preprocessing.py:117-124 | every shuffled pair names files that exist in the source directories |
| TrainValSplit.MovesAllowed | src/preprocessing.py:130-136 | the train moves find their files, and so do the val moves after them |
| TrainValSplit.MoveSplit | src/preprocessing.py:130-136 | the train loop and then the val loop leave the file system that moving the train pairs and then the val pairs gives |
| TrainValSplit.SplitTrainVal | src/preprocessing.py:98-136 | creates the four directories, pairs, shuffles and cuts at `int(N * p)`, then moves train and then val pairs; the final file system is stated exactly |
| Loading.FirstIndex | src/utils.py:34 | the position of the first mask whose splitext stem is the image's stem; no earlier mask has that stem |
| Loading.PairForMeaning | src/utils.py:34-48 | an image is paired with a mask exactly when that mask is listed, is non-empty, has the image's stem, is the earliest such mask, and both files load |
| Loading.Kept | src/utils.py:31-55 | every kept pair's two files loaded, and there are at most as many pairs as images |
| Loading.LoadData | src/utils.py:27-55 | given the two strictly sorted listings, the lists hold, position by position, what imread returned for the image and the mask of each kept pair, in order, so they have equal length |
| Loading.KeptMembers | src/utils.py:31-48 | a pair is kept exactly when its image is listed and is paired with that mask |
| Loading.KeptPairsMatch | src/utils.py:32-34 | every kept pair has equal splitext stems, and its mask is the first mask of the listing with that stem (the sorted listing, when called from `LoadData`) |
| Loading.KeptInOrder | src/utils.py:28-31 | kept images follow the sorted order of the listing |
| Loading.MaskReuseExample | src/utils.py:34 | two images with one stem (`a.jpg`, `a.tif`) are both paired with the same mask `a.png` |

## Left out

- `src/train.py`, `src/predict.py`, the model architecture, the shapefile export and the interactive menu of `main.py`. They are network training, inference and I/O, outside the preprocessing core.
- The `/ 255.0` normalisation, `cv2.resize`, `normalize_image` and `resize_image` in src/utils.py. They are floating-point and library code. `Loading.LoadData` returns the decoded arrays before resize.
- JPEG encoding is lossy. `Files.FileStore.Write` stores the tile exactly as computed. The PNG masks are lossless, so for them this matches.
- `Raster.Gray` uses OpenCV's fixed-point weights. The proofs use only its 0..255 range and the threshold rule on top of it.
- `Text.Lower` lower-cases ASCII letters only. Python's `str.lower()` also folds non-ASCII letters, and the model does not.
- `TrainValSplit.SplitIndex` computes the exact floor of N·num/den. The source multiplies by a float, which can round differently near an integer.
- `TrainValSplit.SplitTrainVal` requires 0 < p < 1, as `main.py` checks at main.py:45 before calling it. The function itself accepts any float.
- `TrainValSplit.SplitTrainVal` requires the six directories to be pairwise distinct and each listing to name every file of its directory once. `main.py` passes six distinct configured paths.
- `Tiling.SplitImagesAndGenerateMasks` requires the image and mask output directories to differ. The two files of an origin have different extensions, so one shared directory would also work in the source.
- `os.makedirs` also creates missing parent directories. The model treats directories as flat paths.
- Path joining and separators are not modelled: a file name is a key within one directory.
- Console messages (`print`) are not modelled. They are the only visible effect of the skip branches.
- Concurrency is not modelled; the code is single-threaded.
- `Files.FileStore.Write` always succeeds. `cv2.imwrite` reports a failure only by returning False, which the source ignores, so a failed tile or mask write is silently lost and the loop goes on; the model does not capture such lost writes.
- `Files.FileStore.Move` always succeeds. A failing `shutil.move` raises and aborts the run part-way; the model does not capture that partial state.
- The randomness of `random.shuffle` is not modelled. The draws are the parameter `rand`, so the proved facts hold for every sequence of draws.
