/** split_images and split_images_and_generate_masks: every listed image is
    cut into s × s tiles on the grid of origins (y outer, x inner); short
    tiles are zero-padded; each tile is written as "stem_x_y.jpg" and, when
    masks are generated, its thresholded grey mask as "stem_x_y.png". */
module Tiling {
  import opened Wrappers
  import opened Text
  import opened Raster
  import opened Files

  /** One entry of os.listdir(image_dir), with what cv2.imread returns for it
      (None when the file cannot be decoded). */
  datatype Source = Source(name: string, decoded: Option<Image>)

  /** cv2.imread yields arrays of one shape. */
  predicate ValidSources(srcs: seq<Source>)
  {
    forall k :: 0 <= k < |srcs| ==> srcs[k].decoded.Some? ==> srcs[k].decoded.value.Valid()
  }

  /** The file passes the suffix filter and loads, so it is tiled. */
  predicate Tiled(src: Source)
  {
    HasImageSuffix(src.name) && src.decoded.Some?
  }

  /** The array behind a padded tile, row by row. */
  function Contents(a: array2<Pixel>): (rows: seq<seq<Pixel>>)
    reads a
    ensures |rows| == a.Length0
    ensures forall i :: 0 <= i < a.Length0 ==> |rows[i]| == a.Length1
  {
    seq(a.Length0, i requires 0 <= i < a.Length0 reads a =>
      seq(a.Length1, j requires 0 <= j < a.Length1 reads a => a[i, j]))
  }

  /** image[y:y+s, x:x+s], zero-padded to s × s when it is short. */
  method CutTile(img: Image, x: nat, y: nat, s: nat) returns (tile: seq<seq<Pixel>>)
    requires img.Valid() && s > 0 && x < img.width && y < img.height
    ensures tile == Tile(img, x, y, s)
  {
    // the slice's shape, tile.shape[0] and tile.shape[1]
    var th := if y + s <= img.height then s else img.height - y;
    var tw := if x + s <= img.width then s else img.width - x;
    if th < s || tw < s {
      var padded := new Pixel[s, s]((i, j) => Black);
      // padded[:th, :tw, :] = slice
      for i := 0 to th
        invariant forall i', j' :: 0 <= i' < s && 0 <= j' < s ==>
          padded[i', j'] == if i' < i && j' < tw then img.px[y + i'][x + j'] else Black
      {
        for j := 0 to tw
          invariant forall i', j' :: 0 <= i' < s && 0 <= j' < s ==>
            padded[i', j'] ==
              if (i' < i && j' < tw) || (i' == i && j' < j) then img.px[y + i'][x + j'] else Black
        {
          padded[i, j] := img.px[y + i][x + j];
        }
      }
      tile := Contents(padded);
      forall i | 0 <= i < s ensures tile[i] == Tile(img, x, y, s)[i] {
        assert |tile[i]| == s;
      }
    } else {
      tile := seq(s, i requires 0 <= i < s => img.px[y + i][x .. x + s]);
      InteriorTileIsSlice(img, x, y, s);
    }
  }

  /** The image files written for the origins os, in order. */
  function TileWrites(img: Image, stem: string, s: nat, os: seq<(nat, nat)>): (ws: seq<(string, FileData)>)
    requires img.Valid()
    ensures |ws| == |os|
  {
    seq(|os|, k requires 0 <= k < |os| =>
      (TileName(stem, os[k].0, os[k].1, ".jpg"), Picture(Tile(img, os[k].0, os[k].1, s))))
  }

  /** The mask files written for the origins os, in order. */
  function MaskWrites(img: Image, stem: string, s: nat, t: int, os: seq<(nat, nat)>): (ws: seq<(string, FileData)>)
    requires img.Valid()
    ensures |ws| == |os|
  {
    seq(|os|, k requires 0 <= k < |os| =>
      (TileName(stem, os[k].0, os[k].1, ".png"), GreyPicture(Mask(Tile(img, os[k].0, os[k].1, s), t))))
  }

  /** The file system after the writes ws to imageDir and, with a mask
      directory, the writes ms to it. */
  function Emit(dirs: map<string, Dir>, imageDir: string, maskDir: Option<string>,
                ws: seq<(string, FileData)>, ms: seq<(string, FileData)>): (r: map<string, Dir>)
    requires imageDir in dirs && (maskDir.Some? ==> maskDir.value in dirs)
    ensures r.Keys == dirs.Keys
  {
    var d := dirs[imageDir := Written(dirs[imageDir], ws)];
    if maskDir.None? then d
    else d[maskDir.value := Written(d[maskDir.value], ms)]
  }

  /** The file system after the tiles (and, with a mask directory, the masks)
      of one image at the origins os have been written. */
  function Emitted(dirs: map<string, Dir>, img: Image, stem: string, imageDir: string,
                   maskDir: Option<string>, s: nat, t: int, os: seq<(nat, nat)>): (r: map<string, Dir>)
    requires img.Valid()
    requires imageDir in dirs && (maskDir.Some? ==> maskDir.value in dirs)
    ensures r.Keys == dirs.Keys
  {
    Emit(dirs, imageDir, maskDir, TileWrites(img, stem, s, os), MaskWrites(img, stem, s, t, os))
  }

  lemma WritesSnoc(img: Image, stem: string, s: nat, t: int, os: seq<(nat, nat)>, x: nat, y: nat)
    requires img.Valid()
    ensures TileWrites(img, stem, s, os + [(x, y)]) ==
      TileWrites(img, stem, s, os) + [(TileName(stem, x, y, ".jpg"), Picture(Tile(img, x, y, s)))]
    ensures MaskWrites(img, stem, s, t, os + [(x, y)]) ==
      MaskWrites(img, stem, s, t, os) + [(TileName(stem, x, y, ".png"), GreyPicture(Mask(Tile(img, x, y, s), t)))]
  {
  }

  lemma WrittenSnoc(m: Dir, ws: seq<(string, FileData)>, w: (string, FileData))
    ensures Written(m, ws + [w]) == Written(m, ws)[w.0 := w.1]
  {
    assert (ws + [w])[..|ws|] == ws;
  }

  /** Which directory each write lands in: the image writes in imageDir,
      the mask writes in maskDir, and nothing elsewhere. */
  lemma EmitShape(dirs: map<string, Dir>, imageDir: string, maskDir: Option<string>,
                  ws: seq<(string, FileData)>, ms: seq<(string, FileData)>)
    requires imageDir in dirs && (maskDir.Some? ==> maskDir.value in dirs && maskDir.value != imageDir)
    ensures var r := Emit(dirs, imageDir, maskDir, ws, ms);
      && r[imageDir] == Written(dirs[imageDir], ws)
      && (maskDir.Some? ==> r[maskDir.value] == Written(dirs[maskDir.value], ms))
      && (forall d :: d in dirs && d != imageDir && (maskDir.None? || d != maskDir.value) ==> r[d] == dirs[d])
  {
  }

  /** One more image write and one more mask write. */
  lemma EmitSnoc(dirs: map<string, Dir>, imageDir: string, maskDir: Option<string>,
                 ws: seq<(string, FileData)>, ms: seq<(string, FileData)>, w: (string, FileData), m: (string, FileData))
    requires imageDir in dirs && (maskDir.Some? ==> maskDir.value in dirs && maskDir.value != imageDir)
    ensures var d := Emit(dirs, imageDir, maskDir, ws, ms);
      var d' := d[imageDir := d[imageDir][w.0 := w.1]];
      Emit(dirs, imageDir, maskDir, ws + [w], ms + [m]) ==
        if maskDir.None? then d' else d'[maskDir.value := d'[maskDir.value][m.0 := m.1]]
  {
    WrittenSnoc(dirs[imageDir], ws, w);
    if maskDir.Some? {
      WrittenSnoc(dirs[maskDir.value], ms, m);
    }
  }

  lemma EmittedSnoc(dirs: map<string, Dir>, img: Image, stem: string, imageDir: string,
                    maskDir: Option<string>, s: nat, t: int, os: seq<(nat, nat)>, x: nat, y: nat)
    requires img.Valid()
    requires imageDir in dirs && (maskDir.Some? ==> maskDir.value in dirs && maskDir.value != imageDir)
    ensures var d := Emitted(dirs, img, stem, imageDir, maskDir, s, t, os);
      var tile := Tile(img, x, y, s);
      var d' := d[imageDir := d[imageDir][TileName(stem, x, y, ".jpg") := Picture(tile)]];
      Emitted(dirs, img, stem, imageDir, maskDir, s, t, os + [(x, y)]) ==
        if maskDir.None? then d'
        else d'[maskDir.value := d'[maskDir.value][TileName(stem, x, y, ".png") := GreyPicture(Mask(tile, t))]]
  {
    var tile := Tile(img, x, y, s);
    WritesSnoc(img, stem, s, t, os, x, y);
    EmitSnoc(dirs, imageDir, maskDir, TileWrites(img, stem, s, os), MaskWrites(img, stem, s, t, os),
             (TileName(stem, x, y, ".jpg"), Picture(tile)), (TileName(stem, x, y, ".png"), GreyPicture(Mask(tile, t))));
  }

  lemma GridSnoc(ys: seq<nat>, r: nat, xs: seq<nat>)
    requires r < |ys|
    ensures Grid(ys[..r + 1], xs) == Grid(ys[..r], xs) + Row(xs, ys[r])
  {
    assert ys[..r + 1][..r] == ys[..r] && xs[..|xs|] == xs;
  }

  /** The body of the inner loop: cut the tile at (x, y), write it and,
      with a mask directory, write its mask. */
  method WriteTile(fs: FileStore, ghost d0: map<string, Dir>, img: Image, stem: string, imageDir: string,
                   maskDir: Option<string>, s: nat, t: int, ghost os: seq<(nat, nat)>, x: nat, y: nat)
    requires img.Valid() && s > 0 && x < img.width && y < img.height
    requires imageDir in d0 && (maskDir.Some? ==> maskDir.value in d0 && maskDir.value != imageDir)
    requires fs.dirs == Emitted(d0, img, stem, imageDir, maskDir, s, t, os)
    modifies fs
    ensures fs.dirs == Emitted(d0, img, stem, imageDir, maskDir, s, t, os + [(x, y)])
  {
    var tile := CutTile(img, x, y, s);
    EmittedSnoc(d0, img, stem, imageDir, maskDir, s, t, os, x, y);
    fs.Write(imageDir, TileName(stem, x, y, ".jpg"), Picture(tile));
    if maskDir.Some? {
      fs.Write(maskDir.value, TileName(stem, x, y, ".png"), GreyPicture(Mask(tile, t)));
    }
  }

  lemma RowSnoc(os: seq<(nat, nat)>, xs: seq<nat>, c: nat, y: nat)
    requires c < |xs|
    ensures os + Row(xs[..c + 1], y) == os + Row(xs[..c], y) + [(xs[c], y)]
  {
    assert Row(xs[..c + 1], y) == Row(xs[..c], y) + [(xs[c], y)];
  }

  /** The inner loop: every x of range(0, w, s) on the row at y. */
  method TileRow(fs: FileStore, ghost d0: map<string, Dir>, img: Image, stem: string, imageDir: string,
                 maskDir: Option<string>, s: nat, t: int, ghost os: seq<(nat, nat)>, y: nat)
    requires img.Valid() && s > 0 && y < img.height
    requires imageDir in d0 && (maskDir.Some? ==> maskDir.value in d0 && maskDir.value != imageDir)
    requires fs.dirs == Emitted(d0, img, stem, imageDir, maskDir, s, t, os)
    modifies fs
    ensures fs.dirs == Emitted(d0, img, stem, imageDir, maskDir, s, t, os + Row(Range(img.width, s), y))
  {
    var xs := Range(img.width, s);
    ghost var done := os;
    assert os + Row(xs[..0], y) == os;
    for c := 0 to |xs|
      invariant done == os + Row(xs[..c], y)
      invariant fs.dirs == Emitted(d0, img, stem, imageDir, maskDir, s, t, done)
    {
      var x := xs[c];
      RangeMembers(img.width, s, x);
      WriteTile(fs, d0, img, stem, imageDir, maskDir, s, t, done, x, y);
      RowSnoc(os, xs, c, y);
      done := done + [(x, y)];
    }
    assert xs[..|xs|] == xs;
  }

  /** The nested y/x loop of one image: cut each tile, write it and, with a
      mask directory, write its mask. */
  method TileImage(fs: FileStore, img: Image, stem: string, imageDir: string,
                   maskDir: Option<string>, s: nat, t: int)
    requires img.Valid() && s > 0
    requires imageDir in fs.dirs
    requires maskDir.Some? ==> maskDir.value in fs.dirs && maskDir.value != imageDir
    modifies fs
    ensures fs.dirs == Emitted(old(fs.dirs), img, stem, imageDir, maskDir, s, t,
                               Origins(img.height, img.width, s))
  {
    ghost var d0 := fs.dirs;
    var ys := Range(img.height, s);
    var xs := Range(img.width, s);
    for r := 0 to |ys|
      invariant fs.dirs == Emitted(d0, img, stem, imageDir, maskDir, s, t, Grid(ys[..r], xs))
    {
      RangeMembers(img.height, s, ys[r]);
      TileRow(fs, d0, img, stem, imageDir, maskDir, s, t, Grid(ys[..r], xs), ys[r]);
      GridSnoc(ys, r, xs);
    }
    assert ys[..|ys|] == ys;
  }

  /** The file system after tiling every listed source in order; files that
      fail the suffix filter or do not load leave it as it was. */
  function SourcesEmitted(dirs: map<string, Dir>, srcs: seq<Source>, imageDir: string,
                          maskDir: Option<string>, s: nat, t: int): (r: map<string, Dir>)
    requires ValidSources(srcs) && s > 0
    requires imageDir in dirs && (maskDir.Some? ==> maskDir.value in dirs)
    ensures r.Keys == dirs.Keys
  {
    if srcs == [] then dirs
    else
      var init := srcs[..|srcs| - 1];
      var src := srcs[|srcs| - 1];
      assert ValidSources(init);
      var d := SourcesEmitted(dirs, init, imageDir, maskDir, s, t);
      if Tiled(src) then
        var img := src.decoded.value;
        Emitted(d, img, Stem(src.name), imageDir, maskDir, s, t, Origins(img.height, img.width, s))
      else d
  }

  /** The loop over os.listdir(image_dir) shared by both entry points. */
  method TileSources(fs: FileStore, sources: seq<Source>, imageDir: string,
                     maskDir: Option<string>, s: nat, t: int)
    requires ValidSources(sources) && s > 0
    requires imageDir in fs.dirs
    requires maskDir.Some? ==> maskDir.value in fs.dirs && maskDir.value != imageDir
    modifies fs
    ensures fs.dirs == SourcesEmitted(old(fs.dirs), sources, imageDir, maskDir, s, t)
  {
    ghost var d0 := fs.dirs;
    for i := 0 to |sources|
      invariant fs.dirs == SourcesEmitted(d0, sources[..i], imageDir, maskDir, s, t)
    {
      assert sources[..i + 1][..i] == sources[..i];
      var filename := sources[i].name;
      if HasImageSuffix(filename) {
        var image := sources[i].decoded;
        // an image that fails to load is reported and skipped
        if image.Some? {
          TileImage(fs, image.value, Stem(filename), imageDir, maskDir, s, t);
        }
      }
    }
    assert sources[..|sources|] == sources;
  }

  /** split_images(image_dir, output_dir, tile_size) */
  method SplitImages(fs: FileStore, sources: seq<Source>, outputDir: string, s: nat)
    requires ValidSources(sources) && s > 0
    modifies fs
    ensures var d := WithDirectory(old(fs.dirs), outputDir);
      fs.dirs == SourcesEmitted(d, sources, outputDir, None, s, 0)
  {
    fs.CreateDirectory(outputDir);
    TileSources(fs, sources, outputDir, None, s, 0);
  }

  /** split_images_and_generate_masks(image_dir, output_image_dir,
      output_mask_dir, tile_size, binarize_threshold) */
  method SplitImagesAndGenerateMasks(fs: FileStore, sources: seq<Source>, outputImageDir: string,
                                     outputMaskDir: string, s: nat, t: int)
    requires ValidSources(sources) && s > 0
    requires outputImageDir != outputMaskDir
    modifies fs
    ensures var d := WithDirectory(WithDirectory(old(fs.dirs), outputImageDir), outputMaskDir);
      fs.dirs == SourcesEmitted(d, sources, outputImageDir, Some(outputMaskDir), s, t)
  {
    fs.CreateDirectory(outputImageDir);
    fs.CreateDirectory(outputMaskDir);
    TileSources(fs, sources, outputImageDir, Some(outputMaskDir), s, t);
  }
}

/** What the tiling writes, stated per tile origin. */
module TilingFacts {
  import opened Wrappers
  import opened Text
  import opened Raster
  import opened Files
  import opened Tiling

  /** The names of the tiles of one image, with extension ext. */
  function TileNames(img: Image, stem: string, s: nat, ext: string): set<string>
    requires s > 0
  {
    set o | o in Origins(img.height, img.width, s) :: TileName(stem, o.0, o.1, ext)
  }

  /** Within one image, distinct origins give distinct file names. */
  lemma TileWritesDistinct(img: Image, stem: string, s: nat, t: int)
    requires img.Valid() && s > 0
    ensures DistinctNames(TileWrites(img, stem, s, Origins(img.height, img.width, s)))
    ensures DistinctNames(MaskWrites(img, stem, s, t, Origins(img.height, img.width, s)))
  {
    var os := Origins(img.height, img.width, s);
    OriginsRowMajor(img.height, img.width, s);
    forall i, j | 0 <= i < j < |os|
      ensures TileName(stem, os[i].0, os[i].1, ".jpg") != TileName(stem, os[j].0, os[j].1, ".jpg")
      ensures TileName(stem, os[i].0, os[i].1, ".png") != TileName(stem, os[j].0, os[j].1, ".png")
    {
      if TileName(stem, os[i].0, os[i].1, ".jpg") == TileName(stem, os[j].0, os[j].1, ".jpg") {
        TileNameInjective(stem, os[i].0, os[i].1, stem, os[j].0, os[j].1, ".jpg");
      }
      if TileName(stem, os[i].0, os[i].1, ".png") == TileName(stem, os[j].0, os[j].1, ".png") {
        TileNameInjective(stem, os[i].0, os[i].1, stem, os[j].0, os[j].1, ".png");
      }
    }
  }

  lemma TileWritesNames(img: Image, stem: string, s: nat, t: int)
    requires img.Valid() && s > 0
    ensures Names(TileWrites(img, stem, s, Origins(img.height, img.width, s))) == TileNames(img, stem, s, ".jpg")
    ensures Names(MaskWrites(img, stem, s, t, Origins(img.height, img.width, s))) == TileNames(img, stem, s, ".png")
  {
    var os := Origins(img.height, img.width, s);
    var ws := TileWrites(img, stem, s, os);
    var ms := MaskWrites(img, stem, s, t, os);
    forall n | n in TileNames(img, stem, s, ".jpg") ensures n in Names(ws) {
      var o :| o in os && n == TileName(stem, o.0, o.1, ".jpg");
      var k :| 0 <= k < |os| && os[k] == o;
      assert ws[k].0 == n;
    }
    forall n | n in TileNames(img, stem, s, ".png") ensures n in Names(ms) {
      var o :| o in os && n == TileName(stem, o.0, o.1, ".png");
      var k :| 0 <= k < |os| && os[k] == o;
      assert ms[k].0 == n;
    }
    forall n | n in Names(ws) ensures n in TileNames(img, stem, s, ".jpg") {
      var k :| 0 <= k < |ws| && ws[k].0 == n;
      assert os[k] in os;
    }
    forall n | n in Names(ms) ensures n in TileNames(img, stem, s, ".png") {
      var k :| 0 <= k < |ms| && ms[k].0 == n;
      assert os[k] in os;
    }
  }

  /** The image directory after one image's tiles are written. */
  lemma WrittenTiles(m: Dir, img: Image, stem: string, s: nat, t: int, x: nat, y: nat)
    requires img.Valid() && s > 0
    requires (x, y) in Origins(img.height, img.width, s)
    ensures var r := Written(m, TileWrites(img, stem, s, Origins(img.height, img.width, s)));
      && r.Keys == m.Keys + TileNames(img, stem, s, ".jpg")
      && TileName(stem, x, y, ".jpg") in r
      && r[TileName(stem, x, y, ".jpg")] == Picture(Tile(img, x, y, s))
      && (forall n :: n in m && n !in TileNames(img, stem, s, ".jpg") ==> r[n] == m[n])
  {
    var os := Origins(img.height, img.width, s);
    var ws := TileWrites(img, stem, s, os);
    TileWritesDistinct(img, stem, s, t);
    TileWritesNames(img, stem, s, t);
    WrittenLookup(m, ws);
    var k :| 0 <= k < |os| && os[k] == (x, y);
    assert ws[k] == (TileName(stem, x, y, ".jpg"), Picture(Tile(img, x, y, s)));
  }

  /** The mask directory after one image's masks are written. */
  lemma WrittenMasks(m: Dir, img: Image, stem: string, s: nat, t: int, x: nat, y: nat)
    requires img.Valid() && s > 0
    requires (x, y) in Origins(img.height, img.width, s)
    ensures var r := Written(m, MaskWrites(img, stem, s, t, Origins(img.height, img.width, s)));
      && r.Keys == m.Keys + TileNames(img, stem, s, ".png")
      && TileName(stem, x, y, ".png") in r
      && r[TileName(stem, x, y, ".png")] == GreyPicture(Mask(Tile(img, x, y, s), t))
      && (forall n :: n in m && n !in TileNames(img, stem, s, ".png") ==> r[n] == m[n])
  {
    var os := Origins(img.height, img.width, s);
    var ms := MaskWrites(img, stem, s, t, os);
    TileWritesDistinct(img, stem, s, t);
    TileWritesNames(img, stem, s, t);
    WrittenLookup(m, ms);
    var k :| 0 <= k < |os| && os[k] == (x, y);
    assert ms[k] == (TileName(stem, x, y, ".png"), GreyPicture(Mask(Tile(img, x, y, s), t)));
  }

  /** After one image is tiled, the image directory holds, for every origin,
      the padded tile under "stem_x_y.jpg"; the mask directory holds its
      binary mask under "stem_x_y.png"; other files and directories are
      as they were. */
  lemma TiledImageFiles(dirs: map<string, Dir>, img: Image, stem: string, imageDir: string,
                        maskDir: Option<string>, s: nat, t: int, x: nat, y: nat)
    requires img.Valid() && s > 0
    requires imageDir in dirs && (maskDir.Some? ==> maskDir.value in dirs && maskDir.value != imageDir)
    requires (x, y) in Origins(img.height, img.width, s)
    ensures var r := Emitted(dirs, img, stem, imageDir, maskDir, s, t, Origins(img.height, img.width, s));
      && r[imageDir].Keys == dirs[imageDir].Keys + TileNames(img, stem, s, ".jpg")
      && TileName(stem, x, y, ".jpg") in r[imageDir]
      && r[imageDir][TileName(stem, x, y, ".jpg")] == Picture(Tile(img, x, y, s))
      && (maskDir.Some? ==>
            && r[maskDir.value].Keys == dirs[maskDir.value].Keys + TileNames(img, stem, s, ".png")
            && TileName(stem, x, y, ".png") in r[maskDir.value]
            && r[maskDir.value][TileName(stem, x, y, ".png")] == GreyPicture(Mask(Tile(img, x, y, s), t))
            && (forall n :: n in dirs[maskDir.value] && n !in TileNames(img, stem, s, ".png") ==>
                  r[maskDir.value][n] == dirs[maskDir.value][n]))
      && (forall n :: n in dirs[imageDir] && n !in TileNames(img, stem, s, ".jpg") ==>
            r[imageDir][n] == dirs[imageDir][n])
      && (forall d :: d in dirs && d != imageDir && (maskDir.None? || d != maskDir.value) ==> r[d] == dirs[d])
  {
    var os := Origins(img.height, img.width, s);
    EmitShape(dirs, imageDir, maskDir, TileWrites(img, stem, s, os), MaskWrites(img, stem, s, t, os));
    WrittenTiles(dirs[imageDir], img, stem, s, t, x, y);
    if maskDir.Some? {
      WrittenMasks(dirs[maskDir.value], img, stem, s, t, x, y);
    }
  }

  /** Each image tile and its mask share the splitext stem "stem_x_y", so
      the loader pairs them; the mask is a 0/255 square of the tile's size. */
  lemma MaskPairsWithTile(img: Image, stem: string, s: nat, t: int, k: nat)
    requires img.Valid() && s > 0
    requires k < |Origins(img.height, img.width, s)|
    ensures var os := Origins(img.height, img.width, s);
      var w := TileWrites(img, stem, s, os)[k];
      var m := MaskWrites(img, stem, s, t, os)[k];
      && Stem(w.0) == Stem(m.0)
      && w.1.Picture? && m.1.GreyPicture?
      && |m.1.values| == s
      && (forall i :: 0 <= i < s ==> |m.1.values[i]| == s)
      && (forall i, j :: 0 <= i < s && 0 <= j < s ==>
            (m.1.values[i][j] == 255 <==> Gray(w.1.pixels[i][j]) as int > t) &&
            (m.1.values[i][j] == 0 || m.1.values[i][j] == 255))
  {
    var os := Origins(img.height, img.width, s);
    TileAndMaskShareStem(stem, os[k].0, os[k].1);
  }

  /** The names a run adds to the image directory: the tile names of every
      listed file that passes the suffix filter and loads. */
  function ProducedNames(srcs: seq<Source>, s: nat, ext: string): set<string>
    requires ValidSources(srcs) && s > 0
  {
    if srcs == [] then {}
    else
      var init := srcs[..|srcs| - 1];
      var src := srcs[|srcs| - 1];
      assert ValidSources(init);
      ProducedNames(init, s, ext) +
        (if Tiled(src) then TileNames(src.decoded.value, Stem(src.name), s, ext) else {})
  }

  /** The last listed file: tiled, or skipped. */
  lemma SourcesEmittedStep(dirs: map<string, Dir>, srcs: seq<Source>, imageDir: string,
                           maskDir: Option<string>, s: nat, t: int)
    requires ValidSources(srcs) && s > 0 && srcs != []
    requires imageDir in dirs && (maskDir.Some? ==> maskDir.value in dirs)
    ensures ValidSources(srcs[..|srcs| - 1])
    ensures var src := srcs[|srcs| - 1];
      var d := SourcesEmitted(dirs, srcs[..|srcs| - 1], imageDir, maskDir, s, t);
      var r := SourcesEmitted(dirs, srcs, imageDir, maskDir, s, t);
      && (!Tiled(src) ==> r == d)
      && (Tiled(src) ==>
            var img := src.decoded.value;
            var os := Origins(img.height, img.width, s);
            r == Emit(d, imageDir, maskDir, TileWrites(img, Stem(src.name), s, os),
                      MaskWrites(img, Stem(src.name), s, t, os)))
  {
  }

  lemma ProducedNamesStep(srcs: seq<Source>, s: nat, ext: string)
    requires ValidSources(srcs) && s > 0 && srcs != []
    ensures ValidSources(srcs[..|srcs| - 1])
    ensures var src := srcs[|srcs| - 1];
      ProducedNames(srcs, s, ext) == ProducedNames(srcs[..|srcs| - 1], s, ext) +
        (if Tiled(src) then TileNames(src.decoded.value, Stem(src.name), s, ext) else {})
  {
  }

  /** A run over the listing leaves the image directory with exactly its old
      files plus the tiles of the files it could read; skipped files add
      nothing and do not stop the run. */
  lemma {:induction false} SourcesEmittedNames(dirs: map<string, Dir>, srcs: seq<Source>, imageDir: string,
                                               maskDir: Option<string>, s: nat, t: int)
    requires ValidSources(srcs) && s > 0
    requires imageDir in dirs && (maskDir.Some? ==> maskDir.value in dirs && maskDir.value != imageDir)
    ensures SourcesEmitted(dirs, srcs, imageDir, maskDir, s, t)[imageDir].Keys ==
      dirs[imageDir].Keys + ProducedNames(srcs, s, ".jpg")
  {
    if srcs != [] {
      var init := srcs[..|srcs| - 1];
      var src := srcs[|srcs| - 1];
      ProducedNamesStep(srcs, s, ".jpg");
      SourcesEmittedNames(dirs, init, imageDir, maskDir, s, t);
      SourcesEmittedStep(dirs, srcs, imageDir, maskDir, s, t);
      if Tiled(src) {
        var img := src.decoded.value;
        var stem := Stem(src.name);
        var os := Origins(img.height, img.width, s);
        TileWritesNames(img, stem, s, t);
        EmitShape(SourcesEmitted(dirs, init, imageDir, maskDir, s, t), imageDir, maskDir,
                  TileWrites(img, stem, s, os), MaskWrites(img, stem, s, t, os));
      }
    }
  }

  /** Likewise the mask directory gains exactly the mask names. */
  lemma {:induction false} SourcesEmittedMaskNames(dirs: map<string, Dir>, srcs: seq<Source>, imageDir: string,
                                                   maskDir: string, s: nat, t: int)
    requires ValidSources(srcs) && s > 0
    requires imageDir in dirs && maskDir in dirs && maskDir != imageDir
    ensures SourcesEmitted(dirs, srcs, imageDir, Some(maskDir), s, t)[maskDir].Keys ==
      dirs[maskDir].Keys + ProducedNames(srcs, s, ".png")
  {
    if srcs != [] {
      var init := srcs[..|srcs| - 1];
      var src := srcs[|srcs| - 1];
      ProducedNamesStep(srcs, s, ".png");
      SourcesEmittedMaskNames(dirs, init, imageDir, maskDir, s, t);
      SourcesEmittedStep(dirs, srcs, imageDir, Some(maskDir), s, t);
      if Tiled(src) {
        var img := src.decoded.value;
        var stem := Stem(src.name);
        var os := Origins(img.height, img.width, s);
        TileWritesNames(img, stem, s, t);
        EmitShape(SourcesEmitted(dirs, init, imageDir, Some(maskDir), s, t), imageDir, Some(maskDir),
                  TileWrites(img, stem, s, os), MaskWrites(img, stem, s, t, os));
      }
    }
  }
}
