/** split_train_val: pair the two listings by position where the names agree
    before their first dot, shuffle the pairs in place, cut at int(N * p)
    and move each pair's two files to the train or validation directories. */
module TrainValSplit {
  import opened Text
  import opened Raster
  import opened Files

  /** (image file name, mask file name) */
  type Pair = (string, string)

  /** [(img, mask) for img, mask in zip(images, masks)
        if img.split('.')[0] == mask.split('.')[0]] */
  function PairByPosition(images: seq<string>, masks: seq<string>): (r: seq<Pair>)
    ensures |r| <= |images| && |r| <= |masks|
    ensures forall k :: 0 <= k < |r| ==> FirstDotPrefix(r[k].0) == FirstDotPrefix(r[k].1)
  {
    if |images| == 0 || |masks| == 0 then []
    else
      var rest := PairByPosition(images[1..], masks[1..]);
      if FirstDotPrefix(images[0]) == FirstDotPrefix(masks[0]) then [(images[0], masks[0])] + rest
      else rest
  }

  /** The guard compares only the text before the first dot: when the source
      stem holds a dot, an image tile and the mask tile of another origin
      at the same position are kept as a pair. */
  lemma FirstDotGuardExample()
    ensures PairByPosition(["a.b_0_0.jpg"], ["a.b_256_0.png"]) == [("a.b_0_0.jpg", "a.b_256_0.png")]
    ensures Stem("a.b_0_0.jpg") != Stem("a.b_256_0.png")
  {
    assert "a.b_0_0"[0] != '.' && "a.b_256_0"[0] != '.';
    StemOfDottedName("a.b_0_0", ".jpg");
    StemOfDottedName("a.b_256_0", ".png");
  }

  /** A pair is kept exactly when it sits at one position i of both listings
      and the two names agree before their first dot. */
  lemma {:induction false} PairByPositionMembers(images: seq<string>, masks: seq<string>, p: Pair)
    ensures p in PairByPosition(images, masks) <==>
      exists i :: 0 <= i < |images| && i < |masks| && images[i] == p.0 && masks[i] == p.1 &&
        FirstDotPrefix(p.0) == FirstDotPrefix(p.1)
  {
    if |images| > 0 && |masks| > 0 {
      PairByPositionMembers(images[1..], masks[1..], p);
      if exists i :: 0 <= i < |images| && i < |masks| && images[i] == p.0 && masks[i] == p.1 &&
                     FirstDotPrefix(p.0) == FirstDotPrefix(p.1) {
        var i :| 0 <= i < |images| && i < |masks| && images[i] == p.0 && masks[i] == p.1 &&
                 FirstDotPrefix(p.0) == FirstDotPrefix(p.1);
        if i > 0 {
          assert images[1..][i - 1] == p.0 && masks[1..][i - 1] == p.1;
        }
      }
      if p in PairByPosition(images[1..], masks[1..]) {
        var i :| 0 <= i < |images| - 1 && i < |masks| - 1 && images[1..][i] == p.0 && masks[1..][i] == p.1 &&
                 FirstDotPrefix(p.0) == FirstDotPrefix(p.1);
        assert images[i + 1] == p.0 && masks[i + 1] == p.1;
      }
    }
  }

  /** No two pairs share an image name or a mask name. */
  predicate Unrelated(ps: seq<Pair>)
  {
    forall i, j :: 0 <= i < |ps| && 0 <= j < |ps| && i != j ==> ps[i].0 != ps[j].0 && ps[i].1 != ps[j].1
  }

  /** Listings hold each name once, so the kept pairs share no file. */
  lemma {:induction false} PairByPositionUnrelated(images: seq<string>, masks: seq<string>)
    requires Distinct(images) && Distinct(masks)
    ensures Unrelated(PairByPosition(images, masks))
  {
    if |images| > 0 && |masks| > 0 {
      var rest := PairByPosition(images[1..], masks[1..]);
      PairByPositionUnrelated(images[1..], masks[1..]);
      forall k | 0 <= k < |rest| ensures rest[k].0 != images[0] && rest[k].1 != masks[0] {
        PairByPositionMembers(images[1..], masks[1..], rest[k]);
        assert rest[k] in rest;
      }
    }
  }

  /** random.shuffle runs |s| - 1 steps (none on an empty list). */
  function Steps(n: nat): nat
  {
    if n == 0 then 0 else n - 1
  }

  /** The list after k steps of random.shuffle: step k swaps x[i] and x[j],
      i = |s| - k, j = randbelow(i + 1). rand(i) is the number the random
      source draws at index i; its remainder mod i + 1 is randbelow's result. */
  function Shuffled<T>(s: seq<T>, rand: nat -> nat, k: nat): (r: seq<T>)
    requires k <= Steps(|s|)
    ensures |r| == |s|
  {
    if k == 0 then s
    else
      var i := |s| - k;
      Swap(Shuffled(s, rand, k - 1), i, rand(i) % (i + 1))
  }

  /** x[i], x[j] = x[j], x[i] */
  function Swap<T>(s: seq<T>, i: nat, j: nat): (r: seq<T>)
    requires i < |s| && j < |s|
    ensures |r| == |s|
  {
    seq(|s|, k requires 0 <= k < |s| => if k == i then s[j] else if k == j then s[i] else s[k])
  }

  lemma SwapMultiset<T>(s: seq<T>, i: nat, j: nat)
    requires i < |s| && j < |s|
    ensures multiset(Swap(s, i, j)) == multiset(s)
  {
    var t := s[i := s[j]][j := s[i]];
    assert Swap(s, i, j) == t;
    if i != j {
      var u := s[i := s[j]];
      assert u[j] == s[j];
      assert multiset(u) == multiset(s) - multiset{s[i]} + multiset{s[j]};
      assert multiset(t) == multiset(u) - multiset{s[j]} + multiset{s[i]};
      ReplaceBack(multiset(s), s[i], s[j]);
    }
  }

  /** Replacing a by b and then b by a gives the multiset back. */
  lemma ReplaceBack<T>(m: multiset<T>, a: T, b: T)
    requires a in m
    ensures m - multiset{a} + multiset{b} - multiset{b} + multiset{a} == m
  {
  }

  lemma SwapUnrelated(s: seq<Pair>, i: nat, j: nat)
    requires i < |s| && j < |s| && Unrelated(s)
    ensures Unrelated(Swap(s, i, j))
  {
    var t := s[i := s[j]][j := s[i]];
    forall p, q | 0 <= p < |t| && 0 <= q < |t| && p != q ensures t[p].0 != t[q].0 && t[p].1 != t[q].1 {
      var sp := if p == j then i else if p == i then j else p;
      var sq := if q == j then i else if q == i then j else q;
      assert t[p] == s[sp] && t[q] == s[sq];
    }
  }

  /** Shuffling permutes: the same pairs, each as often as before ... */
  lemma {:induction false} ShuffledPermutes<T>(s: seq<T>, rand: nat -> nat, k: nat)
    requires k <= Steps(|s|)
    ensures multiset(Shuffled(s, rand, k)) == multiset(s)
  {
    if k > 0 {
      ShuffledPermutes(s, rand, k - 1);
      var prev, i := Shuffled(s, rand, k - 1), |s| - k;
      var j := rand(i) % (i + 1);
      var cur := Shuffled(s, rand, k);
      assert cur == Swap(prev, i, j);
      SwapMultiset(prev, i, j);
      assert multiset(cur) == multiset(prev);
    } else {
      assert Shuffled(s, rand, k) == s;
    }
  }

  /** ... and no two pairs come to share a file. */
  lemma {:induction false} ShuffledUnrelated(s: seq<Pair>, rand: nat -> nat, k: nat)
    requires k <= Steps(|s|) && Unrelated(s)
    ensures Unrelated(Shuffled(s, rand, k))
  {
    if k > 0 {
      ShuffledUnrelated(s, rand, k - 1);
      var prev, i := Shuffled(s, rand, k - 1), |s| - k;
      var j := rand(i) % (i + 1);
      assert Shuffled(s, rand, k) == Swap(prev, i, j);
      SwapUnrelated(prev, i, j);
    }
  }

  /** random.shuffle(x), in place. */
  method Shuffle<T>(a: array<T>, rand: nat -> nat)
    modifies a
    ensures a[..] == Shuffled(old(a[..]), rand, Steps(a.Length))
  {
    ghost var s := a[..];
    var i := a.Length - 1;
    while i > 0
      invariant -1 <= i < a.Length && (a.Length > 0 ==> 0 <= i)
      invariant a[..] == Shuffled(s, rand, a.Length - 1 - i)
    {
      var j := rand(i) % (i + 1);
      a[i], a[j] := a[j], a[i];
      i := i - 1;
    }
  }

  /** int(N * p) for p = num / den, 0 < p < 1: the floor of N · num / den. */
  function SplitIndex(n: nat, num: nat, den: nat): (k: nat)
    requires 0 < num < den
    ensures k <= n
    ensures k * den <= n * num < (k + 1) * den
  {
    var k := n * num / den;
    assert n * num == k * den + (n * num) % den;
    MulMonotone(num, den, n);
    MulStrict(k, n + 1, den);
    k
  }

  /** The image names, and the mask names, of a list of pairs. */
  function Images(ps: seq<Pair>): set<string>
  {
    set k | 0 <= k < |ps| :: ps[k].0
  }

  function Masks(ps: seq<Pair>): set<string>
  {
    set k | 0 <= k < |ps| :: ps[k].1
  }

  /** Cutting a list at k: the two parts hold its elements between them and,
      when no two elements share a file, they share no file either. */
  lemma CutPartition(sh: seq<Pair>, k: nat)
    requires k <= |sh| && Unrelated(sh)
    ensures multiset(sh[..k]) + multiset(sh[k..]) == multiset(sh)
    ensures Images(sh[..k]) !! Images(sh[k..]) && Masks(sh[..k]) !! Masks(sh[k..])
  {
    assert sh[..k] + sh[k..] == sh;
    forall a, b | 0 <= a < k && 0 <= b < |sh| - k
      ensures sh[..k][a].0 != sh[k..][b].0 && sh[..k][a].1 != sh[k..][b].1
    {
      assert sh[..k][a] == sh[a] && sh[k..][b] == sh[k + b];
    }
  }

  /** train = shuffled[:k], val = shuffled[k:]: the two hold the shuffled
      pairs between them, each once, the train part has floor(N·p) of them,
      they share no file, and every pair still agrees before the first dot. */
  lemma SplitIsPartition(images: seq<string>, masks: seq<string>, rand: nat -> nat, num: nat, den: nat)
    requires Distinct(images) && Distinct(masks) && 0 < num < den
    ensures var paired := PairByPosition(images, masks);
      var shuffled := Shuffled(paired, rand, Steps(|paired|));
      var k := SplitIndex(|paired|, num, den);
      var train, val := shuffled[..k], shuffled[k..];
      && |train| * den <= |paired| * num < (|train| + 1) * den
      && |val| == |paired| - |train|
      && multiset(train) + multiset(val) == multiset(paired)
      && Images(train) !! Images(val) && Masks(train) !! Masks(val)
      && forall q :: q in train || q in val ==> FirstDotPrefix(q.0) == FirstDotPrefix(q.1)
  {
    var paired := PairByPosition(images, masks);
    var shuffled := Shuffled(paired, rand, Steps(|paired|));
    var k := SplitIndex(|paired|, num, den);
    PairByPositionUnrelated(images, masks);
    ShuffledPermutes(paired, rand, Steps(|paired|));
    ShuffledUnrelated(paired, rand, Steps(|paired|));
    CutPartition(shuffled, k);
    forall q | q in shuffled[..k] || q in shuffled[k..] ensures FirstDotPrefix(q.0) == FirstDotPrefix(q.1) {
      assert q in multiset(shuffled[..k]) + multiset(shuffled[k..]);
      assert q in multiset(paired);
    }
  }

  /** The files of m whose names are not in names. */
  function Without(m: Dir, names: set<string>): (r: Dir)
    ensures r.Keys == m.Keys - names
    ensures forall n :: n in r ==> r[n] == m[n]
  {
    map n | n in m && n !in names :: m[n]
  }

  /** dst after the files of src named in names have been moved into it;
      a moved file replaces a file of the same name. */
  function Transfer(dst: Dir, src: Dir, names: set<string>): (r: Dir)
    ensures r.Keys == dst.Keys + (names * src.Keys)
    ensures forall n :: n in names && n in src ==> r[n] == src[n]
    ensures forall n :: n in dst && (n !in names || n !in src) ==> r[n] == dst[n]
  {
    map n | n in dst.Keys + (names * src.Keys) :: if n in names && n in src then src[n] else dst[n]
  }

  /** The file system after the images named in I have been moved from
      imageSrc to imageDst and the masks named in M from maskSrc to maskDst. */
  function MovedFiles(dirs: map<string, Dir>, I: set<string>, M: set<string>, imageSrc: string, maskSrc: string,
                      imageDst: string, maskDst: string): map<string, Dir>
    requires imageSrc in dirs && maskSrc in dirs && imageDst in dirs && maskDst in dirs
  {
    dirs[imageSrc := Without(dirs[imageSrc], I)]
        [imageDst := Transfer(dirs[imageDst], dirs[imageSrc], I)]
        [maskSrc := Without(dirs[maskSrc], M)]
        [maskDst := Transfer(dirs[maskDst], dirs[maskSrc], M)]
  }

  /** The file system after the image and the mask of every pair of ps
      have been moved to their destination directories. */
  function MovedPairs(dirs: map<string, Dir>, ps: seq<Pair>, imageSrc: string, maskSrc: string,
                      imageDst: string, maskDst: string): map<string, Dir>
    requires imageSrc in dirs && maskSrc in dirs && imageDst in dirs && maskDst in dirs
  {
    MovedFiles(dirs, Images(ps), Masks(ps), imageSrc, maskSrc, imageDst, maskDst)
  }

  predicate FourDistinct(a: string, b: string, c: string, d: string)
  {
    a != b && a != c && a != d && b != c && b != d && c != d
  }

  lemma ImagesSnoc(ps: seq<Pair>, i: nat)
    requires i < |ps|
    ensures Images(ps[..i + 1]) == Images(ps[..i]) + {ps[i].0}
    ensures Masks(ps[..i + 1]) == Masks(ps[..i]) + {ps[i].1}
  {
    assert forall k :: 0 <= k < i ==> ps[..i + 1][k] == ps[..i][k];
    assert ps[..i + 1][i] == ps[i];
  }

  lemma WithoutSnoc(m: Dir, names: set<string>, x: string)
    ensures Without(m, names + {x}) == Without(m, names) - {x}
  {
  }

  lemma TransferSnoc(dst: Dir, src: Dir, names: set<string>, x: string)
    requires x in src && x !in names
    ensures x in Without(src, names)
    ensures Transfer(dst, src, names + {x}) == Transfer(dst, src, names)[x := Without(src, names)[x]]
  {
  }

  lemma MovedPairsEmpty(dirs: map<string, Dir>, imageSrc: string, maskSrc: string,
                        imageDst: string, maskDst: string)
    requires imageSrc in dirs && maskSrc in dirs && imageDst in dirs && maskDst in dirs
    requires FourDistinct(imageSrc, maskSrc, imageDst, maskDst)
    ensures MovedPairs(dirs, [], imageSrc, maskSrc, imageDst, maskDst) == dirs
  {
    assert Images([]) == {} && Masks([]) == {};
    assert Without(dirs[imageSrc], {}) == dirs[imageSrc];
    assert Without(dirs[maskSrc], {}) == dirs[maskSrc];
    assert Transfer(dirs[imageDst], dirs[imageSrc], {}) == dirs[imageDst];
    assert Transfer(dirs[maskDst], dirs[maskSrc], {}) == dirs[maskDst];
  }

  /** Moving one more image and one more mask, on the abstract state. */
  lemma MovedFilesStep(dirs: map<string, Dir>, I: set<string>, M: set<string>, img: string, mask: string,
                       imageSrc: string, maskSrc: string, imageDst: string, maskDst: string)
    requires imageSrc in dirs && maskSrc in dirs && imageDst in dirs && maskDst in dirs
    requires FourDistinct(imageSrc, maskSrc, imageDst, maskDst)
    requires img in dirs[imageSrc] && mask in dirs[maskSrc] && img !in I && mask !in M
    ensures var d := MovedFiles(dirs, I, M, imageSrc, maskSrc, imageDst, maskDst);
      img in d[imageSrc] && mask in Moved(d, imageSrc, imageDst, img)[maskSrc] &&
      MovedFiles(dirs, I + {img}, M + {mask}, imageSrc, maskSrc, imageDst, maskDst) ==
        Moved(Moved(d, imageSrc, imageDst, img), maskSrc, maskDst, mask)
  {
    var a, b := Without(dirs[imageSrc], I), Transfer(dirs[imageDst], dirs[imageSrc], I);
    var c, e := Without(dirs[maskSrc], M), Transfer(dirs[maskDst], dirs[maskSrc], M);
    var d := dirs[imageSrc := a][imageDst := b][maskSrc := c][maskDst := e];
    assert d[imageSrc] == a && d[imageDst] == b && d[maskSrc] == c && d[maskDst] == e;
    var d1 := Moved(d, imageSrc, imageDst, img);
    assert d1 == d[imageSrc := a - {img}][imageDst := b[img := a[img]]];
    assert d1[maskSrc] == c && d1[maskDst] == e;
    assert Moved(d1, maskSrc, maskDst, mask) ==
      d[imageSrc := a - {img}][imageDst := b[img := a[img]]][maskSrc := c - {mask}][maskDst := e[mask := c[mask]]];
    LastWritesWin(dirs, imageSrc, imageDst, maskSrc, maskDst, a, b, c, e,
                  a - {img}, b[img := a[img]], c - {mask}, e[mask := c[mask]]);
    WithoutSnoc(dirs[imageSrc], I, img);
    WithoutSnoc(dirs[maskSrc], M, mask);
    TransferSnoc(dirs[imageDst], dirs[imageSrc], I, img);
    TransferSnoc(dirs[maskDst], dirs[maskSrc], M, mask);
  }

  /** Rewriting the same four entries again leaves only the second writes. */
  lemma LastWritesWin<K, V>(m: map<K, V>, k1: K, k2: K, k3: K, k4: K, v1: V, v2: V, v3: V, v4: V,
                            w1: V, w2: V, w3: V, w4: V)
    ensures m[k1 := v1][k2 := v2][k3 := v3][k4 := v4][k1 := w1][k2 := w2][k3 := w3][k4 := w4] ==
      m[k1 := w1][k2 := w2][k3 := w3][k4 := w4]
  {
  }

  /** One step of the move loop. */
  lemma MovedPairsSnoc(dirs: map<string, Dir>, ps: seq<Pair>, i: nat, imageSrc: string, maskSrc: string,
                       imageDst: string, maskDst: string)
    requires imageSrc in dirs && maskSrc in dirs && imageDst in dirs && maskDst in dirs
    requires FourDistinct(imageSrc, maskSrc, imageDst, maskDst)
    requires i < |ps| && ps[i].0 in dirs[imageSrc] && ps[i].1 in dirs[maskSrc]
    requires ps[i].0 !in Images(ps[..i]) && ps[i].1 !in Masks(ps[..i])
    ensures var d := MovedPairs(dirs, ps[..i], imageSrc, maskSrc, imageDst, maskDst);
      ps[i].0 in d[imageSrc] && ps[i].1 in Moved(d, imageSrc, imageDst, ps[i].0)[maskSrc] &&
      MovedPairs(dirs, ps[..i + 1], imageSrc, maskSrc, imageDst, maskDst) ==
        Moved(Moved(d, imageSrc, imageDst, ps[i].0), maskSrc, maskDst, ps[i].1)
  {
    ImagesSnoc(ps, i);
    MovedFilesStep(dirs, Images(ps[..i]), Masks(ps[..i]), ps[i].0, ps[i].1, imageSrc, maskSrc, imageDst, maskDst);
  }

  /** The next pair of the loop is listed, and its files were not moved before. */
  lemma NextPairUnmoved(ps: seq<Pair>, i: nat)
    requires Unrelated(ps) && i < |ps|
    ensures ps[i].0 in Images(ps) && ps[i].1 in Masks(ps)
    ensures ps[i].0 !in Images(ps[..i]) && ps[i].1 !in Masks(ps[..i])
  {
    assert forall k :: 0 <= k < i ==> ps[..i][k] == ps[k];
  }

  /** for img, mask in ps: shutil.move(img) ; shutil.move(mask) */
  method MovePairs(fs: FileStore, ps: seq<Pair>, imageSrc: string, maskSrc: string,
                   imageDst: string, maskDst: string)
    requires imageSrc in fs.dirs && maskSrc in fs.dirs && imageDst in fs.dirs && maskDst in fs.dirs
    requires FourDistinct(imageSrc, maskSrc, imageDst, maskDst)
    requires Unrelated(ps)
    requires Images(ps) <= fs.dirs[imageSrc].Keys && Masks(ps) <= fs.dirs[maskSrc].Keys
    modifies fs
    ensures fs.dirs == MovedPairs(old(fs.dirs), ps, imageSrc, maskSrc, imageDst, maskDst)
  {
    ghost var d0 := fs.dirs;
    assert ps[..0] == [];
    MovedPairsEmpty(d0, imageSrc, maskSrc, imageDst, maskDst);
    for i := 0 to |ps|
      invariant fs.dirs == MovedPairs(d0, ps[..i], imageSrc, maskSrc, imageDst, maskDst)
    {
      var (img, mask) := ps[i];
      NextPairUnmoved(ps, i);
      MovedPairsSnoc(d0, ps, i, imageSrc, maskSrc, imageDst, maskDst);
      fs.Move(imageSrc, img, imageDst);
      fs.Move(maskSrc, mask, maskDst);
    }
    assert ps[..|ps|] == ps;
  }

  /** os.listdir: every file of the directory, each once, in some order. */
  ghost predicate Listing(files: seq<string>, dir: Dir)
  {
    Distinct(files) && forall n :: n in dir <==> n in files
  }

  /** split_train_val(source_image_dir, source_mask_dir, train_image_dir,
      train_mask_dir, val_image_dir, val_mask_dir, num / den). The listings
      and the random source are parameters; train and val are returned so
      that the result can be stated. */
  method SplitTrainVal(fs: FileStore, sourceImageDir: string, sourceMaskDir: string,
                       trainImageDir: string, trainMaskDir: string, valImageDir: string, valMaskDir: string,
                       imageFiles: seq<string>, maskFiles: seq<string>, num: nat, den: nat, rand: nat -> nat)
    returns (train: seq<Pair>, val: seq<Pair>)
    requires 0 < num < den
    requires FourDistinct(sourceImageDir, sourceMaskDir, trainImageDir, trainMaskDir)
    requires FourDistinct(sourceImageDir, sourceMaskDir, valImageDir, valMaskDir)
    requires trainImageDir != valImageDir && trainImageDir != valMaskDir
    requires trainMaskDir != valImageDir && trainMaskDir != valMaskDir
    requires sourceImageDir in fs.dirs && sourceMaskDir in fs.dirs
    requires Listing(imageFiles, fs.dirs[sourceImageDir]) && Listing(maskFiles, fs.dirs[sourceMaskDir])
    modifies fs
    ensures var paired := PairByPosition(imageFiles, maskFiles);
      train + val == Shuffled(paired, rand, Steps(|paired|)) &&
      |train| == SplitIndex(|paired|, num, den)
    ensures var d := WithDirectory(WithDirectory(WithDirectory(WithDirectory(old(fs.dirs),
                       trainImageDir), trainMaskDir), valImageDir), valMaskDir);
      fs.dirs == MovedPairs(MovedPairs(d, train, sourceImageDir, sourceMaskDir, trainImageDir, trainMaskDir),
                            val, sourceImageDir, sourceMaskDir, valImageDir, valMaskDir)
  {
    fs.CreateDirectory(trainImageDir);
    fs.CreateDirectory(trainMaskDir);
    fs.CreateDirectory(valImageDir);
    fs.CreateDirectory(valMaskDir);
    ghost var d := fs.dirs;
    assert d == WithDirectory(WithDirectory(WithDirectory(WithDirectory(old(fs.dirs),
                  trainImageDir), trainMaskDir), valImageDir), valMaskDir);
    assert d[sourceImageDir] == old(fs.dirs)[sourceImageDir] && d[sourceMaskDir] == old(fs.dirs)[sourceMaskDir];

    var paired := PairByPosition(imageFiles, maskFiles);
    var shuffled := ShuffledPairs(paired, rand);
    var splitIndex := SplitIndex(|paired|, num, den);
    train, val := shuffled[..splitIndex], shuffled[splitIndex..];
    assert train + val == shuffled;

    SplitReady(imageFiles, maskFiles, d[sourceImageDir], d[sourceMaskDir], rand, splitIndex);
    MoveSplit(fs, train, val, sourceImageDir, sourceMaskDir, trainImageDir, trainMaskDir, valImageDir, valMaskDir);
  }

  /** Cutting the shuffled pairs anywhere gives two lists whose moves are allowed. */
  lemma SplitReady(imageFiles: seq<string>, maskFiles: seq<string>, imageDir: Dir, maskDir: Dir,
                   rand: nat -> nat, k: nat)
    requires Listing(imageFiles, imageDir) && Listing(maskFiles, maskDir)
    requires k <= |PairByPosition(imageFiles, maskFiles)|
    ensures var paired := PairByPosition(imageFiles, maskFiles);
      var sh := Shuffled(paired, rand, Steps(|paired|));
      && Unrelated(sh[..k]) && Unrelated(sh[k..])
      && Images(sh[..k]) <= imageDir.Keys && Masks(sh[..k]) <= maskDir.Keys
      && Images(sh[k..]) <= imageDir.Keys - Images(sh[..k])
      && Masks(sh[k..]) <= maskDir.Keys - Masks(sh[..k])
  {
    var paired := PairByPosition(imageFiles, maskFiles);
    PairedFilesExist(imageFiles, maskFiles, imageDir, maskDir, rand);
    ShuffledUnrelated(paired, rand, Steps(|paired|));
    MovesAllowed(imageDir, maskDir, Shuffled(paired, rand, Steps(|paired|)), k);
  }

  /** The two move loops: train pairs first, then val pairs. */
  method MoveSplit(fs: FileStore, train: seq<Pair>, val: seq<Pair>, sourceImageDir: string, sourceMaskDir: string,
                   trainImageDir: string, trainMaskDir: string, valImageDir: string, valMaskDir: string)
    requires sourceImageDir in fs.dirs && sourceMaskDir in fs.dirs && trainImageDir in fs.dirs
    requires trainMaskDir in fs.dirs && valImageDir in fs.dirs && valMaskDir in fs.dirs
    requires FourDistinct(sourceImageDir, sourceMaskDir, trainImageDir, trainMaskDir)
    requires FourDistinct(sourceImageDir, sourceMaskDir, valImageDir, valMaskDir)
    requires Unrelated(train) && Unrelated(val)
    requires Images(train) <= fs.dirs[sourceImageDir].Keys && Masks(train) <= fs.dirs[sourceMaskDir].Keys
    requires Images(val) <= fs.dirs[sourceImageDir].Keys - Images(train)
    requires Masks(val) <= fs.dirs[sourceMaskDir].Keys - Masks(train)
    modifies fs
    ensures fs.dirs == MovedPairs(MovedPairs(old(fs.dirs), train, sourceImageDir, sourceMaskDir, trainImageDir, trainMaskDir),
                                  val, sourceImageDir, sourceMaskDir, valImageDir, valMaskDir)
  {
    ghost var d := fs.dirs;
    MovePairs(fs, train, sourceImageDir, sourceMaskDir, trainImageDir, trainMaskDir);
    assert fs.dirs[sourceImageDir] == Without(d[sourceImageDir], Images(train));
    assert fs.dirs[sourceMaskDir] == Without(d[sourceMaskDir], Masks(train));
    MovePairs(fs, val, sourceImageDir, sourceMaskDir, valImageDir, valMaskDir);
  }

  /** random.shuffle on a fresh list of the pairs. */
  method ShuffledPairs(paired: seq<Pair>, rand: nat -> nat) returns (shuffled: seq<Pair>)
    ensures shuffled == Shuffled(paired, rand, Steps(|paired|))
  {
    var a := new Pair[|paired|](i requires 0 <= i < |paired| => paired[i]);
    assert a[..] == paired;
    Shuffle(a, rand);
    shuffled := a[..];
  }

  /** The train moves find their files in the source directories, and so do the
      val moves after them, since no val file is a train file. */
  lemma MovesAllowed(imageDir: Dir, maskDir: Dir, sh: seq<Pair>, k: nat)
    requires k <= |sh| && Unrelated(sh)
    requires Images(sh) <= imageDir.Keys && Masks(sh) <= maskDir.Keys
    ensures Unrelated(sh[..k]) && Unrelated(sh[k..])
    ensures Images(sh[..k]) <= imageDir.Keys && Masks(sh[..k]) <= maskDir.Keys
    ensures Images(sh[k..]) <= imageDir.Keys - Images(sh[..k])
    ensures Masks(sh[k..]) <= maskDir.Keys - Masks(sh[..k])
  {
    CutPartition(sh, k);
    SubsetsOfCut(sh, k);
  }

  /** One move loop: the moved images and masks leave their source
      directories and arrive in their destinations with their contents; no
      other directory changes. */
  lemma MovedFilesContents(dirs: map<string, Dir>, I: set<string>, M: set<string>, imageSrc: string,
                           maskSrc: string, imageDst: string, maskDst: string)
    requires imageSrc in dirs && maskSrc in dirs && imageDst in dirs && maskDst in dirs
    requires FourDistinct(imageSrc, maskSrc, imageDst, maskDst)
    ensures var r := MovedFiles(dirs, I, M, imageSrc, maskSrc, imageDst, maskDst);
      r.Keys == dirs.Keys &&
      r[imageSrc].Keys == dirs[imageSrc].Keys - I && r[maskSrc].Keys == dirs[maskSrc].Keys - M &&
      (forall n :: n in r[imageSrc] ==> r[imageSrc][n] == dirs[imageSrc][n]) &&
      (forall n :: n in r[maskSrc] ==> r[maskSrc][n] == dirs[maskSrc][n]) &&
      r[imageDst].Keys == dirs[imageDst].Keys + (I * dirs[imageSrc].Keys) &&
      r[maskDst].Keys == dirs[maskDst].Keys + (M * dirs[maskSrc].Keys) &&
      (forall n :: n in I && n in dirs[imageSrc] ==> n in r[imageDst] && r[imageDst][n] == dirs[imageSrc][n]) &&
      (forall n :: n in M && n in dirs[maskSrc] ==> n in r[maskDst] && r[maskDst][n] == dirs[maskSrc][n]) &&
      (forall n :: n in dirs[imageDst] && n !in I ==> r[imageDst][n] == dirs[imageDst][n]) &&
      (forall n :: n in dirs[maskDst] && n !in M ==> r[maskDst][n] == dirs[maskDst][n]) &&
      (forall e :: e in dirs && e != imageSrc && e != maskSrc && e != imageDst && e != maskDst ==> r[e] == dirs[e])
  {
  }

  /** Where every file ends up after split_train_val's two move loops:
      each train pair in the train directories and each val pair in the val
      directories with the content it had in the source directories, the
      source directories left with exactly the unpaired files, and every
      other directory untouched. */
  lemma SplitFileFates(d: map<string, Dir>, train: seq<Pair>, val: seq<Pair>,
                       sourceImageDir: string, sourceMaskDir: string,
                       trainImageDir: string, trainMaskDir: string, valImageDir: string, valMaskDir: string)
    requires sourceImageDir in d && sourceMaskDir in d && trainImageDir in d && trainMaskDir in d
    requires valImageDir in d && valMaskDir in d
    requires FourDistinct(sourceImageDir, sourceMaskDir, trainImageDir, trainMaskDir)
    requires FourDistinct(sourceImageDir, sourceMaskDir, valImageDir, valMaskDir)
    requires trainImageDir != valImageDir && trainImageDir != valMaskDir
    requires trainMaskDir != valImageDir && trainMaskDir != valMaskDir
    requires Images(train) <= d[sourceImageDir].Keys && Masks(train) <= d[sourceMaskDir].Keys
    requires Images(val) <= d[sourceImageDir].Keys - Images(train)
    requires Masks(val) <= d[sourceMaskDir].Keys - Masks(train)
    ensures var f := MovedPairs(MovedPairs(d, train, sourceImageDir, sourceMaskDir, trainImageDir, trainMaskDir),
                                val, sourceImageDir, sourceMaskDir, valImageDir, valMaskDir);
      f.Keys == d.Keys &&
      f[sourceImageDir].Keys == d[sourceImageDir].Keys - Images(train) - Images(val) &&
      f[sourceMaskDir].Keys == d[sourceMaskDir].Keys - Masks(train) - Masks(val) &&
      (forall n :: n in f[sourceImageDir] ==> f[sourceImageDir][n] == d[sourceImageDir][n]) &&
      (forall n :: n in f[sourceMaskDir] ==> f[sourceMaskDir][n] == d[sourceMaskDir][n]) &&
      (forall e :: e in d && e !in {sourceImageDir, sourceMaskDir, trainImageDir, trainMaskDir, valImageDir, valMaskDir}
        ==> f[e] == d[e]) &&
      f[trainImageDir].Keys == d[trainImageDir].Keys + Images(train) &&
      f[trainMaskDir].Keys == d[trainMaskDir].Keys + Masks(train) &&
      f[valImageDir].Keys == d[valImageDir].Keys + Images(val) &&
      f[valMaskDir].Keys == d[valMaskDir].Keys + Masks(val) &&
      (forall n :: n in d[trainImageDir] && n !in Images(train) ==> f[trainImageDir][n] == d[trainImageDir][n]) &&
      (forall n :: n in d[trainMaskDir] && n !in Masks(train) ==> f[trainMaskDir][n] == d[trainMaskDir][n]) &&
      (forall n :: n in d[valImageDir] && n !in Images(val) ==> f[valImageDir][n] == d[valImageDir][n]) &&
      (forall n :: n in d[valMaskDir] && n !in Masks(val) ==> f[valMaskDir][n] == d[valMaskDir][n]) &&
      (forall n :: n in Images(train) ==> n in f[trainImageDir] && f[trainImageDir][n] == d[sourceImageDir][n]) &&
      (forall n :: n in Masks(train) ==> n in f[trainMaskDir] && f[trainMaskDir][n] == d[sourceMaskDir][n]) &&
      (forall n :: n in Images(val) ==> n in f[valImageDir] && f[valImageDir][n] == d[sourceImageDir][n]) &&
      (forall n :: n in Masks(val) ==> n in f[valMaskDir] && f[valMaskDir][n] == d[sourceMaskDir][n])
  {
    SplitSourceFates(d, train, val, sourceImageDir, sourceMaskDir, trainImageDir, trainMaskDir, valImageDir, valMaskDir);
    SplitTrainFates(d, train, val, sourceImageDir, sourceMaskDir, trainImageDir, trainMaskDir, valImageDir, valMaskDir);
    SplitValFates(d, train, val, sourceImageDir, sourceMaskDir, trainImageDir, trainMaskDir, valImageDir, valMaskDir);
  }

  /** The source directories and the directories split_train_val does not name. */
  lemma SplitSourceFates(d: map<string, Dir>, train: seq<Pair>, val: seq<Pair>,
                         sourceImageDir: string, sourceMaskDir: string,
                         trainImageDir: string, trainMaskDir: string, valImageDir: string, valMaskDir: string)
    requires sourceImageDir in d && sourceMaskDir in d && trainImageDir in d && trainMaskDir in d
    requires valImageDir in d && valMaskDir in d
    requires FourDistinct(sourceImageDir, sourceMaskDir, trainImageDir, trainMaskDir)
    requires FourDistinct(sourceImageDir, sourceMaskDir, valImageDir, valMaskDir)
    requires trainImageDir != valImageDir && trainImageDir != valMaskDir
    requires trainMaskDir != valImageDir && trainMaskDir != valMaskDir
    requires Images(train) <= d[sourceImageDir].Keys && Masks(train) <= d[sourceMaskDir].Keys
    requires Images(val) <= d[sourceImageDir].Keys - Images(train)
    requires Masks(val) <= d[sourceMaskDir].Keys - Masks(train)
    ensures var f := MovedPairs(MovedPairs(d, train, sourceImageDir, sourceMaskDir, trainImageDir, trainMaskDir),
                                val, sourceImageDir, sourceMaskDir, valImageDir, valMaskDir);
      f.Keys == d.Keys &&
      f[sourceImageDir].Keys == d[sourceImageDir].Keys - Images(train) - Images(val) &&
      f[sourceMaskDir].Keys == d[sourceMaskDir].Keys - Masks(train) - Masks(val) &&
      (forall n :: n in f[sourceImageDir] ==> f[sourceImageDir][n] == d[sourceImageDir][n]) &&
      (forall n :: n in f[sourceMaskDir] ==> f[sourceMaskDir][n] == d[sourceMaskDir][n]) &&
      (forall e :: e in d && e !in {sourceImageDir, sourceMaskDir, trainImageDir, trainMaskDir, valImageDir, valMaskDir}
        ==> f[e] == d[e])
  {
    var g := MovedPairs(d, train, sourceImageDir, sourceMaskDir, trainImageDir, trainMaskDir);
    MovedFilesContents(d, Images(train), Masks(train), sourceImageDir, sourceMaskDir, trainImageDir, trainMaskDir);
    MovedFilesContents(g, Images(val), Masks(val), sourceImageDir, sourceMaskDir, valImageDir, valMaskDir);
  }

  /** The train destination directories. */
  lemma SplitTrainFates(d: map<string, Dir>, train: seq<Pair>, val: seq<Pair>,
                        sourceImageDir: string, sourceMaskDir: string,
                        trainImageDir: string, trainMaskDir: string, valImageDir: string, valMaskDir: string)
    requires sourceImageDir in d && sourceMaskDir in d && trainImageDir in d && trainMaskDir in d
    requires valImageDir in d && valMaskDir in d
    requires FourDistinct(sourceImageDir, sourceMaskDir, trainImageDir, trainMaskDir)
    requires FourDistinct(sourceImageDir, sourceMaskDir, valImageDir, valMaskDir)
    requires trainImageDir != valImageDir && trainImageDir != valMaskDir
    requires trainMaskDir != valImageDir && trainMaskDir != valMaskDir
    requires Images(train) <= d[sourceImageDir].Keys && Masks(train) <= d[sourceMaskDir].Keys
    requires Images(val) <= d[sourceImageDir].Keys - Images(train)
    requires Masks(val) <= d[sourceMaskDir].Keys - Masks(train)
    ensures var f := MovedPairs(MovedPairs(d, train, sourceImageDir, sourceMaskDir, trainImageDir, trainMaskDir),
                                val, sourceImageDir, sourceMaskDir, valImageDir, valMaskDir);
      f[trainImageDir].Keys == d[trainImageDir].Keys + Images(train) &&
      f[trainMaskDir].Keys == d[trainMaskDir].Keys + Masks(train) &&
      (forall n :: n in d[trainImageDir] && n !in Images(train) ==> f[trainImageDir][n] == d[trainImageDir][n]) &&
      (forall n :: n in d[trainMaskDir] && n !in Masks(train) ==> f[trainMaskDir][n] == d[trainMaskDir][n]) &&
      (forall n :: n in Images(train) ==> n in f[trainImageDir] && f[trainImageDir][n] == d[sourceImageDir][n]) &&
      (forall n :: n in Masks(train) ==> n in f[trainMaskDir] && f[trainMaskDir][n] == d[sourceMaskDir][n])
  {
    var g := MovedPairs(d, train, sourceImageDir, sourceMaskDir, trainImageDir, trainMaskDir);
    MovedFilesContents(d, Images(train), Masks(train), sourceImageDir, sourceMaskDir, trainImageDir, trainMaskDir);
    MovedFilesContents(g, Images(val), Masks(val), sourceImageDir, sourceMaskDir, valImageDir, valMaskDir);
  }

  /** The val destination directories. */
  lemma SplitValFates(d: map<string, Dir>, train: seq<Pair>, val: seq<Pair>,
                      sourceImageDir: string, sourceMaskDir: string,
                      trainImageDir: string, trainMaskDir: string, valImageDir: string, valMaskDir: string)
    requires sourceImageDir in d && sourceMaskDir in d && trainImageDir in d && trainMaskDir in d
    requires valImageDir in d && valMaskDir in d
    requires FourDistinct(sourceImageDir, sourceMaskDir, trainImageDir, trainMaskDir)
    requires FourDistinct(sourceImageDir, sourceMaskDir, valImageDir, valMaskDir)
    requires trainImageDir != valImageDir && trainImageDir != valMaskDir
    requires trainMaskDir != valImageDir && trainMaskDir != valMaskDir
    requires Images(train) <= d[sourceImageDir].Keys && Masks(train) <= d[sourceMaskDir].Keys
    requires Images(val) <= d[sourceImageDir].Keys - Images(train)
    requires Masks(val) <= d[sourceMaskDir].Keys - Masks(train)
    ensures var f := MovedPairs(MovedPairs(d, train, sourceImageDir, sourceMaskDir, trainImageDir, trainMaskDir),
                                val, sourceImageDir, sourceMaskDir, valImageDir, valMaskDir);
      f[valImageDir].Keys == d[valImageDir].Keys + Images(val) &&
      f[valMaskDir].Keys == d[valMaskDir].Keys + Masks(val) &&
      (forall n :: n in d[valImageDir] && n !in Images(val) ==> f[valImageDir][n] == d[valImageDir][n]) &&
      (forall n :: n in d[valMaskDir] && n !in Masks(val) ==> f[valMaskDir][n] == d[valMaskDir][n]) &&
      (forall n :: n in Images(val) ==> n in f[valImageDir] && f[valImageDir][n] == d[sourceImageDir][n]) &&
      (forall n :: n in Masks(val) ==> n in f[valMaskDir] && f[valMaskDir][n] == d[sourceMaskDir][n])
  {
    var g := MovedPairs(d, train, sourceImageDir, sourceMaskDir, trainImageDir, trainMaskDir);
    MovedFilesContents(d, Images(train), Masks(train), sourceImageDir, sourceMaskDir, trainImageDir, trainMaskDir);
    MovedFilesContents(g, Images(val), Masks(val), sourceImageDir, sourceMaskDir, valImageDir, valMaskDir);
  }

  lemma SubsetsOfCut(sh: seq<Pair>, k: nat)
    requires k <= |sh|
    ensures Images(sh[..k]) <= Images(sh) && Images(sh[k..]) <= Images(sh)
    ensures Masks(sh[..k]) <= Masks(sh) && Masks(sh[k..]) <= Masks(sh)
    ensures Unrelated(sh) ==> Unrelated(sh[..k]) && Unrelated(sh[k..])
  {
    forall a | 0 <= a < k ensures sh[..k][a] == sh[a] { }
    forall b | 0 <= b < |sh| - k ensures sh[k..][b] == sh[k + b] { }
  }

  /** Every file the shuffled pairs name is in its source directory. */
  lemma PairedFilesExist(imageFiles: seq<string>, maskFiles: seq<string>, imageDir: Dir, maskDir: Dir,
                         rand: nat -> nat)
    requires Listing(imageFiles, imageDir) && Listing(maskFiles, maskDir)
    ensures var paired := PairByPosition(imageFiles, maskFiles);
      var sh := Shuffled(paired, rand, Steps(|paired|));
      Unrelated(paired) && Images(sh) <= imageDir.Keys && Masks(sh) <= maskDir.Keys
  {
    var paired := PairByPosition(imageFiles, maskFiles);
    var sh := Shuffled(paired, rand, Steps(|paired|));
    PairByPositionUnrelated(imageFiles, maskFiles);
    ShuffledPermutes(paired, rand, Steps(|paired|));
    forall k | 0 <= k < |sh| ensures sh[k].0 in imageDir && sh[k].1 in maskDir {
      assert sh[k] in multiset(paired);
      PairByPositionMembers(imageFiles, maskFiles, sh[k]);
    }
  }
}
