/** The file-pairing loop of load_data: walk the sorted image names, take for
    each the first sorted mask with the same splitext stem, skip images with
    no mask or with a file that does not load, and append the two decoded
    arrays to the images and masks lists. */
module Loading {
  import opened Wrappers
  import opened Text
  import opened Raster

  /** What cv2.imread(..., IMREAD_GRAYSCALE) returns: one byte per pixel. */
  type GreyImage = seq<seq<byte>>

  /** The position of the first mask whose splitext stem is stem, or
      |maskFiles| when there is none. */
  function FirstIndex(maskFiles: seq<string>, stem: string): (i: nat)
    ensures i <= |maskFiles|
    ensures forall k :: 0 <= k < i ==> Stem(maskFiles[k]) != stem
    ensures i < |maskFiles| ==> Stem(maskFiles[i]) == stem
  {
    if maskFiles == [] then 0
    else if Stem(maskFiles[0]) == stem then 0
    else
      var i := FirstIndex(maskFiles[1..], stem);
      assert forall k :: 1 <= k <= i ==> maskFiles[k] == maskFiles[1..][k - 1];
      i + 1
  }

  /** next((m for m in maskFiles if splitext(m)[0] == stem), None) */
  function FirstMatch(maskFiles: seq<string>, stem: string): Option<string>
  {
    var i := FirstIndex(maskFiles, stem);
    if i < |maskFiles| then Some(maskFiles[i]) else None
  }

  /** The mask load_data pairs with the image file img, or None when the
      image is skipped: no mask matches (`if not mask_file`, which also skips
      an empty name), or either file fails to load. */
  function PairFor(img: string, maskFiles: seq<string>, readImage: string -> Option<Image>,
                   readMask: string -> Option<GreyImage>): Option<string>
  {
    var m := FirstMatch(maskFiles, Stem(img));
    if m.None? || m.value == "" then None
    else if readImage(img).None? || readMask(m.value).None? then None
    else m
  }

  /** The (image, mask) name pairs whose arrays load_data appends, in order. */
  function Kept(imageFiles: seq<string>, maskFiles: seq<string>, readImage: string -> Option<Image>,
                readMask: string -> Option<GreyImage>): (r: seq<(string, string)>)
    ensures |r| <= |imageFiles|
    ensures forall k :: 0 <= k < |r| ==> readImage(r[k].0).Some? && readMask(r[k].1).Some?
  {
    if imageFiles == [] then []
    else
      var init := Kept(imageFiles[..|imageFiles| - 1], maskFiles, readImage, readMask);
      var img := imageFiles[|imageFiles| - 1];
      var m := PairFor(img, maskFiles, readImage, readMask);
      if m.Some? then init + [(img, m.value)] else init
  }

  /** load_data's loop. The listings are the sorted os.listdir results (a
      directory names each file once, so the order is strict) and
      the two imread calls are the functions readImage and readMask; the
      resize and the division by 255 are not part of this model, so the
      lists hold the decoded arrays. */
  method LoadData(imageFiles: seq<string>, maskFiles: seq<string>, readImage: string -> Option<Image>,
                  readMask: string -> Option<GreyImage>)
    returns (images: seq<Image>, masks: seq<GreyImage>)
    requires SortedStrict(imageFiles) && SortedStrict(maskFiles)
    ensures var kept := Kept(imageFiles, maskFiles, readImage, readMask);
      |images| == |kept| && |masks| == |kept| &&
      (forall k :: 0 <= k < |kept| ==> readImage(kept[k].0) == Some(images[k])) &&
      (forall k :: 0 <= k < |kept| ==> readMask(kept[k].1) == Some(masks[k]))
  {
    images, masks := [], [];
    ghost var kept: seq<(string, string)> := [];
    for i := 0 to |imageFiles|
      invariant kept == Kept(imageFiles[..i], maskFiles, readImage, readMask)
      invariant LoadedFrom(kept, images, masks, readImage, readMask)
    {
      var imgFile := imageFiles[i];
      var imgName := Stem(imgFile);
      var maskFile := FirstMatch(maskFiles, imgName);
      KeptStep(imageFiles, i, maskFiles, readImage, readMask, maskFile);
      if maskFile.None? || maskFile.value == "" {
        continue;
      }
      var image := readImage(imgFile);
      var mask := readMask(maskFile.value);
      if image.None? || mask.None? {
        continue;
      }
      LoadedAppend(kept, images, masks, readImage, readMask, (imgFile, maskFile.value), image.value, mask.value);
      images := images + [image.value];
      masks := masks + [mask.value];
      kept := kept + [(imgFile, maskFile.value)];
    }
    assert imageFiles[..|imageFiles|] == imageFiles;
  }

  /** images and masks hold, position by position, what the files of the
      kept pairs load to. */
  predicate LoadedFrom(kept: seq<(string, string)>, images: seq<Image>, masks: seq<GreyImage>,
                       readImage: string -> Option<Image>, readMask: string -> Option<GreyImage>)
  {
    |images| == |kept| && |masks| == |kept| &&
    (forall k :: 0 <= k < |kept| ==> readImage(kept[k].0) == Some(images[k])) &&
    (forall k :: 0 <= k < |kept| ==> readMask(kept[k].1) == Some(masks[k]))
  }

  lemma LoadedAppend(kept: seq<(string, string)>, images: seq<Image>, masks: seq<GreyImage>,
                     readImage: string -> Option<Image>, readMask: string -> Option<GreyImage>,
                     p: (string, string), image: Image, mask: GreyImage)
    requires LoadedFrom(kept, images, masks, readImage, readMask)
    requires readImage(p.0) == Some(image) && readMask(p.1) == Some(mask)
    ensures LoadedFrom(kept + [p], images + [image], masks + [mask], readImage, readMask)
  {
  }

  /** The loop's step, by the branch the loop takes on the next image. */
  lemma KeptStep(imageFiles: seq<string>, i: nat, maskFiles: seq<string>, readImage: string -> Option<Image>,
                 readMask: string -> Option<GreyImage>, maskFile: Option<string>)
    requires i < |imageFiles| && maskFile == FirstMatch(maskFiles, Stem(imageFiles[i]))
    ensures var before := Kept(imageFiles[..i], maskFiles, readImage, readMask);
      Kept(imageFiles[..i + 1], maskFiles, readImage, readMask) ==
        if maskFile.None? || maskFile.value == "" || readImage(imageFiles[i]).None? || readMask(maskFile.value).None?
        then before
        else before + [(imageFiles[i], maskFile.value)]
  {
    assert imageFiles[..i + 1][..i] == imageFiles[..i];
  }

  /** A pair is kept exactly when its image is listed, its mask is the first
      mask with the image's stem and is not empty, and both files load. */
  lemma {:induction false} KeptMembers(imageFiles: seq<string>, maskFiles: seq<string>,
                                       readImage: string -> Option<Image>, readMask: string -> Option<GreyImage>,
                                       img: string, mask: string)
    ensures (img, mask) in Kept(imageFiles, maskFiles, readImage, readMask) <==>
      img in imageFiles && PairFor(img, maskFiles, readImage, readMask) == Some(mask)
  {
    if imageFiles != [] {
      var init := imageFiles[..|imageFiles| - 1];
      KeptMembers(init, maskFiles, readImage, readMask, img, mask);
      assert imageFiles == init + [imageFiles[|imageFiles| - 1]];
    }
  }

  /** The mask paired with an image, described without FirstIndex: some
      listed, non-empty mask with the image's stem before which no mask has
      that stem, both files loading. */
  predicate IsPairedMask(img: string, mask: string, maskFiles: seq<string>, readImage: string -> Option<Image>,
                         readMask: string -> Option<GreyImage>)
  {
    mask != "" && readImage(img).Some? && readMask(mask).Some? &&
    exists i :: 0 <= i < |maskFiles| && maskFiles[i] == mask && Stem(mask) == Stem(img) &&
      forall k :: 0 <= k < i ==> Stem(maskFiles[k]) != Stem(img)
  }

  lemma PairForMeaning(img: string, mask: string, maskFiles: seq<string>, readImage: string -> Option<Image>,
                       readMask: string -> Option<GreyImage>)
    ensures PairFor(img, maskFiles, readImage, readMask) == Some(mask) <==>
      IsPairedMask(img, mask, maskFiles, readImage, readMask)
  {
    var i := FirstIndex(maskFiles, Stem(img));
    if IsPairedMask(img, mask, maskFiles, readImage, readMask) {
      var j :| 0 <= j < |maskFiles| && maskFiles[j] == mask && Stem(mask) == Stem(img) &&
        forall k :: 0 <= k < j ==> Stem(maskFiles[k]) != Stem(img);
      assert i == j;
    }
  }

  /** Every kept pair comes from the listings, has equal splitext stems, and
      its mask is the first sorted mask with that stem. */
  lemma KeptPairsMatch(imageFiles: seq<string>, maskFiles: seq<string>,
                       readImage: string -> Option<Image>, readMask: string -> Option<GreyImage>)
    ensures var kept := Kept(imageFiles, maskFiles, readImage, readMask);
      forall k :: 0 <= k < |kept| ==>
        kept[k].0 in imageFiles && IsPairedMask(kept[k].0, kept[k].1, maskFiles, readImage, readMask)
  {
    var kept := Kept(imageFiles, maskFiles, readImage, readMask);
    forall k | 0 <= k < |kept|
      ensures kept[k].0 in imageFiles && IsPairedMask(kept[k].0, kept[k].1, maskFiles, readImage, readMask)
    {
      assert kept[k] in kept;
      KeptMembers(imageFiles, maskFiles, readImage, readMask, kept[k].0, kept[k].1);
      PairForMeaning(kept[k].0, kept[k].1, maskFiles, readImage, readMask);
    }
  }

  /** Kept images follow the sorted order of the listing. */
  lemma {:induction false} KeptInOrder(imageFiles: seq<string>, maskFiles: seq<string>,
                                       readImage: string -> Option<Image>, readMask: string -> Option<GreyImage>)
    requires SortedStrict(imageFiles)
    ensures var kept := Kept(imageFiles, maskFiles, readImage, readMask);
      forall i, j :: 0 <= i < j < |kept| ==> StrLess(kept[i].0, kept[j].0)
  {
    if imageFiles != [] {
      var n := |imageFiles| - 1;
      var init := imageFiles[..n];
      var kept := Kept(init, maskFiles, readImage, readMask);
      KeptInOrder(init, maskFiles, readImage, readMask);
      forall k | 0 <= k < |kept| ensures StrLess(kept[k].0, imageFiles[n]) {
        assert kept[k] in kept;
        KeptMembers(init, maskFiles, readImage, readMask, kept[k].0, kept[k].1);
        var a :| 0 <= a < n && init[a] == kept[k].0;
        assert imageFiles[a] == kept[k].0;
      }
    }
  }

  /** Two image names with one stem share the first matching mask. */
  lemma MaskReuseExample(readImage: string -> Option<Image>, readMask: string -> Option<GreyImage>)
    requires forall n :: readImage(n).Some? && readMask(n).Some?
    ensures Kept(["a.jpg", "a.tif"], ["a.png"], readImage, readMask) == [("a.jpg", "a.png"), ("a.tif", "a.png")]
  {
    assert "a"[0] != '.';
    StemOfDottedName("a", ".jpg");
    StemOfDottedName("a", ".tif");
    StemOfDottedName("a", ".png");
    assert "a" + ".jpg" == "a.jpg" && "a" + ".tif" == "a.tif" && "a" + ".png" == "a.png";
    assert Stem("a.png") == "a" && Stem("a.jpg") == "a" && Stem("a.tif") == "a";
    assert FirstIndex(["a.png"], "a") == 0;
    assert PairFor("a.jpg", ["a.png"], readImage, readMask) == Some("a.png");
    assert PairFor("a.tif", ["a.png"], readImage, readMask) == Some("a.png");
    assert ["a.jpg", "a.tif"][..1] == ["a.jpg"];
    assert ["a.jpg"][..0] == [];
  }
}
