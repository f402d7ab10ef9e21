/**
 * The start-up check that every image in a list of directories has the size of
 * the first image met, stopping at the first image that differs.
 */
module InitialChecks {
  import opened Base
  import opened Text

  /** An image's size as the image library reports it: (width, height). */
  datatype Size = Size(width: nat, height: nat)

  /** A directory entry; `size` is only ever read for an image file. */
  datatype ImageFile = ImageFile(name: string, size: Size)

  /** The outcome: all images agree, or the run exits at the first image that does not. */
  datatype Verdict = AllSame | Mismatch(dir: nat, file: nat, expected: Size, found: Size)

  /** The name ends in .png, .jpg, .jpeg, .tif or .tiff, in any letter case. */
  predicate IsImageName(name: string)
  {
    var lower := Lower(name);
    EndsWith(lower, ".png") || EndsWith(lower, ".jpg") || EndsWith(lower, ".jpeg")
    || EndsWith(lower, ".tif") || EndsWith(lower, ".tiff")
  }

  /**
   * The sizes of the files of one directory listing that `isImage` accepts, in
   * listing order. The check itself uses `IsImageName`; the laws below hold for
   * any name test.
   */
  function DirSizes(files: seq<ImageFile>, isImage: string -> bool): (r: seq<Size>)
    ensures |r| <= |files|
  {
    if |files| == 0 then []
    else
      var last := files[|files| - 1];
      DirSizes(files[..|files| - 1], isImage) + if isImage(last.name) then [last.size] else []
  }

  /** The sizes of all accepted files, directory after directory. */
  function ImageSizes(dirs: seq<seq<ImageFile>>, isImage: string -> bool): seq<Size>
  {
    if |dirs| == 0 then [] else ImageSizes(dirs[..|dirs| - 1], isImage) + DirSizes(dirs[|dirs| - 1], isImage)
  }

  lemma {:induction false} DirSizesAppend(a: seq<ImageFile>, b: seq<ImageFile>, isImage: string -> bool)
    ensures DirSizes(a + b, isImage) == DirSizes(a, isImage) + DirSizes(b, isImage)
    decreases |b|
  {
    if |b| == 0 {
      assert a + b == a;
    } else {
      var b' := b[..|b| - 1];
      assert (a + b)[..|a + b| - 1] == a + b';
      assert (a + b)[|a + b| - 1] == b[|b| - 1];
      DirSizesAppend(a, b', isImage);
    }
  }

  lemma {:induction false} ImageSizesAppend(a: seq<seq<ImageFile>>, b: seq<seq<ImageFile>>, isImage: string -> bool)
    ensures ImageSizes(a + b, isImage) == ImageSizes(a, isImage) + ImageSizes(b, isImage)
    decreases |b|
  {
    if |b| == 0 {
      assert a + b == a;
    } else {
      var b', last := b[..|b| - 1], DirSizes(b[|b| - 1], isImage);
      assert (a + b)[..|a + b| - 1] == a + b';
      assert (a + b)[|a + b| - 1] == b[|b| - 1];
      assert ImageSizes(a + b, isImage) == ImageSizes(a + b', isImage) + last;
      assert ImageSizes(b, isImage) == ImageSizes(b', isImage) + last;
      ImageSizesAppend(a, b', isImage);
      assert ImageSizes(a, isImage) + ImageSizes(b', isImage) + last
          == ImageSizes(a, isImage) + (ImageSizes(b', isImage) + last);
    }
  }

  lemma DirSizesStep(files: seq<ImageFile>, f: nat, isImage: string -> bool)
    requires f < |files|
    ensures DirSizes(files[..f + 1], isImage) ==
      DirSizes(files[..f], isImage) + if isImage(files[f].name) then [files[f].size] else []
  {
    assert files[..f + 1][..f] == files[..f];
  }

  lemma ImageSizesStep(dirs: seq<seq<ImageFile>>, d: nat, isImage: string -> bool)
    requires d < |dirs|
    ensures ImageSizes(dirs[..d + 1], isImage) == ImageSizes(dirs[..d], isImage) + DirSizes(dirs[d], isImage)
  {
    assert dirs[..d + 1][..d] == dirs[..d];
  }

  /** The sizes seen up to and including the f-th file of the d-th directory begin the full list. */
  lemma SeenIsPrefix(dirs: seq<seq<ImageFile>>, d: nat, f: nat, isImage: string -> bool)
    requires d < |dirs| && f < |dirs[d]|
    ensures var seen := ImageSizes(dirs[..d], isImage) + DirSizes(dirs[d][..f + 1], isImage);
      |seen| <= |ImageSizes(dirs, isImage)| && seen == ImageSizes(dirs, isImage)[..|seen|]
  {
    assert dirs == dirs[..d + 1] + dirs[d + 1..];
    ImageSizesStep(dirs, d, isImage);
    ImageSizesAppend(dirs[..d + 1], dirs[d + 1..], isImage);
    assert dirs[d] == dirs[d][..f + 1] + dirs[d][f + 1..];
    DirSizesAppend(dirs[d][..f + 1], dirs[d][f + 1..], isImage);
  }

  /** All the sizes agree with the first one. */
  predicate AllAgree(sizes: seq<Size>)
  {
    forall k :: 0 <= k < |sizes| ==> sizes[k] == sizes[0]
  }

  /**
   * `v` reports the first image whose size differs from the first image's: every
   * image before it agrees with the first, and the full list continues with it.
   */
  predicate IsFirstMismatch(dirs: seq<seq<ImageFile>>, isImage: string -> bool, v: Verdict)
    requires v.Mismatch?
  {
    && v.dir < |dirs| && v.file < |dirs[v.dir]|
    && isImage(dirs[v.dir][v.file].name)
    && v.found == dirs[v.dir][v.file].size && v.found != v.expected
    && var seen := ImageSizes(dirs[..v.dir], isImage) + DirSizes(dirs[v.dir][..v.file], isImage);
       && |seen| > 0 && v.expected == seen[0]
       && (forall k :: 0 <= k < |seen| ==> seen[k] == v.expected)
       && |seen| < |ImageSizes(dirs, isImage)| && seen + [v.found] == ImageSizes(dirs, isImage)[..|seen| + 1]
  }

  lemma MismatchFound(dirs: seq<seq<ImageFile>>, isImage: string -> bool, d: nat, f: nat, expected: Size)
    requires d < |dirs| && f < |dirs[d]|
    requires isImage(dirs[d][f].name) && dirs[d][f].size != expected
    requires var seen := ImageSizes(dirs[..d], isImage) + DirSizes(dirs[d][..f], isImage);
      |seen| > 0 && AllEqual(seen, expected)
    ensures IsFirstMismatch(dirs, isImage, Mismatch(d, f, expected, dirs[d][f].size))
    ensures !AllAgree(ImageSizes(dirs, isImage))
  {
    var seen := ImageSizes(dirs[..d], isImage) + DirSizes(dirs[d][..f], isImage);
    DirSizesStep(dirs[d], f, isImage);
    SeenIsPrefix(dirs, d, f, isImage);
    assert ImageSizes(dirs, isImage)[|seen|] == dirs[d][f].size;
    assert ImageSizes(dirs, isImage)[0] == seen[0];
  }

  /** How the scan of one directory ended: on to the next one, or stopped at a file. */
  datatype DirScan = Next(reference: Option<Size>) | Stop(file: nat, expected: Size)

  /**
   * The body of the loop over directories: the image files of one listing are
   * compared with the reference size, which the first image met fixes. Ghost
   * `before` holds the sizes of the images met in earlier directories.
   */
  method ScanDirectory(files: seq<ImageFile>, reference: Option<Size>, ghost before: seq<Size>)
    returns (scan: DirScan)
    requires reference.None? <==> |before| == 0
    requires reference.Some? ==> AllEqual(before, reference.value)
    ensures scan.Next? ==>
      var all := before + DirSizes(files, IsImageName);
      && (scan.reference.None? <==> |all| == 0)
      && (scan.reference.Some? ==> AllEqual(all, scan.reference.value))
    ensures scan.Stop? ==> scan.file < |files|
    ensures scan.Stop? && scan.file < |files| ==>
      var seen := before + DirSizes(files[..scan.file], IsImageName);
      && (reference.Some? ==> scan.expected == reference.value)
      && IsImageName(files[scan.file].name) && files[scan.file].size != scan.expected
      && |seen| > 0 && AllEqual(seen, scan.expected)
  {
    var current := reference;
    ghost var here: seq<Size> := [];
    var f := 0;
    while f < |files|
      invariant 0 <= f <= |files|
      invariant here == DirSizes(files[..f], IsImageName)
      invariant current.None? <==> |before| + |here| == 0
      invariant reference.Some? ==> current == reference
      invariant current.Some? ==> AllEqual(before, current.value) && AllEqual(here, current.value)
    {
      var file := files[f];
      DirSizesStep(files, f, IsImageName);
      if IsImageName(file.name) {
        if current.None? {
          current := Some(file.size);
        } else if file.size != current.value {
          AllEqualAppend(before, here, current.value);
          return Stop(f, current.value);
        }
        here := here + [file.size];
      }
      f := f + 1;
    }
    assert files[..f] == files;
    assert here == DirSizes(files, IsImageName);
    if current.Some? {
      AllEqualAppend(before, here, current.value);
    }
    return Next(current);
  }

  /**
   * The check passes iff every image size equals the first one; on a mismatch it
   * names the first differing image, every image before it agreeing with the first,
   * and nothing after it has been looked at.
   */
  method CheckSameImageSizes(dirs: seq<seq<ImageFile>>) returns (v: Verdict)
    ensures v.AllSame? <==> AllAgree(ImageSizes(dirs, IsImageName))
    ensures v.Mismatch? ==> IsFirstMismatch(dirs, IsImageName, v)
  {
    var reference: Option<Size> := None;
    ghost var before: seq<Size> := [];
    var d := 0;
    while d < |dirs|
      invariant 0 <= d <= |dirs|
      invariant before == ImageSizes(dirs[..d], IsImageName)
      invariant reference.None? <==> |before| == 0
      invariant reference.Some? ==> AllEqual(before, reference.value)
    {
      var scan := ScanDirectory(dirs[d], reference, before);
      if scan.Stop? {
        MismatchFound(dirs, IsImageName, d, scan.file, scan.expected);
        return Mismatch(d, scan.file, scan.expected, dirs[d][scan.file].size);
      }
      ImageSizesStep(dirs, d, IsImageName);
      reference := scan.reference;
      before := before + DirSizes(dirs[d], IsImageName);
      d := d + 1;
    }
    assert dirs[..d] == dirs;
    if reference.Some? {
      assert AllAgree(before) by {
        forall k | 0 <= k < |before| ensures before[k] == before[0] {}
      }
    }
    return AllSame;
  }

  /** Every element equals `x`. */
  predicate AllEqual(s: seq<Size>, x: Size)
  {
    forall k :: 0 <= k < |s| ==> s[k] == x
  }

  lemma AllEqualAppend(a: seq<Size>, b: seq<Size>, x: Size)
    ensures AllEqual(a + b, x) <==> AllEqual(a, x) && AllEqual(b, x)
  {
    if AllEqual(a, x) && AllEqual(b, x) {
      forall k | 0 <= k < |a + b| ensures (a + b)[k] == x {
        if k >= |a| {
          assert (a + b)[k] == b[k - |a|];
        }
      }
    }
    if AllEqual(a + b, x) {
      forall k | 0 <= k < |a| ensures a[k] == x {
        assert (a + b)[k] == a[k];
      }
      forall k | 0 <= k < |b| ensures b[k] == x {
        assert (a + b)[|a| + k] == b[k];
      }
    }
  }

  /** The extension test ignores letter case: "A.TIF" is an image. */
  lemma UpperCaseImageName()
    ensures IsImageName("A.TIF")
  {
    assert Lower("A.TIF") == "a.tif";
  }

  /** "a.txt" is not an image. */
  lemma TextFileIsNotImage()
    ensures !IsImageName("a.txt")
  {
    assert Lower("a.txt")[1..] == ".txt";
  }
}
