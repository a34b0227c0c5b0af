/**
 * The per-file operations (cip.py lines 22-69) with the image codec left
 * abstract: an image is known by its pixel dimensions, and a save is the
 * record of what would be written where. The configuration is passed
 * explicitly instead of being read from the global `args`.
 */
module Operations {
  import opened Results
  import opened PathNames

  /** JPEG save quality: the command line admits only 95 and 100. */
  type Quality = q: int | q == 95 || q == 100 witness 100

  /** The parsed command line (`init_args`, cip.py lines 8-19). */
  datatype Config = Config(
    depth: nat,
    resize: bool,
    convert: bool,
    compress: bool,
    update: bool,
    side: int,
    erase: bool,
    quality: Quality,
    paths: string)

  /** The configuration argparse builds when only the paths are given. */
  function DefaultConfig(paths: string): (c: Config)
    ensures c.depth == 0 && c.side == 2160 && c.quality == 100 && c.paths == paths
    ensures !c.resize && !c.convert && !c.compress && !c.update && !c.erase
  {
    Config(0, false, false, false, false, 2160, false, 100, paths)
  }

  /** Files up to this many bytes are never resized. */
  const SizeThreshold: nat := 1000000

  datatype Format = JPEG | PNG

  datatype Dimensions = Dimensions(width: nat, height: nat)

  function ShortSide(d: Dimensions): nat
  {
    if d.height <= d.width then d.height else d.width
  }

  /** `resize_condition`: the file is over a megabyte and its shorter side exceeds `side`. */
  predicate ResizeCondition(byteSize: nat, image: Dimensions, side: int)
  {
    byteSize > SizeThreshold && ShortSide(image) > side
  }

  /** Both dimensions halved, rounding down (`width//2`, `height//2`). */
  function Halved(d: Dimensions): (r: Dimensions)
    ensures 2 * r.width <= d.width <= 2 * r.width + 1
    ensures 2 * r.height <= d.height <= 2 * r.height + 1
  {
    Dimensions(d.width / 2, d.height / 2)
  }

  /** Halving both sides halves the shorter side. */
  lemma HalvedShortSide(d: Dimensions)
    ensures ShortSide(Halved(d)) == ShortSide(d) / 2
  {
  }

  /** The pixels an encoder call writes: as decoded, or converted to RGB first (`im.convert('RGB')`). */
  datatype Pixels = AsDecoded | Rgb

  /** What an encoder call writes: target name, format, quality (JPEG only), pixels and dimensions. */
  datatype Save = Save(target: string, format: Format, quality: Option<Quality>, pixels: Pixels, size: Dimensions)

  /**
   * `resize(infile, format)`: when eligible, the halved image is written back
   * over the same file (`file + ext`), with the quality only for JPEG;
   * otherwise nothing is written.
   */
  function Resize(infile: string, format: Format, byteSize: nat, image: Dimensions, cfg: Config): (r: Option<Save>)
    ensures r.Some? <==> byteSize > SizeThreshold && ShortSide(image) > cfg.side
    ensures r.Some? ==> r.value.target == infile && r.value.format == format && r.value.pixels == AsDecoded
    ensures r.Some? ==> 2 * r.value.size.width <= image.width <= 2 * r.value.size.width + 1
    ensures r.Some? ==> 2 * r.value.size.height <= image.height <= 2 * r.value.size.height + 1
    ensures r.Some? ==> (r.value.quality.Some? <==> format == JPEG)
    ensures r.Some? && format == JPEG ==> r.value.quality == Some(cfg.quality)
  {
    var (file, ext) := SplitExt(infile);
    if ResizeCondition(byteSize, image, cfg.side) then
      Some(Save(file + ext, format, if format == JPEG then Some(cfg.quality) else None, AsDecoded, Halved(image)))
    else
      None
  }

  /** The image after one resize run: halved when a save happened, unchanged otherwise. */
  function AfterResize(image: Dimensions, save: Option<Save>): Dimensions
  {
    if save.Some? then save.value.size else image
  }

  /** The dimensions after one resize run per entry of `byteSizes` (the file's size at each run). */
  function RepeatResize(infile: string, format: Format, byteSizes: seq<nat>, image: Dimensions, cfg: Config): Dimensions
    decreases |byteSizes|
  {
    if byteSizes == [] then image
    else
      var next := AfterResize(image, Resize(infile, format, byteSizes[0], image, cfg));
      RepeatResize(infile, format, byteSizes[1..], next, cfg)
  }

  /** Once the shorter side is at most `side`, every further run is a no-op. */
  lemma {:induction false} SmallImageStaysPut(infile: string, format: Format, byteSizes: seq<nat>, image: Dimensions, cfg: Config)
    requires ShortSide(image) <= cfg.side
    ensures RepeatResize(infile, format, byteSizes, image, cfg) == image
    decreases |byteSizes|
  {
    if byteSizes != [] {
      SmallImageStaysPut(infile, format, byteSizes[1..], image, cfg);
    }
  }

  /** Repeated runs never enlarge the image. */
  lemma {:induction false} RepeatNeverGrows(infile: string, format: Format, byteSizes: seq<nat>, image: Dimensions, cfg: Config)
    ensures RepeatResize(infile, format, byteSizes, image, cfg).width <= image.width
    ensures RepeatResize(infile, format, byteSizes, image, cfg).height <= image.height
    decreases |byteSizes|
  {
    if byteSizes != [] {
      var next := AfterResize(image, Resize(infile, format, byteSizes[0], image, cfg));
      RepeatNeverGrows(infile, format, byteSizes[1..], next, cfg);
    }
  }

  function Pow2(n: nat): (r: nat)
    ensures r >= 1
  {
    if n == 0 then 1 else 2 * Pow2(n - 1)
  }

  /**
   * While the file stays over the byte threshold, n runs with 2^n above the
   * shorter side bring the image to a size where resizing stops: the
   * shorter side is at most `side`, or it has reached 0.
   */
  lemma {:induction false} RepeatReachesThreshold(infile: string, format: Format, byteSizes: seq<nat>, image: Dimensions, cfg: Config)
    requires forall i :: 0 <= i < |byteSizes| ==> byteSizes[i] > SizeThreshold
    requires Pow2(|byteSizes|) > ShortSide(image)
    ensures var last := RepeatResize(infile, format, byteSizes, image, cfg);
      ShortSide(last) <= cfg.side || ShortSide(last) == 0
    decreases |byteSizes|
  {
    if byteSizes == [] {
    } else if ShortSide(image) <= cfg.side {
      SmallImageStaysPut(infile, format, byteSizes, image, cfg);
    } else {
      var next := Halved(image);
      assert Resize(infile, format, byteSizes[0], image, cfg).value.size == next;
      HalvedShortSide(image);
      assert Pow2(|byteSizes[1..]|) > ShortSide(next);
      RepeatReachesThreshold(infile, format, byteSizes[1..], next, cfg);
    }
  }

  // ---------------------------------------------------------------------
  // convert, delete_png, compress
  // ---------------------------------------------------------------------

  /** The save `convert` performs: RGB pixels written as `file + ".jpg"` at the configured quality. */
  function ConvertSave(infile: string, image: Dimensions, cfg: Config): Save
  {
    Save(Root(infile) + ".jpg", JPEG, Some(cfg.quality), Rgb, image)
  }

  /** The save `compress` performs: the same image written as `file + ".jpg"` at the configured quality. */
  function CompressSave(infile: string, image: Dimensions, cfg: Config): Save
  {
    Save(Root(infile) + ".jpg", JPEG, Some(cfg.quality), AsDecoded, image)
  }

  /** For an ordinary `.jpg` name, compression rewrites the file in place at the configured quality. */
  lemma CompressInPlace(stem: string, image: Dimensions, cfg: Config)
    requires OrdinaryStem(stem)
    ensures CompressSave(stem + ".jpg", image, cfg) == Save(stem + ".jpg", JPEG, Some(cfg.quality), AsDecoded, image)
  {
    SplitExtOrdinary(stem, ".jpg");
  }

  /** Converting an ordinary `.png` name writes an RGB JPEG of the same stem, whose own root is that stem. */
  lemma ConvertSameStem(stem: string, image: Dimensions, cfg: Config)
    requires OrdinaryStem(stem)
    ensures ConvertSave(stem + ".png", image, cfg) == Save(stem + ".jpg", JPEG, Some(cfg.quality), Rgb, image)
    ensures Root(ConvertSave(stem + ".png", image, cfg).target) == stem
  {
    SplitExtOrdinary(stem, ".png");
    SplitExtOrdinary(stem, ".jpg");
  }

  /** For a name made of dots before ".jpg", compression writes a second file next to it. */
  lemma CompressAllDotsName(image: Dimensions, cfg: Config)
    ensures CompressSave("..jpg", image, cfg).target == "..jpg.jpg"
  {
    SplitExtAllDots();
  }

  /** `delete_png(file)`: removes `file + ".png"` when it exists. */
  function DeletePng(files: set<string>, file: string): (r: set<string>)
    ensures r == files - {file + ".png"}
  {
    if file + ".png" in files then files - {file + ".png"} else files
  }

  /**
   * The names in the working directory after `convert(infile)`: the JPEG is
   * written, then, with `erase`, the PNG of the same root is deleted.
   */
  function ConvertFiles(files: set<string>, infile: string, erase: bool): (r: set<string>)
    ensures Root(infile) + ".jpg" in r
    ensures Root(infile) + ".png" in r <==> Root(infile) + ".png" in files && !erase
    ensures forall n :: n != Root(infile) + ".png" && n != Root(infile) + ".jpg" ==> (n in r <==> n in files)
  {
    var file := Root(infile);
    var saved := files + {file + ".jpg"};
    assert file + ".jpg" != file + ".png" by {
      assert (file + ".jpg")[|file| + 1] == 'j';
      assert (file + ".png")[|file| + 1] == 'p';
    }
    if erase && file + ".jpg" in saved then DeletePng(saved, file) else saved
  }

  /** For an ordinary `.png` name the erased file is the input itself. */
  lemma ConvertOrdinary(stem: string, files: set<string>, erase: bool)
    requires OrdinaryStem(stem)
    ensures stem + ".jpg" in ConvertFiles(files, stem + ".png", erase)
    ensures stem + ".png" in ConvertFiles(files, stem + ".png", erase) <==> stem + ".png" in files && !erase
  {
    SplitExtOrdinary(stem, ".png");
  }

  // ---------------------------------------------------------------------
  // update_filename
  // ---------------------------------------------------------------------

  /**
   * `update_filename(path, file)`: the new name is the last component of the
   * directory's path, an underscore, and the old name.
   */
  function UpdateFilename(path: string, file: string): (r: string)
    ensures |r| > |file| && r[|r| - |file| - 1..] == "_" + file
    ensures var fold := r[..|r| - |file| - 1];
      Sep !in fold && |fold| <= |path| && path[|path| - |fold|..] == fold &&
      (|fold| < |path| ==> path[|path| - |fold| - 1] == Sep)
  {
    var (addPath, fold) := PathSplit(path);
    var r := fold + "_" + file;
    assert r[..|r| - |file| - 1] == fold;
    assert r[|r| - |file| - 1..] == "_" + file;
    r
  }

  /** A directory path ending in a separator contributes an empty folder name. */
  lemma UpdateTrailingSeparator(path: string, file: string)
    requires |path| > 0 && path[|path| - 1] == Sep
    ensures UpdateFilename(path, file) == "_" + file
  {
    var r := UpdateFilename(path, file);
    var fold := r[..|r| - |file| - 1];
    assert |fold| == 0;
    assert r == fold + r[|r| - |file| - 1..];
  }

  /** The scenario `photos/` holding `a.jpg`: the file becomes `photos_a.jpg`. */
  lemma UpdatePhotos()
    ensures UpdateFilename("photos", "a.jpg") == "photos_a.jpg"
  {
    assert LastIndexOf("photos", Sep) == -1;
  }
}
