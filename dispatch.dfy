/**
 * Per-file dispatch (`process_image`, cip.py lines 71-92) as a plan of
 * abstract actions, its execution on the set of names in the working
 * directory, and the runner's choice of files (cip.py lines 143-151).
 */
module Dispatch {
  import opened Results
  import opened PathNames
  import opened Fnmatch
  import opened Os
  import opened Operations

  /** An image operation applied to the file being processed. */
  datatype ImageOp = ResizeOp(format: Format) | CompressOp | ConvertOp(erase: bool)

  datatype Rename = Rename(source: string, target: string)

  /**
   * What `process_image` does, in order: measure `infile`, apply `ops` to
   * it, measure `newSizeFrom`, then perform `rename` if present.
   */
  datatype Plan = Plan(infile: string, ops: seq<ImageOp>, newSizeFrom: string, rename: Option<Rename>)

  predicate IsJpg(name: string)
  {
    EndsWith(name, ".jpg")
  }

  predicate IsPng(name: string)
  {
    EndsWith(name, ".png")
  }

  /** `fnmatch(infile, "*.jpg")` and `fnmatch(infile, "*.png")` are these suffix tests. */
  lemma FnmatchIsSuffix(infile: string)
    ensures Matches(infile, JpgPattern) <==> IsJpg(infile)
    ensures Matches(infile, PngPattern) <==> IsPng(infile)
  {
    ImagePatterns(infile);
  }

  /** cip.py lines 75-84: the image operations, from two independent `fnmatch` tests. */
  function DispatchOps(cfg: Config, infile: string): seq<ImageOp>
  {
    var jpgOps :=
      if IsJpg(infile) then
        (if cfg.resize then [ResizeOp(JPEG)] else []) +
        (if !cfg.resize && cfg.compress then [CompressOp] else [])
      else [];
    var pngOps :=
      if IsPng(infile) then
        (if cfg.resize then [ResizeOp(PNG)] else []) +
        (if cfg.convert then [ConvertOp(cfg.erase)] else [])
      else [];
    jpgOps + pngOps
  }

  /** cip.py lines 85-89: the name the new size is read from. */
  function SizeSource(cfg: Config, infile: string): string
  {
    if cfg.convert then Root(infile) + ".jpg" else infile
  }

  /** cip.py lines 90-91: the rename `update_filename` performs. */
  function RenameStep(cfg: Config, path: string, source: string): Option<Rename>
  {
    if cfg.update then Some(Rename(source, UpdateFilename(path, source))) else None
  }

  /** `process_image(path, infile)` with the configuration passed explicitly. */
  function ProcessImage(cfg: Config, path: string, infile: string): (p: Plan)
    ensures p.infile == infile
  {
    Plan(infile, DispatchOps(cfg, infile), SizeSource(cfg, infile), RenameStep(cfg, path, infile))
  }

  /** The extension once per file, as a tagged value. */
  datatype Kind = Jpeg | Png | Other

  function KindOf(infile: string): Kind
  {
    if IsJpg(infile) then Jpeg else if IsPng(infile) then Png else Other
  }

  /** The decision table, one row per kind, matched exhaustively. */
  function TableOps(kind: Kind, cfg: Config): seq<ImageOp>
  {
    match kind
    case Jpeg => if cfg.resize then [ResizeOp(JPEG)] else if cfg.compress then [CompressOp] else []
    case Png => (if cfg.resize then [ResizeOp(PNG)] else []) + (if cfg.convert then [ConvertOp(cfg.erase)] else [])
    case Other => []
  }

  /** No name ends both in ".jpg" and in ".png". */
  lemma JpgPngDisjoint(name: string)
    ensures !(IsJpg(name) && IsPng(name))
  {
    FnmatchIsSuffix(name);
    PngJpgDisjoint(name);
  }

  /**
   * The two independent `if`s of `process_image` follow the table: a JPEG
   * with `resize` is only resized (compress is ignored), a PNG is resized
   * and then converted, and any other name gets no image operation.
   */
  lemma DispatchTable(cfg: Config, path: string, infile: string)
    ensures ProcessImage(cfg, path, infile).ops == TableOps(KindOf(infile), cfg)
  {
    JpgPngDisjoint(infile);
  }

  /** Where the new size is read from, and what is renamed. */
  lemma SizeAndRename(cfg: Config, path: string, infile: string)
    ensures cfg.convert ==> ProcessImage(cfg, path, infile).newSizeFrom == Root(infile) + ".jpg"
    ensures !cfg.convert ==> ProcessImage(cfg, path, infile).newSizeFrom == infile
    ensures ProcessImage(cfg, path, infile).rename.Some? <==> cfg.update
    ensures cfg.update ==> ProcessImage(cfg, path, infile).rename.value.source == infile
    ensures cfg.update ==> ProcessImage(cfg, path, infile).rename.value.target == UpdateFilename(path, infile)
  {
  }

  /** For an ordinary `.jpg` name the size is always read back from the file itself. */
  lemma JpgSizeFromItself(cfg: Config, path: string, stem: string)
    requires OrdinaryStem(stem)
    ensures ProcessImage(cfg, path, stem + ".jpg").newSizeFrom == stem + ".jpg"
  {
    SplitExtOrdinary(stem, ".jpg");
  }

  // ---------------------------------------------------------------------
  // Executing a plan on the names of the working directory
  // ---------------------------------------------------------------------

  /** One image operation; each opens `infile` first, which raises when it is missing. */
  function ApplyOp(files: set<string>, infile: string, op: ImageOp): (r: Result<set<string>, OsError>)
    ensures r.Ok? <==> infile in files
  {
    if infile !in files then Err(FileNotFound(infile))
    else
      match op
      case ResizeOp(_) => Ok(files)      // writes over `infile`, or writes nothing
      case CompressOp => Ok(files + {Root(infile) + ".jpg"})
      case ConvertOp(erase) => Ok(ConvertFiles(files, infile, erase))
  }

  function ApplyOps(files: set<string>, infile: string, ops: seq<ImageOp>): Result<set<string>, OsError>
    decreases |ops|
  {
    if ops == [] then Ok(files)
    else
      match ApplyOp(files, infile, ops[0])
      case Err(e) => Err(e)
      case Ok(next) => ApplyOps(next, infile, ops[1..])
  }

  /**
   * The names in the working directory after the plan, or the error that
   * stops the run: `os.stat` of a missing name, or `os.rename` of a
   * missing source. `os.rename` replaces an existing target.
   */
  function Execute(files: set<string>, p: Plan): Result<set<string>, OsError>
  {
    if p.infile !in files then Err(FileNotFound(p.infile))
    else
      match ApplyOps(files, p.infile, p.ops)
      case Err(e) => Err(e)
      case Ok(after) =>
        if p.newSizeFrom !in after then Err(FileNotFound(p.newSizeFrom))
        else
          match p.rename
          case None => Ok(after)
          case Some(rn) =>
            if rn.source !in after then Err(FileNotFound(rn.source))
            else Ok(after - {rn.source} + {rn.target})
  }

  /** A resize adds nothing but the save's target, which is `infile` itself. */
  lemma ResizeOpWritesSave(files: set<string>, infile: string, format: Format, byteSize: nat, image: Dimensions, cfg: Config)
    requires infile in files
    ensures var save := Resize(infile, format, byteSize, image, cfg);
      ApplyOp(files, infile, ResizeOp(format)) == Ok(if save.Some? then files + {save.value.target} else files)
  {
    var save := Resize(infile, format, byteSize, image, cfg);
    if save.Some? {
      assert files + {save.value.target} == files;
    }
  }

  /** A compression adds exactly the target of the save `compress` performs. */
  lemma CompressOpWritesSave(files: set<string>, infile: string, image: Dimensions, cfg: Config)
    requires infile in files
    ensures ApplyOp(files, infile, CompressOp) == Ok(files + {CompressSave(infile, image, cfg).target})
  {
  }

  /** A conversion adds the target of the save `convert` performs, then with `erase` drops the PNG. */
  lemma ConvertOpWritesSave(files: set<string>, infile: string, erase: bool, image: Dimensions, cfg: Config)
    requires infile in files
    ensures ApplyOp(files, infile, ConvertOp(erase)) ==
      Ok(files + {ConvertSave(infile, image, cfg).target} - (if erase then {Root(infile) + ".png"} else {}))
  {
    var saved := files + {Root(infile) + ".jpg"};
    assert ConvertSave(infile, image, cfg).target == Root(infile) + ".jpg";
    if erase {
      assert Root(infile) + ".jpg" in saved;
      assert ConvertFiles(files, infile, erase) == DeletePng(saved, Root(infile));
    } else {
      var none: set<string> := {};
      assert saved - none == saved;
      assert ConvertFiles(files, infile, erase) == saved;
    }
  }

  /** A single operation on a present input. */
  lemma ApplyOne(files: set<string>, infile: string, op: ImageOp)
    requires infile in files
    ensures ApplyOps(files, infile, [op]) == ApplyOp(files, infile, op)
  {
    assert [op][1..] == [];
  }

  /** A resize leaves the names as they are, so the operations after it see the same directory. */
  lemma ApplyAfterResize(files: set<string>, infile: string, format: Format, rest: seq<ImageOp>)
    requires infile in files
    ensures ApplyOps(files, infile, [ResizeOp(format)] + rest) == ApplyOps(files, infile, rest)
  {
    assert ([ResizeOp(format)] + rest)[1..] == rest;
  }

  /** A PNG's operations end in the conversion when `convert` is set. */
  lemma PngConvertOps(files: set<string>, cfg: Config, infile: string)
    requires IsPng(infile) && infile in files && cfg.convert
    ensures ApplyOps(files, infile, DispatchOps(cfg, infile)) == Ok(ConvertFiles(files, infile, cfg.erase))
  {
    JpgPngDisjoint(infile);
    var ops := DispatchOps(cfg, infile);
    ApplyOne(files, infile, ConvertOp(cfg.erase));
    if cfg.resize {
      assert ops == [ResizeOp(PNG)] + [ConvertOp(cfg.erase)];
      ApplyAfterResize(files, infile, PNG, [ConvertOp(cfg.erase)]);
    } else {
      assert ops == [ConvertOp(cfg.erase)];
    }
  }

  /** A missing input stops the run before anything is written. */
  lemma MissingInputFails(files: set<string>, cfg: Config, path: string, infile: string)
    requires infile !in files
    ensures Execute(files, ProcessImage(cfg, path, infile)) == Err(FileNotFound(infile))
  {
  }

  /** The operations on an ordinary `.jpg` name leave the names of the directory as they are. */
  lemma JpgOpsKeepNames(files: set<string>, cfg: Config, path: string, stem: string)
    requires OrdinaryStem(stem) && stem + ".jpg" in files
    ensures ApplyOps(files, stem + ".jpg", DispatchOps(cfg, stem + ".jpg")) == Ok(files)
  {
    var infile := stem + ".jpg";
    SplitExtOrdinary(stem, ".jpg");
    assert Root(infile) + ".jpg" == infile;
    JpgPngDisjoint(infile);
    var ops := DispatchOps(cfg, infile);
    if cfg.resize {
      assert ops == [ResizeOp(JPEG)];
      ApplyOne(files, infile, ResizeOp(JPEG));
    } else if cfg.compress {
      assert ops == [CompressOp];
      ApplyOne(files, infile, CompressOp);
      assert files + {infile} == files;
    } else {
      assert ops == [];
    }
  }

  /** Every run on an ordinary `.jpg` name succeeds; it leaves the names alone or renames the file. */
  lemma JpgRun(files: set<string>, cfg: Config, path: string, stem: string)
    requires OrdinaryStem(stem) && stem + ".jpg" in files
    ensures var infile := stem + ".jpg";
      Execute(files, ProcessImage(cfg, path, infile)) ==
        Ok(if cfg.update then files - {infile} + {UpdateFilename(path, infile)} else files)
  {
    JpgOpsKeepNames(files, cfg, path, stem);
    JpgSizeFromItself(cfg, path, stem);
  }

  /**
   * Converting an ordinary `.png` without renaming: the JPEG of the same
   * stem exists afterwards, the PNG survives iff `erase` is unset, and no
   * other name changes.
   */
  lemma PngConvertRun(files: set<string>, cfg: Config, path: string, stem: string)
    requires OrdinaryStem(stem) && stem + ".png" in files
    requires cfg.convert && !cfg.update
    ensures Execute(files, ProcessImage(cfg, path, stem + ".png")).Ok?
    ensures var r := Execute(files, ProcessImage(cfg, path, stem + ".png")).value;
      stem + ".jpg" in r && (stem + ".png" in r <==> !cfg.erase) &&
      forall n :: n != stem + ".png" && n != stem + ".jpg" ==> (n in r <==> n in files)
  {
    var infile := stem + ".png";
    SplitExtOrdinary(stem, ".png");
    PngConvertOps(files, cfg, infile);
  }

  /** `convert`, `erase` and `update` together on an ordinary `.png`: the rename finds the PNG gone. */
  lemma PngConvertEraseUpdateFails(files: set<string>, cfg: Config, path: string, stem: string)
    requires OrdinaryStem(stem) && stem + ".png" in files
    requires cfg.convert && cfg.erase && cfg.update
    ensures Execute(files, ProcessImage(cfg, path, stem + ".png")) == Err(FileNotFound(stem + ".png"))
  {
    var infile := stem + ".png";
    SplitExtOrdinary(stem, ".png");
    PngConvertOps(files, cfg, infile);
    var converted := ConvertFiles(files, infile, true);
    assert infile !in converted;
    assert stem + ".jpg" in converted;
  }

  /**
   * With `convert`, a selected file that is neither `.jpg` nor `.png`
   * (glob admits "logo.svg") gets no operation, yet its new size is read
   * from `file + ".jpg"`; when that name does not exist the run stops.
   */
  lemma OtherConvertFails(files: set<string>, cfg: Config, path: string, infile: string)
    requires KindOf(infile) == Other && infile in files && Root(infile) + ".jpg" !in files
    requires cfg.convert
    ensures Execute(files, ProcessImage(cfg, path, infile)) == Err(FileNotFound(Root(infile) + ".jpg"))
  {
  }

  /** "logo.svg" is neither kind of image, and its root is "logo". */
  lemma LogoSvgFacts()
    ensures KindOf("logo.svg") == Other && Root("logo.svg") + ".jpg" == "logo.jpg"
  {
    assert OrdinaryStem("logo") by { assert "logo"[0] != ExtSep; }
    SplitExtOrdinary("logo", ".svg");
    assert "logo" + ".svg" == "logo.svg";
  }

  /** The concrete case: "logo.svg" passes the glob filter and stops a converting run. */
  lemma LogoSvgStopsConvert(cfg: Config, path: string)
    requires cfg.convert
    ensures GlobSelects("logo.svg")
    ensures Execute({"logo.svg"}, ProcessImage(cfg, path, "logo.svg")) == Err(FileNotFound("logo.jpg"))
  {
    GlobExamples();
    LogoSvgFacts();
    OtherConvertFails({"logo.svg"}, cfg, path, "logo.svg");
  }

  // ---------------------------------------------------------------------
  // The corrected dispatch
  // ---------------------------------------------------------------------

  /**
   * `process_image` as evidently intended: the new size and the rename
   * refer to the file the run leaves behind, which is the JPEG only for a
   * converted PNG.
   */
  function ProcessImageCorrected(cfg: Config, path: string, infile: string): (p: Plan)
    ensures p.infile == infile
  {
    var result := if IsPng(infile) && cfg.convert then Root(infile) + ".jpg" else infile;
    var plan := ProcessImage(cfg, path, infile);
    var rename := if cfg.update then Some(Rename(result, UpdateFilename(path, result))) else None;
    Plan(infile, plan.ops, result, rename)
  }

  /** The correction changes nothing for a run without `convert`. */
  lemma CorrectedAgrees(cfg: Config, path: string, infile: string)
    requires !cfg.convert
    ensures ProcessImageCorrected(cfg, path, infile) == ProcessImage(cfg, path, infile)
  {
  }

  /** Applying a plan's operations to a present input always succeeds and keeps it unless a PNG was erased. */
  lemma {:induction false} OpsKeepInput(files: set<string>, infile: string, ops: seq<ImageOp>)
    requires infile in files
    requires forall i :: 0 <= i < |ops| - 1 ==> !ops[i].ConvertOp?
    ensures ApplyOps(files, infile, ops).Ok?
    ensures (ops == [] || !ops[|ops| - 1].ConvertOp?) ==> infile in ApplyOps(files, infile, ops).value
    ensures ops != [] && ops[|ops| - 1].ConvertOp? ==> Root(infile) + ".jpg" in ApplyOps(files, infile, ops).value
    decreases |ops|
  {
    if ops != [] {
      var next := ApplyOp(files, infile, ops[0]).value;
      if |ops| == 1 {
        assert ops[1..] == [];
      } else {
        assert !ops[0].ConvertOp?;
        assert infile in next;
        OpsKeepInput(next, infile, ops[1..]);
      }
    }
  }

  /** In the table only the last operation can be a conversion, and it is one exactly for a converted PNG. */
  lemma TableConvertLast(kind: Kind, cfg: Config)
    ensures var ops := TableOps(kind, cfg);
      (forall i :: 0 <= i < |ops| - 1 ==> !ops[i].ConvertOp?) &&
      (ops != [] && ops[|ops| - 1].ConvertOp? <==> kind == Png && cfg.convert)
  {
  }

  /** A plan whose operations succeed and leave the name it measures and renames gets through. */
  lemma ExecuteOk(files: set<string>, p: Plan)
    requires p.infile in files && ApplyOps(files, p.infile, p.ops).Ok?
    requires p.newSizeFrom in ApplyOps(files, p.infile, p.ops).value
    requires p.rename.Some? ==> p.rename.value.source == p.newSizeFrom
    ensures Execute(files, p).Ok?
  {
  }

  /** The corrected plan measures and renames the name its operations leave behind. */
  lemma CorrectedLeavesResult(files: set<string>, cfg: Config, path: string, infile: string)
    requires infile in files
    ensures var p := ProcessImageCorrected(cfg, path, infile);
      ApplyOps(files, infile, p.ops).Ok? && p.newSizeFrom in ApplyOps(files, infile, p.ops).value
  {
    var p := ProcessImageCorrected(cfg, path, infile);
    var kind := KindOf(infile);
    DispatchTable(cfg, path, infile);
    JpgPngDisjoint(infile);
    assert kind == Png <==> IsPng(infile);
    assert p.ops == TableOps(kind, cfg);
    TableConvertLast(kind, cfg);
    OpsKeepInput(files, infile, p.ops);
  }

  /** With the correction, a run on a present file always gets through. */
  lemma CorrectedNeverFails(files: set<string>, cfg: Config, path: string, infile: string)
    requires infile in files
    ensures Execute(files, ProcessImageCorrected(cfg, path, infile)).Ok?
  {
    CorrectedLeavesResult(files, cfg, path, infile);
    ExecuteOk(files, ProcessImageCorrected(cfg, path, infile));
  }

  /** A renamed file keeps its old name as a suffix. */
  lemma RenameKeepsName(path: string, file: string)
    ensures EndsWith(UpdateFilename(path, file), file)
  {
    var r := UpdateFilename(path, file);
    assert r[|r| - |file|..] == (r[|r| - |file| - 1..])[1..];
  }

  /** A name ending in ".jpg" does not end in ".png". */
  lemma JpgNameIsNotPng(name: string, stem: string)
    requires EndsWith(name, ".jpg")
    ensures name != stem + ".png"
  {
    JpgPngDisjoint(name);
  }

  /** The folder-prefixed name of a `.jpg` still ends in ".jpg", so it is not the erased PNG. */
  lemma RenamedJpgIsNotPng(path: string, stem: string)
    ensures EndsWith(UpdateFilename(path, stem + ".jpg"), ".jpg")
    ensures UpdateFilename(path, stem + ".jpg") != stem + ".png"
  {
    var jpg := stem + ".jpg";
    var target := UpdateFilename(path, jpg);
    RenameKeepsName(path, jpg);
    assert EndsWith(jpg, ".jpg");
    assert target[|target| - 4..] == jpg[|jpg| - 4..];
    JpgNameIsNotPng(target, stem);
  }

  /** With the correction, `convert`, `erase` and `update` on a PNG rename the JPEG it produced. */
  lemma CorrectedPngConvertEraseUpdate(files: set<string>, cfg: Config, path: string, stem: string)
    requires OrdinaryStem(stem) && stem + ".png" in files
    requires cfg.convert && cfg.erase && cfg.update
    ensures var r := Execute(files, ProcessImageCorrected(cfg, path, stem + ".png"));
      r.Ok? && UpdateFilename(path, stem + ".jpg") in r.value &&
      stem + ".jpg" !in r.value && stem + ".png" !in r.value
  {
    var infile, jpg := stem + ".png", stem + ".jpg";
    SplitExtOrdinary(stem, ".png");
    PngConvertOps(files, cfg, infile);
    var converted := ConvertFiles(files, infile, true);
    assert jpg in converted && infile !in converted;
    var target := UpdateFilename(path, jpg);
    RenamedJpgIsNotPng(path, stem);
    assert |target| > |jpg|;
    var p := ProcessImageCorrected(cfg, path, infile);
    assert p.newSizeFrom == jpg && p.rename == Some(Rename(jpg, target));
    assert Execute(files, p) == Ok(converted - {jpg} + {target});
  }

  // ---------------------------------------------------------------------
  // The runner's choice of files
  // ---------------------------------------------------------------------

  /** cip.py line 145: the names of one listing that `glob` selects, in listing order. */
  function Selected(listing: seq<string>): (r: seq<string>)
    ensures |r| <= |listing|
    ensures forall i :: 0 <= i < |r| ==> GlobSelects(r[i]) && r[i] in listing
  {
    if listing == [] then []
    else
      var name := listing[|listing| - 1];
      Selected(listing[..|listing| - 1]) + (if GlobSelects(name) then [name] else [])
  }

  /** The filter keeps order: selecting from a concatenation concatenates the selections. */
  lemma {:induction false} SelectedAppend(a: seq<string>, b: seq<string>)
    ensures Selected(a + b) == Selected(a) + Selected(b)
    decreases |b|
  {
    if b == [] {
      assert a + b == a;
    } else {
      var init := b[..|b| - 1];
      assert (a + b)[..|a + b| - 1] == a + init;
      assert (a + b)[|a + b| - 1] == b[|b| - 1];
      SelectedAppend(a, init);
    }
  }

  /** cip.py lines 144-146: one plan per selected name of the listing, in listing order. */
  function DirectoryPlans(cfg: Config, path: string, listing: seq<string>): (r: seq<Plan>)
    ensures |r| == |Selected(listing)|
    ensures forall i :: 0 <= i < |r| ==> r[i] == ProcessImage(cfg, path, Selected(listing)[i])
    ensures forall i :: 0 <= i < |r| ==> GlobSelects(r[i].infile) && r[i].infile in listing
  {
    if listing == [] then []
    else
      var name := listing[|listing| - 1];
      var before := DirectoryPlans(cfg, path, listing[..|listing| - 1]);
      before + (if GlobSelects(name) then [ProcessImage(cfg, path, name)] else [])
  }

  /** Every name the filter selects gets a plan. */
  lemma {:induction false} DirectoryPlansComplete(cfg: Config, path: string, listing: seq<string>, name: string)
    requires name in listing && GlobSelects(name)
    ensures ProcessImage(cfg, path, name) in DirectoryPlans(cfg, path, listing)
  {
    var init := listing[..|listing| - 1];
    if name != listing[|listing| - 1] {
      assert listing == init + [listing[|listing| - 1]];
      assert name in init;
      DirectoryPlansComplete(cfg, path, init, name);
    }
  }

  /**
   * cip.py lines 149-151: an explicit file is processed from its own
   * directory, after `os.chdir` to it; a bare file name has the empty
   * directory, which `os.chdir` refuses.
   */
  function ExplicitFileContext(fs: FileTree, image: string): (r: Result<(string, string), OsError>)
    ensures r.Ok? <==> IsDir(fs, Head(image))
    ensures r.Ok? ==> r.value == (Head(image), LastComponent(image))
    ensures !r.Ok? ==> r == Err(NoSuchDirectory(Head(image)))
    ensures r.Ok? ==> Sep !in r.value.1 && r.value.1 == LastComponent(image) && r.value.0 != []
    ensures Sep !in image ==> r == Err(NoSuchDirectory([]))
  {
    var (path, file) := PathSplit(image);
    match Chdir(fs, path)
    case Err(e) => Err(e)
    case Ok(_) => Ok((path, file))
  }

  /** An image named as a directory joined with a plain name is processed as that name from that directory. */
  lemma ExplicitJoinedFile(fs: FileTree, dir: string, name: string)
    requires dir != [] && dir[|dir| - 1] != Sep && name != [] && Sep !in name
    ensures ExplicitFileContext(fs, Join(dir, name)) ==
      if IsDir(fs, dir) then Ok((dir, name)) else Err(NoSuchDirectory(dir))
  {
    SplitJoinedName(dir, name);
  }

  /** The scenario file "album2/img.png" is processed as "img.png" from "album2". */
  lemma ExplicitAlbumFile(fs: FileTree)
    requires IsDir(fs, "album2")
    ensures ExplicitFileContext(fs, "album2/img.png") == Ok(("album2", "img.png"))
  {
    var p := "album2/img.png";
    assert p[6] == '/' && p[7..] == "img.png";
    assert LastIndexOf(p, Sep) == 6;
    assert p[..7] == "album2/";
    assert RStrip("album2/", Sep) == RStrip("album2", Sep) == "album2";
  }
}
