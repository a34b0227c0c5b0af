# cip — path resolution and per-file dispatch, in Dafny

`cip.py` is a command-line batch image processor. Given a path spec
(directories and image files separated by `*`) and a depth, it collects the
directories to scan and the explicit image files. For every selected file it
then resizes, recompresses, converts PNG to JPEG or renames, depending on the
flags.

This project models the part of `cip.py` that has structure:

- **Path resolution** (`generate_pathlists`, `add_inner_directories`). Module
  `PathResolver` holds imperative methods with the source's loops. Each one is
  proved against a specification function: `Expand`, `Level`, `Collected` and
  `Resolve`. Lemmas about those functions state what the result contains.
- **Per-file dispatch** (`process_image`). Module `Dispatch` turns it into a
  `Plan`: the operations, the name the new size is read from, and the rename.
  `Execute` runs a plan on the set of names in the working directory. The
  runner's glob filter `*.[a-z][a-z]g` and its handling of explicit files are
  modelled too.
- **The small rules** (`resize_condition`, `resize`, `convert`, `delete_png`,
  `compress`, `update_filename`). Module `Operations` holds these. The image
  codec is abstract: an image is its pixel dimensions, and a save is a record
  of what would be written where.
- **Library semantics the code relies on.**
  - `PathNames` covers posixpath `join`, `split` and `splitext`, and
    `str.split`.
  - `Fnmatch` covers `fnmatch`/`glob` patterns.
  - `Os` is an abstract file tree with `listdir`, `isdir` and `chdir`.

Modelling choices that follow the code:

- `str.split('*')` always returns at least one part. The `if '*' in` branch
  and the `append` branch therefore give the same list (`SplitSpec`).
- `initial_list.remove(entry)` drops the first occurrence.
  `RemoveNextImage`/`ImageOrdering` prove that, in the order `secondary_list`
  is built, each removal takes exactly the next image. So the seeds are the
  non-image entries in order, duplicates included.
- `path_dict['lvl0']` is the same list object as `initial_list`. The method
  mirrors this aliasing by rewriting key 0 of its level map after every
  `extend`. The invariant shows that only the value before extension is ever
  read.
- `splitext` gives no extension to a name made only of leading dots and an
  extension: `"..jpg"` and `".png"` stay whole. Compressing `"..jpg"`
  therefore writes `"..jpg.jpg"`.
- `glob` skips names that start with a dot. Its pattern admits any
  lower-case three-letter extension ending in `g`, such as `svg`.
- `os.rename` replaces an existing target.
- `os.listdir("")` always raises and `os.path.isdir("")` is always false,
  whatever the tree holds. Expanding a level that holds the empty path
  therefore raises (`EmptyParentRaises`).

Behaviour the model takes from the code where a reader might expect otherwise:

- A PNG with both resize and convert set is resized and then converted. The
  two `if`s are independent.
- A JPEG with both resize and compress set is only resized.
- The rename always uses the original `infile`, not the converted name.
- `compress` writes `file + ".jpg"`, which is the same name only for an
  ordinary `.jpg` input.

## Model

| member | source | states |
|---|---|---|
| PathNames.LastComponent | cip.py:67 | the tail of `os.path.split` has no `/`, is a suffix of the path, and is preceded by `/` whenever it is shorter than the path |
| PathNames.Join | cip.py:101 | `os.path.join` adds at most one separator to its two parts |
| PathNames.JoinShape | cip.py:101 | the join ends with the name; unless the name is absolute it starts with the directory, and only separators lie between |
| PathNames.Head | cip.py:149 | the head and tail of `os.path.split` together never exceed the path |
| PathNames.HeadShape | cip.py:149 | the head is a prefix of the path, only separators lie between it and the tail, and it ends in `/` only when it is all separators |
| PathNames.HeadSingleSeparator | cip.py:149 | when the last `/` follows a non-separator, the head is everything before that `/` |
| PathNames.PathSplit | cip.py:149 | the tail has no `/`, and head and tail fit in the path |
| PathNames.PathSplitRebuilds | cip.py:149 | head, the separators between, and tail rebuild the path |
| PathNames.SplitJoinedName | cip.py:149 | splitting the join of a directory (not ending in `/`) and a plain name gives back the directory and the name |
| PathNames.SplitExt | cip.py:50 | `splitext` splits the path into root + ext; the extension is empty or one dot followed by no dot and no `/` |
| PathNames.SplitExtOrdinary | cip.py:50 | for a stem without `/` with some non-dot character and a dot-led extension, `splitext(stem + ext) == (stem, ext)` |
| PathNames.SplitExtAllDots | cip.py:60 | `"..jpg"` and `".png"` have no extension |
| PathNames.StrSplit | cip.py:114 | `str.split` never returns an empty list |
| PathNames.JoinSplit | cip.py:113-116 | re-joining the parts with `*` gives back the spec |
| PathNames.SplitParts | cip.py:113-116 | no part contains the delimiter, and there is one part more than there are delimiters |
| PathNames.SplitWithoutDelimiter | cip.py:113-116 | a spec without `*` is the single entry itself (the `append` branch) |
| PathNames.SplitJoin | cip.py:114 | joining delimiter-free parts and splitting gives back exactly those parts |
| Fnmatch.FixedMatch | cip.py:119 | a star-free pattern matches iff the lengths agree and each element accepts its character |
| Fnmatch.StarMatch | cip.py:119 | a leading `*` matches iff some suffix of the name matches the rest of the pattern |
| Fnmatch.SuffixMatch | cip.py:119 | `*` followed by a star-free pattern matches iff the name's last characters match that pattern |
| Fnmatch.SuffixLiteral | cip.py:119 | `*` + literal suffix matches iff the name ends with that suffix |
| Fnmatch.ImagePatterns | cip.py:119 | `fnmatch(s, '*.png')` iff `s` ends in ".png"; likewise for ".jpg" |
| Fnmatch.PngJpgDisjoint | cip.py:75-80 | no name matches both `*.png` and `*.jpg` |
| Fnmatch.GlobSelectsExactly | cip.py:145 | `glob("*.[a-z][a-z]g")` selects a name iff it has at least four characters, does not start with a dot, and ends in `.`, two lower-case letters and `g` |
| Fnmatch.GlobAdmitsImages | cip.py:145 | every name not starting with a dot that ends in `.jpg` or `.png` is selected |
| Fnmatch.GlobExamples | cip.py:145 | "logo.svg" is selected; "a.JPG", "a.jpeg" and ".a.png" are not |
| Os.ListDir | cip.py:100 | `os.listdir` succeeds iff the path is non-empty and a listable directory, and returns its entries; the empty path always raises |
| Os.Chdir | cip.py:150 | `os.chdir` succeeds iff the path is non-empty and a directory |
| PathResolver.ImageEntryIsFnmatch | cip.py:119 | the image test is exactly `fnmatch(entry,'*.png') or fnmatch(entry,'*.jpg')` |
| PathResolver.Images | cip.py:118-120 | every collected entry is an image, and there are no more of them than entries |
| PathResolver.Seeds | cip.py:121-122 | no remaining entry is an image |
| PathResolver.PartitionCons | cip.py:118-122 | the first entry goes to the images if it is one and to the seeds otherwise, ahead of the rest's |
| PathResolver.PartitionMultiset | cip.py:118-122 | images and seeds together hold every entry, as many times as it occurs |
| PathResolver.PartitionCounts | cip.py:118-122 | images and seeds together are a permutation of the entries (as multisets, and in count) |
| PathResolver.Partition | cip.py:118-122 | an entry is among the images iff it is an image, and among the seeds iff it is not |
| PathResolver.ImagesSnoc | cip.py:118-120 | appending one entry appends it to the image list exactly when it is an image |
| PathResolver.RemoveFirst | cip.py:122 | `list.remove` shortens the list by one and removes one copy of the value |
| PathResolver.FirstOccurrence | cip.py:122 | a present value has a first index: it is there and at no earlier index |
| PathResolver.RemoveFirstAt | cip.py:122 | `list.remove` cuts out exactly the element at the first index of the value |
| PathResolver.RemoveFirstIsFirst | cip.py:122 | `list.remove` removes the first occurrence: the result is the list with the element at that index cut out, everything before and after it kept in order |
| PathResolver.RemoveFirstHead | cip.py:122 | removing the head's value removes the head |
| PathResolver.RemoveFirstCons | cip.py:122 | a head different from the value is kept in front |
| PathResolver.RemoveNextImage | cip.py:121-122 | after k removals the k-th image is still present, and removing it gives the state after k+1 removals |
| PathResolver.ImageOrdering | cip.py:121-122 | the same step, once the first entry has been settled (mutual induction with `RemoveNextImage`) |
| PathResolver.DropAllImages | cip.py:121-122 | removing every collected image one by one leaves exactly the non-image entries, in order |
| PathResolver.NoImagesAllSeeds | cip.py:118-122 | a spec without images is kept whole |
| PathResolver.ChildIsJoined | cip.py:100-103 | a found child is a directory and the join of the parent with the listed name at some index |
| PathResolver.JoinedIsChild | cip.py:100-103 | the join of the parent with any listed name that is a directory is found |
| PathResolver.ChildDirsMembers | cip.py:100-103 | a child is found iff it is the join of the parent with a listed name and is a directory |
| PathResolver.ExpandOk | cip.py:99-100 | a level expands without error iff every parent can be listed |
| PathResolver.EmptyParentRaises | cip.py:99-100 | a level containing the empty path raises, whatever the tree |
| PathResolver.ExpandSnoc | cip.py:98-104 | the last parent's children come after those of the parents before it, and each parent is listed |
| PathResolver.ChildOfLastFound | cip.py:98-104 | every child of the last parent is found |
| PathResolver.EarlierFound | cip.py:98-104 | what the earlier parents find stays found |
| PathResolver.FoundIsChild | cip.py:95-104 | whatever the expansion finds is a child of the parent at some index |
| PathResolver.ChildIsFound | cip.py:95-104 | every child of every parent is found |
| PathResolver.ExpandMembers | cip.py:95-104 | on success, x is found iff some parent lists a name whose join with the parent is x and is a directory |
| PathResolver.ExpandErrPersists | cip.py:99-100 | once a prefix of the parents raises, the whole expansion raises the same error |
| PathResolver.AddInnerDirectories | cip.py:95-104 | the nested loops compute `Expand` of the parents, or raise its first error |
| PathResolver.CollectedErrPersists | cip.py:126-129 | an error at some depth is the result at every greater depth |
| PathResolver.SplitSpec | cip.py:113-116 | both branches build the list of `*`-separated entries |
| PathResolver.CollectImages | cip.py:118-120 | the first loop collects the image entries, in order |
| PathResolver.RemoveImages | cip.py:121-122 | the removal loop leaves the non-image entries |
| PathResolver.GeneratePathlists | cip.py:107-132 | the method, including the `lvl0` aliasing, computes `Resolve` of the tree, the spec and the depth |
| PathResolver.LevelInCollected | cip.py:126-129 | every member of a level up to the depth ends up in the collected list |
| PathResolver.CollectedFromLevel | cip.py:126-129 | every collected directory comes from some level up to the depth |
| PathResolver.CollectedOk | cip.py:126-129 | collection succeeds iff the deepest level can be computed |
| PathResolver.LevelsAreDirectories | cip.py:101-103 | every member of a level at depth 1 or more is a directory |
| PathResolver.ResolveMembers | cip.py:107-132 | the files are the image entries, and a path is a directory to scan iff it is in some level 0..depth that can be computed |
| PathResolver.DepthZero | cip.py:124-132 | at depth 0 resolution always succeeds, and the directories are exactly the seeds |
| PathResolver.CollectedGrows | cip.py:126-129 | the list collected at a smaller depth is a prefix of the one at a greater depth |
| PathResolver.DepthMonotone | cip.py:126-130 | a greater depth never loses a directory and never changes the files |
| PathResolver.LevelsOfNothing | cip.py:126-129 | with no seeds every level is empty |
| PathResolver.OnlyExplicitFiles | cip.py:118-122 | a spec made only of images yields no directories and all entries as files |
| PathResolver.ImagesAll | cip.py:118-120 | when every entry is an image the image list is all of them |
| PathResolver.SingleEntry | cip.py:113-122 | a spec without `*` is a file if it is an image and a seed otherwise |
| PathResolver.AlbumExpand | cip.py:95-104 | expanding album1 finds album1/a and skips the file notes.txt |
| PathResolver.AlbumCollected | cip.py:124-129 | at depth 1 the collected list is album1 followed by album1/a |
| PathResolver.TwoEntries | cip.py:113-122 | a non-image entry and an image entry joined by `*` split into those two, with the image as the file and the other as the seed |
| PathResolver.AlbumNames | cip.py:113-119 | "album1" is not an image, "album2/img.png" is, and neither holds `*` |
| PathResolver.AlbumScenario | cip.py:107-132 | "album1*album2/img.png" at depth 1 gives directories {album1, album1/a} and files [album2/img.png] |
| Operations.DefaultConfig | cip.py:8-19 | argparse defaults: depth 0, side 2160, quality 100, every flag off |
| Operations.Halved | cip.py:32-34 | each new side is the old side floor-divided by two |
| Operations.HalvedShortSide | cip.py:32-34 | halving both sides halves the shorter side |
| Operations.Resize | cip.py:27-39 | a save happens iff the file exceeds 1,000,000 bytes and the shorter side exceeds `side`; it writes the same name in the same format at halved size, with the configured quality iff JPEG |
| Operations.SmallImageStaysPut | cip.py:22-24 | an image whose shorter side is at most `side` is never resized, however often it passes |
| Operations.RepeatNeverGrows | cip.py:31-35 | repeated resizing never enlarges either side |
| Operations.RepeatReachesThreshold | cip.py:22-35 | n passes while the file stays over the byte threshold, with 2^n above the shorter side, bring the shorter side to `side` or below, or to 0 |
| Operations.CompressInPlace | cip.py:58-62 | compressing an ordinary `.jpg` re-saves that same file as JPEG at the configured quality |
| Operations.ConvertSameStem | cip.py:48-53 | converting `stem.png` saves RGB pixels as `stem.jpg` at the configured quality |
| Operations.CompressAllDotsName | cip.py:60-62 | compressing "..jpg" writes "..jpg.jpg" |
| Operations.DeletePng | cip.py:42-45 | exactly `file.png` disappears; deleting an absent name changes nothing |
| Operations.ConvertFiles | cip.py:48-55 | after conversion the `.jpg` exists, the `.png` survives iff it existed and `erase` is off, and no other name changes |
| Operations.ConvertOrdinary | cip.py:48-55 | the same for an ordinary `stem.png` |
| Operations.UpdateFilename | cip.py:65-69 | the new name is the folder component, `_`, then the old name; the folder part has no `/` and ends the path |
| Operations.UpdateTrailingSeparator | cip.py:67-68 | a path ending in `/` has an empty folder part, so the new name is `_` + file |
| Operations.UpdatePhotos | cip.py:65-69 | `a.jpg` in `photos` becomes `photos_a.jpg` |
| Dispatch.FnmatchIsSuffix | cip.py:75-80 | the two `fnmatch` tests are suffix tests |
| Dispatch.JpgPngDisjoint | cip.py:75-80 | at most one of the two branches applies |
| Dispatch.DispatchTable | cip.py:75-84 | the operations follow the table: JPEG resize, or else compress; PNG resize then convert; other names nothing |
| Dispatch.SizeAndRename | cip.py:85-91 | the new size is read from `root + ".jpg"` iff `convert` is set, else from `infile`; a rename of `infile` to its folder-prefixed name happens iff `update` is set |
| Dispatch.JpgSizeFromItself | cip.py:85-87 | for an ordinary `.jpg` the new size is always read from the file itself |
| Dispatch.ApplyOp | cip.py:74-84 | an operation succeeds iff the input exists |
| Dispatch.ResizeOpWritesSave | cip.py:27-39 | a resize changes the names by exactly the target of the save `resize` performs, if any |
| Dispatch.CompressOpWritesSave | cip.py:58-62 | a compression adds exactly the target of the save `compress` performs |
| Dispatch.ConvertOpWritesSave | cip.py:48-55 | a conversion adds the target of the save `convert` performs and, with `erase`, then drops the PNG |
| Dispatch.ApplyOne | cip.py:74-84 | a one-operation sequence is that operation |
| Dispatch.ApplyAfterResize | cip.py:80-84 | a resize leaves the names unchanged for the operations after it |
| Dispatch.PngConvertOps | cip.py:80-84 | a PNG's operations with `convert` have the effect of the conversion, with or without a resize first |
| Dispatch.MissingInputFails | cip.py:74 | a missing input raises at the first `os.stat` |
| Dispatch.JpgOpsKeepNames | cip.py:75-79 | the operations on an ordinary `.jpg` leave the names unchanged |
| Dispatch.JpgRun | cip.py:71-91 | a run on an ordinary `.jpg` succeeds and only renames it when `update` is set |
| Dispatch.PngConvertRun | cip.py:80-89 | converting an ordinary `.png` without `update` succeeds; the `.jpg` exists, the `.png` survives iff `erase` is off, and nothing else changes |
| Dispatch.PngConvertEraseUpdateFails | cip.py:83-91 | with `-c -e -u`, an ordinary `.png` is erased and then the rename raises file-not-found on it |
| Dispatch.OtherConvertFails | cip.py:85-87 | with `convert`, a selected non-jpg, non-png file whose `.jpg` twin is absent raises at the second `os.stat` |
| Dispatch.LogoSvgFacts | cip.py:86-87 | "logo.svg" is neither kind, and its size would be read from "logo.jpg" |
| Dispatch.LogoSvgStopsConvert | cip.py:145-146 | "logo.svg" passes the glob and stops a converting run with file-not-found "logo.jpg" |
| Dispatch.CorrectedAgrees | cip.py:85-91 | without `convert` the corrected dispatch is the original one |
| Dispatch.OpsKeepInput | cip.py:75-84 | the table's operations always succeed on a present input; they keep it unless they end in a conversion, which leaves `root.jpg` |
| Dispatch.TableConvertLast | cip.py:75-84 | only the last operation can be a conversion, and it is one iff the file is a PNG and `convert` is set |
| Dispatch.ExecuteOk | cip.py:85-91 | a run succeeds when its operations succeed, the new size is read from a name they leave, and the rename is of that name |
| Dispatch.CorrectedLeavesResult | cip.py:85-91 | with the correction, the operations succeed and leave the name the new size is read from |
| Dispatch.CorrectedNeverFails | cip.py:71-91 | with the correction, any run on a present file succeeds |
| Dispatch.RenameKeepsName | cip.py:65-69 | the renamed file ends with its old name |
| Dispatch.JpgNameIsNotPng | cip.py:75-80 | a `.jpg` name is never a `.png` name |
| Dispatch.RenamedJpgIsNotPng | cip.py:65-69 | a renamed `.jpg` still ends in `.jpg`, so it is never the PNG of the same stem |
| Dispatch.CorrectedPngConvertEraseUpdate | cip.py:83-91 | with the correction, `-c -e -u` on a PNG renames the JPEG it produced: the folder-prefixed JPEG exists, and neither `stem.jpg` nor the PNG remains |
| Dispatch.Selected | cip.py:145 | the glob keeps only listed names it selects, never more than there are |
| Dispatch.SelectedAppend | cip.py:145 | the glob keeps listing order: the selection from a concatenation is the concatenation of the selections |
| Dispatch.DirectoryPlans | cip.py:143-146 | in listing order, one directory's plans are `process_image` of each listed name the glob selects, and no others |
| Dispatch.DirectoryPlansComplete | cip.py:145-146 | every listed name the glob selects gets its plan |
| Dispatch.ExplicitFileContext | cip.py:149-151 | an explicit file is processed as the `os.path.split` pair (head, tail), which gives both the `chdir` target and the folder `update_filename` uses; this succeeds iff the head is a directory, else `chdir` raises on the head; a bare name has the empty head, which `os.chdir` refuses |
| Dispatch.ExplicitJoinedFile | cip.py:149-151 | a file given as a directory joined with a plain name is processed as that name from that directory, or raises when the directory is missing |
| Dispatch.ExplicitAlbumFile | cip.py:148-151 | "album2/img.png" is processed as "img.png" from "album2" |

## Left out

- The image codec (PIL decode, LANCZOS resampling, RGB conversion, encoding).
  A save is a record of target, format, quality, pixel mode and size. The
  pixels and the byte size of the written file are not modelled.
- Operations.Resize: the file's byte size is a parameter, because
  `os.path.getsize` is I/O. `RepeatResize` takes one byte size per pass for
  the same reason.
- Undecodable or truncated images: `LOAD_TRUNCATED_IMAGES` and codec
  exceptions are not modelled. Every save is assumed to succeed, so the
  `os.path.exists(file + ".jpg")` test in `convert` always holds.
- Timing and logging: `time.time`, `strftime` and every `print`. They do not
  affect the files.
- argparse itself. Only the resulting `Config` record and its defaults are
  modelled. The `choices=[95, 100]` check becomes the `Quality` subset type.
- Order of the directories: `list(set(initial_list))` has an
  implementation-defined order, so `Resolution.dirs` is a set.
- The runner loop over all directories and files (cip.py:143-151) as one
  sequence of effects. The model gives one directory's plans
  (`DirectoryPlans`) and the context of one explicit file
  (`ExplicitFileContext`).
- The cumulative effect of `os.chdir` on relative paths: `Execute` works on
  the names of the directory being processed. The model does not track the
  current directory between directories.
- The order of `os.listdir`: it is an input sequence.
- A directory whose name matches the glob (such as `x.png`) would be passed
  to `process_image`. The model treats every selected name as a file.
- Windows case-insensitive matching in `fnmatch`. The model follows POSIX
  case-sensitive matching.
- PathResolver.GeneratePathlists is split into `SplitSpec`, `CollectImages`,
  `RemoveImages` and the level loop. Each part is a method with the same
  loop, so their proofs stay small.

## Findings

| source | as written | input that shows it | evidently intended | confidence | as-written member | corrected member |
|---|---|---|---|---|---|---|
| cip.py:54-55,90-91 | after `convert` with `erase` deletes `file.png`, `update_filename` renames the original `infile` | `-c -e -u` on `a.png` in `photos`: `a.png` is gone, so `os.rename("a.png", "photos_a.png")` raises | rename the JPEG the run produced (`photos_a.jpg`) | not executed | Dispatch.PngConvertEraseUpdateFails | Dispatch.CorrectedPngConvertEraseUpdate |
| cip.py:85-87,145 | with `convert`, the new size is read from `file + ".jpg"` for every selected file | `-c` in a directory holding `logo.svg` (which the glob selects): no operation runs, and `os.stat("logo.jpg")` raises | read the size from the converted JPEG only for a converted PNG, else from the file itself | not executed | Dispatch.LogoSvgStopsConvert | Dispatch.CorrectedNeverFails |
