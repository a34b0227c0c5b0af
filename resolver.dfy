/**
 * Path resolution (`add_inner_directories` and `generate_pathlists`, cip.py
 * lines 95-132): the raw path spec is split on '*', image entries are taken
 * out as explicit files, and the remaining seeds are expanded level by level
 * through their child directories down to the configured depth.
 */
module PathResolver {
  import opened Results
  import opened PathNames
  import opened Fnmatch
  import opened Os

  const Delimiter: char := '*'

  /**
   * `fnmatch(entry, '*.png') or fnmatch(entry, '*.jpg')`, written as the
   * suffix test that `ImageEntryIsFnmatch` proves it to be.
   */
  predicate IsImageEntry(entry: string)
  {
    EndsWith(entry, ".png") || EndsWith(entry, ".jpg")
  }

  lemma ImageEntryIsFnmatch(entry: string)
    ensures IsImageEntry(entry) <==> Matches(entry, PngPattern) || Matches(entry, JpgPattern)
  {
    ImagePatterns(entry);
  }

  /** The entries that go to the explicit-file list, in spec order. */
  function Images(entries: seq<string>): (r: seq<string>)
    ensures forall i :: 0 <= i < |r| ==> IsImageEntry(r[i])
    ensures |r| <= |entries|
  {
    if entries == [] then []
    else (if IsImageEntry(entries[0]) then [entries[0]] else []) + Images(entries[1..])
  }

  /** The entries that stay as level-0 directory seeds, in spec order. */
  function Seeds(entries: seq<string>): (r: seq<string>)
    ensures forall i :: 0 <= i < |r| ==> !IsImageEntry(r[i])
    ensures |r| <= |entries|
  {
    if entries == [] then []
    else (if IsImageEntry(entries[0]) then [] else [entries[0]]) + Seeds(entries[1..])
  }

  /** The first entry goes to exactly one of the two lists, in front of the rest's share. */
  lemma PartitionCons(entries: seq<string>)
    requires entries != []
    ensures var x, rest := entries[0], entries[1..];
      Images(entries) == (if IsImageEntry(x) then [x] else []) + Images(rest) &&
      Seeds(entries) == (if IsImageEntry(x) then [] else [x]) + Seeds(rest)
  {
  }

  /** The multiset half of `PartitionCounts`, by induction on the entries. */
  lemma {:induction false} PartitionMultiset(entries: seq<string>)
    ensures multiset(Images(entries)) + multiset(Seeds(entries)) == multiset(entries)
  {
    if entries != [] {
      var x, rest := entries[0], entries[1..];
      PartitionMultiset(rest);
      PartitionCons(entries);
      assert entries == [x] + rest;
      assert multiset(entries) == multiset{x} + multiset(rest);
      var imgs, seeds := Images(rest), Seeds(rest);
      if IsImageEntry(x) {
        assert multiset(Images(entries)) == multiset{x} + multiset(imgs);
        assert multiset(Seeds(entries)) == multiset(seeds);
      } else {
        assert multiset(Images(entries)) == multiset(imgs);
        assert multiset(Seeds(entries)) == multiset{x} + multiset(seeds);
      }
    }
  }

  /** Every entry lands in exactly one of the two lists: together they are a permutation of the entries. */
  lemma PartitionCounts(entries: seq<string>)
    ensures multiset(Images(entries)) + multiset(Seeds(entries)) == multiset(entries)
    ensures |Images(entries)| + |Seeds(entries)| == |entries|
  {
    PartitionMultiset(entries);
    assert |multiset(Images(entries))| == |Images(entries)|;
    assert |multiset(Seeds(entries))| == |Seeds(entries)|;
  }

  /** An entry is an explicit file iff it matches an image pattern, and a seed otherwise. */
  lemma Partition(entries: seq<string>, x: string)
    requires x in entries
    ensures x in Images(entries) <==> IsImageEntry(x)
    ensures x in Seeds(entries) <==> !IsImageEntry(x)
  {
    PartitionCounts(entries);
    assert x in multiset(entries);
    var images, seeds := Images(entries), Seeds(entries);
    if x in images {
      var i :| 0 <= i < |images| && images[i] == x;
    }
    if x in seeds {
      var i :| 0 <= i < |seeds| && seeds[i] == x;
    }
    assert x in multiset(images) || x in multiset(seeds);
  }

  /** Filtering distributes over appending one element, as the loop appends. */
  lemma {:induction false} ImagesSnoc(entries: seq<string>, x: string)
    ensures Images(entries + [x]) == Images(entries) + (if IsImageEntry(x) then [x] else [])
  {
    if entries == [] {
      assert [] + [x] == [x];
    } else {
      assert (entries + [x])[1..] == entries[1..] + [x];
      ImagesSnoc(entries[1..], x);
    }
  }

  /** Python's `list.remove(x)`: drops the first occurrence of `x` (it raises when `x` is absent). */
  function RemoveFirst(s: seq<string>, x: string): (r: seq<string>)
    requires x in s
    ensures |r| == |s| - 1
    ensures multiset(r) == multiset(s) - multiset{x}
  {
    assert s == [s[0]] + s[1..];
    if s[0] == x then s[1..]
    else
      assert s == [s[0]] + s[1..];
      [s[0]] + RemoveFirst(s[1..], x)
  }

  /** Cutting out position j+1 of `s` is keeping `s[0]` and cutting position j out of the rest. */
  lemma SliceCons(s: seq<string>, j: nat)
    requires j + 1 < |s|
    ensures s[..j + 1] + s[j + 2..] == [s[0]] + (s[1..][..j] + s[1..][j + 1..])
  {
    assert s[..j + 1] == [s[0]] + s[1..][..j];
    assert s[j + 2..] == s[1..][j + 1..];
  }

  /** The position of the first occurrence of `x` in `s`. */
  lemma {:induction false} FirstOccurrence(s: seq<string>, x: string) returns (i: nat)
    requires x in s
    ensures i < |s| && s[i] == x && (forall m :: 0 <= m < i ==> s[m] != x)
    decreases |s|
  {
    if s[0] == x {
      i := 0;
    } else {
      assert s == [s[0]] + s[1..];
      var j := FirstOccurrence(s[1..], x);
      i := j + 1;
      forall m | 0 <= m < i ensures s[m] != x {
        if m > 0 {
          assert s[m] == s[1..][m - 1];
        }
      }
    }
  }

  /** Removing `x` cuts out the position of its first occurrence, keeping the rest in order. */
  lemma {:induction false} RemoveFirstAt(s: seq<string>, x: string, i: nat)
    requires i < |s| && s[i] == x && (forall m :: 0 <= m < i ==> s[m] != x)
    ensures RemoveFirst(s, x) == s[..i] + s[i + 1..]
    decreases |s|
  {
    if i == 0 {
      assert s[..0] + s[1..] == s[1..];
    } else {
      assert s[0] != x;
      forall m | 0 <= m < i - 1 ensures s[1..][m] != x {
        assert s[1..][m] == s[m + 1];
      }
      RemoveFirstAt(s[1..], x, i - 1);
      SliceCons(s, i - 1);
    }
  }

  /**
   * `RemoveFirst` cuts out exactly the first occurrence: position i holds
   * `x`, no earlier position does, and every other element keeps its place
   * in order.
   */
  lemma RemoveFirstIsFirst(s: seq<string>, x: string) returns (i: nat)
    requires x in s
    ensures i < |s| && s[i] == x && (forall m :: 0 <= m < i ==> s[m] != x)
    ensures RemoveFirst(s, x) == s[..i] + s[i + 1..]
  {
    i := FirstOccurrence(s, x);
    RemoveFirstAt(s, x, i);
  }

  /** Removing the head's value removes the head. */
  lemma RemoveFirstHead(s: seq<string>)
    requires s != []
    ensures RemoveFirst(s, s[0]) == s[1..]
  {
  }

  /** Removing a value other than the head leaves the head in front. */
  lemma RemoveFirstCons(x: string, s: seq<string>, v: string)
    requires x != v && v in s
    ensures RemoveFirst([x] + s, v) == [x] + RemoveFirst(s, v)
  {
    assert ([x] + s)[0] == x && ([x] + s)[1..] == s;
  }

  /** `entries` with its first `k` image entries taken out. */
  function DropImages(entries: seq<string>, k: nat): seq<string>
  {
    if k == 0 || entries == [] then entries
    else if IsImageEntry(entries[0]) then DropImages(entries[1..], k - 1)
    else [entries[0]] + DropImages(entries[1..], k)
  }

  /**
   * Removing the k-th explicit file by value removes the k-th image entry:
   * no seed equals an image entry, and the remaining image entries keep
   * their order. So the value is present and the first occurrence is the
   * right one.
   */
  lemma {:induction false} RemoveNextImage(entries: seq<string>, k: nat)
    requires k < |Images(entries)|
    ensures Images(entries)[k] in DropImages(entries, k)
    ensures RemoveFirst(DropImages(entries, k), Images(entries)[k]) == DropImages(entries, k + 1)
    decreases |entries|, 1
  {
    var x := entries[0];
    var rest := entries[1..];
    if IsImageEntry(x) {
      assert Images(entries) == [x] + Images(rest);
      if k == 0 {
        assert DropImages(entries, 0) == entries;
        assert entries[0] == Images(entries)[0];
        assert DropImages(entries, 1) == DropImages(rest, 0) == rest;
        RemoveFirstHead(entries);
      } else {
        RemoveNextImage(rest, k - 1);
        assert Images(entries)[k] == Images(rest)[k - 1];
        assert DropImages(entries, k) == DropImages(rest, k - 1);
        assert DropImages(entries, k + 1) == DropImages(rest, k);
      }
    } else {
      ImageOrdering(entries, k);
    }
  }

  /** The case of `RemoveNextImage` where the first entry is a seed. */
  lemma {:induction false} ImageOrdering(entries: seq<string>, k: nat)
    requires entries != [] && !IsImageEntry(entries[0])
    requires k < |Images(entries)|
    ensures Images(entries)[k] in DropImages(entries, k)
    ensures RemoveFirst(DropImages(entries, k), Images(entries)[k]) == DropImages(entries, k + 1)
    decreases |entries|, 0
  {
    var x := entries[0];
    var rest := entries[1..];
    assert Images(entries) == Images(rest);
    var v := Images(entries)[k];
    assert IsImageEntry(v);
    assert x != v;
    RemoveNextImage(rest, k);
    var dropped := DropImages(rest, k);
    if k == 0 {
      assert DropImages(rest, 0) == rest;
      assert DropImages(entries, 0) == entries == [x] + dropped;
    } else {
      assert DropImages(entries, k) == [x] + dropped;
    }
    assert DropImages(entries, k + 1) == [x] + DropImages(rest, k + 1);
    RemoveFirstCons(x, dropped, v);
  }

  /** Once every image entry is removed, exactly the seeds are left, in order. */
  lemma {:induction false} DropAllImages(entries: seq<string>)
    ensures DropImages(entries, |Images(entries)|) == Seeds(entries)
  {
    if entries != [] {
      DropAllImages(entries[1..]);
      if !IsImageEntry(entries[0]) && |Images(entries)| == 0 {
        assert DropImages(entries[1..], 0) == entries[1..];
        assert Seeds(entries[1..]) == entries[1..];
      }
    }
  }

  /** An entry list with no image entries is all seeds. */
  lemma {:induction false} NoImagesAllSeeds(entries: seq<string>)
    requires |Images(entries)| == 0
    ensures Seeds(entries) == entries
  {
    if entries != [] {
      NoImagesAllSeeds(entries[1..]);
    }
  }

  // ---------------------------------------------------------------------
  // Level expansion
  // ---------------------------------------------------------------------

  /** The joined children of `parent` that are directories, in listing order. */
  function ChildDirs(fs: FileTree, parent: string, names: seq<string>): seq<string>
  {
    if names == [] then []
    else
      var f := Join(parent, names[|names| - 1]);
      ChildDirs(fs, parent, names[..|names| - 1]) + (if IsDir(fs, f) then [f] else [])
  }

  /**
   * One level of expansion: the child directories of every parent, parent
   * by parent; the first parent that cannot be listed raises.
   */
  function Expand(fs: FileTree, parents: seq<string>): Result<seq<string>, OsError>
  {
    if parents == [] then Ok([])
    else
      match Expand(fs, parents[..|parents| - 1])
      case Err(e) => Err(e)
      case Ok(found) =>
        match ListDir(fs, parents[|parents| - 1])
        case Err(e) => Err(e)
        case Ok(names) => Ok(found + ChildDirs(fs, parents[|parents| - 1], names))
  }

  /** A found child is a directory joined from some listed name, given by its index. */
  lemma {:induction false} ChildIsJoined(fs: FileTree, parent: string, names: seq<string>, x: string) returns (j: nat)
    requires x in ChildDirs(fs, parent, names)
    ensures IsDir(fs, x) && j < |names| && x == Join(parent, names[j])
  {
    var init := names[..|names| - 1];
    var f := Join(parent, names[|names| - 1]);
    assert ChildDirs(fs, parent, names) == ChildDirs(fs, parent, init) + (if IsDir(fs, f) then [f] else []);
    if x in ChildDirs(fs, parent, init) {
      j := ChildIsJoined(fs, parent, init, x);
      assert init[j] == names[j];
    } else {
      j := |names| - 1;
    }
  }

  /** A directory joined from a listed name is found. */
  lemma {:induction false} JoinedIsChild(fs: FileTree, parent: string, names: seq<string>, j: nat)
    requires j < |names| && IsDir(fs, Join(parent, names[j]))
    ensures Join(parent, names[j]) in ChildDirs(fs, parent, names)
  {
    var init := names[..|names| - 1];
    var f := Join(parent, names[|names| - 1]);
    assert ChildDirs(fs, parent, names) == ChildDirs(fs, parent, init) + (if IsDir(fs, f) then [f] else []);
    if j < |names| - 1 {
      assert init[j] == names[j];
      JoinedIsChild(fs, parent, init, j);
    }
  }

  /** A child path is found iff it is the join of the parent with a listed name and is a directory. */
  lemma ChildDirsMembers(fs: FileTree, parent: string, names: seq<string>, x: string)
    ensures x in ChildDirs(fs, parent, names) <==>
      IsDir(fs, x) && exists j :: 0 <= j < |names| && x == Join(parent, names[j])
  {
    if x in ChildDirs(fs, parent, names) {
      var j := ChildIsJoined(fs, parent, names, x);
    }
    if IsDir(fs, x) && exists j :: 0 <= j < |names| && x == Join(parent, names[j]) {
      var j :| 0 <= j < |names| && x == Join(parent, names[j]);
      JoinedIsChild(fs, parent, names, j);
    }
  }

  /** Expansion succeeds iff every parent can be listed. */
  lemma {:induction false} ExpandOk(fs: FileTree, parents: seq<string>)
    ensures Expand(fs, parents).Ok? <==> forall i :: 0 <= i < |parents| ==> Listable(fs, parents[i])
  {
    if parents != [] {
      var init := parents[..|parents| - 1];
      ExpandOk(fs, init);
      assert forall i :: 0 <= i < |init| ==> init[i] == parents[i];
    }
  }

  /** An empty entry (from "a**b" or a trailing "*") stops the expansion: `os.listdir("")` raises. */
  lemma EmptyParentRaises(fs: FileTree, parents: seq<string>)
    requires "" in parents
    ensures Expand(fs, parents).Err?
  {
    ExpandOk(fs, parents);
    var k :| 0 <= k < |parents| && parents[k] == "";
    assert !Listable(fs, parents[k]);
  }

  /** `x` is one of the child directories listed under `p`. */
  predicate ChildOf(fs: FileTree, p: string, x: string)
  {
    p in fs.children && x in ChildDirs(fs, p, fs.children[p])
  }

  /** One step of `Expand`: the last parent's children follow those of the others. */
  lemma ExpandSnoc(fs: FileTree, parents: seq<string>)
    requires parents != [] && Expand(fs, parents).Ok?
    ensures var init, last := parents[..|parents| - 1], parents[|parents| - 1];
      Expand(fs, init).Ok? && Listable(fs, last) &&
      Expand(fs, parents).value == Expand(fs, init).value + ChildDirs(fs, last, fs.children[last])
  {
  }

  /** A child of the last parent is found by the expansion. */
  lemma ChildOfLastFound(fs: FileTree, parents: seq<string>, x: string)
    requires parents != [] && Expand(fs, parents).Ok? && ChildOf(fs, parents[|parents| - 1], x)
    ensures x in Expand(fs, parents).value
  {
    ExpandSnoc(fs, parents);
  }

  /** What the expansion of the earlier parents finds stays found. */
  lemma EarlierFound(fs: FileTree, parents: seq<string>, x: string)
    requires parents != [] && Expand(fs, parents).Ok?
    requires Expand(fs, parents[..|parents| - 1]).Ok? && x in Expand(fs, parents[..|parents| - 1]).value
    ensures x in Expand(fs, parents).value
  {
    ExpandSnoc(fs, parents);
  }

  /** Whatever the expansion finds is a child of some parent, given by its index. */
  lemma {:induction false} FoundIsChild(fs: FileTree, parents: seq<string>, x: string) returns (i: nat)
    requires Expand(fs, parents).Ok? && x in Expand(fs, parents).value
    ensures i < |parents| && ChildOf(fs, parents[i], x)
  {
    var init, last := parents[..|parents| - 1], parents[|parents| - 1];
    ExpandSnoc(fs, parents);
    if x in Expand(fs, init).value {
      i := FoundIsChild(fs, init, x);
      assert init[i] == parents[i];
    } else {
      i := |parents| - 1;
    }
  }

  /** A child of any parent is found by the expansion. */
  lemma {:induction false} ChildIsFound(fs: FileTree, parents: seq<string>, i: nat, x: string)
    requires Expand(fs, parents).Ok? && i < |parents| && ChildOf(fs, parents[i], x)
    ensures x in Expand(fs, parents).value
  {
    var init := parents[..|parents| - 1];
    if i == |parents| - 1 {
      ChildOfLastFound(fs, parents, x);
    } else {
      ExpandSnoc(fs, parents);
      assert init[i] == parents[i];
      ChildIsFound(fs, init, i, x);
      EarlierFound(fs, parents, x);
    }
  }

  /** What one level of expansion finds: the child directories of some parent. */
  lemma ExpandMembers(fs: FileTree, parents: seq<string>, x: string)
    requires Expand(fs, parents).Ok?
    ensures x in Expand(fs, parents).value <==> exists i :: 0 <= i < |parents| && ChildOf(fs, parents[i], x)
  {
    if x in Expand(fs, parents).value {
      var i := FoundIsChild(fs, parents, x);
    }
    if exists i :: 0 <= i < |parents| && ChildOf(fs, parents[i], x) {
      var i :| 0 <= i < |parents| && ChildOf(fs, parents[i], x);
      ChildIsFound(fs, parents, i, x);
    }
  }

  /** Level `i`: level 0 is the seeds, level i+1 the expansion of level i. */
  function Level(fs: FileTree, seeds: seq<string>, i: nat): Result<seq<string>, OsError>
  {
    if i == 0 then Ok(seeds)
    else
      match Level(fs, seeds, i - 1)
      case Err(e) => Err(e)
      case Ok(prev) => Expand(fs, prev)
  }

  /** Levels 0..depth appended one after another, as `initial_list` accumulates them. */
  function Collected(fs: FileTree, seeds: seq<string>, depth: nat): Result<seq<string>, OsError>
  {
    if depth == 0 then Ok(seeds)
    else
      match Collected(fs, seeds, depth - 1)
      case Err(e) => Err(e)
      case Ok(acc) =>
        match Level(fs, seeds, depth)
        case Err(e) => Err(e)
        case Ok(found) => Ok(acc + found)
  }

  /** The resolver's result: the directories to scan and the explicit image files. */
  datatype Resolution = Resolution(dirs: set<string>, files: seq<string>)

  /** What `generate_pathlists` computes, as a function of the file tree, the spec and the depth. */
  function Resolve(fs: FileTree, paths: string, depth: nat): Result<Resolution, OsError>
  {
    var entries := StrSplit(paths, Delimiter);
    match Collected(fs, Seeds(entries), depth)
    case Err(e) => Err(e)
    case Ok(all) => Ok(Resolution((set x | x in all), Images(entries)))
  }

  // ---------------------------------------------------------------------
  // The imperative code
  // ---------------------------------------------------------------------

  /** Once a prefix of the parents raises, the whole expansion raises the same error. */
  lemma {:induction false} ExpandErrPersists(fs: FileTree, parents: seq<string>, n: nat, e: OsError)
    requires n <= |parents| && Expand(fs, parents[..n]) == Err(e)
    ensures Expand(fs, parents) == Err(e)
    decreases |parents| - n
  {
    if n < |parents| {
      assert parents[..n + 1][..n] == parents[..n];
      ExpandErrPersists(fs, parents, n + 1, e);
    } else {
      assert parents[..n] == parents;
    }
  }

  /** `add_inner_directories(parent)`: nested loops that append to a local list. */
  method AddInnerDirectories(fs: FileTree, parent: seq<string>) returns (r: Result<seq<string>, OsError>)
    ensures r == Expand(fs, parent)
  {
    var found: seq<string> := [];
    var i := 0;
    while i < |parent|
      invariant 0 <= i <= |parent|
      invariant Expand(fs, parent[..i]) == Ok(found)
    {
      var dir := parent[i];
      assert parent[..i + 1][..i] == parent[..i];
      var listing := ListDir(fs, dir);
      if listing.Err? {
        ExpandErrPersists(fs, parent, i + 1, listing.error);
        return Err(listing.error);
      }
      var names := listing.value;
      ghost var before := found;
      var j := 0;
      while j < |names|
        invariant 0 <= j <= |names|
        invariant found == before + ChildDirs(fs, dir, names[..j])
      {
        assert names[..j + 1][..j] == names[..j];
        var f := Join(dir, names[j]);
        if IsDir(fs, f) {
          found := found + [f];
        }
        j := j + 1;
      }
      assert names[..j] == names;
      i := i + 1;
    }
    assert parent[..i] == parent;
    return Ok(found);
  }

  /** An error at some level is the error of every deeper accumulation. */
  lemma {:induction false} CollectedErrPersists(fs: FileTree, seeds: seq<string>, d: nat, depth: nat, e: OsError)
    requires d <= depth && Collected(fs, seeds, d) == Err(e)
    ensures Collected(fs, seeds, depth) == Err(e)
    decreases depth - d
  {
    if d < depth {
      CollectedErrPersists(fs, seeds, d + 1, depth, e);
    }
  }

  /**
   * The first statements of `generate_pathlists` (cip.py lines 113-116):
   * `extend` with the split spec when it holds a '*', else `append` the
   * whole spec. Both give the parts of `str.split`.
   */
  method SplitSpec(paths: string) returns (initial: seq<string>)
    ensures initial == StrSplit(paths, Delimiter)
  {
    initial := [];
    if Delimiter in paths {
      initial := initial + StrSplit(paths, Delimiter);
    } else {
      SplitWithoutDelimiter(paths, Delimiter);
      initial := initial + [paths];
    }
  }

  /** cip.py lines 118-120: copy every image entry, in order, to the explicit-file list. */
  method CollectImages(entries: seq<string>) returns (secondary: seq<string>)
    ensures secondary == Images(entries)
  {
    secondary := [];
    var i := 0;
    while i < |entries|
      invariant 0 <= i <= |entries|
      invariant secondary == Images(entries[..i])
    {
      ImagesSnoc(entries[..i], entries[i]);
      assert entries[..i + 1] == entries[..i] + [entries[i]];
      if IsImageEntry(entries[i]) {
        secondary := secondary + [entries[i]];
      }
      i := i + 1;
    }
    assert entries[..i] == entries;
  }

  /**
   * cip.py lines 121-122: remove each explicit file from the entry list by
   * value (`list.remove` drops the first occurrence); what is left is the
   * seeds.
   */
  method RemoveImages(entries: seq<string>, secondary: seq<string>) returns (initial: seq<string>)
    requires secondary == Images(entries)
    ensures initial == Seeds(entries)
  {
    initial := entries;
    var k := 0;
    assert DropImages(entries, 0) == entries;
    while k < |secondary|
      invariant 0 <= k <= |secondary|
      invariant initial == DropImages(entries, k)
    {
      RemoveNextImage(entries, k);
      initial := RemoveFirst(initial, secondary[k]);
      k := k + 1;
    }
    DropAllImages(entries);
  }

  /**
   * `generate_pathlists(args)`. The dictionary `path_dict` is the map
   * `levels`; as in the source, its level-0 entry aliases `initial`, so
   * every extension of `initial` is mirrored into `levels[0]`. The level-0
   * entry is read only in the first round, before any extension.
   */
  method GeneratePathlists(fs: FileTree, paths: string, depth: nat) returns (r: Result<Resolution, OsError>)
    ensures r == Resolve(fs, paths, depth)
  {
    var initial := SplitSpec(paths);
    var secondary := CollectImages(initial);
    initial := RemoveImages(initial, secondary);
    ghost var seeds := initial;

    var levels: map<nat, seq<string>> := map[0 := initial];
    var d := 0;
    while d < depth
      invariant 0 <= d <= depth
      invariant d in levels && Level(fs, seeds, d) == Ok(levels[d])
      invariant Collected(fs, seeds, d) == Ok(initial)
    {
      var inner := AddInnerDirectories(fs, levels[d]);
      if inner.Err? {
        CollectedErrPersists(fs, seeds, d + 1, depth, inner.error);
        return Err(inner.error);
      }
      levels := levels[d + 1 := inner.value];
      initial := initial + inner.value;
      levels := levels[0 := initial];
      d := d + 1;
    }
    return Ok(Resolution((set x | x in initial), secondary));
  }

  // ---------------------------------------------------------------------
  // Properties of the resolution
  // ---------------------------------------------------------------------

  /** Every level up to the depth is part of the accumulation. */
  lemma {:induction false} LevelInCollected(fs: FileTree, seeds: seq<string>, depth: nat, i: nat, x: string)
    requires Collected(fs, seeds, depth).Ok?
    requires i <= depth && Level(fs, seeds, i).Ok? && x in Level(fs, seeds, i).value
    ensures x in Collected(fs, seeds, depth).value
  {
    if depth > 0 {
      var acc := Collected(fs, seeds, depth - 1).value;
      var found := Level(fs, seeds, depth).value;
      assert Collected(fs, seeds, depth).value == acc + found;
      if i < depth {
        LevelInCollected(fs, seeds, depth - 1, i, x);
      }
    }
  }

  /** Every accumulated directory comes from some level up to the depth. */
  lemma {:induction false} CollectedFromLevel(fs: FileTree, seeds: seq<string>, depth: nat, x: string) returns (i: nat)
    requires Collected(fs, seeds, depth).Ok? && x in Collected(fs, seeds, depth).value
    ensures i <= depth && Level(fs, seeds, i).Ok? && x in Level(fs, seeds, i).value
  {
    if depth == 0 {
      i := 0;
    } else {
      var acc := Collected(fs, seeds, depth - 1).value;
      var found := Level(fs, seeds, depth).value;
      assert Collected(fs, seeds, depth).value == acc + found;
      if x in acc {
        i := CollectedFromLevel(fs, seeds, depth - 1, x);
      } else {
        i := depth;
      }
    }
  }

  /** Accumulation succeeds exactly when the deepest level can be computed. */
  lemma {:induction false} CollectedOk(fs: FileTree, seeds: seq<string>, depth: nat)
    ensures Collected(fs, seeds, depth).Ok? <==> Level(fs, seeds, depth).Ok?
  {
    if depth > 0 {
      CollectedOk(fs, seeds, depth - 1);
    }
  }

  /** Every level below the first consists of directories. */
  lemma LevelsAreDirectories(fs: FileTree, seeds: seq<string>, i: nat, x: string)
    requires i > 0 && Level(fs, seeds, i).Ok? && x in Level(fs, seeds, i).value
    ensures IsDir(fs, x)
  {
    var prev := Level(fs, seeds, i - 1).value;
    ExpandMembers(fs, prev, x);
    var k :| 0 <= k < |prev| && ChildOf(fs, prev[k], x);
    ChildDirsMembers(fs, prev[k], fs.children[prev[k]], x);
  }

  /** `x` is a member of level `i`, which can be computed. */
  predicate InLevel(fs: FileTree, seeds: seq<string>, i: nat, x: string)
  {
    Level(fs, seeds, i).Ok? && x in Level(fs, seeds, i).value
  }

  /** The resolved directories are exactly those of levels 0..depth, and the files are the image entries. */
  lemma ResolveMembers(fs: FileTree, paths: string, depth: nat, x: string)
    requires Resolve(fs, paths, depth).Ok?
    ensures Resolve(fs, paths, depth).value.files == Images(StrSplit(paths, Delimiter))
    ensures x in Resolve(fs, paths, depth).value.dirs <==>
      exists i: nat :: i <= depth && InLevel(fs, Seeds(StrSplit(paths, Delimiter)), i, x)
  {
    var seeds := Seeds(StrSplit(paths, Delimiter));
    assert Collected(fs, seeds, depth).Ok?;
    var all := Collected(fs, seeds, depth).value;
    assert Resolve(fs, paths, depth).value == Resolution((set y | y in all), Images(StrSplit(paths, Delimiter)));
    assert x in Resolve(fs, paths, depth).value.dirs <==> x in all;
    if x in all {
      var i := CollectedFromLevel(fs, seeds, depth, x);
      assert i <= depth && InLevel(fs, Seeds(StrSplit(paths, Delimiter)), i, x);
    } else {
      forall i: nat | i <= depth ensures !InLevel(fs, Seeds(StrSplit(paths, Delimiter)), i, x) {
        if InLevel(fs, seeds, i, x) {
          LevelInCollected(fs, seeds, depth, i, x);
          assert false;
        }
      }
    }
  }

  /** With depth 0 nothing is listed: the directories are exactly the seeds. */
  lemma DepthZero(fs: FileTree, paths: string)
    ensures Resolve(fs, paths, 0).Ok?
    ensures Resolve(fs, paths, 0).value.dirs == set x | x in Seeds(StrSplit(paths, Delimiter))
  {
  }

  /** Accumulation only appends: a deeper accumulation extends a shallower one. */
  lemma {:induction false} CollectedGrows(fs: FileTree, seeds: seq<string>, d: nat, depth: nat)
    requires d <= depth && Collected(fs, seeds, depth).Ok?
    ensures Collected(fs, seeds, d).Ok?
    ensures Collected(fs, seeds, d).value <= Collected(fs, seeds, depth).value
    decreases depth - d
  {
    if d < depth {
      CollectedGrows(fs, seeds, d + 1, depth);
    }
  }

  /** Increasing the depth never removes a directory (and never turns an error into a result). */
  lemma DepthMonotone(fs: FileTree, paths: string, d: nat, depth: nat)
    requires d <= depth && Resolve(fs, paths, depth).Ok?
    ensures Resolve(fs, paths, d).Ok?
    ensures Resolve(fs, paths, d).value.dirs <= Resolve(fs, paths, depth).value.dirs
    ensures Resolve(fs, paths, d).value.files == Resolve(fs, paths, depth).value.files
  {
    var seeds := Seeds(StrSplit(paths, Delimiter));
    CollectedGrows(fs, seeds, d, depth);
    var shallow := Collected(fs, seeds, d).value;
    var deep := Collected(fs, seeds, depth).value;
    forall x | x in shallow ensures x in deep {
      var j :| 0 <= j < |shallow| && shallow[j] == x;
      assert deep[j] == x;
    }
  }

  /** Expanding no directories finds none, at every level. */
  lemma {:induction false} LevelsOfNothing(fs: FileTree, depth: nat)
    ensures Collected(fs, [], depth) == Ok([])
    ensures Level(fs, [], depth) == Ok([])
  {
    if depth > 0 {
      LevelsOfNothing(fs, depth - 1);
      assert Level(fs, [], depth) == Expand(fs, []);
      var none: seq<string> := [];
      assert none + none == none;
    }
  }

  /** A spec of image files only resolves to no directories, whatever the depth. */
  lemma OnlyExplicitFiles(fs: FileTree, paths: string, depth: nat)
    requires forall i :: 0 <= i < |StrSplit(paths, Delimiter)| ==> IsImageEntry(StrSplit(paths, Delimiter)[i])
    ensures Resolve(fs, paths, depth) == Ok(Resolution({}, StrSplit(paths, Delimiter)))
  {
    var entries := StrSplit(paths, Delimiter);
    ImagesAll(entries);
    PartitionCounts(entries);
    assert Seeds(entries) == [];
    LevelsOfNothing(fs, depth);
    var none: seq<string> := [];
    assert (set x | x in none) == {};
  }

  /** Filtering keeps everything when everything passes the filter. */
  lemma {:induction false} ImagesAll(entries: seq<string>)
    requires forall i :: 0 <= i < |entries| ==> IsImageEntry(entries[i])
    ensures Images(entries) == entries
  {
    if entries != [] {
      ImagesAll(entries[1..]);
    }
  }

  /** A spec without '*' is a single entry: one explicit file, or one seed. */
  lemma SingleEntry(paths: string)
    requires Delimiter !in paths
    ensures Images(StrSplit(paths, Delimiter)) == (if IsImageEntry(paths) then [paths] else [])
    ensures Seeds(StrSplit(paths, Delimiter)) == (if IsImageEntry(paths) then [] else [paths])
  {
    SplitWithoutDelimiter(paths, Delimiter);
  }

  /** A tree in which album1 holds the directory "a" and the file "notes.txt". */
  predicate AlbumTree(fs: FileTree)
  {
    && "album1" in fs.children && fs.children["album1"] == ["a", "notes.txt"]
    && IsDir(fs, "album1/a") && !IsDir(fs, "album1/notes.txt")
  }

  /** Expanding album1 finds album1/a and skips the file notes.txt. */
  lemma AlbumExpand(fs: FileTree)
    requires AlbumTree(fs)
    ensures Expand(fs, ["album1"]) == Ok(["album1/a"])
  {
    var names := ["a", "notes.txt"];
    assert Join("album1", "a") == "album1/a";
    assert Join("album1", "notes.txt") == "album1/notes.txt";
    assert names[..1] == ["a"];
    assert ["a"][..0] == [];
    var none: seq<string> := [];
    assert ChildDirs(fs, "album1", []) == none;
    assert ChildDirs(fs, "album1", ["a"]) == none + ["album1/a"];
    assert ChildDirs(fs, "album1", names) == ChildDirs(fs, "album1", ["a"]) + [];
    assert ChildDirs(fs, "album1", names) == ["album1/a"];
    var one := ["album1"];
    assert one[..0] == [];
    assert ListDir(fs, "album1") == Ok(names);
    assert none + ["album1/a"] == ["album1/a"];
  }

  /** At depth 1 the seed album1 and its child directory are collected, in that order. */
  lemma AlbumCollected(fs: FileTree)
    requires AlbumTree(fs)
    ensures Collected(fs, ["album1"], 1) == Ok(["album1", "album1/a"])
  {
    AlbumExpand(fs);
    var one := ["album1"];
    assert Level(fs, one, 0) == Ok(one);
    assert Level(fs, one, 1) == Ok(["album1/a"]);
    assert Collected(fs, one, 0) == Ok(one);
    assert one + ["album1/a"] == ["album1", "album1/a"];
  }

  /** A spec of a seed and an image, joined by the delimiter, yields that seed and that image. */
  lemma TwoEntries(seed: string, image: string)
    requires Delimiter !in seed && Delimiter !in image
    requires !IsImageEntry(seed) && IsImageEntry(image)
    ensures StrSplit(seed + [Delimiter] + image, Delimiter) == [seed, image]
    ensures Images([seed, image]) == [image]
    ensures Seeds([seed, image]) == [seed]
  {
    var parts := [seed, image];
    assert parts[1..] == [image] && [image][1..] == [];
    assert JoinWith(parts, Delimiter) == seed + [Delimiter] + image;
    SplitJoin(parts, Delimiter);
  }

  /** The names of the album scenario: "album1" is a seed and "album2/img.png" an image. */
  lemma AlbumNames()
    ensures Delimiter !in "album1" && Delimiter !in "album2/img.png"
    ensures !IsImageEntry("album1") && IsImageEntry("album2/img.png")
    ensures "album1*album2/img.png" == "album1" + [Delimiter] + "album2/img.png"
  {
    var seed, image := "album1", "album2/img.png";
    assert image[|image| - 4..] == ".png";
    assert seed[|seed| - 4..] == "bum1";
    var joined := seed + [Delimiter] + image;
    assert |joined| == 21;
    forall k | 0 <= k < 21 ensures joined[k] == "album1*album2/img.png"[k] {
      if k < 6 {
        assert joined[k] == seed[k];
      } else if k > 6 {
        assert joined[k] == image[k - 7];
      }
    }
  }

  /**
   * The spec "album1*album2/img.png" at depth 1: the directories are album1
   * and album1/a, and the explicit file list is ["album2/img.png"].
   */
  lemma AlbumScenario(fs: FileTree, spec: string)
    requires AlbumTree(fs) && spec == "album1*album2/img.png"
    ensures Resolve(fs, spec, 1) == Ok(Resolution({"album1", "album1/a"}, ["album2/img.png"]))
  {
    AlbumNames();
    TwoEntries("album1", "album2/img.png");
    AlbumCollected(fs);
    assert (set x | x in ["album1", "album1/a"]) == {"album1", "album1/a"};
  }
}
