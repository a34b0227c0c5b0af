/**
 * POSIX path-name arithmetic the program relies on: `os.path.join`,
 * `os.path.split`, `os.path.splitext` and `str.split` on one character.
 * Strings are sequences of characters; the separator is '/'.
 */
module PathNames {

  const Sep: char := '/'
  const ExtSep: char := '.'

  /** Index of the last occurrence of `c` in `s`, or -1 (Python's `str.rfind`). */
  function LastIndexOf(s: string, c: char): (r: int)
    ensures -1 <= r < |s|
    ensures r >= 0 ==> s[r] == c
    ensures forall k :: r < k < |s| ==> s[k] != c
  {
    if s == [] then -1
    else if s[|s| - 1] == c then |s| - 1
    else LastIndexOf(s[..|s| - 1], c)
  }

  /**
   * `os.path.join(a, b)` for two components: an absolute `b` replaces `a`;
   * otherwise `b` follows `a`, with one separator between them unless `a` is
   * empty or already ends in one.
   */
  function Join(a: string, b: string): (r: string)
    ensures |b| <= |r| <= |a| + 1 + |b|
  {
    if |b| > 0 && b[0] == Sep then b
    else if a == [] || a[|a| - 1] == Sep then a + b
    else a + [Sep] + b
  }

  /** The joined path ends with `b`; unless `b` is absolute it starts with `a`, and only separators lie between. */
  lemma JoinShape(a: string, b: string)
    ensures var r := Join(a, b);
      r[|r| - |b|..] == b &&
      (b != [] && b[0] == Sep ==> r == b) &&
      (!(b != [] && b[0] == Sep) ==>
        |a| + |b| <= |r| && r[..|a|] == a && (forall k :: |a| <= k < |r| - |b| ==> r[k] == Sep))
  {
  }

  /**
   * The tail that `os.path.split` returns: everything after the last
   * separator. It is the longest suffix of `p` free of separators.
   */
  function LastComponent(p: string): (r: string)
    ensures Sep !in r
    ensures |r| <= |p| && p == p[..|p| - |r|] + r
    ensures |r| < |p| ==> p[|p| - |r| - 1] == Sep
  {
    var i := LastIndexOf(p, Sep) + 1;
    assert p == p[..i] + p[i..];
    p[i..]
  }

  /** `s` with every trailing `c` removed (Python's `str.rstrip(c)`). */
  function RStrip(s: string, c: char): (r: string)
    ensures |r| <= |s| && r == s[..|r|]
    ensures r == [] || r[|r| - 1] != c
    ensures forall k :: |r| <= k < |s| ==> s[k] == c
  {
    if s != [] && s[|s| - 1] == c then RStrip(s[..|s| - 1], c) else s
  }

  /**
   * The head that `os.path.split` returns: everything up to the last
   * separator, with trailing separators stripped unless it is all separators.
   */
  function Head(p: string): (r: string)
    ensures |r| + |LastComponent(p)| <= |p|
  {
    var i := LastIndexOf(p, Sep) + 1;
    var head := p[..i];
    if head != [] && (exists k :: 0 <= k < |head| && head[k] != Sep) then RStrip(head, Sep)
    else head
  }

  /**
   * The head is a prefix of the path, only separators lie between it and the
   * tail, and it ends in a separator only when it is all separators.
   */
  lemma HeadShape(p: string)
    ensures var r, n := Head(p), |p| - |LastComponent(p)|;
      r == p[..|r|] &&
      (forall k :: |r| <= k < n ==> p[k] == Sep) &&
      (r == [] || r[|r| - 1] != Sep || (forall k :: 0 <= k < |r| ==> r[k] == Sep))
  {
    var i := LastIndexOf(p, Sep) + 1;
    var head := p[..i];
    assert |LastComponent(p)| == |p| - i;
    if head != [] && (exists k :: 0 <= k < |head| && head[k] != Sep) {
      var r := RStrip(head, Sep);
      assert Head(p) == r;
      assert r == head[..|r|] && head[..|r|] == p[..|r|];
      forall k | |r| <= k < i ensures p[k] == Sep {
        assert p[k] == head[k];
      }
    } else {
      assert Head(p) == head;
      if head != [] {
        assert forall k :: 0 <= k < |head| ==> head[k] == Sep;
      }
    }
  }

  /** A single separator after a non-separator: the head is everything before it. */
  lemma HeadSingleSeparator(p: string, i: nat)
    requires 0 < i < |p| && p[i] == Sep && p[i - 1] != Sep
    requires forall k :: i < k < |p| ==> p[k] != Sep
    ensures Head(p) == p[..i]
  {
    assert LastIndexOf(p, Sep) == i;
    var head := p[..i + 1];
    assert head[i - 1] != Sep;
    assert head[..i] == p[..i];
    assert RStrip(head, Sep) == RStrip(p[..i], Sep) == p[..i];
  }

  /** `os.path.split` undoes `os.path.join` of a directory and a plain name. */
  lemma SplitJoinedName(a: string, b: string)
    requires b != [] && Sep !in b
    ensures LastComponent(Join(a, b)) == b
    ensures a != [] && a[|a| - 1] != Sep ==> Head(Join(a, b)) == a
  {
    JoinShape(a, b);
    var p := Join(a, b);
    var n := |p| - |b|;
    assert forall k :: n <= k < |p| ==> p[k] == b[k - n];
    if a != [] && a[|a| - 1] != Sep {
      assert p == a + [Sep] + b;
      assert p[|a|] == Sep && p[|a| - 1] == a[|a| - 1];
      HeadSingleSeparator(p, |a|);
      assert p[..|a|] == a;
    }
  }

  /**
   * `os.path.split(p)`: the pair (head, tail). The tail has no separator, and
   * only separators lie between the head and the tail.
   */
  function PathSplit(p: string): (r: (string, string))
    ensures Sep !in r.1 && |r.0| + |r.1| <= |p|
  {
    (Head(p), LastComponent(p))
  }

  /** `os.path.split` loses only separators: head, the separators between, and tail rebuild the path. */
  lemma PathSplitRebuilds(p: string)
    ensures var (head, tail) := PathSplit(p);
      p == head + p[|head|..|p| - |tail|] + tail &&
      (forall k :: |head| <= k < |p| - |tail| ==> p[k] == Sep)
  {
    HeadShape(p);
    var (head, tail) := PathSplit(p);
    assert p == p[..|p| - |tail|] + tail;
    assert p[..|p| - |tail|] == head + p[|head|..|p| - |tail|];
  }

  /**
   * `os.path.splitext(p)`: the extension starts at the last dot of the last
   * component, unless everything before that dot in the component is dots
   * (so ".jpg" and "..jpg" have no extension).
   */
  function SplitExt(p: string): (r: (string, string))
    ensures r.0 + r.1 == p
    ensures r.1 == [] || (r.1[0] == ExtSep && ExtSep !in r.1[1..] && Sep !in r.1)
  {
    var sepIndex := LastIndexOf(p, Sep);
    var dotIndex := LastIndexOf(p, ExtSep);
    if dotIndex > sepIndex && (exists k :: sepIndex + 1 <= k < dotIndex && p[k] != ExtSep) then
      assert p == p[..dotIndex] + p[dotIndex..];
      var ext := p[dotIndex..];
      assert forall k :: 1 <= k < |ext| ==> ext[k] == p[dotIndex + k];
      (p[..dotIndex], p[dotIndex..])
    else
      (p, [])
  }

  /** The root half of `os.path.splitext`, called `file` in the source. */
  function Root(p: string): string
  {
    SplitExt(p).0
  }

  /** A base name whose stem has a character other than a dot. */
  predicate OrdinaryStem(stem: string)
  {
    Sep !in stem && exists k :: 0 <= k < |stem| && stem[k] != ExtSep
  }

  /** A dot followed by characters that are neither dots nor separators. */
  predicate SimpleExtension(ext: string)
  {
    |ext| >= 1 && ext[0] == ExtSep && ExtSep !in ext[1..] && Sep !in ext
  }

  /** For an ordinary base name, `splitext` splits exactly at its extension. */
  lemma SplitExtOrdinary(stem: string, ext: string)
    requires OrdinaryStem(stem) && SimpleExtension(ext)
    ensures SplitExt(stem + ext) == (stem, ext)
  {
    var p := stem + ext;
    var dotIndex := LastIndexOf(p, ExtSep);
    assert p[|stem|] == ExtSep;
    forall k | |stem| < k < |p| ensures p[k] != ExtSep && p[k] != Sep {
      assert p[k] == ext[1..][k - |stem| - 1];
    }
    assert dotIndex == |stem|;
    var sepIndex := LastIndexOf(p, Sep);
    forall k | 0 <= k < |stem| ensures p[k] != Sep {
      assert p[k] == stem[k];
    }
    assert sepIndex == -1;
    var w :| 0 <= w < |stem| && stem[w] != ExtSep;
    assert p[w] == stem[w];
    assert p[..dotIndex] == stem;
    assert p[dotIndex..] == ext;
  }

  /** A name made entirely of dots before its suffix keeps the suffix in its root. */
  lemma SplitExtAllDots()
    ensures SplitExt("..jpg") == ("..jpg", "")
    ensures SplitExt(".png") == (".png", "")
  {
    var p := "..jpg";
    assert p[1] == '.' && p[2] == 'j' && p[3] == 'p' && p[4] == 'g';
    assert LastIndexOf(p, Sep) == -1;
    assert LastIndexOf(p, ExtSep) == 1;
    var q := ".png";
    assert q[0] == '.' && q[1] == 'p' && q[2] == 'n' && q[3] == 'g';
    assert LastIndexOf(q, Sep) == -1;
    assert LastIndexOf(q, ExtSep) == 0;
  }

  // ---------------------------------------------------------------------
  // str.split on a single-character delimiter, and its inverse str.join.
  // ---------------------------------------------------------------------

  /** Python's `s.split(d)`: never empty; an empty `s` gives one empty part. */
  function StrSplit(s: string, d: char): (r: seq<string>)
    ensures |r| >= 1
    decreases |s|
  {
    if s == [] then [[]]
    else
      var rest := StrSplit(s[1..], d);
      if s[0] == d then [[]] + rest else [[s[0]] + rest[0]] + rest[1..]
  }

  /** Python's `d.join(parts)`. */
  function JoinWith(parts: seq<string>, d: char): string
  {
    if parts == [] then []
    else if |parts| == 1 then parts[0]
    else parts[0] + [d] + JoinWith(parts[1..], d)
  }

  /** Number of occurrences of `c` in `s`. */
  function Count(s: string, c: char): nat
  {
    if s == [] then 0 else (if s[0] == c then 1 else 0) + Count(s[1..], c)
  }

  /** Splitting and joining again gives back the string. */
  lemma {:induction false} JoinSplit(s: string, d: char)
    ensures JoinWith(StrSplit(s, d), d) == s
    decreases |s|
  {
    if s != [] {
      JoinSplit(s[1..], d);
      var rest := StrSplit(s[1..], d);
      if s[0] != d {
        if |rest| == 1 {
          assert JoinWith(rest, d) == rest[0];
        } else {
          assert JoinWith(rest, d) == rest[0] + [d] + JoinWith(rest[1..], d);
          assert [[s[0]] + rest[0]] + rest[1..] == [[s[0]] + rest[0]] + rest[1..];
          assert ([[s[0]] + rest[0]] + rest[1..])[1..] == rest[1..];
        }
      } else {
        assert ([[]] + rest)[1..] == rest;
      }
    }
  }

  /** No part contains the delimiter, and there is one part more than there are delimiters. */
  lemma {:induction false} SplitParts(s: string, d: char)
    ensures forall i :: 0 <= i < |StrSplit(s, d)| ==> d !in StrSplit(s, d)[i]
    ensures |StrSplit(s, d)| == Count(s, d) + 1
    decreases |s|
  {
    if s != [] {
      SplitParts(s[1..], d);
      var rest := StrSplit(s[1..], d);
      if s[0] != d {
        var r := [[s[0]] + rest[0]] + rest[1..];
        forall i | 0 <= i < |r| ensures d !in r[i] {
          if i > 0 { assert r[i] == rest[i]; }
        }
      } else {
        var r := [[]] + rest;
        forall i | 0 <= i < |r| ensures d !in r[i] {
          if i > 0 { assert r[i] == rest[i - 1]; }
        }
      }
    }
  }

  /** Without the delimiter the whole string is the only part. */
  lemma {:induction false} SplitWithoutDelimiter(s: string, d: char)
    requires d !in s
    ensures StrSplit(s, d) == [s]
    decreases |s|
  {
    if s != [] {
      assert d !in s[1..] by { assert forall c :: c in s[1..] ==> c in s; }
      SplitWithoutDelimiter(s[1..], d);
      assert [s[0]] + s[1..] == s;
    }
  }

  /** Joining parts free of the delimiter and splitting again gives back the parts. */
  lemma {:induction false} SplitJoin(parts: seq<string>, d: char)
    requires |parts| >= 1
    requires forall i :: 0 <= i < |parts| ==> d !in parts[i]
    ensures StrSplit(JoinWith(parts, d), d) == parts
    decreases |parts|, |parts[0]|
  {
    if |parts| == 1 {
      SplitWithoutDelimiter(parts[0], d);
    } else if parts[0] == [] {
      var rest := parts[1..];
      SplitJoin(rest, d);
      assert JoinWith(parts, d) == [d] + JoinWith(rest, d);
      assert ([d] + JoinWith(rest, d))[1..] == JoinWith(rest, d);
      assert parts == [[]] + rest;
    } else {
      var first := parts[0];
      var shorter := [first[1..]] + parts[1..];
      assert shorter[1..] == parts[1..];
      forall i | 0 <= i < |shorter| ensures d !in shorter[i] {
        if i == 0 { assert forall c :: c in first[1..] ==> c in first; } else { assert shorter[i] == parts[i]; }
      }
      SplitJoin(shorter, d);
      var joined := JoinWith(parts, d);
      assert JoinWith(shorter, d) == first[1..] + [d] + JoinWith(parts[1..], d);
      assert joined == [first[0]] + JoinWith(shorter, d);
      assert joined[1..] == JoinWith(shorter, d);
      assert first[0] != d;
      var rest := StrSplit(joined[1..], d);
      assert rest == shorter;
      assert [first[0]] + first[1..] == first;
      assert StrSplit(joined, d) == [[first[0]] + rest[0]] + rest[1..];
    }
  }
}
