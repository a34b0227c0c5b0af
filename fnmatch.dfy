/**
 * The shell-style patterns the program matches file names against:
 * `fnmatch(entry, "*.png")`, `fnmatch(entry, "*.jpg")` and the
 * `glob.glob("*.[a-z][a-z]g")` filter. Matching is the POSIX, case-sensitive
 * one; `*` matches any run of characters, separators included.
 */
module Fnmatch {

  /** One element of a compiled pattern: `*`, a literal character, or a range `[lo-hi]`. */
  datatype PatElem = Star | Lit(c: char) | Range(lo: char, hi: char)

  /** Whether a non-star element accepts one character. */
  predicate Accepts(e: PatElem, ch: char)
  {
    match e
    case Star => true
    case Lit(c) => ch == c
    case Range(lo, hi) => lo <= ch <= hi
  }

  /** Whether the whole of `s` matches the whole of `p`. */
  predicate Matches(s: string, p: seq<PatElem>)
    decreases |s| + |p|
  {
    if p == [] then s == []
    else if p[0] == Star then Matches(s, p[1..]) || (s != [] && Matches(s[1..], p))
    else s != [] && Accepts(p[0], s[0]) && Matches(s[1..], p[1..])
  }

  predicate NoStar(p: seq<PatElem>)
  {
    forall i :: 0 <= i < |p| ==> p[i] != Star
  }

  /** The literal pattern that matches exactly `s`. */
  function Literal(s: string): (p: seq<PatElem>)
    ensures |p| == |s| && NoStar(p)
    ensures forall i :: 0 <= i < |s| ==> p[i] == Lit(s[i])
  {
    if s == [] then [] else [Lit(s[0])] + Literal(s[1..])
  }

  /** `*.png`, `*.jpg` and `*.[a-z][a-z]g`. */
  const PngPattern: seq<PatElem> := [Star] + Literal(".png")
  const JpgPattern: seq<PatElem> := [Star] + Literal(".jpg")
  const GlobPattern: seq<PatElem> := [Star, Lit('.'), Range('a', 'z'), Range('a', 'z'), Lit('g')]

  /** A star-free pattern matches exactly the strings of its length accepted position by position. */
  lemma {:induction false} FixedMatch(s: string, p: seq<PatElem>)
    requires NoStar(p)
    ensures Matches(s, p) <==> |s| == |p| && forall i :: 0 <= i < |p| ==> Accepts(p[i], s[i])
    decreases |p|
  {
    if p != [] {
      assert p[0] != Star;
      assert NoStar(p[1..]) by {
        forall i | 0 <= i < |p[1..]| ensures p[1..][i] != Star { assert p[1..][i] == p[i + 1]; }
      }
      if s != [] {
        FixedMatch(s[1..], p[1..]);
        if |s| == |p| && forall i :: 0 <= i < |p| ==> Accepts(p[i], s[i]) {
          assert forall i :: 0 <= i < |p[1..]| ==> Accepts(p[1..][i], s[1..][i]) by {
            forall i | 0 <= i < |p[1..]| ensures Accepts(p[1..][i], s[1..][i]) {
              assert Accepts(p[i + 1], s[i + 1]);
            }
          }
        }
        if Matches(s, p) {
          forall i | 0 <= i < |p| ensures Accepts(p[i], s[i]) {
            if i > 0 { assert Accepts(p[1..][i - 1], s[1..][i - 1]); }
          }
        }
      }
    }
  }

  /** A leading star matches by skipping some prefix of the string. */
  lemma {:induction false} StarMatch(s: string, q: seq<PatElem>)
    ensures Matches(s, [Star] + q) <==> exists k :: 0 <= k <= |s| && Matches(s[k..], q)
    decreases |s|
  {
    var p := [Star] + q;
    assert p[1..] == q;
    if s == [] {
      assert s[0..] == s;
    } else {
      StarMatch(s[1..], q);
      if Matches(s, p) {
        if Matches(s, q) {
          assert s[0..] == s;
        } else {
          var k :| 0 <= k <= |s[1..]| && Matches(s[1..][k..], q);
          assert s[1..][k..] == s[k + 1..];
        }
      }
      if exists k :: 0 <= k <= |s| && Matches(s[k..], q) {
        var k :| 0 <= k <= |s| && Matches(s[k..], q);
        if k == 0 {
          assert s[0..] == s;
        } else {
          assert s[1..][k - 1..] == s[k..];
        }
      }
    }
  }

  /** `*` followed by a star-free pattern: a suffix of the right length accepted position by position. */
  lemma SuffixMatch(s: string, q: seq<PatElem>)
    requires NoStar(q)
    ensures Matches(s, [Star] + q) <==>
      |s| >= |q| && forall i :: 0 <= i < |q| ==> Accepts(q[i], s[|s| - |q| + i])
  {
    StarMatch(s, q);
    if Matches(s, [Star] + q) {
      var k :| 0 <= k <= |s| && Matches(s[k..], q);
      FixedMatch(s[k..], q);
      assert |s[k..]| == |q| && k == |s| - |q|;
      forall i | 0 <= i < |q| ensures Accepts(q[i], s[|s| - |q| + i]) {
        assert Accepts(q[i], s[k..][i]);
        assert s[k..][i] == s[k + i];
      }
    }
    if |s| >= |q| && forall i :: 0 <= i < |q| ==> Accepts(q[i], s[|s| - |q| + i]) {
      var k := |s| - |q|;
      FixedMatch(s[k..], q);
      forall i | 0 <= i < |q| ensures Accepts(q[i], s[k..][i]) {
        assert s[k..][i] == s[k + i];
      }
    }
  }

  predicate EndsWith(s: string, suffix: string)
  {
    |s| >= |suffix| && s[|s| - |suffix|..] == suffix
  }

  /** `fnmatch(s, "*" + suffix)` for a suffix free of pattern characters is plain suffix testing. */
  lemma SuffixLiteral(s: string, suffix: string)
    ensures Matches(s, [Star] + Literal(suffix)) <==> EndsWith(s, suffix)
  {
    var q := Literal(suffix);
    SuffixMatch(s, q);
    if EndsWith(s, suffix) {
      forall i | 0 <= i < |q| ensures Accepts(q[i], s[|s| - |q| + i]) {
        assert s[|s| - |suffix|..][i] == s[|s| - |q| + i];
      }
    }
    if Matches(s, [Star] + q) {
      assert forall i :: 0 <= i < |suffix| ==> s[|s| - |suffix|..][i] == suffix[i] by {
        forall i | 0 <= i < |suffix| ensures s[|s| - |suffix|..][i] == suffix[i] {
          assert Accepts(q[i], s[|s| - |q| + i]);
        }
      }
    }
  }

  /** The `*.png` and `*.jpg` tests are suffix tests on the entry. */
  lemma ImagePatterns(s: string)
    ensures Matches(s, PngPattern) <==> EndsWith(s, ".png")
    ensures Matches(s, JpgPattern) <==> EndsWith(s, ".jpg")
  {
    SuffixLiteral(s, ".png");
    SuffixLiteral(s, ".jpg");
  }

  /** No name matches both `*.png` and `*.jpg`. */
  lemma PngJpgDisjoint(s: string)
    ensures !(Matches(s, PngPattern) && Matches(s, JpgPattern))
  {
    ImagePatterns(s);
  }

  predicate Lower(c: char)
  {
    'a' <= c <= 'z'
  }

  /**
   * What `glob.glob("*.[a-z][a-z]g")` keeps of a directory listing: names
   * matching the pattern, except hidden ones (a leading dot), which glob
   * leaves out of every pattern that does not itself start with a dot.
   */
  predicate GlobSelects(name: string)
  {
    !(|name| > 0 && name[0] == '.') && Matches(name, GlobPattern)
  }

  /** The glob filter spelled out: a visible name ending in '.', two lower-case letters and 'g'. */
  lemma GlobSelectsExactly(name: string)
    ensures GlobSelects(name) <==>
      |name| >= 4 && name[0] != '.' && name[|name| - 4] == '.' &&
      Lower(name[|name| - 3]) && Lower(name[|name| - 2]) && name[|name| - 1] == 'g'
  {
    var q := GlobPattern[1..];
    assert GlobPattern == [Star] + q;
    assert q == [Lit('.'), Range('a', 'z'), Range('a', 'z'), Lit('g')];
    assert NoStar(q);
    SuffixMatch(name, q);
    var n := |name|;
    if n >= 4 {
      var spelled := forall i :: 0 <= i < |q| ==> Accepts(q[i], name[n - |q| + i]);
      assert spelled <==> (Accepts(q[0], name[n - 4]) && Accepts(q[1], name[n - 3]) &&
                           Accepts(q[2], name[n - 2]) && Accepts(q[3], name[n - 1])) by {
        if Accepts(q[0], name[n - 4]) && Accepts(q[1], name[n - 3]) &&
          Accepts(q[2], name[n - 2]) && Accepts(q[3], name[n - 1]) {
          forall i | 0 <= i < |q| ensures Accepts(q[i], name[n - |q| + i]) {
            assert i == 0 || i == 1 || i == 2 || i == 3;
          }
        }
      }
    }
  }

  /** Every visible `.jpg` and `.png` name passes the filter. */
  lemma GlobAdmitsImages(name: string)
    requires |name| > 0 && name[0] != '.'
    requires EndsWith(name, ".jpg") || EndsWith(name, ".png")
    ensures GlobSelects(name)
  {
    GlobSelectsExactly(name);
    var n := |name|;
    var tail := name[n - 4..];
    assert name[n - 4] == tail[0] && name[n - 3] == tail[1] && name[n - 2] == tail[2] && name[n - 1] == tail[3];
  }

  /** The filter also admits other names such as "logo.svg" and refuses "a.JPG", "a.jpeg" and ".a.png". */
  lemma GlobExamples()
    ensures GlobSelects("logo.svg")
    ensures !GlobSelects("a.JPG") && !GlobSelects("a.jpeg") && !GlobSelects(".a.png")
  {
    GlobSelectsExactly("logo.svg");
    GlobSelectsExactly("a.JPG");
    GlobSelectsExactly("a.jpeg");
    GlobSelectsExactly(".a.png");
  }
}
