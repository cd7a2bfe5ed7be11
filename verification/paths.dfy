/**
 * POSIX path strings as the repository builds and inspects them:
 * `os.path.join`, and the pathlib views `Path(p).parts`, `.name`, `.suffix`
 * and `str(Path(p))`.
 */
module Paths {
  import opened Text

  /** `os.path.join(a, b)` on POSIX. */
  function PosixJoin(a: string, b: string): (r: string)
    ensures StartsWith(b, "/") ==> r == b
    ensures !StartsWith(b, "/") ==> EndsWith(r, b)
  {
    if StartsWith(b, "/") then b
    else if a == [] || EndsWith(a, "/") then a + b
    else a + "/" + b
  }

  /** `os.path.join(top, c1, ..., cn)`: the path of a directory entry reached from top by comps. */
  function JoinAll(top: string, comps: seq<string>): string
    decreases |comps|
  {
    if comps == [] then top
    else PosixJoin(JoinAll(top, comps[..|comps| - 1]), comps[|comps| - 1])
  }

  /** Index of the last occurrence of c in s, or -1 (`s.rfind(c)`). */
  function RFind(s: string, c: char): (i: int)
    ensures -1 <= i < |s|
    ensures i >= 0 ==> s[i] == c
    ensures forall j :: i < j < |s| ==> s[j] != c
    decreases |s|
  {
    if |s| == 0 then -1
    else if s[|s| - 1] == c then |s| - 1
    else RFind(s[..|s| - 1], c)
  }

  /**
   * `PurePath(name).suffix` for a final component: the text from the last dot,
   * or "" when there is no dot, or the last dot is the first or the last character.
   */
  function Suffix(name: string): string {
    var i := RFind(name, '.');
    if 0 < i < |name| - 1 then name[i..] else ""
  }

  /** A non-empty suffix is a dot followed by at least one dot-free character, and it ends the name. */
  lemma SuffixShape(name: string)
    ensures var r := Suffix(name);
      r == "" || (|r| >= 2 && |r| < |name| && r[0] == '.' && EndsWith(name, r) &&
                  forall j :: 0 < j < |r| ==> r[j] != '.')
  {
    var i := RFind(name, '.');
    if 0 < i < |name| - 1 {
      var r := name[i..];
      forall j | 0 < j < |r| ensures r[j] != '.' {
        assert r[j] == name[i + j];
      }
    }
  }

  /** A name whose only dot is its first character (".bashrc") has no suffix. */
  lemma SuffixOfDotFile(rest: string)
    requires '.' !in rest
    ensures Suffix("." + rest) == ""
  {
    var name := "." + rest;
    forall j | 0 < j < |name| ensures name[j] != '.' {
      assert name[j] == rest[j - 1];
    }
  }

  /** The parts of `s.split('/')` that pathlib keeps: non-empty and not ".". */
  function Meaningful(pieces: seq<string>): (r: seq<string>)
    ensures forall k :: 0 <= k < |r| ==> r[k] != "" && r[k] != "."
    ensures forall x :: x in r ==> x in pieces
    decreases |pieces|
  {
    if pieces == [] then []
    else (if pieces[0] == "" || pieces[0] == "." then [] else [pieces[0]]) + Meaningful(pieces[1..])
  }

  /** The named components of a path (`Path(p).parts` without the root). */
  function Segments(p: string): seq<string> {
    Meaningful(Split(p, '/'))
  }

  /** No named component contains a slash or is empty or ".". */
  lemma SegmentsAreNames(p: string)
    ensures forall k :: 0 <= k < |Segments(p)| ==>
      '/' !in Segments(p)[k] && Segments(p)[k] != "" && Segments(p)[k] != "."
  {
    var pieces := Split(p, '/');
    forall k | 0 <= k < |Segments(p)| ensures '/' !in Segments(p)[k] {
      assert Segments(p)[k] in pieces;
      var j :| 0 <= j < |pieces| && pieces[j] == Segments(p)[k];
    }
  }

  /** `Path(p).parts` on POSIX: "/" first for an absolute path, then the named components. */
  function Parts(p: string): seq<string> {
    (if StartsWith(p, "/") then ["/"] else []) + Segments(p)
  }

  /** `Path(p).name`: the final named component, "" for the root or an empty path. */
  function Name(p: string): (r: string)
    ensures '/' !in r
  {
    SegmentsAreNames(p);
    var segs := Segments(p);
    if segs == [] then "" else segs[|segs| - 1]
  }

  /** An empty piece at the end is dropped like any other. */
  lemma {:induction false} MeaningfulDropsTrailingEmpty(pieces: seq<string>)
    ensures Meaningful(pieces + [""]) == Meaningful(pieces)
    decreases |pieces|
  {
    if pieces != [] {
      MeaningfulDropsTrailingEmpty(pieces[1..]);
      assert (pieces + [""])[1..] == pieces[1..] + [""];
    }
  }

  /** `os.path.join(d, "")` names the same path as d. */
  lemma JoinEmptySamePath(d: string)
    ensures PathStr(PosixJoin(d, "")) == PathStr(d)
  {
    if d != [] && !EndsWith(d, "/") {
      var e := d + "/";
      assert e[..|e| - 1] == d;
      assert Split(e, '/') == Split(d, '/') + [""];
      MeaningfulDropsTrailingEmpty(Split(d, '/'));
      assert Segments(e) == Segments(d);
      assert StartsWith(e, "/") == StartsWith(d, "/") by {
        assert e[0] == d[0];
      }
      assert PosixJoin(d, "") == d + "/" + "";
      assert d + "/" + "" == e;
    } else {
      assert PosixJoin(d, "") == d + "";
      assert d + "" == d;
    }
  }

  /** `str(Path(p))`: the normalised rendering of a path. */
  function PathStr(p: string): string {
    var segs := Segments(p);
    if StartsWith(p, "/") then "/" + Join(segs, "/")
    else if segs == [] then "."
    else Join(segs, "/")
  }
}
