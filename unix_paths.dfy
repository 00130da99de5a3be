/**
 * How `java.nio.file.Paths.get(first, more...)` builds a path on a Unix file
 * system: the non-empty segments are joined with '/', then the string is
 * normalised (runs of '/' collapse to one, a trailing '/' is dropped unless the
 * path is the root "/"). `java.io.File` normalises a path string the same way.
 */
module UnixPaths {

  /** Two '/' characters stand side by side at index `i`. */
  predicate DoubleSlashAt(s: string, i: int) {
    0 <= i < |s| - 1 && s[i] == '/' && s[i + 1] == '/'
  }

  /** No two consecutive '/' characters. */
  ghost predicate NoDoubleSlash(s: string) {
    forall i :: !DoubleSlashAt(s, i)
  }

  /** The form every `Path` object's string takes. */
  ghost predicate IsNormal(s: string) {
    NoDoubleSlash(s) && (|s| > 1 ==> s[|s| - 1] != '/')
  }

  type Path = s: string | IsNormal(s) witness ""

  /**
   * `Path.getParent()` is not null: the path has a '/' and is not the root "/"
   * itself. A single relative name, the empty path and "/" have no parent.
   */
  predicate HasParent(p: Path)
    ensures HasParent(p) ==> exists i :: 0 <= i < |p| - 1 && p[i] == '/'
  {
    '/' in p && p != "/"
  }

  /** A segment that contributes no separator of its own. */
  predicate Clean(segment: string) {
    '/' !in segment
  }

  predicate AllClean(segments: seq<string>) {
    forall i :: 0 <= i < |segments| ==> Clean(segments[i])
  }

  /** Collapses every run of '/' to a single '/'. */
  function Collapse(s: string): (r: string)
    ensures |r| <= |s|
    ensures |s| > 0 ==> |r| > 0 && r[0] == s[0] && r[|r| - 1] == s[|s| - 1]
  {
    if |s| <= 1 then s
    else if s[0] == '/' && s[1] == '/' then Collapse(s[1..])
    else [s[0]] + Collapse(s[1..])
  }

  /** No run of '/' survives collapsing. */
  lemma {:induction false} CollapseNoDoubleSlash(s: string)
    ensures NoDoubleSlash(Collapse(s))
  {
    if |s| > 1 {
      CollapseNoDoubleSlash(s[1..]);
      if !(s[0] == '/' && s[1] == '/') {
        var c, r := Collapse(s[1..]), Collapse(s);
        assert r == [s[0]] + c;
        forall i ensures !DoubleSlashAt(r, i) {
          if i > 0 {
            assert !DoubleSlashAt(c, i - 1);
          }
        }
      }
    }
  }

  /** Collapsing changes nothing in a string without a run of '/'. */
  lemma {:induction false} CollapseKeepsClean(s: string)
    requires NoDoubleSlash(s)
    ensures Collapse(s) == s
  {
    if |s| > 1 {
      assert !DoubleSlashAt(s, 0);
      assert NoDoubleSlash(s[1..]) by {
        forall i ensures !DoubleSlashAt(s[1..], i) {
          assert !DoubleSlashAt(s, i + 1);
        }
      }
      CollapseKeepsClean(s[1..]);
      assert s == [s[0]] + s[1..];
    }
  }

  /** Dropping the trailing '/' of a collapsed string leaves a normal one. */
  lemma DropTrailingSlash(c: string)
    requires NoDoubleSlash(c) && |c| > 1 && c[|c| - 1] == '/'
    ensures IsNormal(c[..|c| - 1])
  {
    var r := c[..|c| - 1];
    forall i ensures !DoubleSlashAt(r, i) {
      assert !DoubleSlashAt(c, i);
    }
    assert !DoubleSlashAt(c, |c| - 2);
  }

  /** `UnixPath.normalizeAndCheck`, leaving out its rejection of NUL characters. */
  function Normalize(s: string): (r: string)
    ensures IsNormal(r)
    ensures s != "" ==> r != ""
  {
    CollapseNoDoubleSlash(s);
    var c := Collapse(s);
    if |c| > 1 && c[|c| - 1] == '/' then
      DropTrailingSlash(c);
      c[..|c| - 1]
    else
      c
  }

  /** A double '/' collapses exactly as a single one does, wherever it stands. */
  lemma {:induction false} CollapseDoubleSlash(a: string, b: string)
    ensures Collapse(a + "//" + b) == Collapse(a + "/" + b)
  {
    if a == [] {
      assert a + "//" + b == "/" + ("/" + b);
      assert ("/" + ("/" + b))[1..] == "/" + b;
      assert a + "/" + b == "/" + b;
    } else {
      var s, t := a + "//" + b, a + "/" + b;
      assert s[1..] == a[1..] + "//" + b;
      assert t[1..] == a[1..] + "/" + b;
      assert s[0] == t[0] == a[0] && s[1] == t[1];
      CollapseDoubleSlash(a[1..], b);
    }
  }

  /** A '/' added at the end survives collapsing unless one is already there. */
  lemma {:induction false} CollapseAppendSlash(s: string)
    requires s != ""
    ensures Collapse(s + "/") == if s[|s| - 1] == '/' then Collapse(s) else Collapse(s) + "/"
  {
    var t := s + "/";
    if |s| == 1 {
      assert t[1..] == "/";
    } else {
      assert t[0] == s[0] && t[1] == s[1] && t[1..] == s[1..] + "/";
      CollapseAppendSlash(s[1..]);
      if !(s[0] == '/' && s[1] == '/') {
        assert Collapse(t) == [s[0]] + Collapse(s[1..] + "/");
      }
    }
  }

  /** A path string that is already normal is its own normal form. */
  lemma NormalizeFixesNormal(s: string)
    requires IsNormal(s)
    ensures Normalize(s) == s
  {
    CollapseKeepsClean(s);
  }

  /** Normalising treats a double '/' anywhere as a single one. */
  lemma NormalizeDoubleSlash(a: string, b: string)
    ensures Normalize(a + "//" + b) == Normalize(a + "/" + b)
  {
    CollapseDoubleSlash(a, b);
  }

  /** Normalising ignores one extra trailing '/' on a non-empty string. */
  lemma NormalizeTrailingSlash(s: string)
    requires s != ""
    ensures Normalize(s + "/") == Normalize(s)
  {
    CollapseAppendSlash(s);
  }

  /** "a//b/" normalises to "a/b". */
  lemma NormalizeExample()
    ensures Normalize("a//b/") == "a/b"
  {
    NormalizeTrailingSlash("a//b");
    assert "a//b" + "/" == "a//b/";
    NormalizeDoubleSlash("a", "b");
    assert "a" + "//" + "b" == "a//b" && "a" + "/" + "b" == "a/b";
    assert !DoubleSlashAt("a/b", 0) && !DoubleSlashAt("a/b", 1);
    NormalizeFixesNormal("a/b");
  }

  /** A non-empty string that does not end in '/' normalises to a joinable path. */
  lemma NormalizeEndsClean(s: string)
    requires s != "" && s[|s| - 1] != '/'
    ensures Joinable(Normalize(s))
  {
  }

  /**
   * The joining loop of `UnixFileSystem.getPath`: each non-empty segment is
   * appended, preceded by '/' unless nothing has been written yet.
   */
  function JoinNonEmpty(acc: string, more: seq<string>): (r: string)
    ensures |acc| <= |r|
    decreases |more|
  {
    if more == [] then acc
    else if more[0] == "" then JoinNonEmpty(acc, more[1..])
    else JoinNonEmpty(if acc == "" then more[0] else acc + "/" + more[0], more[1..])
  }

  /** `Paths.get(first, more...)` rendered as its string. */
  function GetPath(first: string, more: seq<string>): (r: string)
    ensures IsNormal(r)
    ensures first != "" ==> r != ""
  {
    Normalize(JoinNonEmpty(first, more))
  }

  /** The text `JoinNonEmpty` appends after a non-empty start: "/" + s per non-empty s. */
  function Tail(segments: seq<string>): string {
    if segments == [] then ""
    else if segments[0] == "" then Tail(segments[1..])
    else "/" + segments[0] + Tail(segments[1..])
  }

  /** The tail of consecutive segment lists is the concatenation of their tails. */
  lemma {:induction false} TailConcat(a: seq<string>, b: seq<string>)
    ensures Tail(a + b) == Tail(a) + Tail(b)
  {
    if a != [] {
      assert (a + b)[0] == a[0] && (a + b)[1..] == a[1..] + b;
      TailConcat(a[1..], b);
    } else {
      assert a + b == b;
    }
  }

  /** One segment's share of a tail: nothing if it is empty, else "/" and itself. */
  lemma TailSingle(segment: string)
    ensures Tail([segment]) == if segment == "" then "" else "/" + segment
  {
    assert [segment][1..] == [];
  }

  /** A non-empty segment in front contributes "/" and itself. */
  lemma TailCons(segment: string, more: seq<string>)
    requires segment != ""
    ensures Tail([segment] + more) == "/" + segment + Tail(more)
  {
    assert ([segment] + more)[1..] == more;
  }

  /** After a non-empty start, joining appends exactly `Tail`. */
  lemma {:induction false} JoinAfterNonEmpty(acc: string, more: seq<string>)
    requires acc != ""
    ensures JoinNonEmpty(acc, more) == acc + Tail(more)
    decreases |more|
  {
    if more != [] {
      if more[0] == "" {
        JoinAfterNonEmpty(acc, more[1..]);
      } else {
        JoinAfterNonEmpty(acc + "/" + more[0], more[1..]);
      }
    }
  }

  /** A non-empty normal path without a trailing '/': segments can follow it after a '/'. */
  ghost predicate Joinable(s: string) {
    s != "" && IsNormal(s) && s[|s| - 1] != '/'
  }

  /**
   * Appending "/" and a normal relative path that does not start with '/'
   * keeps a joinable path joinable.
   */
  lemma AppendNormal(acc: string, rel: string)
    requires Joinable(acc)
    requires IsNormal(rel) && rel != "" && rel[0] != '/'
    ensures Joinable(acc + "/" + rel)
  {
    var r := acc + "/" + rel;
    forall i ensures !DoubleSlashAt(r, i) {
      if i + 1 < |acc| {
        assert !DoubleSlashAt(acc, i);
      } else if i + 1 == |acc| {
        assert r[i] == acc[|acc| - 1];
      } else if i == |acc| {
        assert r[i + 1] == rel[0];
      } else if 0 <= i < |r| - 1 {
        assert !DoubleSlashAt(rel, i - |acc| - 1);
      }
    }
    assert r[|r| - 1] == rel[|rel| - 1];
  }

  /** Appending "/" and a clean, non-empty segment keeps a path joinable. */
  lemma AppendSegmentNormal(acc: string, segment: string)
    requires Joinable(acc)
    requires Clean(segment) && segment != ""
    ensures Joinable(acc + "/" + segment)
  {
    forall i ensures !DoubleSlashAt(segment, i) {
      if 0 <= i < |segment| {
        assert segment[i] != '/';
      }
    }
    assert segment[|segment| - 1] != '/';
    AppendNormal(acc, segment);
  }

  /** The first segment of a clean list is clean, and so is the rest of the list. */
  lemma AllCleanSplit(more: seq<string>)
    requires AllClean(more) && more != []
    ensures Clean(more[0]) && AllClean(more[1..])
  {
    var rest := more[1..];
    forall i | 0 <= i < |rest| ensures Clean(rest[i]) {
      assert rest[i] == more[i + 1];
    }
  }

  /** The tail of a list is its first segment's share followed by the rest's tail. */
  lemma TailStep(acc: string, more: seq<string>)
    requires more != []
    ensures acc + Tail(more)
         == (if more[0] == "" then acc else acc + "/" + more[0]) + Tail(more[1..])
  {
  }

  /** A joinable start followed by clean segments is joinable. */
  lemma {:induction false} TailKeepsNormal(acc: string, more: seq<string>)
    requires Joinable(acc) && AllClean(more)
    ensures Joinable(acc + Tail(more))
    decreases |more|
  {
    if more == [] {
      assert acc + Tail(more) == acc;
    } else {
      AllCleanSplit(more);
      var acc' := if more[0] == "" then acc else acc + "/" + more[0];
      if more[0] != "" {
        AppendSegmentNormal(acc, more[0]);
      }
      TailKeepsNormal(acc', more[1..]);
      TailStep(acc, more);
    }
  }

  /**
   * Joining a joinable first part with clean
   * segments yields that first part followed by "/" + s for every non-empty s:
   * empty segments vanish and nothing else is rewritten.
   */
  lemma GetPathClean(first: string, more: seq<string>)
    requires Joinable(first)
    requires AllClean(more)
    ensures GetPath(first, more) == first + Tail(more)
  {
    JoinAfterNonEmpty(first, more);
    TailKeepsNormal(first, more);
    NormalizeFixesNormal(first + Tail(more));
  }

  /**
   * `Paths.get(first, rel)` with a joinable first part and a normal relative
   * path, which may itself hold several segments, is `first/rel` verbatim.
   */
  lemma GetPathRelative(first: string, rel: string)
    requires Joinable(first)
    requires IsNormal(rel) && rel != "" && rel[0] != '/'
    ensures GetPath(first, [rel]) == first + "/" + rel
  {
    JoinAfterNonEmpty(first, [rel]);
    TailSingle(rel);
    AppendNormal(first, rel);
    NormalizeFixesNormal(first + "/" + rel);
  }
}
