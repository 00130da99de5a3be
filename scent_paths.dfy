/**
 * The `ScentPaths` object: where the cache lives, how a path under it is built,
 * how a URI becomes a content-hash file name, and how an absolute path is
 * turned back into a path relative to the cache root.
 */
module ScentPaths {
  import opened Text
  import opened UnixPaths

  /** What `DigestUtils.md5Hex` returns: 32 lower-case hexadecimal digits. */
  predicate IsMd5Hex(h: string) {
    |h| == 32 && forall i :: 0 <= i < |h| ==> h[i] in "0123456789abcdef"
  }

  /**
   * `tmpDir`, which is also `rootDir`: the JVM's `java.io.tmpdir` joined with
   * "scent-" and the USER environment variable, which Kotlin's string
   * concatenation renders as "null" when it is unset.
   */
  function RootDir(tmpDir: string, user: Option<string>): (r: Path)
    ensures r != ""
  {
    GetPath(tmpDir, ["scent-" + user.GetOr("null")])
  }

  /** With a clean temporary directory the root is `tmpDir/scent-USER`. */
  lemma RootDirLayout(tmpDir: string, user: Option<string>)
    requires Joinable(tmpDir) && Clean(user.GetOr("null"))
    ensures RootDir(tmpDir, user) == tmpDir + "/scent-" + user.GetOr("null")
    ensures Joinable(RootDir(tmpDir, user))
  {
    var segment := "scent-" + user.GetOr("null");
    GetPathClean(tmpDir, [segment]);
    TailKeepsNormal(tmpDir, [segment]);
  }

  /**
   * Whatever the temporary directory, even one ending in '/', the root is
   * joinable when USER holds no '/': its normal form ends in "scent-USER".
   */
  lemma RootDirJoinable(tmpDir: string, user: Option<string>)
    requires Clean(user.GetOr("null"))
    ensures Joinable(RootDir(tmpDir, user))
  {
    var segment := "scent-" + user.GetOr("null");
    var joined := JoinNonEmpty(tmpDir, [segment]);
    var acc := if tmpDir == "" then segment else tmpDir + "/" + segment;
    assert |segment| >= 6 && [segment][0] == segment && [segment][1..] == [];
    assert joined == JoinNonEmpty(acc, []) == acc;
    assert joined[|joined| - 1] == segment[|segment| - 1];
    NormalizeEndsClean(joined);
  }

  /** `ScentPaths.get(first, more...)`: `Paths.get(rootDir, first, more...)`. */
  function Get(root: Path, first: string, more: seq<string>): (r: Path)
    ensures root != "" ==> r != ""
  {
    GetPath(root, [first] + more)
  }

  /**
   * Under a proper root, clean segments land below the root in order, each after
   * one '/', and empty segments (such as the default task ident "") are dropped.
   */
  lemma GetLayout(root: Path, first: string, more: seq<string>)
    requires Joinable(root) && AllClean([first] + more)
    ensures Get(root, first, more) == root + Tail([first] + more)
    ensures Joinable(Get(root, first, more))
  {
    GetPathClean(root, [first] + more);
    TailKeepsNormal(root, [first] + more);
  }

  /** A path built from a clean, non-empty first segment has a parent directory. */
  lemma GetHasParent(root: Path, first: string, more: seq<string>)
    requires Joinable(root) && AllClean([first] + more) && first != ""
    ensures HasParent(Get(root, first, more))
  {
    GetLayout(root, first, more);
    TailCons(first, more);
    assert ([first] + more)[0] == first && ([first] + more)[1..] == more;
    var p := Get(root, first, more);
    assert p[|root|] == '/';
  }

  /**
   * `get(relativePath)` with a normal relative path, such as "dir/file.txt",
   * is the root, '/', and that path.
   */
  lemma GetRelative(root: Path, relativePath: string)
    requires Joinable(root)
    requires IsNormal(relativePath) && relativePath != "" && relativePath[0] != '/'
    ensures Get(root, relativePath, []) == root + "/" + relativePath
  {
    assert [relativePath] + [] == [relativePath];
    GetPathRelative(root, relativePath);
  }

  /**
   * `ScentPaths.fromUri(uri, suffix)`: the digest of the URI, followed by the
   * suffix when there is one; `md5` stands for `DigestUtils.md5Hex`.
   */
  function FromUri(md5: string -> string, uri: string, suffix: string): (r: string)
    ensures r == md5(uri) + suffix
    ensures |r| == |md5(uri)| + |suffix|
  {
    var digest := md5(uri);
    if suffix != "" then digest + suffix else digest
  }

  /** A hash-derived name, with a clean suffix, has no '/' in it. */
  lemma FromUriClean(md5: string -> string, uri: string, suffix: string)
    requires IsMd5Hex(md5(uri)) && Clean(suffix)
    ensures Clean(FromUri(md5, uri, suffix))
  {
  }

  /**
   * `ScentPaths.relative(absolutePath)`: Apache's `substringAfter` of the root
   * string, so the text after the root's first occurrence, or "" when the root
   * does not occur at all.
   */
  function Relative(root: Path, absolutePath: string): (r: string)
    ensures |r| <= |absolutePath| && r == absolutePath[|absolutePath| - |r|..]
    ensures (forall j :: !OccursAt(absolutePath, root, j)) ==> r == ""
  {
    SubstringAfterOrEmpty(absolutePath, root)
  }

  /** Stripping the root from a path that starts with it gives back the rest. */
  lemma RelativeAfterRoot(root: Path, s: string)
    ensures Relative(root, root + s) == s
  {
    var p := root + s;
    assert p[0..|root|] == root;
    SubstringAfterFound(p, root, 0);
  }

  /** The root and the relative part of a path built by `Get` come apart again. */
  lemma RelativeOfGet(root: Path, first: string, more: seq<string>)
    requires Joinable(root) && AllClean([first] + more)
    ensures Relative(root, Get(root, first, more)) == Tail([first] + more)
  {
    GetLayout(root, first, more);
    RelativeAfterRoot(root, Tail([first] + more));
  }
}
