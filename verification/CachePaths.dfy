/** Where the artifact cache keeps its copies (src/ldfd/download/cache.go). */
module CachePaths {

  const ROOT := "cache/artifacts/"

  predicate NoSlash(s: string) {
    '/' !in s
  }

  function StripSlashes(p: string): (r: string)
    ensures r <= p && (r == "" || r[|r| - 1] != '/')
  {
    if p != "" && p[|p| - 1] == '/' then StripSlashes(p[..|p| - 1]) else p
  }

  /** What follows the last slash. */
  function LastElement(p: string): (r: string)
    ensures NoSlash(r) && |r| <= |p| && r == p[|p| - |r|..]
    ensures |r| < |p| ==> p[|p| - |r| - 1] == '/'
    ensures p != "" && p[|p| - 1] != '/' ==> r != ""
  {
    if p == "" || p[|p| - 1] == '/' then ""
    else LastElement(p[..|p| - 1]) + [p[|p| - 1]]
  }

  /** path.Base */
  function Base(p: string): (b: string)
    ensures b == "/" || (NoSlash(b) && b != "")
  {
    if p == "" then "."
    else
      var stripped := StripSlashes(p);
      if stripped == "" then "/" else LastElement(stripped)
  }

  function Filename(sourceID: string, version: string, originalPath: string): string {
    var filename := Base(originalPath);
    if filename == "" || filename == "." then sourceID + "-" + version + ".tar.gz" else filename
  }

  function BuildCachePath(sourceID: string, version: string, originalPath: string): string {
    ROOT + sourceID + "/" + version + "/" + Filename(sourceID, version, originalPath)
  }

  /** The file name cannot smuggle in a directory: it comes from the original path,
      or is made from a version without a slash. */
  predicate Named(version: string, originalPath: string) {
    Base(originalPath) != "." || NoSlash(version)
  }

  lemma FilenameShape(sourceID: string, version: string, originalPath: string)
    requires NoSlash(sourceID) && Named(version, originalPath)
    ensures var f := Filename(sourceID, version, originalPath); f == "/" || (NoSlash(f) && f != "")
  {
  }

  /** The first slash splits a text in one way only. */
  lemma FirstSlash(a: string, b: string, c: string, d: string)
    requires NoSlash(a) && NoSlash(c) && a + "/" + b == c + "/" + d
    ensures a == c && b == d
  {
    var s := a + "/" + b;
    assert s[|a|] == '/' && s[|c|] == '/';
    assert forall i | 0 <= i < |a| :: s[i] == a[i] != '/';
    assert forall i | 0 <= i < |c| :: s[i] == c[i] != '/';
    assert |a| == |c|;
    assert a == s[..|a|] == c && b == s[|a| + 1..] == d;
  }

  /** And so does the last one. */
  lemma LastSlash(a: string, b: string, c: string, d: string)
    requires NoSlash(b) && NoSlash(d) && a + "/" + b == c + "/" + d
    ensures a == c && b == d
  {
    var s := a + "/" + b;
    assert s[|a|] == '/' && s[|c|] == '/';
    assert forall i | |a| < i < |s| :: s[i] == b[i - |a| - 1] != '/';
    assert forall i | |c| < i < |s| :: s[i] == d[i - |c| - 1] != '/';
    assert |a| == |c|;
    assert a == s[..|a|] == c && b == s[|a| + 1..] == d;
  }

  lemma VersionAndFile(v1: string, f1: string, v2: string, f2: string)
    requires f1 == "/" || (NoSlash(f1) && f1 != "")
    requires f2 == "/" || (NoSlash(f2) && f2 != "")
    requires v1 + "/" + f1 == v2 + "/" + f2
    ensures v1 == v2 && f1 == f2
  {
    var s, t := v1 + "/" + f1, v2 + "/" + f2;
    assert s[|s| - 1] == f1[|f1| - 1] && t[|t| - 1] == f2[|f2| - 1];
    if f1 == "/" {
      assert f2 == "/";
      assert |v1| == |v2| && v1 == s[..|v1|] == v2;
    } else {
      assert f2 != "/";
      LastSlash(v1, f1, v2, f2);
    }
  }

  lemma Regroup(r: string, s: string, slash: string, v: string, f: string)
    ensures r + s + slash + v + slash + f == r + (s + slash + (v + slash + f))
  {
    assert s + slash + (v + slash + f) == s + slash + v + slash + f;
  }

  lemma PathShape(sourceID: string, version: string, originalPath: string)
    ensures BuildCachePath(sourceID, version, originalPath)
            == ROOT + (sourceID + "/" + (version + "/" + Filename(sourceID, version, originalPath)))
  {
    Regroup(ROOT, sourceID, "/", version, Filename(sourceID, version, originalPath));
  }

  lemma SamePrefix(r: string, a: string, b: string)
    requires r + a == r + b
    ensures a == b
  {
    assert a == (r + a)[|r|..] && b == (r + b)[|r|..];
  }

  /** Distinct keys never share a cache path. */
  lemma CachePathInjective(s1: string, v1: string, p1: string, s2: string, v2: string, p2: string)
    requires NoSlash(s1) && NoSlash(s2) && Named(v1, p1) && Named(v2, p2)
    requires BuildCachePath(s1, v1, p1) == BuildCachePath(s2, v2, p2)
    ensures s1 == s2 && v1 == v2
  {
    PathShape(s1, v1, p1);
    PathShape(s2, v2, p2);
    FilenameShape(s1, v1, p1);
    FilenameShape(s2, v2, p2);
    var t1, t2 := v1 + "/" + Filename(s1, v1, p1), v2 + "/" + Filename(s2, v2, p2);
    SamePrefix(ROOT, s1 + "/" + t1, s2 + "/" + t2);
    FirstSlash(s1, t1, s2, t2);
    VersionAndFile(v1, Filename(s1, v1, p1), v2, Filename(s2, v2, p2));
  }

  /** A name without a slash is its own base. */
  lemma BaseOfName(f: string)
    requires NoSlash(f) && f != ""
    ensures Base(f) == f
  {
    assert f[|f| - 1] != '/';
    assert StripSlashes(f) == f;
  }

  lemma SplitAtLastSlash(v: string) returns (a: string, b: string)
    requires !NoSlash(v)
    ensures v == a + "/" + b && NoSlash(b)
  {
    b := LastElement(v);
    var n := |v| - |b|;
    assert n == 0 ==> v == b;
    a := v[..n - 1];
  }

  lemma ShiftSlash(s: string, dash: string, a: string, slash: string, b: string, ext: string, v: string)
    requires v == a + slash + b
    ensures v + slash + (s + dash + v + ext) == (v + slash + s + dash + a) + slash + (b + ext)
  {
    assert s + dash + v + ext == s + dash + a + slash + b + ext;
  }

  /** The made-up file name of a version with a slash can be reached by another key. */
  lemma FallbackCollides(s: string, v: string, p: string) returns (v2: string, p2: string)
    requires NoSlash(s) && !Named(v, p)
    ensures Named(v2, p2) && v2 != v
    ensures BuildCachePath(s, v2, p2) == BuildCachePath(s, v, p)
  {
    var a, b := SplitAtLastSlash(v);
    v2 := v + "/" + s + "-" + a;
    p2 := b + ".tar.gz";
    assert |p2| > 1 && NoSlash(p2);
    BaseOfName(p2);
    PathShape(s, v, p);
    PathShape(s, v2, p2);
    ShiftSlash(s, "-", a, "/", b, ".tar.gz", v);
    assert |v2| > |v|;
  }

  /** The exact condition: the path of an artifact is its key's alone if and only if it is named. */
  lemma NamedIsExact(s: string, v: string, p: string)
    requires NoSlash(s)
    ensures Named(v, p) <==>
            forall s2, v2, p2 | NoSlash(s2) && Named(v2, p2) && BuildCachePath(s2, v2, p2) == BuildCachePath(s, v, p) ::
              s2 == s && v2 == v
  {
    if Named(v, p) {
      forall s2, v2, p2 | NoSlash(s2) && Named(v2, p2) && BuildCachePath(s2, v2, p2) == BuildCachePath(s, v, p)
        ensures s2 == s && v2 == v
      {
        CachePathInjective(s2, v2, p2, s, v, p);
      }
    } else {
      var v2, p2 := FallbackCollides(s, v, p);
    }
  }

  // ---------- the paths that artifacts are stored from ----------

  lemma {:induction false} StripAll(p: string, slashes: string)
    requires p != "" && p[|p| - 1] != '/' && forall i | 0 <= i < |slashes| :: slashes[i] == '/'
    ensures StripSlashes(p + slashes) == p
  {
    if slashes == "" {
      assert p + slashes == p;
    } else {
      var n := |slashes| - 1;
      assert (p + slashes)[..|p| + n] == p + slashes[..n];
      StripAll(p, slashes[..n]);
    }
  }

  lemma {:induction false} LastElementOf(dir: string, f: string)
    requires NoSlash(f)
    ensures LastElement(dir + "/" + f) == f
  {
    var p := dir + "/" + f;
    if f == "" {
    } else {
      var n := |f| - 1;
      LastElementOf(dir, f[..n]);
      assert p[..|p| - 1] == dir + "/" + f[..n];
    }
  }

  /** The base of a path is the name after its last slash, whatever slashes follow it. */
  lemma BaseMeaning(dir: string, name: string, slashes: string)
    requires NoSlash(name) && name != "" && forall i | 0 <= i < |slashes| :: slashes[i] == '/'
    ensures Base(dir + "/" + name + slashes) == name && Base(name + slashes) == name
  {
    assert name[|name| - 1] in name;
    StripAll(dir + "/" + name, slashes);
    StripAll(name, slashes);
    LastElementOf(dir, name);
    BaseOfName(name);
  }

  /** The file name of an artifact that was downloaded from `url`. */
  function ArtifactFilename(sourceID: string, version: string, url: string): string {
    var filename := Base(url);
    if filename == "" || filename == "." || filename == "/" then sourceID + "-" + version + ".tar.gz" else filename
  }

  function BuildArtifactPath(dir: string, sourceID: string, version: string, url: string): string {
    dir + "/" + ArtifactFilename(sourceID, version, url)
  }

  lemma BaseOfPath(p: string)
    requires p != "" && p[|p| - 1] != '/'
    ensures Base(p) == LastElement(p) && Base(p)[|Base(p)| - 1] == p[|p| - 1]
  {
    assert StripSlashes(p) == p;
  }

  /** Every artifact that a download or a copy for a distribution leaves is named, whatever the version. */
  lemma ArtifactsAreNamed(dir: string, sourceID: string, version: string, url: string)
    ensures Named(version, BuildArtifactPath(dir, sourceID, version, url))
  {
    var f, p := ArtifactFilename(sourceID, version, url), BuildArtifactPath(dir, sourceID, version, url);
    var made := sourceID + "-" + version + ".tar.gz";
    assert made[|made| - 1] == 'z';
    assert p[|p| - 1] == f[|f| - 1];
    if f == made {
      BaseOfPath(p);
    } else {
      assert f[|f| - 1] in f;
      BaseOfPath(p);
      LastElementOf(dir, f);
    }
  }
}
