/**
 * `Path`: an immutable pair of a file-system path and a namespace, used for
 * component roots, excluded paths, restriction elements and allowed paths.
 * It is an object: components compare their paths by identity.
 */
module Paths {
  import opened Text
  import opened Wrappers
  import opened Environment

  class Path {
    const path: string
    const namespace: string

    /**
     * `new Path($path, $namespace)`: the namespace is stored verbatim; a
     * non-empty path is replaced by its `realpath` when that succeeds with a
     * non-falsy result.
     */
    constructor(rawPath: string, ns: string, h: Host)
      ensures namespace == ns
      ensures Falsy(rawPath) ==> path == rawPath
      ensures !Falsy(rawPath) ==> path == CanonicalPath(rawPath, h)
    {
      namespace := ns;
      path := if Falsy(rawPath) then rawPath else CanonicalPath(rawPath, h);
    }

    /** `isPartOfPath`: this path is a case-insensitive prefix of `fullPath`, ignoring segment boundaries. */
    predicate IsPartOfPath(fullPath: string)
    {
      StartsWithCI(fullPath, path)
    }

    /** `isPartOfNamespace`: this namespace, untrimmed, is a case-insensitive prefix of `ns`. */
    predicate IsPartOfNamespace(ns: string)
    {
      StartsWithCI(ns, namespace)
    }

    /** `isContains`: by path when the unit has one, otherwise by namespace. */
    predicate IsContains(unitName: string, unitPath: Option<string>)
    {
      if unitPath.Some? then IsPartOfPath(unitPath.value) else IsPartOfNamespace(unitName)
    }

    /** `getRelativePath`: every case-sensitive occurrence of this path is deleted from `realPath`. */
    function GetRelativePath(realPath: string): string
    {
      ReplaceAll(realPath, path, "")
    }
  }

  /** `(string) realpath($p) ?: $p`. */
  function CanonicalPath(p: string, h: Host): (r: string)
    ensures !Falsy(p) ==> !Falsy(r)
  {
    var rp := RealPath(h, p);
    if rp.Some? && !Falsy(rp.value) then rp.value else p
  }

  /** The constructor keeps a path truthy exactly when it was given a truthy one. */
  lemma ConstructorKeepsTruthiness(rawPath: string, h: Host, p: Path)
    requires Falsy(rawPath) ==> p.path == rawPath
    requires !Falsy(rawPath) ==> p.path == CanonicalPath(rawPath, h)
    ensures Falsy(p.path) <==> Falsy(rawPath)
  {
  }

  /** The arguments `Path::fromString` passes to the constructor. */
  datatype PathArgs = PathArgs(rawPath: string, namespace: string)

  /**
   * `Path::fromString`: a declared class, trait or interface becomes its
   * declaring file with the name as namespace; an existing file or directory
   * becomes its `realpath`; anything else is taken literally.
   */
  function FromStringArgs(value: string, h: Host): (a: PathArgs)
    ensures ElementExists(h, value) ==> a.namespace == value
    ensures !ElementExists(h, value) ==> a.namespace == ""
    ensures ElementExists(h, value) && DetectPath(h, value).None? ==> a.rawPath == ""
    ensures !ElementExists(h, value) && value !in h.existing ==> a.rawPath == value
  {
    if ElementExists(h, value) then
      PathArgs(if DetectPath(h, value).Some? then DetectPath(h, value).value else "", value)
    else if value in h.existing && RealPath(h, value).Some? then
      PathArgs(RealPath(h, value).value, "")
    else
      PathArgs(value, "")
  }

  method FromString(value: string, h: Host) returns (p: Path)
    ensures fresh(p)
    ensures p.namespace == FromStringArgs(value, h).namespace
    ensures Falsy(FromStringArgs(value, h).rawPath) ==> p.path == FromStringArgs(value, h).rawPath
    ensures !Falsy(FromStringArgs(value, h).rawPath) ==> p.path == CanonicalPath(FromStringArgs(value, h).rawPath, h)
  {
    var a := FromStringArgs(value, h);
    p := new Path(a.rawPath, a.namespace, h);
  }

  /** `isPartOfPath` ignores segment boundaries: `/foo/ba` is part of `/foo/bar/x`. */
  lemma IsPartOfPathIgnoresSegments(p: Path)
    requires p.path == "/foo/ba"
    ensures p.IsPartOfPath("/foo/bar/x")
  {
    assert "/foo/bar/x"[..7] == "/foo/ba";
  }

  /** A path is part of every path it prefixes, whatever follows. */
  lemma IsPartOfPathExtends(p: Path, fullPath: string, rest: string)
    requires p.IsPartOfPath(fullPath)
    ensures p.IsPartOfPath(fullPath + rest)
  {
    StartsWithCIAppend(fullPath, p.path, rest);
  }

  /** A root that begins `fullPath` leaves exactly the remaining suffix when it occurs nowhere else. */
  lemma RelativePathOfPrefix(p: Path, suffix: string)
    requires |p.path| > 0 && !Contains(suffix, p.path)
    ensures p.GetRelativePath(p.path + suffix) == suffix
  {
    var s := p.path + suffix;
    assert s[..|p.path|] == p.path;
    assert s[|p.path|..] == suffix;
    ReplaceAllAbsent(suffix, p.path, "");
  }

  /** `isContains` on a unit with a path never looks at its name. */
  lemma IsContainsByPath(p: Path, name1: string, name2: string, unitPath: string)
    ensures p.IsContains(name1, Some(unitPath)) == p.IsContains(name2, Some(unitPath))
    ensures p.IsContains(name1, Some(unitPath)) == p.IsPartOfPath(unitPath)
  {
  }
}
