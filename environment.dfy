/**
 * The host the analyser runs on, as an explicit oracle: what the file system
 * answers (`realpath`, `file_exists`, `file_get_contents`) and what PHP's
 * class loading and reflection answer (`class_exists`, `interface_exists`,
 * `trait_exists`, `ReflectionClass::isAbstract`, `ReflectionClass::getFileName`).
 */
module Environment {
  import opened Text
  import opened Wrappers

  datatype Host = Host(
    /** `realpath`: absent when it fails. */
    realpaths: map<string, string>,
    /** `file_exists($p) || is_dir($p)`. */
    existing: set<string>,
    /** `file_get_contents`: absent when reading fails. */
    contents: map<string, string>,
    /** Names `class_exists` accepts. */
    classes: set<string>,
    /** Names `interface_exists` accepts. */
    interfaces: set<string>,
    /** Names `trait_exists` accepts. */
    traits: set<string>,
    /** `ReflectionClass::isAbstract` for the classes reflection can load; absent when it throws. */
    abstractness: map<string, bool>,
    /** `ReflectionClass::getFileName`; absent when reflection throws or returns false. */
    fileNames: map<string, string>)

  /** `realpath($p)`, or `None` when it fails. */
  function RealPath(h: Host, p: string): Option<string>
  {
    if p in h.realpaths then Some(h.realpaths[p]) else None
  }

  /** `isElementExists`: a class, interface or trait of that name is declared. */
  predicate ElementExists(h: Host, name: string)
  {
    name in h.classes || name in h.interfaces || name in h.traits
  }

  /** `PathHelper::detectPath`: the declaring file, or `None` (null) when reflection fails or gives a falsy name. */
  function DetectPath(h: Host, name: string): (r: Option<string>)
    ensures r.Some? ==> !Falsy(r.value)
  {
    if name in h.fileNames && !Falsy(h.fileNames[name]) then Some(h.fileNames[name]) else None
  }

  /** `file_get_contents`, or `None` (false) when reading fails. */
  function Contents(h: Host, path: string): Option<string>
  {
    if path in h.contents then Some(h.contents[path]) else None
  }
}
