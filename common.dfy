/** Option, Result and Outcome values standing for the launcher's `null`
    results and thrown exceptions. */
module Wrappers {

  /** A value that may be absent (Java's `null`). */
  datatype Option<+T> = None | Some(value: T)

  /** A computed value, or the error the Java code throws instead. */
  datatype Result<+T, +E> = Success(value: T) | Failure(error: E)

  /** Normal completion of a `void` operation, or the error it throws. */
  datatype Outcome<+E> = Pass | Fail(error: E)
}

/** The machine the launcher runs on: file paths and the platform. */
module Host {

  /** A file path, in its textual form (`File.getPath()`). */
  type Path = string

  /** `p` names something inside the directory `dir`. */
  predicate Under(p: Path, dir: Path)
  {
    |dir| < |p| && p[..|dir| + 1] == dir + "/"
  }

  /** `p` ends with `suffix`. */
  predicate EndsWith(p: Path, suffix: string)
  {
    |suffix| <= |p| && p[|p| - |suffix|..] == suffix
  }

  /** `new File(parent, child)`: `child` resolved under the directory `parent`. */
  function Join(parent: Path, child: string): (p: Path)
    ensures Under(p, parent) && EndsWith(p, child)
    ensures |p| == |parent| + 1 + |child|
  {
    var p := parent + "/" + child;
    assert p[..|parent| + 1] == parent + "/";
    assert p[|p| - |child|..] == child;
    p
  }

  /** Different children of one parent are different paths. */
  lemma JoinChildDiffers(parent: Path, a: string, b: string)
    requires a != b
    ensures Join(parent, a) != Join(parent, b)
  {
    var n := |parent| + 1;
    assert Join(parent, a)[n..] == a;
    assert Join(parent, b)[n..] == b;
  }

  /** A path that ends with `a + b` ends with `b`. */
  lemma EndsWithTail(p: Path, a: string, b: string)
    requires EndsWith(p, a + b)
    ensures EndsWith(p, b)
  {
    assert p[|p| - |b|..] == p[|p| - |a + b|..][|a|..];
  }

  /** The operating systems the launcher tells apart. */
  datatype Platform = Windows | MacOsX | Linux | Solaris | Unknown

  /** The environment an installation is made for, reduced to its platform. */
  datatype Environment = Environment(platform: Platform)
}
