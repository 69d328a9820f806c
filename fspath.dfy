/**
  Filesystem paths as sequences of components, with the parts of Rust's
  `PathBuf` the root manager relies on: `push`/`join` of a string and
  `display`.  An absolute path `/a/b` is the sequence `["a", "b"]`; the root
  directory `/` is the empty sequence.
 */
module FsPath {

  type Path = seq<string>

  /**
    A file name as the model keeps it.  `..` counts as a name here: it is
    kept as a component of the key and never resolved to the parent.
   */
  predicate IsName(s: string) {
    s != "" && s != "." && '/' !in s
  }

  predicate ValidPath(p: Path) {
    forall i | 0 <= i < |p| :: IsName(p[i])
  }

  /** `a` is `b` or one of its ancestors. */
  predicate IsPrefix(a: Path, b: Path) {
    |a| <= |b| && b[..|a|] == a
  }

  /** The pieces of `s` between separators, empty pieces included. */
  function Split(s: string): (parts: seq<string>)
    ensures |parts| >= 1
    ensures forall i | 0 <= i < |parts| :: '/' !in parts[i]
  {
    if s == [] then [[]]
    else
      var rest := Split(s[1..]);
      if s[0] == '/' then [[]] + rest
      else [[s[0]] + rest[0]] + rest[1..]
  }

  /** The pieces separated by '/'; the inverse of Split. */
  function Join(parts: seq<string>): (s: string)
    requires |parts| >= 1
    ensures |s| >= |parts[0]|
    decreases |parts|
  {
    if |parts| == 1 then parts[0] else parts[0] + "/" + Join(parts[1..])
  }

  lemma {:induction false} SplitOfName(s: string)
    ensures '/' !in s ==> Split(s) == [s]
    decreases |s|
  {
    if s != [] && '/' !in s {
      SplitOfName(s[1..]);
      assert [s[0]] + s[1..] == s;
    }
  }

  lemma {:induction false} SplitAfterName(a: string, r: string)
    requires '/' !in a
    ensures Split(a + "/" + r) == [a] + Split(r)
    decreases |a|
  {
    var s := a + "/" + r;
    if a == [] {
      assert s[1..] == r;
    } else {
      assert s[1..] == a[1..] + "/" + r;
      SplitAfterName(a[1..], r);
      assert [a[0]] + a[1..] == a;
    }
  }

  /** Splitting a joined sequence of separator-free pieces gives the pieces back. */
  lemma {:induction false} SplitJoin(parts: seq<string>)
    requires |parts| >= 1
    requires forall i | 0 <= i < |parts| :: '/' !in parts[i]
    ensures Split(Join(parts)) == parts
    decreases |parts|
  {
    if |parts| == 1 {
      SplitOfName(parts[0]);
    } else {
      SplitJoin(parts[1..]);
      SplitAfterName(parts[0], Join(parts[1..]));
      assert [parts[0]] + parts[1..] == parts;
    }
  }

  /** The normal components among the pieces: empty pieces and `.` are dropped. */
  function Normal(parts: seq<string>): (r: Path)
    ensures forall i | 0 <= i < |r| :: r[i] in parts && r[i] != "" && r[i] != "."
  {
    if parts == [] then []
    else (if parts[0] == "" || parts[0] == "." then [] else [parts[0]]) + Normal(parts[1..])
  }

  /** The components of a path string, as `Path::components` yields them. */
  function Components(s: string): (p: Path)
    ensures ValidPath(p)
    ensures IsName(s) ==> p == [s]
  {
    SplitOfName(s);
    assert IsName(s) ==> Normal([s]) == [s] + Normal([]);
    Normal(Split(s))
  }

  lemma NormalCons(x: string, rest: seq<string>)
    ensures Normal([x] + rest) == (if x == "" || x == "." then [] else [x]) + Normal(rest)
  {
    assert ([x] + rest)[1..] == rest;
  }

  lemma SplitThree(a: string, b: string, c: string)
    requires IsName(a) && IsName(b) && IsName(c)
    ensures Split("/" + a + "/" + b + "/" + c + "/") == ["", a, b, c, ""]
  {
    var r3 := c + "/" + "";
    var r2 := b + "/" + r3;
    var r1 := a + "/" + r2;
    assert "/" + a + "/" + b + "/" + c + "/" == "" + "/" + r1;
    SplitAfterName(c, "");
    SplitAfterName(b, r3);
    SplitAfterName(a, r2);
    SplitAfterName("", r1);
  }

  /** A directory string of three names with a trailing `/` has exactly those three components. */
  lemma ComponentsOfThree(a: string, b: string, c: string)
    requires IsName(a) && IsName(b) && IsName(c)
    ensures Components("/" + a + "/" + b + "/" + c + "/") == [a, b, c]
  {
    SplitThree(a, b, c);
    NormalCons("", []);
    NormalCons(c, [""]);
    NormalCons(b, [c, ""]);
    NormalCons(a, [b, c, ""]);
    NormalCons("", [a, b, c, ""]);
  }

  /**
    `PathBuf::push`: an absolute string replaces the path, any other string
    is appended component by component.
   */
  function Push(p: Path, s: string): (r: Path)
    ensures ValidPath(p) ==> ValidPath(r)
    ensures IsName(s) ==> r == p + [s]
    ensures |s| > 0 && s[0] == '/' ==> r == Components(s)
  {
    if |s| > 0 && s[0] == '/' then Components(s) else p + Components(s)
  }

  lemma PushTwoNames(p: Path, a: string, b: string)
    requires IsName(a) && IsName(b)
    ensures Push(Push(p, a), b) == p + [a, b]
  {
  }

  /** `Path::display` of an absolute path. */
  function Display(p: Path): (s: string)
    ensures |s| > 0 && s[0] == '/'
  {
    if p == [] then "/" else "/" + Join(p)
  }

  /** Different valid paths display differently, so a message naming a path identifies it. */
  lemma DisplayInjective(p: Path, q: Path)
    requires ValidPath(p) && ValidPath(q)
    requires Display(p) == Display(q)
    ensures p == q
  {
    if p != [] && q != [] {
      assert Join(p) == Display(p)[1..] == Display(q)[1..] == Join(q);
      SplitJoin(p);
      SplitJoin(q);
    }
  }
}
