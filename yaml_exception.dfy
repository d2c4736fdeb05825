/** YAMLException as a record, with its subclass EmptyArrayException as an
    exception kind: the dotted path of the failing value, the field name
    and the offending object. The human message is produced by a formatter
    that is not part of this model. */
module YamlExceptions {
  import opened Wrappers

  /** Which exception class was thrown. */
  datatype ErrorKind =
    | General     // YAMLException itself
    | EmptyArray  // EmptyArrayException

  /** `path` is the only field with a setter; `name` and `obj` are final. */
  datatype YamlException<O> = YamlException(kind: ErrorKind, path: string, name: string, obj: Option<O>)

  /** `s.indexOf(c)`: the first index holding `c`, or -1. */
  function IndexOf(s: string, c: char): (r: int)
    ensures r == -1 <==> c !in s
    ensures r != -1 ==> 0 <= r < |s| && s[r] == c && c !in s[..r]
  {
    if s == [] then -1
    else if s[0] == c then 0
    else
      var k := IndexOf(s[1..], c);
      if k == -1 then -1
      else
        assert s[..k + 1] == [s[0]] + s[1..][..k];
        k + 1
  }

  /** `s.lastIndexOf(c)`: the last index holding `c`, or -1. */
  function LastIndexOf(s: string, c: char): (r: int)
    ensures r == -1 <==> c !in s
    ensures r != -1 ==> 0 <= r < |s| && s[r] == c && c !in s[r + 1..]
  {
    if s == [] then -1
    else if s[|s| - 1] == c then |s| - 1
    else
      var k := LastIndexOf(s[..|s| - 1], c);
      if k == -1 then
        assert s == s[..|s| - 1] + [s[|s| - 1]];
        -1
      else
        assert s[k + 1..] == s[..|s| - 1][k + 1..] + [s[|s| - 1]];
        k
  }

  /** The full constructor `YAMLException(path, name, object, message)`. */
  function Create<O>(path: string, name: string, obj: Option<O>): (e: YamlException<O>)
    ensures e.kind == General && e.path == path && e.name == name && e.obj == obj
  {
    YamlException(General, path, name, obj)
  }

  /** `EmptyArrayException(path, name, object)`: the full constructor with
      the empty-array message, so the kind says which class was thrown. */
  function CreateEmptyArray<O>(path: string, name: string, obj: Option<O>): (e: YamlException<O>)
    ensures e.kind == EmptyArray && e.path == path && e.name == name && e.obj == obj
  {
    YamlException(EmptyArray, path, name, obj)
  }

  /** The constructor `YAMLException(path, object, message)`: a dotted path
      is split into the parent path, everything before the LAST dot, and the
      name, everything after the FIRST dot; a path without a dot has the
      empty parent path and is itself the name. */
  function FromPath<O>(path: string, obj: Option<O>): (e: YamlException<O>)
    ensures e.kind == General && e.obj == obj
    ensures '.' !in path ==> e.path == "" && e.name == path
    ensures '.' in path ==> exists k :: 0 <= k < |path| && path[k] == '.' && '.' !in path[k + 1..] && e.path == path[..k]
    ensures '.' in path ==> exists k :: 0 <= k < |path| && path[k] == '.' && '.' !in path[..k] && e.name == path[k + 1..]
  {
    if '.' in path then
      Create(path[..LastIndexOf(path, '.')], path[IndexOf(path, '.') + 1..], obj)
    else
      Create("", path, obj)
  }

  /** `setPath`: replaces the path, nothing else. */
  function SetPath<O>(e: YamlException<O>, path: string): (r: YamlException<O>)
    ensures r.path == path && r.kind == e.kind && r.name == e.name && r.obj == e.obj
  {
    e.(path := path)
  }

  /** The text substituted for `%path%` in the message: nothing for the
      empty path, otherwise the path and a dot, ready for the name. */
  function MessagePathPrefix(path: string): (r: string)
    ensures path == "" ==> r == ""
    ensures path != "" ==> |r| == |path| + 1 && r[..|path|] == path && r[|path|] == '.'
  {
    if path == "" then "" else path + "."
  }

  /** The split the two-argument constructor evidently intends: the name is
      the last segment, after the LAST dot. */
  function FromPathIntended<O>(path: string, obj: Option<O>): (e: YamlException<O>)
    ensures e.kind == General && e.obj == obj
    ensures '.' !in path ==> e.path == "" && e.name == path
    ensures '.' in path ==> exists k :: 0 <= k < |path| && path[k] == '.' && '.' !in path[k + 1..] &&
                                        e.path == path[..k] && e.name == path[k + 1..]
    ensures '.' in path ==> '.' !in e.name
  {
    if '.' in path then
      var k := LastIndexOf(path, '.');
      Create(path[..k], path[k + 1..], obj)
    else
      Create("", path, obj)
  }

  /** With the intended split, the message's path prefix followed by the
      name spells the original path (unless it starts with a dot, when the
      empty parent path swallows that dot). */
  lemma IntendedPrefixRestoresPath<O>(path: string, obj: Option<O>)
    requires path == "" || path[0] != '.'
    ensures var e := FromPathIntended(path, obj); MessagePathPrefix(e.path) + e.name == path
  {
    if '.' in path {
      var k := LastIndexOf(path, '.');
      assert k > 0;
      assert path == path[..k] + "." + path[k + 1..];
    }
  }

  /** On paths with at most one dot, the constructor as written and the
      intended split agree. */
  lemma FromPathSingleDot<O>(path: string, obj: Option<O>)
    requires IndexOf(path, '.') == LastIndexOf(path, '.')
    ensures FromPath(path, obj) == FromPathIntended(path, obj)
  {
  }

  /** With two dots the constructor as written names the middle segment
      twice: "a.b.c" gives parent path "a.b" and name "b.c", so the `%path%`
      text followed by the name reads "a.b.b.c" where "a.b.c" is meant. */
  lemma FromPathTwoDots<O>(obj: Option<O>)
    ensures FromPath("a.b.c", obj).path == "a.b"
    ensures FromPath("a.b.c", obj).name == "b.c"
    ensures MessagePathPrefix(FromPath("a.b.c", obj).path) + FromPath("a.b.c", obj).name == "a.b.b.c"
    ensures FromPathIntended("a.b.c", obj).name == "c"
  {
    var p := "a.b.c";
    assert p[1] == '.' && p[3] == '.';
    assert IndexOf(p, '.') == 1 by {
      assert p[0] != '.' && |p[1..]| > 0 && p[1..][0] == '.';
    }
    assert LastIndexOf(p, '.') == 3 by {
      assert p[4] != '.' && |p[..4]| == 4 && p[..4][3] == '.';
    }
    assert p[..3] == "a.b" && p[2..] == "b.c" && p[4..] == "c";
  }
}
