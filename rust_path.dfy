/**
 The parts of Rust's `std::path` (Unix flavour) that the path require mode
 relies on: splitting a path into components, `file_name`, `file_stem` and
 `PathBuf::pop`. A path is modelled by its sequence of components, and
 `Parse` gives the components `Path::new(s).components()` yields for a text.
 */
module RustPath {
  import opened Wrappers

  datatype Component = RootDir | CurDir | ParentDir | Normal(name: string)

  type Path = seq<Component>

  predicate StartsWith(s: string, prefix: string) {
    |prefix| <= |s| && s[..|prefix|] == prefix
  }

  /** A name a `Normal` component can carry after parsing. */
  predicate ValidName(name: string) {
    name != "" && name != "." && name != ".." && '/' !in name
  }

  /** What parsing guarantees: a root or a `.` only in front, well-formed names. */
  predicate ValidPath(p: Path) {
    forall i :: 0 <= i < |p| ==>
      ((p[i].RootDir? || p[i].CurDir?) ==> i == 0) &&
      (p[i].Normal? ==> ValidName(p[i].name))
  }

  /** Inverse of `Segments`: the segments glued back with '/'. */
  function Join(segments: seq<string>): string
    requires |segments| >= 1
  {
    if |segments| == 1 then segments[0] else segments[0] + "/" + Join(segments[1..])
  }

  /** The text between separators, empty pieces included. */
  function Segments(s: string): (r: seq<string>)
    ensures |r| >= 1
    ensures forall i :: 0 <= i < |r| ==> '/' !in r[i]
    ensures Join(r) == s
  {
    if s == [] then [[]]
    else
      var rest := Segments(s[1..]);
      if s[0] == '/' then
        assert Join([[]] + rest) == "/" + Join(rest) by {
          assert ([[]] + rest)[1..] == rest;
        }
        [[]] + rest
      else
        var r := [[s[0]] + rest[0]] + rest[1..];
        assert Join(r) == [s[0]] + Join(rest) by {
          if |rest| > 1 {
            assert r[1..] == rest[1..];
          }
        }
        r
  }

  /** The component one segment contributes: empty and `.` segments vanish. */
  function Classify(segment: string): seq<Component> {
    if segment == "" || segment == "." then []
    else if segment == ".." then [ParentDir]
    else [Normal(segment)]
  }

  function Body(segments: seq<string>): (p: Path)
    requires forall i :: 0 <= i < |segments| ==> '/' !in segments[i]
    ensures forall i :: 0 <= i < |p| ==> p[i].ParentDir? || (p[i].Normal? && ValidName(p[i].name))
  {
    if segments == [] then [] else Classify(segments[0]) + Body(segments[1..])
  }

  /** `Path::new(s).components()` on Unix. */
  function Parse(s: string): (p: Path)
    ensures ValidPath(p)
  {
    if StartsWith(s, "/") then [RootDir] + Body(Segments(s))
    else if s == "." || StartsWith(s, "./") then [CurDir] + Body(Segments(s))
    else Body(Segments(s))
  }

  /** The path with every `.` component removed: what the text denotes. */
  function Meaning(p: Path): (r: Path)
    ensures CurDir !in r
  {
    if p == [] then [] else (if p[0].CurDir? then [] else [p[0]]) + Meaning(p[1..])
  }

  /** `Path::file_name`: the last component when it is a normal name. */
  function FileName(p: Path): (r: Option<string>)
    ensures r.Some? <==> p != [] && p[|p| - 1].Normal?
    ensures r.Some? ==> r.value == p[|p| - 1].name
    ensures ValidPath(p) && r.Some? ==> ValidName(r.value)
  {
    if p != [] && p[|p| - 1].Normal? then Some(p[|p| - 1].name) else None
  }

  /** Index of the last '.' in `s`. */
  function LastDot(s: string): (r: Option<nat>)
    ensures r.None? ==> forall j :: 0 <= j < |s| ==> s[j] != '.'
    ensures r.Some? ==> r.value < |s| && s[r.value] == '.' &&
                        forall j :: r.value < j < |s| ==> s[j] != '.'
  {
    if s == [] then None
    else if s[|s| - 1] == '.' then Some(|s| - 1)
    else LastDot(s[..|s| - 1])
  }

  /** The stem of one file name: `rsplit_file_at_dot` followed by `before.or(after)`. */
  function StemOf(name: string): (stem: string)
    ensures stem == name || HasOneExtension(name, stem)
    ensures |stem| <= |name| && stem == name[..|stem|]
  {
    if name == ".." then name
    else match LastDot(name)
      case Some(i) => if i == 0 then name else name[..i]
      case None => name
  }

  /** `Path::file_stem`. */
  function FileStem(p: Path): (r: Option<string>)
    ensures r.Some? <==> FileName(p).Some?
    ensures r.Some? ==> r.value == FileName(p).value || HasOneExtension(FileName(p).value, r.value)
  {
    match FileName(p)
    case Some(name) => Some(StemOf(name))
    case None => None
  }

  /** `name` is `stem` followed by exactly one extension. */
  predicate HasOneExtension(name: string, stem: string) {
    stem != "" && |name| > |stem| && name[..|stem|] == stem && name[|stem|] == '.' &&
    forall j :: |stem| < j < |name| ==> name[j] != '.'
  }

  /** A stem is either the whole name, or the name minus one extension. */
  lemma StemOfCharacterisation(name: string, stem: string)
    ensures StemOf(name) == stem ==> stem == name || HasOneExtension(name, stem)
    ensures HasOneExtension(name, stem) && name != ".." ==> StemOf(name) == stem
  {
    if HasOneExtension(name, stem) && name != ".." {
      assert name[|stem|] == '.';
    }
  }

  /** `Path::parent`'s effect on a `PathBuf` through `pop`: drop the last
      component, unless there is none or it is the root. */
  function Pop(p: Path): (r: Path)
    ensures |r| <= |p| && r == p[..|r|]
    ensures p != [] && !p[|p| - 1].RootDir? ==> |r| == |p| - 1
    ensures p == [] || p[|p| - 1].RootDir? ==> r == p
  {
    if p != [] && !p[|p| - 1].RootDir? then p[..|p| - 1] else p
  }

  /** A text without separators joins the first segment of what follows it. */
  lemma {:induction false} SegmentsPrefix(a: string, rest: string)
    requires '/' !in a
    ensures Segments(a + rest) == [a + Segments(rest)[0]] + Segments(rest)[1..]
  {
    var tail := Segments(rest);
    if a != [] {
      var s := a + rest;
      assert s[0] == a[0] && s[1..] == a[1..] + rest;
      SegmentsPrefix(a[1..], rest);
      var r := Segments(s[1..]);
      assert r[0] == a[1..] + tail[0] && r[1..] == tail[1..];
      assert Segments(s) == [[s[0]] + r[0]] + r[1..];
      assert [a[0]] + (a[1..] + tail[0]) == a + tail[0];
    } else {
      assert a + rest == rest;
      assert [] + tail[0] == tail[0];
      assert tail == [tail[0]] + tail[1..];
    }
  }

  /** `name/rest` splits into `name` and the segments of `rest`. */
  lemma SegmentsOfJoin(name: string, rest: string)
    requires '/' !in name
    ensures Segments(name + "/" + rest) == [name] + Segments(rest)
  {
    var slash := "/" + rest;
    assert name + "/" + rest == name + slash;
    SegmentsPrefix(name, slash);
    assert slash[0] == '/' && slash[1..] == rest;
    var tail := Segments(slash);
    assert tail == [[]] + Segments(rest);
    assert tail[0] == [] && tail[1..] == Segments(rest);
    assert name + tail[0] == name;
  }

  /** A single file name parses to one normal component. */
  lemma ParseName(name: string)
    requires ValidName(name)
    ensures Parse(name) == [Normal(name)]
  {
    SegmentsPrefix(name, "");
    assert name + "" == name;
    assert !StartsWith(name, "/") && !StartsWith(name, "./") by {
      assert name[0] != '/';
      assert |name| >= 2 ==> name[1] != '/';
    }
    assert Body([name]) == [Normal(name)] by { assert [name][1..] == []; }
  }

  /** `folder/name` parses to two normal components. */
  lemma ParseNested(folder: string, name: string)
    requires ValidName(folder) && ValidName(name)
    ensures Parse(folder + "/" + name) == [Normal(folder), Normal(name)]
  {
    var s := folder + "/" + name;
    SegmentsOfJoin(folder, name);
    SegmentsPrefix(name, "");
    assert name + "" == name;
    assert s[0] == folder[0] && s[0] != '/';
    assert !StartsWith(s, "./") && s != "." by {
      assert |folder| == 1 ==> s[0] != '.';
      assert |folder| >= 2 ==> s[1] == folder[1] != '/';
    }
    var segments := [folder, name];
    assert Segments(s) == segments;
    assert Body(segments) == [Normal(folder), Normal(name)] by {
      assert segments[1..] == [name];
      assert Body([name]) == [Normal(name)] by { assert [name][1..] == []; }
    }
  }
}
