/**
 The path-style `require` resolution mode: its state (module folder name and
 alias sources), the `.luaurc` alias merge, the module-folder test, the
 emitter of a relative `require` literal and the alias lookup.
 */
module PathRequire {
  import opened Wrappers
  import opened RustPath

  /** The errors this mode reports. */
  datatype Error =
    | IoError(path: string, message: string)    // an explicit alias file could not be opened
    | ParseError(message: string)               // the alias file is not a `.luaurc` document
    | Custom(message: string, context: string)  // a failure while generating a require

  /** What parsing an opened alias file gives: its `aliases` object, in the
      order the parsed map yields its entries, or the parser's complaint. */
  datatype Document = NotLuaurc(message: string) | Luaurc(aliases: seq<(string, string)>)

  /** What opening a file gives. */
  datatype FileOutcome = CannotOpen(message: string) | Opened(document: Document)

  /** The file system as seen by the loader: what opening each path gives. */
  type FileSystem = string -> FileOutcome

  const ConventionFile: string := "./.luaurc"
  const DefaultModuleFolderName: string := "init"
  const CannotContext: string := "path require mode cannot"
  const InvalidPathDifference: string := "invalid path difference"

  function GetDefaultModuleFolderName(): (name: string)
    ensures name == "init"
  {
    DefaultModuleFolderName
  }

  /** Used to leave the module folder name out of a serialized mode. */
  function IsDefaultModuleFolderName(value: string): (b: bool)
    ensures b <==> value == GetDefaultModuleFolderName()
  {
    value == DefaultModuleFolderName
  }

  /** The key an alias is stored under. */
  function Decorate(alias: string): (key: string)
    ensures |key| == |alias| + 1 && key[0] == '@' && key[1..] == alias
  {
    "@" + alias
  }

  /** The sources after inserting every alias in order: later inserts win. */
  function Merge(sources: map<string, string>, aliases: seq<(string, string)>): map<string, string>
  {
    if aliases == [] then sources
    else
      var last := aliases[|aliases| - 1];
      Merge(sources, aliases[..|aliases| - 1])[Decorate(last.0) := last.1]
  }

  /** The keys the merge writes. */
  function AliasKeys(aliases: seq<(string, string)>): set<string> {
    set i | 0 <= i < |aliases| :: Decorate(aliases[i].0)
  }

  /** No alias at a later index has the same name as the one at `i`. */
  predicate LastOccurrence(aliases: seq<(string, string)>, i: int) {
    0 <= i < |aliases| && forall j :: i < j < |aliases| ==> aliases[j].0 != aliases[i].0
  }

  /** Alias names are unique, as they are in a parsed JSON object. */
  predicate DistinctNames(aliases: seq<(string, string)>) {
    forall i, j :: 0 <= i < j < |aliases| ==> aliases[i].0 != aliases[j].0
  }

  /** The file the loader opens. */
  function AliasFile(path: Option<string>): string {
    if path.Some? then path.value else ConventionFile
  }

  /** The sources `default_sources` yields: the convention file's aliases,
      or nothing when that file is absent or malformed. */
  function ConventionSources(fs: FileSystem): map<string, string> {
    match fs(ConventionFile)
    case Opened(Luaurc(aliases)) => Merge(map[], aliases)
    case _ => map[]
  }

  datatype PathRequireMode = PathRequireMode(moduleFolderName: string, sources: map<string, string>)
  {
    /** `PathRequireMode::load_luaurc`: merge the aliases of `path`, or of
        `./.luaurc` when no path is given, into `sources`. */
    static method LoadLuaurc(sources: map<string, string>, path: Option<string>, fs: FileSystem)
      returns (r: Result<map<string, string>, Error>)
      ensures path.Some? && fs(path.value).CannotOpen? ==>
                r == Failure(IoError(path.value, fs(path.value).message))
      ensures path.None? && fs(ConventionFile).CannotOpen? ==> r == Success(sources)
      ensures fs(AliasFile(path)).Opened? && fs(AliasFile(path)).document.NotLuaurc? ==>
                r == Failure(ParseError(fs(AliasFile(path)).document.message))
      ensures fs(AliasFile(path)).Opened? && fs(AliasFile(path)).document.Luaurc? ==>
                r == Success(Merge(sources, fs(AliasFile(path)).document.aliases))
    {
      var file: Document;
      match path {
        case Some(p) =>
          var outcome := fs(p);
          if outcome.CannotOpen? {
            return Failure(IoError(p, outcome.message));
          }
          file := outcome.document;
        case None =>
          var outcome := fs(ConventionFile);
          if outcome.CannotOpen? {
            return Success(sources);
          }
          file := outcome.document;
      }
      if file.NotLuaurc? {
        return Failure(ParseError(file.message));
      }
      var aliases := file.aliases;
      var merged := sources;
      var i := 0;
      while i < |aliases|
        invariant 0 <= i <= |aliases|
        invariant merged == Merge(sources, aliases[..i])
      {
        assert aliases[..i + 1][..i] == aliases[..i];
        merged := merged[Decorate(aliases[i].0) := aliases[i].1];
        i := i + 1;
      }
      assert aliases[..i] == aliases;
      return Success(merged);
    }

    /** `default_sources`: the convention file's aliases, an error read as none. */
    static method DefaultSources(fs: FileSystem) returns (sources: map<string, string>)
      ensures sources == ConventionSources(fs)
    {
      var loaded := LoadLuaurc(map[], None, fs);
      sources := if loaded.Success? then loaded.value else map[];
    }

    /** `PathRequireMode::default`. */
    static method Default(fs: FileSystem) returns (mode: PathRequireMode)
      ensures mode.moduleFolderName == GetDefaultModuleFolderName()
      ensures mode.sources == ConventionSources(fs)
    {
      var sources := DefaultSources(fs);
      mode := PathRequireMode(GetDefaultModuleFolderName(), sources);
    }

    /** `PathRequireMode::new`: a chosen folder name, the sources re-derived
        from the convention file exactly as `Default` does. */
    static method New(moduleFolderName: string, fs: FileSystem) returns (mode: PathRequireMode)
      ensures mode.moduleFolderName == moduleFolderName
      ensures mode.sources == ConventionSources(fs)
    {
      var sources := DefaultSources(fs);
      mode := PathRequireMode(moduleFolderName, sources);
    }

    /** `is_module_folder_name`: the file name or the file stem is the
        module folder name; said another way, the last component is that
        name, or that name with one extension. */
    function IsModuleFolderName(path: Path): (b: bool)
      ensures ValidPath(path) ==>
                (b <==> path != [] && path[|path| - 1].Normal? &&
                        (path[|path| - 1].name == moduleFolderName ||
                         HasOneExtension(path[|path| - 1].name, moduleFolderName)))
    {
      var last := if path != [] && path[|path| - 1].Normal? then path[|path| - 1].name else "";
      StemOfCharacterisation(last, moduleFolderName);
      FileName(path) == Some(moduleFolderName) || FileStem(path) == Some(moduleFolderName)
    }

    /** `get_source`: the path stored under an alias key. */
    function GetSource(name: string): (r: Option<string>)
      ensures r.Some? <==> name in sources
      ensures r.Some? ==> r.value == sources[name]
    {
      if name in sources then Some(sources[name]) else None
    }

    /** `find_require`: a call that is not a path require is not applicable,
        never an error; a path require is whatever the locator makes of its
        literal. `literal` is what `match_path_require_call` extracted. */
    function FindRequire(literal: Option<string>, locate: string -> Result<Path, Error>)
      : (r: Result<Option<Path>, Error>)
      ensures literal.None? ==> r == Success(None)
      ensures literal.Some? ==> (r.Success? <==> locate(literal.value).Success?)
      ensures literal.Some? && r.Success? ==> r.value == Some(locate(literal.value).value)
      ensures literal.Some? && r.Failure? ==> r.error == locate(literal.value).error
    {
      match literal
      case None => Success(None)
      case Some(text) =>
        match locate(text)
        case Success(required) => Success(Some(required))
        case Failure(e) => Failure(e)
    }

    /** `generate_require`: the literal that requires `target` from the file
        at `current`. `diff` stands for `pathdiff::diff_paths`, and
        `stringExpression` for the error `StringExpression::new` reports for
        a literal (`None` when it accepts it). */
    method GenerateRequire(target: Path, current: Path, diff: (Path, Path) -> Option<string>,
                           stringExpression: string -> Option<string>)
      returns (r: Result<string, Error>)
      ensures diff(target, Pop(current)).None? ==>
                r == Failure(Custom(InvalidPathDifference, CannotContext))
      ensures diff(target, Pop(current)).Some? ==>
                var literal := LongBracket(RequireText(diff(target, Pop(current)).value));
                r == if stringExpression(literal).None? then Success(literal)
                     else Failure(Custom(stringExpression(literal).value, CannotContext))
    {
      var currentPath := current;
      currentPath := Pop(currentPath);
      var difference := diff(target, currentPath);
      if difference.None? {
        return Failure(Custom(InvalidPathDifference, CannotContext));
      }
      var pathStr := ToForwardSlashes(difference.value);
      if !StartsWith(pathStr, "./") {
        pathStr := "./" + pathStr;
      }
      var literal := "[[" + pathStr + "]]";
      var rejected := stringExpression(literal);
      if rejected.Some? {
        return Failure(Custom(rejected.value, CannotContext));
      }
      return Success(literal);
    }
  }

  /** `str::replace("\\", "/")`. */
  function ToForwardSlashes(s: string): (r: string)
    ensures |r| == |s| && '\\' !in r
    ensures forall i :: 0 <= i < |s| ==> r[i] == if s[i] == '\\' then '/' else s[i]
  {
    if s == [] then [] else [if s[0] == '\\' then '/' else s[0]] + ToForwardSlashes(s[1..])
  }

  /** The text of the emitted require: the difference with forward slashes,
      and a leading `./` unless it already has one. */
  function RequireText(difference: string): (s: string)
    ensures '\\' !in s && StartsWith(s, "./")
    ensures StartsWith(ToForwardSlashes(difference), "./") ==> s == ToForwardSlashes(difference)
    ensures !StartsWith(ToForwardSlashes(difference), "./") ==> s == "./" + ToForwardSlashes(difference)
    ensures StartsWith(ToForwardSlashes(difference), "../") ==> s == "./" + ToForwardSlashes(difference)
  {
    var text := ToForwardSlashes(difference);
    if StartsWith(text, "./") then text else "./" + text
  }

  /** A long-bracket string literal. */
  function LongBracket(text: string): (literal: string)
    ensures |literal| == |text| + 4
    ensures literal[..2] == "[[" && literal[|literal| - 2..] == "]]"
    ensures literal[2..|literal| - 2] == text
  {
    "[[" + text + "]]"
  }

  // ---------------------------------------------------------------------
  // The alias merge

  lemma DecorateInjective(a: string, b: string)
    ensures Decorate(a) == Decorate(b) <==> a == b
  {
  }

  /** The merge keeps every starting key and adds exactly the decorated aliases. */
  lemma {:induction false} MergeKeys(sources: map<string, string>, aliases: seq<(string, string)>)
    ensures Merge(sources, aliases).Keys == sources.Keys + AliasKeys(aliases)
  {
    if aliases != [] {
      var front := aliases[..|aliases| - 1];
      MergeKeys(sources, front);
      assert AliasKeys(aliases) == AliasKeys(front) + {Decorate(aliases[|aliases| - 1].0)} by {
        forall key | key in AliasKeys(aliases) ensures key in AliasKeys(front) + {Decorate(aliases[|aliases| - 1].0)} {
          var i :| 0 <= i < |aliases| && key == Decorate(aliases[i].0);
          if i < |aliases| - 1 { assert front[i] == aliases[i]; }
        }
        forall key | key in AliasKeys(front) ensures key in AliasKeys(aliases) {
          var i :| 0 <= i < |front| && key == Decorate(front[i].0);
          assert aliases[i] == front[i];
        }
      }
    }
  }

  /** A starting entry no alias names is left as it was. */
  lemma {:induction false} MergeKeepsOthers(sources: map<string, string>, aliases: seq<(string, string)>, key: string)
    requires key in sources && key !in AliasKeys(aliases)
    ensures key in Merge(sources, aliases) && Merge(sources, aliases)[key] == sources[key]
  {
    if aliases != [] {
      var front := aliases[..|aliases| - 1];
      assert key != Decorate(aliases[|aliases| - 1].0);
      assert key !in AliasKeys(front) by {
        forall i | 0 <= i < |front| ensures key != Decorate(front[i].0) {
          assert aliases[i] == front[i];
        }
      }
      MergeKeepsOthers(sources, front, key);
    }
  }

  /** Every alias ends up under its decorated key, holding the value of its
      last occurrence: the last insert wins, over earlier aliases and over
      the starting sources alike. */
  lemma {:induction false} MergeLastWins(sources: map<string, string>, aliases: seq<(string, string)>, i: int)
    requires LastOccurrence(aliases, i)
    ensures Decorate(aliases[i].0) in Merge(sources, aliases)
    ensures Merge(sources, aliases)[Decorate(aliases[i].0)] == aliases[i].1
  {
    var n := |aliases| - 1;
    if i < n {
      var front := aliases[..n];
      assert front[i] == aliases[i];
      assert LastOccurrence(front, i) by {
        forall j | i < j < |front| ensures front[j].0 != front[i].0 {
          assert front[j] == aliases[j];
        }
      }
      MergeLastWins(sources, front, i);
      DecorateInjective(aliases[n].0, aliases[i].0);
    }
  }

  /** With unique alias names, as a parsed JSON object has, the order in
      which the aliases are inserted does not matter. */
  lemma MergeOrderFree(sources: map<string, string>, a: seq<(string, string)>, b: seq<(string, string)>)
    requires DistinctNames(a) && DistinctNames(b)
    requires forall x :: x in a <==> x in b
    ensures Merge(sources, a) == Merge(sources, b)
  {
    var ma, mb := Merge(sources, a), Merge(sources, b);
    assert AliasKeys(a) == AliasKeys(b) by {
      forall key | key in AliasKeys(a) ensures key in AliasKeys(b) {
        var i :| 0 <= i < |a| && key == Decorate(a[i].0);
        assert a[i] in b;
      }
      forall key | key in AliasKeys(b) ensures key in AliasKeys(a) {
        var i :| 0 <= i < |b| && key == Decorate(b[i].0);
        assert b[i] in a;
      }
    }
    MergeKeys(sources, a);
    MergeKeys(sources, b);
    forall key | key in ma ensures ma[key] == mb[key] {
      if key in AliasKeys(a) {
        var i :| 0 <= i < |a| && key == Decorate(a[i].0);
        assert a[i] in b;
        var j :| 0 <= j < |b| && b[j] == a[i];
        MergeLastWins(sources, a, i);
        MergeLastWins(sources, b, j);
      } else {
        MergeKeepsOthers(sources, a, key);
        MergeKeepsOthers(sources, b, key);
      }
    }
  }

  /** The mode built from the convention file finds every alias it declares,
      and nothing under a key it does not declare. */
  lemma ConventionAliasesResolve(fs: FileSystem, moduleFolderName: string, aliases: seq<(string, string)>, i: int, key: string)
    requires fs(ConventionFile) == Opened(Luaurc(aliases)) && LastOccurrence(aliases, i)
    ensures PathRequireMode(moduleFolderName, ConventionSources(fs)).GetSource(Decorate(aliases[i].0)) == Some(aliases[i].1)
    ensures key !in AliasKeys(aliases) ==> PathRequireMode(moduleFolderName, ConventionSources(fs)).GetSource(key).None?
  {
    MergeLastWins(map[], aliases, i);
    MergeKeys(map[], aliases);
  }

  // ---------------------------------------------------------------------
  // The emitted require text

  /** Separators already forward slashes stay as they are. */
  lemma ForwardSlashesFixed(s: string)
    requires '\\' !in s
    ensures ToForwardSlashes(s) == s
  {
  }

  /** Emitting from an already emitted text gives it back unchanged. */
  lemma RequireTextIdempotent(difference: string)
    ensures RequireText(RequireText(difference)) == RequireText(difference)
  {
  }

  lemma {:induction false} MeaningPrependDot(p: Path)
    ensures Meaning([CurDir] + p) == Meaning(p)
  {
  }

  lemma {:induction false} MeaningWithoutDot(p: Path)
    requires CurDir !in p
    ensures Meaning(p) == p
  {
    if p != [] {
      assert p[0] != CurDir;
      assert CurDir !in p[1..] by {
        forall k | 0 <= k < |p[1..]| ensures p[1..][k] != CurDir {
          assert p[1..][k] == p[k + 1];
        }
      }
      MeaningWithoutDot(p[1..]);
      assert p == [p[0]] + p[1..];
    }
  }

  /** `Body` never yields a `.` component. */
  lemma BodyHasNoDot(segments: seq<string>)
    requires forall i :: 0 <= i < |segments| ==> '/' !in segments[i]
    ensures CurDir !in Body(segments)
  {
  }

  lemma SegmentsDotSlash(text: string)
    ensures Segments("./" + text) == ["."] + Segments(text)
  {
    var s := "./" + text;
    assert s[0] == '.' && s[1..] == "/" + text;
    var slash := "/" + text;
    assert slash[0] == '/' && slash[1..] == text;
    var rest := Segments(slash);
    assert rest == [[]] + Segments(text);
    assert rest[0] == [] && rest[1..] == Segments(text);
    assert Segments(s) == [[s[0]] + rest[0]] + rest[1..];
    assert [s[0]] + rest[0] == ".";
  }

  /** The meaning of a relative text is the components of its segments. */
  lemma RelativeMeaning(text: string)
    requires !StartsWith(text, "/")
    ensures Meaning(Parse(text)) == Body(Segments(text))
  {
    BodyHasNoDot(Segments(text));
    MeaningWithoutDot(Body(Segments(text)));
    if text == "." || StartsWith(text, "./") {
      MeaningPrependDot(Body(Segments(text)));
    }
  }

  /** Prefixing `./` never changes which relative path the text denotes:
      `a/b` and `./a/b` name the same file, and so do `../a` and `./../a`. */
  lemma RequireTextKeepsMeaning(difference: string)
    requires !StartsWith(ToForwardSlashes(difference), "/")
    ensures Meaning(Parse(RequireText(difference))) == Meaning(Parse(ToForwardSlashes(difference)))
  {
    var text := ToForwardSlashes(difference);
    if !StartsWith(text, "./") {
      var s := "./" + text;
      SegmentsDotSlash(text);
      assert Body(Segments(s)) == Body(Segments(text)) by {
        assert (["."] + Segments(text))[1..] == Segments(text);
      }
      assert !StartsWith(s, "/") && StartsWith(s, "./");
      RelativeMeaning(s);
      RelativeMeaning(text);
    }
  }

  /** An absolute difference, which `diff_paths` returns for an absolute
      target seen from a relative directory, loses its root: `/x/y` is
      emitted as `.//x/y`, which has no root component and denotes the
      relative path `x/y`. */
  lemma AbsoluteDifferenceBecomesRelative(difference: string)
    requires StartsWith(ToForwardSlashes(difference), "/")
    ensures RequireText(difference) == "./" + ToForwardSlashes(difference)
    ensures Parse(ToForwardSlashes(difference))[0] == RootDir
    ensures RootDir !in Parse(RequireText(difference))
    ensures Meaning(Parse(RequireText(difference))) == Meaning(Parse(ToForwardSlashes(difference)))[1..]
  {
    var text := ToForwardSlashes(difference);
    var s := "./" + text;
    var body := Body(Segments(text));
    assert !StartsWith(text, "./") by { assert text[0] == '/'; }
    assert StartsWith(s, "./") && !StartsWith(s, "/") by { assert s[..2] == "./"; }
    SegmentsDotSlash(text);
    assert Body(Segments(s)) == body by {
      assert (["."] + Segments(text))[1..] == Segments(text);
    }
    assert Parse(s) == [CurDir] + body;
    assert Parse(text) == [RootDir] + body;
    BodyHasNoDot(Segments(text));
    MeaningWithoutDot(body);
    MeaningPrependDot(body);
    assert Meaning([RootDir] + body) == [RootDir] + Meaning(body) by {
      assert ([RootDir] + body)[1..] == body;
    }
  }
}
