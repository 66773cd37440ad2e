/** The unit tests of the path require mode, stated as lemmas, and
    examples of the alias merge and of the emitter.
    Several lemmas take the path text as a parameter fixed by `requires`
    rather than writing the literal in the `ensures`: with the literal in
    the goal the verifier keeps unfolding the parsing functions on it and
    runs out of resources. */
module PathRequireTests {
  import opened Wrappers
  import opened RustPath
  import opened PathRequire

  predicate DefaultNamed(mode: PathRequireMode) {
    mode.moduleFolderName == GetDefaultModuleFolderName()
  }

  /** Only the last component decides. */
  lemma LastNameDecides(mode: PathRequireMode, path: Path, name: string)
    requires ValidPath(path) && path != [] && path[|path| - 1] == Normal(name)
    ensures mode.IsModuleFolderName(path) <==>
              name == mode.moduleFolderName || HasOneExtension(name, mode.moduleFolderName)
  {
  }

  /** A bare file name is decided by itself. */
  lemma FileDecides(mode: PathRequireMode, leaf: string)
    requires ValidName(leaf)
    ensures mode.IsModuleFolderName(Parse(leaf)) <==>
              leaf == mode.moduleFolderName || HasOneExtension(leaf, mode.moduleFolderName)
  {
    ParseName(leaf);
    LastNameDecides(mode, Parse(leaf), leaf);
  }

  /** In `folder/leaf`, only `leaf` matters. */
  lemma NestedFileDecides(mode: PathRequireMode, folder: string, leaf: string)
    requires ValidName(folder) && ValidName(leaf)
    ensures mode.IsModuleFolderName(Parse(folder + "/" + leaf)) <==>
              leaf == mode.moduleFolderName || HasOneExtension(leaf, mode.moduleFolderName)
  {
    ParseNested(folder, leaf);
    LastNameDecides(mode, Parse(folder + "/" + leaf), leaf);
  }

  lemma DefaultModeIsFalseForRegularName(mode: PathRequireMode, text: string)
    requires DefaultNamed(mode) && text == "oops.lua"
    ensures !mode.IsModuleFolderName(Parse(text))
  {
    var leaf := "oops.lua";
    assert ValidName(leaf);
    assert !HasOneExtension(leaf, "init") by { assert leaf[..4][0] != "init"[0]; }
    FileDecides(mode, leaf);
  }

  lemma DefaultModeIsTrueForInitLua(mode: PathRequireMode, text: string)
    requires DefaultNamed(mode) && text == "init.lua"
    ensures mode.IsModuleFolderName(Parse(text))
  {
    var leaf := "init.lua";
    assert ValidName(leaf);
    assert HasOneExtension(leaf, "init") by { assert leaf[..4] == "init"; }
    FileDecides(mode, leaf);
  }

  lemma DefaultModeIsTrueForInitLuau(mode: PathRequireMode, text: string)
    requires DefaultNamed(mode) && text == "init.luau"
    ensures mode.IsModuleFolderName(Parse(text))
  {
    var leaf := "init.luau";
    assert ValidName(leaf);
    assert HasOneExtension(leaf, "init") by { assert leaf[..4] == "init"; }
    FileDecides(mode, leaf);
  }

  lemma DefaultModeIsTrueForFolderInitLua(mode: PathRequireMode, text: string)
    requires DefaultNamed(mode) && text == "folder/init.lua"
    ensures mode.IsModuleFolderName(Parse(text))
  {
    var folder, leaf := "folder", "init.lua";
    assert text == folder + "/" + leaf;
    assert ValidName(folder) && ValidName(leaf);
    assert HasOneExtension(leaf, "init") by { assert leaf[..4] == "init"; }
    NestedFileDecides(mode, folder, leaf);
  }

  lemma DefaultModeIsTrueForFolderInitLuau(mode: PathRequireMode, text: string)
    requires DefaultNamed(mode) && text == "folder/init.luau"
    ensures mode.IsModuleFolderName(Parse(text))
  {
    var folder, leaf := "folder", "init.luau";
    assert text == folder + "/" + leaf;
    assert ValidName(folder) && ValidName(leaf);
    assert HasOneExtension(leaf, "init") by { assert leaf[..4] == "init"; }
    NestedFileDecides(mode, folder, leaf);
  }

  lemma DefaultModeIsTrueForBareInit(mode: PathRequireMode, text: string)
    requires DefaultNamed(mode) && text == "init"
    ensures mode.IsModuleFolderName(Parse(text))
  {
    var leaf := "init";
    assert ValidName(leaf);
    FileDecides(mode, leaf);
  }

  lemma DefaultModeIsFalseForLongerName(mode: PathRequireMode, text: string)
    requires DefaultNamed(mode) && text == "myinit.lua"
    ensures !mode.IsModuleFolderName(Parse(text))
  {
    var leaf := "myinit.lua";
    assert ValidName(leaf);
    assert !HasOneExtension(leaf, "init") by { assert leaf[..4][0] != "init"[0]; }
    FileDecides(mode, leaf);
  }

  /** The convention file's alias replaces a starting entry of the same name. */
  lemma ConventionAliasOverridesStartingEntry()
    ensures Merge(map["@a" := "/x"], [("a", "/y")]) == map["@a" := "/y"]
  {
    assert [("a", "/y")][..0] == [];
    assert Decorate("a") == "@a";
  }

  method LoadWithoutConventionFile(sources: map<string, string>) {
    var r := PathRequireMode.LoadLuaurc(sources, None, path => CannotOpen("not found"));
    assert r == Success(sources);
  }

  method LoadMissingExplicitFile(sources: map<string, string>) {
    var r := PathRequireMode.LoadLuaurc(sources, Some("config/.luaurc"), path => CannotOpen("not found"));
    assert r == Failure(IoError("config/.luaurc", "not found"));
  }

  /** A sibling gets `./`; a parent-relative difference gets `./` in front
      of its `../` as well; backslashes become forward slashes. */
  lemma RequireTextForSibling()
    ensures RequireText("b.lua") == "./b.lua"
  {
    ForwardSlashesFixed("b.lua");
    assert !StartsWith("b.lua", "./") by { assert "b.lua"[..2][0] != "./"[0]; }
  }

  lemma RequireTextForParent(text: string)
    requires text == "../b.lua"
    ensures RequireText(text) == "./../b.lua"
  {
    assert ToForwardSlashes(text) == text by { ForwardSlashesFixed(text); }
    assert StartsWith(text, "../") by { assert text[..3] == "../"; }
  }

  lemma RequireTextForDotted()
    ensures RequireText("./b.lua") == "./b.lua"
  {
    ForwardSlashesFixed("./b.lua");
    assert StartsWith("./b.lua", "./") by { assert "./b.lua"[..2] == "./"; }
  }

  lemma RequireTextForBackslashes(text: string)
    requires text == "..\\lib\\b.lua"
    ensures RequireText(text) == "./../lib/b.lua"
  {
    assert ToForwardSlashes(text) == "../lib/b.lua";
  }

  method GenerateSibling(mode: PathRequireMode) {
    RequireTextForSibling();
    var r := mode.GenerateRequire([Normal("b.lua")], [Normal("a.lua")],
                                  (target: Path, base: Path) => Some("b.lua"), (literal: string) => None);
    assert r == Success(LongBracket("./b.lua"));
  }

  method GenerateUnrelated(mode: PathRequireMode) {
    var r := mode.GenerateRequire([Normal("b.lua")], [Normal("a.lua")],
                                  (target: Path, base: Path) => None, (literal: string) => None);
    assert r.Failure?;
  }
}
