/**
  File-system paths and the two module-file conventions of the extractor:
  where a `pub mod name;` declaration is looked up, and which directory a
  module file's own children are looked up in. A path is a flag for a leading
  `/` and its normal components.
 */
module Paths {
  import opened Wrappers
  import opened Text

  datatype Path = Path(absolute: bool, segments: seq<string>)

  /** `Path::join` with one plain component. */
  function Join(p: Path, name: string): Path {
    Path(p.absolute, p.segments + [name])
  }

  /** `Path::parent`: none for `/` and for the empty relative path. */
  function Parent(p: Path): Option<Path> {
    if p.segments == [] then None else Some(Path(p.absolute, p.segments[..|p.segments| - 1]))
  }

  /** `Path::file_name`. */
  function FileName(p: Path): Option<string> {
    if p.segments == [] then None else Some(p.segments[|p.segments| - 1])
  }

  /** `Path::display` / `to_string_lossy`. */
  function Display(p: Path): string {
    (if p.absolute then "/" else "") + JoinWith(p.segments, "/")
  }

  /** Index of the last '.' in `name`, or -1. */
  function LastDot(name: string): (k: int)
    ensures -1 <= k < |name|
    ensures 0 <= k ==> name[k] == '.'
  {
    if name == [] then -1
    else if name[|name| - 1] == '.' then |name| - 1
    else LastDot(name[..|name| - 1])
  }

  /** `file_stem` of a file name: the part before the last '.', unless that part is empty. */
  function FileStem(name: string): string {
    if name == ".." then name
    else
      var k := LastDot(name);
      if k <= 0 then name else name[..k]
  }

  /** File names after which a module file's children live beside it. */
  predicate IsModuleRootName(name: string) {
    name == "mod.rs" || name == "lib.rs" || name == "main.rs"
  }

  /** `module_base_dir_for_file`: the directory in which a file's `pub mod` children are resolved. */
  function ModuleBaseDir(file: Path): Path {
    var parent := match Parent(file) case Some(d) => d case None => Path(false, ["."]);
    match FileName(file)
    case None => Join(parent, "module")
    case Some(name) => if IsModuleRootName(name) then parent else Join(parent, FileStem(name))
  }

  /** `resolve_child_module_file`: `base/name.rs` if it exists, else `base/name/mod.rs`, else an error. */
  function ResolveChildModuleFile(base: Path, name: string, existing: set<Path>): (r: Result<Path, string>)
    ensures r.Ok? <==> Join(base, name + ".rs") in existing || Join(Join(base, name), "mod.rs") in existing
    ensures r.Ok? ==> r.value in existing
    ensures Join(base, name + ".rs") in existing ==> r == Ok(Join(base, name + ".rs"))
    ensures r.Ok? && Join(base, name + ".rs") !in existing ==> r.value == Join(Join(base, name), "mod.rs")
  {
    var direct := Join(base, name + ".rs");
    if direct in existing then Ok(direct)
    else
      var nested := Join(Join(base, name), "mod.rs");
      if nested in existing then Ok(nested)
      else Err("Could not resolve pub mod '" + name + "' from base directory " + Display(base) + ".")
  }

  // ---------------------------------------------------------------- lemmas

  lemma RsFileStem(name: string)
    requires name != ""
    ensures FileStem(name + ".rs") == name
  {
    var f := name + ".rs";
    var f1, f2 := name + ".r", name + ".";
    assert f[|f| - 1] == 's' && f[..|f| - 1] == f1;
    assert f1[|f1| - 1] == 'r' && f1[..|f1| - 1] == f2;
    assert f2[|f2| - 1] == '.';
    assert LastDot(f2) == |name|;
    assert LastDot(f1) == |name|;
    assert LastDot(f) == |name|;
    assert f[..|name|] == name;
  }

  /**
    Whichever layout a child module `name` resolves to, `base/name.rs` or
    `base/name/mod.rs`, its own children are resolved in `base/name` — unless
    the module is itself named `mod`, `lib` or `main` (see `RootNamedChildQuirk`).
   */
  lemma ResolvedChildBaseDir(base: Path, name: string, existing: set<Path>)
    requires name != "" && name != "mod" && name != "lib" && name != "main"
    requires ResolveChildModuleFile(base, name, existing).Ok?
    ensures ModuleBaseDir(ResolveChildModuleFile(base, name, existing).value) == Join(base, name)
  {
    var f := name + ".rs";
    if Join(base, f) in existing {
      assert Parent(Join(base, f)) == Some(base) by {
        assert (base.segments + [f])[..|base.segments|] == base.segments;
      }
      RsFileStem(name);
    } else {
      var d := Join(base, name);
      assert (d.segments + ["mod.rs"])[..|d.segments|] == d.segments;
    }
  }

  /**
    A child module named `main` resolved as `base/main.rs` keeps `base` as its
    base directory, because the file name test does not know whether the file
    is the crate root.
   */
  lemma RootNamedChildQuirk(base: Path)
    ensures ModuleBaseDir(Join(base, "main" + ".rs")) == base
  {
    assert "main" + ".rs" == "main.rs";
    assert (base.segments + ["main.rs"])[..|base.segments|] == base.segments;
  }

  /**
    Where a module file's children are looked up: beside a `mod.rs`, `lib.rs`
    or `main.rs`, and otherwise in the sub-directory named by the file's stem.
    Either way the base directory is the file's directory or one level below
    it; a path without a file name falls back to `./module`.
   */
  lemma ModuleBaseDirShape(file: Path)
    ensures file.segments == [] ==> ModuleBaseDir(file) == Path(false, [".", "module"])
    ensures file.segments != [] ==>
      var dir, name, r := Parent(file).value, FileName(file).value, ModuleBaseDir(file);
      && r.absolute == file.absolute
      && dir.segments <= r.segments
      && |r.segments| <= |dir.segments| + 1
      && (r == dir <==> IsModuleRootName(name))
      && (!IsModuleRootName(name) ==> FileName(r) == Some(FileStem(name)))
  {
    if file.segments != [] {
      var dir, name := Parent(file).value, FileName(file).value;
      if !IsModuleRootName(name) {
        assert |ModuleBaseDir(file).segments| == |dir.segments| + 1;
      }
    }
  }
}
