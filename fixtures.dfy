/**
  Concrete cases from the extractor's test crates (the `simple`, `edge`,
  `traits` and `advanced` fixtures), stated on their syntax trees. Type token
  text is written as `syn` renders it.
 */
module Fixtures {
  import opened Wrappers
  import opened Syntax
  import opened Records
  import opened Classify
  import opened Walker
  import opened Paths
  import opened Text
  import opened Ordering

  const File := "/crate/src/lib.rs"

  function I32(): Type { PathType(["i32"], "i32") }

  /** `pub struct Bytes<const N: usize> { pub data: [u8; N] }` */
  function Bytes(): ItemStruct {
    ItemStruct(Public, "Bytes", [ConstParam("const N : usize")],
      Named([Field(Public, Some("data"), OtherType("[u8 ; N]"))]))
  }

  /** A const generic is dropped from the type parameters and reported once, naming its owner. */
  lemma EdgeConstGeneric()
    ensures StructOf(Bytes(), File).typeParams == []
    ensures |StructOf(Bytes(), File).fields| == 1 && StructOf(Bytes(), File).fields[0].name == "data"
    ensures StructIssues(Bytes(), File) == [SkipIssue(File, "generic", "const N : usize", GenericReason("Struct", "Bytes", "const"))]
  {
    var g := Bytes().generics;
    assert g[..0] == [];
    assert TypeParamNames(g) == [];
    assert GenericIssues(g, File, "Struct", "Bytes") == [GenericIssue(g[0], File, "Struct", "Bytes")];
    assert GenericIssue(g[0], File, "Struct", "Bytes") == SkipIssue(File, GenericKind, "const N : usize", GenericReason("Struct", "Bytes", "const"));
    assert StructIssues(Bytes(), File) == GenericIssues(g, File, "Struct", "Bytes");
    var fs := Bytes().fields.named;
    assert fs[..0] == [];
    assert PublicFields(fs) == [FieldRecord(fs[0])];
  }

  /** `pub enum Event { Ready, Message(String) }` */
  function Event(): ItemEnum {
    ItemEnum(Public, "Event", [], [Variant("Ready", Unit), Variant("Message", Unnamed([Field(Private, None, PathType(["String"], "String"))]))])
  }

  /** Both variant names are kept; only the payload variant is reported. */
  lemma EdgePayloadVariant()
    ensures EnumOf(Event(), File).variants == ["Ready", "Message"]
    ensures EnumIssues(Event(), File) == [SkipIssue(File, "enum", "Message", PayloadVariantReason)]
  {
    var vs := Event().variants;
    var v0, v1 := vs[0], vs[1];
    assert vs[..1] == [v0];
    assert [v0][..0] == [];
    assert VariantNames([v0]) == ["Ready"];
    assert VariantNames(vs) == ["Ready", "Message"];
    assert PayloadIssues([v0], File) == [];
    assert PayloadIssues(vs, File) == [PayloadIssue(v1, File)];
    assert GenericIssues([], File, "Enum", "Event") == [];
  }

  /** `pub trait IteratorLike { type Item; fn next(&mut self) -> Option<Self::Item>; }` */
  function IteratorLike(): ItemTrait {
    ItemTrait(Public, "IteratorLike", [], [], [
      TraitType("Item"),
      TraitFn(Signature("next", [], [Receiver(true, true)], Returns(PathType(["Option"], "Option < Self :: Item >"))))])
  }

  /** The associated type becomes the one type parameter; the method is kept; nothing is reported. */
  lemma TraitsAssociatedType()
    ensures TraitOf(IteratorLike(), File).typeParams == ["Item"]
    ensures |TraitOf(IteratorLike(), File).methods| == 1
    ensures TraitOf(IteratorLike(), File).methods[0].name == "next"
    ensures TraitOf(IteratorLike(), File).methods[0].params == [ExtractField("&mut self", "self")]
    ensures TraitIssues(IteratorLike(), File) == []
  {
    var t := IteratorLike();
    var init := TraitInit(t);
    assert init == TraitAcc([], [], []);
    var i0, i1 := t.items[0], t.items[1];
    assert t.items[..1] == [i0] && [i0][..0] == [];
    var a1 := TraitMembers(init, [i0], File);
    assert TraitMembers(init, [], File) == init;
    assert a1 == TraitStep(init, i0, File);
    assert a1 == TraitAcc(["Item"], [], []);
    var sig := i1.sig;
    assert sig.inputs[..0] == [];
    assert Params(sig.inputs) == [ExtractField("&mut self", "self")];
    assert ParamIssues(sig.inputs, File) == [];
    assert SignatureIssues(sig, File) == [];
    assert TraitMembers(init, t.items, File) == TraitStep(a1, i1, File);
    assert GenericIssues([], File, "Trait", "IteratorLike") == [];
  }

  /** `impl Named for Wrapper<i32> { fn label(&self) -> i32 { ... } }` */
  function NamedForWrapper(): ItemImpl {
    ItemImpl(Some("Named"), PathType(["Wrapper"], "Wrapper < i32 >"),
      [ImplFn(Private, Signature("label", [], [Receiver(true, false)], Returns(I32())))])
  }

  /** A trait impl contributes no entry and no issue. */
  lemma AdvancedTraitImpl()
    ensures ImplOf(NamedForWrapper(), File) == None
    ensures ImplIssues(NamedForWrapper(), File) == []
  {
  }

  /**
    `impl Point { pub fn new(x: i32, y: i32) -> Point; pub fn sum(&self) -> i32; pub fn origin() -> Point }`,
    over any token text of the two types.
   */
  function PointImpl(point: Type, i32: Type): ItemImpl {
    ItemImpl(None, point, [ImplFn(Public, NewSig(point, i32)), ImplFn(Public, SumSig(i32)), ImplFn(Public, OriginSig(point))])
  }

  /** `pub fn new(x: i32, y: i32) -> Self` */
  function NewSig(point: Type, i32: Type): Signature {
    Signature("new", [], [Typed(IdentPat("x"), i32), Typed(IdentPat("y"), i32)], Returns(point))
  }

  /** `pub fn sum(&self) -> i32` */
  function SumSig(i32: Type): Signature {
    Signature("sum", [], [Receiver(true, false)], Returns(i32))
  }

  /** `pub fn origin() -> Self` */
  function OriginSig(point: Type): Signature {
    Signature("origin", [], [], Returns(point))
  }

  /** The three public methods of `Point` form one entry targeting `Point`, in declaration order. */
  lemma SimplePointMethods(point: Type, i32: Type, file: string)
    requires point.PathType? && point.segments == ["Point"]
    ensures var p := ImplOf(PointImpl(point, i32), file);
      && p.Some? && p.value.target == "Point"
      && |p.value.methods| == 3
      && p.value.methods[0].name == "new" && p.value.methods[1].name == "sum" && p.value.methods[2].name == "origin"
      && p.value.methods[1].params == [ExtractField("&self", "self")]
    ensures ImplIssues(PointImpl(point, i32), file) == []
  {
    PointMethodList(point, i32, file);
    PointMethodsRaiseNothing(point, i32, file);
  }

  lemma PointMethodList(point: Type, i32: Type, file: string)
    ensures var items := PointImpl(point, i32).items;
      && ImplMethods(items, file) == [SignatureOf(items[0].sig, file), SignatureOf(items[1].sig, file), SignatureOf(items[2].sig, file)]
      && SignatureOf(items[1].sig, file).params == [ExtractField("&self", "self")]
  {
    var items := PointImpl(point, i32).items;
    var i0, i1, i2 := items[0], items[1], items[2];
    assert items[..2] == [i0, i1] && [i0, i1][..1] == [i0] && [i0][..0] == [];
    assert ImplMethods([i0], file) == [SignatureOf(i0.sig, file)];
    var sum := i1.sig;
    assert sum.inputs[..0] == [];
    assert Params(sum.inputs) == [ExtractField("&self", "self")];
  }

  lemma PointMethodsRaiseNothing(point: Type, i32: Type, file: string)
    ensures ImplMethodIssues(PointImpl(point, i32).items, file) == []
  {
    PointSigsClean(point, i32, file);
    CleanMethodsRaiseNothing(PointImpl(point, i32).items, file);
  }

  lemma PointSigsClean(point: Type, i32: Type, file: string)
    ensures SignatureIssues(NewSig(point, i32), file) == []
    ensures SignatureIssues(SumSig(i32), file) == []
    ensures SignatureIssues(OriginSig(point), file) == []
  {
    NoSignatureIssues(NewSig(point, i32), file);
    NoSignatureIssues(SumSig(i32), file);
    NoSignatureIssues(OriginSig(point), file);
  }

  /** An impl block whose public methods all have clean signatures raises no issue. */
  lemma {:induction false} CleanMethodsRaiseNothing(items: seq<ImplItem>, file: string)
    requires forall k :: 0 <= k < |items| && IsPublicFn(items[k]) ==> SignatureIssues(items[k].sig, file) == []
    ensures ImplMethodIssues(items, file) == []
  {
    if items != [] {
      CleanMethodsRaiseNothing(items[..|items| - 1], file);
    }
  }

  function PointType(): Type { PathType(["Point"], "Point") }

  /** `pub fn add(a: i32, b: i32) -> i32` */
  function AddSig(): Signature {
    Signature("add", [], [Typed(IdentPat("a"), I32()), Typed(IdentPat("b"), I32())], Returns(I32()))
  }

  /** `pub struct Point { pub x: i32, pub y: i32 }` */
  function PointStruct(): ItemStruct {
    ItemStruct(Public, "Point", [], Named([Field(Public, Some("x"), I32()), Field(Public, Some("y"), I32())]))
  }

  /** `pub enum Color { Red, Green }` */
  function ColorEnum(): ItemEnum {
    ItemEnum(Public, "Color", [], [Variant("Red", Unit), Variant("Green", Unit)])
  }

  /** The items of the `simple` crate's `src/lib.rs`, in file order. */
  function SimpleLibItems(): seq<Item> {
    [ Const(ItemConst(Public, "ANSWER", I32())),
      Fn(ItemFn(Public, AddSig())),
      Struct(PointStruct()),
      Impl(PointImpl(PointType(), I32())),
      Enum(ColorEnum()),
      Mod(Public, "math", External) ]
  }

  /** What the root record of the `simple` crate holds. */
  predicate SimpleRoot(r: ExtractModule, file: string) {
    && r.file == file && r.parts == []
    && r.consts == [ExtractField("ANSWER", "i32")]
    && |r.functions| == 1 && r.functions[0].name == "add"
    && r.functions[0].params == [ExtractField("a", "i32"), ExtractField("b", "i32")] && r.functions[0].returnType == "i32"
    && r.structs == [ExtractStruct("Point", [], [ExtractField("x", "i32"), ExtractField("y", "i32")])]
    && r.enums == [ExtractEnum("Color", [], ["Red", "Green"])]
    && r.traits == []
    && |r.pendingMethods| == 1 && r.pendingMethods[0].target == "Point"
    && |r.pendingMethods[0].methods| == 3
    && r.pendingMethods[0].methods[0].name == "new"
    && r.pendingMethods[0].methods[1].name == "sum"
    && r.pendingMethods[0].methods[2].name == "origin"
    && r.issues == []
  }

  /**
    The root record of `src/lib.rs`: the const `ANSWER` typed `i32`, the
    function `add`, the struct `Point` with `x` and `y`, the enum `Color` with
    `Red` and `Green`, one pending entry for `Point` with `new`, `sum` and
    `origin`, and no issue; `pub mod math;` adds nothing to it.
   */
  lemma SimpleRootRecord(file: string)
    ensures SimpleRoot(ModuleRecord(file, [], SimpleLibItems()), file)
  {
    SimpleRootBody(file);
    SimplePointMethods(PointType(), I32(), file);
    var p := ImplOf(PointImpl(PointType(), I32()), file).value;
    assert SortByKey([p], PendingKey) == InsertByKey(p, [], PendingKey) == [p];
  }

  /** The record before its impl entries are sorted, built item by item. */
  lemma SimpleRootBody(file: string)
    ensures ModuleBody(file, [], SimpleLibItems()) == ExtractModule(file, [],
      [ExtractField("ANSWER", "i32")],
      [ExtractEnum("Color", [], ["Red", "Green"])],
      [ExtractStruct("Point", [], [ExtractField("x", "i32"), ExtractField("y", "i32")])],
      [],
      [ExtractFunction("add", [], [ExtractField("a", "i32"), ExtractField("b", "i32")], "i32")],
      [ImplOf(PointImpl(PointType(), I32()), file).value],
      [])
  {
    var items := SimpleLibItems();
    assert items[..0] == [];
    var m1 := AnswerStep(EmptyModule(file, []), file);
    BodyStep(file, [], items, 0);
    var m2 := AddStep(m1, file);
    BodyStep(file, [], items, 1);
    var m3 := PointStep(m2, file);
    BodyStep(file, [], items, 2);
    var m4 := PointImplStep(m3, file);
    BodyStep(file, [], items, 3);
    var m5 := ColorStep(m4, file);
    BodyStep(file, [], items, 4);
    BodyStep(file, [], items, 5);
    assert items[..6] == items;
  }

  /** `TypeText` of the token text `i32` is `i32`. */
  lemma I32Text()
    ensures TypeText(I32()) == "i32"
  {
    var s := "i32";
    assert s[1..][1..][1..] == [];
    assert WordEnd(s) == 3;
    assert s[..3] == s && s[3..] == [];
    assert Words(s) == [s];
  }

  lemma AnswerStep(m: ExtractModule, file: string) returns (m': ExtractModule)
    ensures m' == ClassifyItem(m, SimpleLibItems()[0], file)
    ensures m' == m.(consts := m.consts + [ExtractField("ANSWER", "i32")])
  {
    I32Text();
    m' := ClassifyItem(m, SimpleLibItems()[0], file);
  }

  lemma AddStep(m: ExtractModule, file: string) returns (m': ExtractModule)
    ensures m' == ClassifyItem(m, SimpleLibItems()[1], file)
    ensures m' == m.(functions := m.functions + [ExtractFunction("add", [], [ExtractField("a", "i32"), ExtractField("b", "i32")], "i32")])
  {
    var sig := AddSig();
    I32Text();
    assert sig.inputs[..1] == [sig.inputs[0]] && sig.inputs[..1][..0] == [];
    assert Params(sig.inputs) == [ExtractField("a", "i32"), ExtractField("b", "i32")];
    NoSignatureIssues(sig, file);
    m' := ClassifyItem(m, SimpleLibItems()[1], file);
  }

  lemma PointStep(m: ExtractModule, file: string) returns (m': ExtractModule)
    ensures m' == ClassifyItem(m, SimpleLibItems()[2], file)
    ensures m' == m.(structs := m.structs + [ExtractStruct("Point", [], [ExtractField("x", "i32"), ExtractField("y", "i32")])])
  {
    PointStructParsed(file);
    assert SimpleLibItems()[2] == Struct(PointStruct());
    m' := CleanStructStep(m, PointStruct(), file);
  }

  /** A public struct that raises no issue adds its entry and nothing else. */
  lemma CleanStructStep(m: ExtractModule, s: ItemStruct, file: string) returns (m': ExtractModule)
    requires IsPublic(s.vis) && StructIssues(s, file) == []
    ensures m' == ClassifyItem(m, Struct(s), file)
    ensures m' == m.(structs := m.structs + [StructOf(s, file)])
  {
    m' := ClassifyItem(m, Struct(s), file);
    assert m.issues + [] == m.issues;
  }

  /** `Point` keeps both named fields, in order, and raises no issue. */
  lemma PointStructParsed(file: string)
    ensures StructOf(PointStruct(), file) == ExtractStruct("Point", [], [ExtractField("x", "i32"), ExtractField("y", "i32")])
    ensures StructIssues(PointStruct(), file) == []
  {
    var fs := PointStruct().fields.named;
    I32Text();
    assert fs[..1] == [fs[0]] && fs[..1][..0] == [];
    assert PublicFields(fs) == [ExtractField("x", "i32"), ExtractField("y", "i32")];
    assert GenericIssues([], file, "Struct", "Point") == [];
  }

  lemma PointImplStep(m: ExtractModule, file: string) returns (m': ExtractModule)
    ensures m' == ClassifyItem(m, SimpleLibItems()[3], file)
    ensures m' == m.(pendingMethods := m.pendingMethods + [ImplOf(PointImpl(PointType(), I32()), file).value])
  {
    var i := PointImpl(PointType(), I32());
    SimplePointMethods(PointType(), I32(), file);
    var p := ImplOf(i, file);
    assert SimpleLibItems()[3] == Impl(i);
    m' := ClassifyItem(m, Impl(i), file);
    assert m' == m.(pendingMethods := m.pendingMethods + [p.value], issues := m.issues + []);
    assert m.issues + [] == m.issues;
  }

  lemma ColorStep(m: ExtractModule, file: string) returns (m': ExtractModule)
    ensures m' == ClassifyItem(m, SimpleLibItems()[4], file)
    ensures m' == m.(enums := m.enums + [ExtractEnum("Color", [], ["Red", "Green"])])
  {
    ColorEnumParsed(file);
    assert SimpleLibItems()[4] == Enum(ColorEnum());
    m' := CleanEnumStep(m, ColorEnum(), file);
  }

  /** A public enum that raises no issue adds its entry and nothing else. */
  lemma CleanEnumStep(m: ExtractModule, e: ItemEnum, file: string) returns (m': ExtractModule)
    requires IsPublic(e.vis) && EnumIssues(e, file) == []
    ensures m' == ClassifyItem(m, Enum(e), file)
    ensures m' == m.(enums := m.enums + [EnumOf(e, file)])
  {
    m' := ClassifyItem(m, Enum(e), file);
    assert m.issues + [] == m.issues;
  }

  /** `Color` keeps both unit variants, in order, and raises no issue. */
  lemma ColorEnumParsed(file: string)
    ensures EnumOf(ColorEnum(), file) == ExtractEnum("Color", [], ["Red", "Green"])
    ensures EnumIssues(ColorEnum(), file) == []
  {
    var vs := ColorEnum().variants;
    assert vs[..1] == [vs[0]] && vs[..1][..0] == [];
    assert VariantNames(vs) == ["Red", "Green"];
    assert PayloadIssues([vs[0]], file) == [];
    assert GenericIssues([], file, "Enum", "Color") == [];
  }

  /** A signature with no lifetime or const generic and only identifier patterns raises no issue. */
  lemma NoSignatureIssues(sig: Signature, file: string)
    requires forall k :: 0 <= k < |sig.generics| ==> sig.generics[k].TypeParam?
    requires forall j :: 0 <= j < |sig.inputs| ==> !(sig.inputs[j].Typed? && sig.inputs[j].pat.OtherPat?)
    ensures SignatureIssues(sig, file) == []
  {
    TypeParamsAccounted(sig.generics, file, "Function", sig.ident);
    ParamIssuesAccounted(sig.inputs, file);
    assert (set j | 0 <= j < |sig.inputs| && IsUnsupportedArg(sig.inputs[j])) == {};
    assert (set j | 0 <= j < |sig.generics| && IsUnsupportedGeneric(sig.generics[j])) == {};
  }

  /** `pub mod math;` in `src/lib.rs` resolves to `src/math.rs`, whose own children would live in `src/math`. */
  lemma SimpleMathModule()
    ensures var src := Path(true, ["crate", "src"]);
      var existing := {Join(src, "lib.rs"), Join(src, "math.rs")};
      && ResolveChildModuleFile(src, "math", existing) == Ok(Join(src, "math.rs"))
      && ModuleBaseDir(Join(src, "math.rs")) == Join(src, "math")
      && ModuleBaseDir(Join(src, "lib.rs")) == src
  {
    var src := Path(true, ["crate", "src"]);
    var existing := {Join(src, "lib.rs"), Join(src, "math.rs")};
    assert "math" + ".rs" == "math.rs";
    assert Join(src, "math" + ".rs") in existing;
    ResolvedChildBaseDir(src, "math", existing);
    assert Join(src, "lib.rs").segments[..2] == src.segments;
  }

  /**
    The `simple` crate: `src/lib.rs` holds the items above and `pub mod math;`,
    and `src/math.rs` holds the module's items. A successful extraction holds
    the record of `math`, walked at module path `math`, and the root record
    with the crate's const, function, struct, enum and `Point` methods.
   */
  method SimpleCrateModules(mathItems: seq<Item>) returns (r: Result<seq<ExtractModule>, string>)
    ensures var src := Path(true, ["crate", "src"]);
      r.Ok? ==>
        && ModuleRecord(Display(Join(src, "math.rs")), ["math"], mathItems) in r.value
        && exists root :: root in r.value && SimpleRoot(root, Display(Join(src, "lib.rs")))
  {
    var src := Path(true, ["crate", "src"]);
    var lib, math := Join(src, "lib.rs"), Join(src, "math.rs");
    var fs := map[lib := Parsed(SimpleLibItems()), math := Parsed(mathItems)];
    var manifest := Path(true, ["crate", "Cargo.toml"]);
    ghost var walked, visits;
    r, walked, visits := ExtractModules(fs, manifest);
    SimpleCrateLayout(fs, SimpleLibItems(), mathItems);
    SimpleLibShape();
    SimpleCrateWalked(fs, lib, math, SimpleLibItems(), mathItems, r, walked, visits);
    if r.Ok? {
      var root := ModuleRecord(Display(lib), [], SimpleLibItems());
      SimpleRootRecord(Display(lib));
      assert root in r.value && SimpleRoot(root, Display(lib));
    }
  }

  /** `src/lib.rs` holds six items, the last of them its one `pub mod`. */
  lemma SimpleLibShape()
    ensures var items := SimpleLibItems();
      && |items| == 6 && items[5] == Mod(Public, "math", External)
      && forall j :: 0 <= j < 5 ==> !IsPubMod(items[j])
  {}

  /** Where the walk of the `simple` crate starts and where `pub mod math;` leads. */
  lemma SimpleCrateLayout(fs: FileSystem, libItems: seq<Item>, mathItems: seq<Item>)
    requires var src := Path(true, ["crate", "src"]);
      fs == map[Join(src, "lib.rs") := Parsed(libItems), Join(src, "math.rs") := Parsed(mathItems)]
    ensures var src := Path(true, ["crate", "src"]);
      && Parent(Path(true, ["crate", "Cargo.toml"])) == Some(Path(true, ["crate"]))
      && RootFile(Path(true, ["crate"])) == Join(src, "lib.rs")
      && ModuleBaseDir(Join(src, "lib.rs")) == src
      && ResolveChildModuleFile(src, "math", fs.Keys) == Ok(Join(src, "math.rs"))
      && Join(src, "math.rs") != Join(src, "lib.rs")
  {
    var src := Path(true, ["crate", "src"]);
    var manifest := Path(true, ["crate", "Cargo.toml"]);
    assert manifest.segments[..|manifest.segments| - 1] == ["crate"];
    assert ["crate"] + ["src"] == src.segments;
    assert Join(src, "math.rs").segments[2] != Join(src, "lib.rs").segments[2];
    assert fs.Keys == {Join(src, "lib.rs"), Join(src, "math.rs")};
    SimpleMathModule();
  }

  /** Reading the walk's promises back on a crate laid out like `simple`. */
  lemma SimpleCrateWalked(fs: FileSystem, lib: Path, math: Path, libItems: seq<Item>, mathItems: seq<Item>,
                          r: Result<seq<ExtractModule>, string>, walked: seq<ExtractModule>, visits: seq<Visit>)
    requires fs == map[lib := Parsed(libItems), math := Parsed(mathItems)] && math != lib
    requires ResolveChildModuleFile(ModuleBaseDir(lib), "math", fs.Keys) == Ok(math)
    requires |libItems| == 6 && libItems[5] == Mod(Public, "math", External)
    requires forall j :: 0 <= j < 5 ==> !IsPubMod(libItems[j])
    requires r.Ok? ==>
      && |walked| > 0 && walked[|walked| - 1] == ModuleRecord(Display(lib), [], fs[lib].items)
      && multiset(r.value) == multiset(walked)
    requires r.Ok? ==>
      && Recorded(fs, walked, 0, FilesOf(visits), visits)
      && (forall k :: 0 <= k < |visits| ==> 0 <= visits[k].at < |walked| && walked[visits[k].at] in r.value)
      && ChildrenWalked(fs, Display(lib), [], ModuleBaseDir(lib), fs[lib].items, |fs[lib].items|,
                        {lib}, walked, 0, visits)
    ensures r.Ok? ==>
      && ModuleRecord(Display(math), ["math"], mathItems) in r.value
      && ModuleRecord(Display(lib), [], libItems) in r.value
  {
    if r.Ok? {
      assert fs[lib].items == libItems && fs[math].items == mathItems;
      assert IsPubMod(libItems[5]) && libItems[5].ident == "math" && libItems[5].content.External?;
      assert ChildWalked(fs, Display(lib), [], ModuleBaseDir(lib), libItems, 5, {lib}, walked, 0, visits);
      assert !UnderPubMod(["math"], [], libItems, 5) by {
        NoPubModBefore(["math"], [], libItems, 5);
      }
      assert [] + ["math"] == ["math"];
      RecordedVisit(fs, walked, 0, FilesOf(visits), visits, math);
      var v := VisitOf(visits, math).value;
      var k :| 0 <= k < |visits| && visits[k] == v;
      assert walked[|walked| - 1] in multiset(walked);
    }
  }

  /** Nothing lies under a `pub mod` among items that hold none. */
  lemma {:induction false} NoPubModBefore(q: seq<string>, parts: seq<string>, items: seq<Item>, bound: int)
    requires bound <= |items| && forall j :: 0 <= j < bound ==> !IsPubMod(items[j])
    ensures !UnderPubMod(q, parts, items, bound)
    decreases bound
  {
    if bound > 0 {
      NoPubModBefore(q, parts, items, bound - 1);
    }
  }
}
