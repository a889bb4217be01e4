/**
  The per-item classifiers of the extractor: each maps one syntax node to an
  output record and appends zero or more `SkipIssue`s to the caller's issue
  list. Each `parse_*` operation is a method with a loop (as in the source);
  the function beside it is its specification, and the lemmas below state
  what the records and issues mean.
 */
module Classify {
  import opened Wrappers
  import opened Syntax
  import opened Records
  import opened Text

  const GenericKind := "generic"
  const ParamKind := "param"
  const StructKind := "struct"
  const EnumKind := "enum"
  const TraitKind := "trait"
  const ImplKind := "impl"
  const MacroKind := "macro"

  const UnsupportedParamName := "unsupported"
  const ParamReason := "Non-identifier function parameters are not representable in TS facades and were replaced by an 'unsupported' name."
  const TupleStructReason := "Tuple structs are not representable as TS class fields and were emitted without fields."
  const PayloadVariantReason := "Enum variants with payload fields are currently represented as unit variants in TS facades."
  const TraitMemberReason := "Unsupported trait member kind was skipped."
  const ImplTargetReason := "Unsupported impl target (expected a nominal path type)."
  const UnnamedMacroReason := "Encountered #[macro_export] macro_rules! without a stable name."

  /** How many elements of `s` satisfy `p`, counted by position. */
  function CountWhere<T>(s: seq<T>, p: T -> bool): nat {
    |set i | 0 <= i < |s| && p(s[i])|
  }

  lemma CountWhereSnoc<T>(s: seq<T>, x: T, p: T -> bool)
    ensures CountWhere(s + [x], p) == CountWhere(s, p) + (if p(x) then 1 else 0)
  {
    var t := s + [x];
    var a := set i | 0 <= i < |s| && p(s[i]);
    var b := set i | 0 <= i < |t| && p(t[i]);
    if p(x) {
      assert b == a + {|s|};
    } else {
      assert b == a;
    }
  }

  lemma CountWhereEmpty<T>(p: T -> bool)
    ensures CountWhere([], p) == 0
  {
  }

  lemma AppendAssoc<T>(a: seq<T>, b: seq<T>, c: seq<T>)
    ensures (a + b) + c == a + (b + c)
  {
  }

  /** The last element split off: the shape of every left-to-right loop below. */
  lemma SplitLast<T>(s: seq<T>)
    requires s != []
    ensures s == s[..|s| - 1] + [s[|s| - 1]]
  {
  }

  // ------------------------------------------------------------ leaves

  predicate IsPublic(vis: Vis) {
    vis == Public
  }

  /** `type_to_string`: the type's token text, whitespace-normalised. */
  function TypeText(ty: Type): (t: string)
    ensures Normalized(t)
    ensures Visible(t) == Visible(ty.text)
    ensures Words(t) == Words(ty.text)
  {
    NormalizeWs(ty.text)
  }

  /**
    `return_type_to_string`: a missing return type is the unit type; a written
    one is its whitespace-normal token text.
   */
  function ReturnTypeText(ret: ReturnType): (t: string)
    ensures Normalized(t)
    ensures ret.DefaultReturn? ==> t == "()"
    ensures ret.Returns? ==> Visible(t) == Visible(ret.ty.text) && Words(t) == Words(ret.ty.text)
  {
    match ret
    case DefaultReturn => "()"
    case Returns(ty) => TypeText(ty)
  }

  /**
    `macro_stub`: an exported macro seen as a non-generic function of one
    token-stream parameter that returns a token stream.
   */
  function MacroStub(name: string): (f: ExtractFunction)
    ensures f.name == name && f.typeParams == []
    ensures |f.params| == 1 && f.params[0].typeText == f.returnType
  {
    ExtractFunction(name, [], [ExtractField("tokens", "Tokens")], "Tokens")
  }

  /**
    `has_macro_export`: some attribute's path is exactly the identifier
    `macro_export`; a longer path ending in it does not count.
   */
  predicate HasMacroExport(attrs: seq<Attribute>): (b: bool)
    ensures b <==> Attribute(["macro_export"]) in attrs
  {
    exists i :: 0 <= i < |attrs| && attrs[i].path == ["macro_export"]
  }

  /** `parse_const`: the const's name with its type's whitespace-normal text. */
  function ParseConst(c: ItemConst): (f: ExtractField)
    ensures f.name == c.ident
    ensures Normalized(f.typeText) && Visible(f.typeText) == Visible(c.ty.text)
    ensures Words(f.typeText) == Words(c.ty.text)
  {
    ExtractField(c.ident, TypeText(c.ty))
  }

  // ------------------------------------------------------------ generics

  predicate IsUnsupportedGeneric(p: GenericParam) {
    !p.TypeParam?
  }

  function GenericReason(ownerKind: string, ownerName: string, which: string): string {
    ownerKind + " '" + ownerName + "' " + which
      + " generic parameters are not representable in TS facades and were skipped."
  }

  function GenericIssue(p: GenericParam, file: string, ownerKind: string, ownerName: string): SkipIssue
    requires !p.TypeParam?
  {
    match p
    case LifetimeParam(text) => SkipIssue(file, GenericKind, text, GenericReason(ownerKind, ownerName, "lifetime"))
    case ConstParam(text) => SkipIssue(file, GenericKind, text, GenericReason(ownerKind, ownerName, "const"))
  }

  /** The type-parameter idents, in declared order. */
  function TypeParamNames(g: seq<GenericParam>): seq<string> {
    if g == [] then []
    else TypeParamNames(g[..|g| - 1]) + (if g[|g| - 1].TypeParam? then [g[|g| - 1].ident] else [])
  }

  /** One "generic" issue per lifetime or const parameter, in declared order. */
  function GenericIssues(g: seq<GenericParam>, file: string, ownerKind: string, ownerName: string): seq<SkipIssue> {
    if g == [] then []
    else
      GenericIssues(g[..|g| - 1], file, ownerKind, ownerName)
        + (if g[|g| - 1].TypeParam? then [] else [GenericIssue(g[|g| - 1], file, ownerKind, ownerName)])
  }

  /**
    Every generic parameter is accounted for exactly once: a type parameter is
    kept by name, every other one becomes one "generic" issue; nothing else is
    kept or reported.
   */
  lemma TypeParamsAccounted(g: seq<GenericParam>, file: string, ownerKind: string, ownerName: string)
    ensures forall x :: x in TypeParamNames(g) <==> TypeParam(x) in g
    ensures |TypeParamNames(g)| == |g| - CountWhere(g, IsUnsupportedGeneric)
    ensures |GenericIssues(g, file, ownerKind, ownerName)| == CountWhere(g, IsUnsupportedGeneric)
    ensures forall k :: 0 <= k < |GenericIssues(g, file, ownerKind, ownerName)| ==>
      GenericIssues(g, file, ownerKind, ownerName)[k].kind == GenericKind
      && GenericIssues(g, file, ownerKind, ownerName)[k].file == file
  {
    TypeParamNamesAccounted(g);
    GenericIssuesAccounted(g, file, ownerKind, ownerName);
  }

  lemma {:induction false} TypeParamNamesAccounted(g: seq<GenericParam>)
    ensures forall x :: x in TypeParamNames(g) <==> TypeParam(x) in g
    ensures |TypeParamNames(g)| == |g| - CountWhere(g, IsUnsupportedGeneric)
  {
    if g == [] {
      CountWhereEmpty(IsUnsupportedGeneric);
    } else {
      var init, last := g[..|g| - 1], g[|g| - 1];
      SplitLast(g);
      CountWhereSnoc(init, last, IsUnsupportedGeneric);
      TypeParamNamesAccounted(init);
    }
  }

  lemma {:induction false} GenericIssuesAccounted(g: seq<GenericParam>, file: string, ownerKind: string, ownerName: string)
    ensures |GenericIssues(g, file, ownerKind, ownerName)| == CountWhere(g, IsUnsupportedGeneric)
    ensures forall k :: 0 <= k < |GenericIssues(g, file, ownerKind, ownerName)| ==>
      GenericIssues(g, file, ownerKind, ownerName)[k].kind == GenericKind
      && GenericIssues(g, file, ownerKind, ownerName)[k].file == file
  {
    if g == [] {
      CountWhereEmpty(IsUnsupportedGeneric);
    } else {
      var init, last := g[..|g| - 1], g[|g| - 1];
      SplitLast(g);
      CountWhereSnoc(init, last, IsUnsupportedGeneric);
      GenericIssuesAccounted(init, file, ownerKind, ownerName);
      var r0 := GenericIssues(init, file, ownerKind, ownerName);
      var extra := if last.TypeParam? then [] else [GenericIssue(last, file, ownerKind, ownerName)];
      var r := r0 + extra;
      assert GenericIssues(g, file, ownerKind, ownerName) == r;
      forall k | 0 <= k < |r|
        ensures r[k].kind == GenericKind && r[k].file == file
      {
        if k < |r0| {
          assert r[k] == r0[k];
        } else {
          assert r[k] == GenericIssue(last, file, ownerKind, ownerName);
        }
      }
    }
  }

  lemma TypeParamsStep(g: seq<GenericParam>, i: int, file: string, ownerKind: string, ownerName: string)
    requires 0 <= i < |g|
    ensures TypeParamNames(g[..i + 1]) == TypeParamNames(g[..i]) + (if g[i].TypeParam? then [g[i].ident] else [])
    ensures GenericIssues(g[..i + 1], file, ownerKind, ownerName)
         == GenericIssues(g[..i], file, ownerKind, ownerName)
            + (if g[i].TypeParam? then [] else [GenericIssue(g[i], file, ownerKind, ownerName)])
  {
    assert g[..i + 1][..i] == g[..i];
  }

  /** `parse_type_params`. */
  method ParseTypeParams(generics: seq<GenericParam>, file: string, ownerKind: string, ownerName: string,
                         issues: seq<SkipIssue>)
    returns (out: seq<string>, issues': seq<SkipIssue>)
    ensures out == TypeParamNames(generics)
    ensures issues' == issues + GenericIssues(generics, file, ownerKind, ownerName)
  {
    out, issues' := [], issues;
    for i := 0 to |generics|
      invariant out == TypeParamNames(generics[..i])
      invariant issues' == issues + GenericIssues(generics[..i], file, ownerKind, ownerName)
    {
      TypeParamsStep(generics, i, file, ownerKind, ownerName);
      if generics[i].TypeParam? {
        out := out + [generics[i].ident];
      } else {
        var issue := GenericIssue(generics[i], file, ownerKind, ownerName);
        AppendAssoc(issues, GenericIssues(generics[..i], file, ownerKind, ownerName), [issue]);
        issues' := issues' + [issue];
      }
    }
    assert generics[..|generics|] == generics;
  }

  // ------------------------------------------------------------ signatures

  predicate IsUnsupportedArg(a: FnArg) {
    a.Typed? && a.pat.OtherPat?
  }

  function ReceiverName(isRef: bool, isMut: bool): string {
    if isRef && isMut then "&mut self" else if isRef then "&self" else "self"
  }

  function ParamField(arg: FnArg): ExtractField {
    match arg
    case Receiver(isRef, isMut) => ExtractField(ReceiverName(isRef, isMut), "self")
    case Typed(pat, ty) => ExtractField(if pat.IdentPat? then pat.ident else UnsupportedParamName, TypeText(ty))
  }

  function ParamIssue(arg: FnArg, file: string): SkipIssue {
    SkipIssue(file, ParamKind, if arg.Typed? && arg.pat.OtherPat? then arg.pat.text else "", ParamReason)
  }

  /** One record per input, in order. */
  function Params(inputs: seq<FnArg>): seq<ExtractField> {
    if inputs == [] then [] else Params(inputs[..|inputs| - 1]) + [ParamField(inputs[|inputs| - 1])]
  }

  lemma {:induction false} ParamsOneForOne(inputs: seq<FnArg>)
    ensures |Params(inputs)| == |inputs|
    ensures forall i :: 0 <= i < |inputs| ==> Params(inputs)[i] == ParamField(inputs[i])
  {
    if inputs != [] {
      ParamsOneForOne(inputs[..|inputs| - 1]);
    }
  }

  /** One "param" issue per input bound to a non-identifier pattern, in order. */
  function ParamIssues(inputs: seq<FnArg>, file: string): seq<SkipIssue> {
    if inputs == [] then []
    else
      var last := inputs[|inputs| - 1];
      ParamIssues(inputs[..|inputs| - 1], file) + (if IsUnsupportedArg(last) then [ParamIssue(last, file)] else [])
  }

  lemma {:induction false} ParamIssuesAccounted(inputs: seq<FnArg>, file: string)
    ensures |ParamIssues(inputs, file)| == CountWhere(inputs, IsUnsupportedArg)
    ensures forall k :: 0 <= k < |ParamIssues(inputs, file)| ==>
      ParamIssues(inputs, file)[k].kind == ParamKind && ParamIssues(inputs, file)[k].file == file
  {
    if inputs == [] {
      CountWhereEmpty(IsUnsupportedArg);
    } else {
      var init, last := inputs[..|inputs| - 1], inputs[|inputs| - 1];
      SplitLast(inputs);
      CountWhereSnoc(init, last, IsUnsupportedArg);
      ParamIssuesAccounted(init, file);
    }
  }

  function SignatureOf(sig: Signature, file: string): ExtractFunction {
    ExtractFunction(sig.ident, TypeParamNames(sig.generics), Params(sig.inputs), ReturnTypeText(sig.output))
  }

  function SignatureIssues(sig: Signature, file: string): seq<SkipIssue> {
    GenericIssues(sig.generics, file, "Function", sig.ident) + ParamIssues(sig.inputs, file)
  }

  lemma ParamsStep(inputs: seq<FnArg>, i: int, file: string)
    requires 0 <= i < |inputs|
    ensures Params(inputs[..i + 1]) == Params(inputs[..i]) + [ParamField(inputs[i])]
    ensures ParamIssues(inputs[..i + 1], file)
         == ParamIssues(inputs[..i], file) + (if IsUnsupportedArg(inputs[i]) then [ParamIssue(inputs[i], file)] else [])
  {
    assert inputs[..i + 1][..i] == inputs[..i];
  }

  /** The parameter loop of `parse_signature`. */
  method ParseParams(inputs: seq<FnArg>, file: string, issues: seq<SkipIssue>)
    returns (params: seq<ExtractField>, issues': seq<SkipIssue>)
    ensures params == Params(inputs)
    ensures issues' == issues + ParamIssues(inputs, file)
  {
    params, issues' := [], issues;
    for i := 0 to |inputs|
      invariant params == Params(inputs[..i])
      invariant issues' == issues + ParamIssues(inputs[..i], file)
    {
      ParamsStep(inputs, i, file);
      match inputs[i]
      case Receiver(isRef, isMut) =>
        params := params + [ExtractField(ReceiverName(isRef, isMut), "self")];
      case Typed(pat, ty) =>
        var name;
        if pat.IdentPat? {
          name := pat.ident;
        } else {
          AppendAssoc(issues, ParamIssues(inputs[..i], file), [ParamIssue(inputs[i], file)]);
          issues' := issues' + [ParamIssue(inputs[i], file)];
          name := UnsupportedParamName;
        }
        params := params + [ExtractField(name, TypeText(ty))];
    }
    assert inputs[..|inputs|] == inputs;
  }

  /** `parse_signature`. */
  method ParseSignature(sig: Signature, file: string, issues: seq<SkipIssue>)
    returns (f: ExtractFunction, issues': seq<SkipIssue>)
    ensures f == SignatureOf(sig, file)
    ensures issues' == issues + SignatureIssues(sig, file)
  {
    var typeParams, params;
    typeParams, issues' := ParseTypeParams(sig.generics, file, "Function", sig.ident, issues);
    params, issues' := ParseParams(sig.inputs, file, issues');
    AppendAssoc(issues, GenericIssues(sig.generics, file, "Function", sig.ident), ParamIssues(sig.inputs, file));
    f := ExtractFunction(sig.ident, typeParams, params, ReturnTypeText(sig.output));
  }

  /**
    A signature keeps its inputs one-for-one and in order, names receivers by
    their form with the type "self", renames non-identifier patterns to
    "unsupported" with one "param" issue each, reports each lifetime or const
    generic with one "generic" issue, and reads a missing return type as "()".
   */
  lemma SignatureContract(sig: Signature, file: string)
    ensures var f := SignatureOf(sig, file);
      && f.name == sig.ident
      && |f.params| == |sig.inputs|
      && (forall i :: 0 <= i < |sig.inputs| && sig.inputs[i].Receiver? ==>
            f.params[i].typeText == "self"
            && (f.params[i].name == "&mut self" <==> sig.inputs[i].isRef && sig.inputs[i].isMut)
            && (f.params[i].name == "&self" <==> sig.inputs[i].isRef && !sig.inputs[i].isMut)
            && (f.params[i].name == "self" <==> !sig.inputs[i].isRef))
      && (forall i :: 0 <= i < |sig.inputs| && sig.inputs[i].Typed? ==>
            f.params[i].typeText == TypeText(sig.inputs[i].ty)
            && f.params[i].name
               == (if sig.inputs[i].pat.IdentPat? then sig.inputs[i].pat.ident else UnsupportedParamName))
      && (sig.output.DefaultReturn? ==> f.returnType == "()")
    ensures var iss := SignatureIssues(sig, file);
      && CountKind(iss, ParamKind) == CountWhere(sig.inputs, IsUnsupportedArg)
      && CountKind(iss, GenericKind) == CountWhere(sig.generics, IsUnsupportedGeneric)
      && |iss| == CountKind(iss, ParamKind) + CountKind(iss, GenericKind)
  {
    var gi, pi := GenericIssues(sig.generics, file, "Function", sig.ident), ParamIssues(sig.inputs, file);
    TypeParamsAccounted(sig.generics, file, "Function", sig.ident);
    ParamIssuesAccounted(sig.inputs, file);
    ParamsOneForOne(sig.inputs);
    CountKindAppend(gi, pi, ParamKind);
    CountKindAppend(gi, pi, GenericKind);
    CountKindAbsent(gi, ParamKind);
    CountKindAbsent(pi, GenericKind);
    CountKindAll(gi, GenericKind);
    CountKindAll(pi, ParamKind);
  }

  lemma {:induction false} CountKindAll(issues: seq<SkipIssue>, kind: string)
    requires forall k :: 0 <= k < |issues| ==> issues[k].kind == kind
    ensures CountKind(issues, kind) == |issues|
    decreases |issues|
  {
    if issues != [] {
      CountKindAll(issues[..|issues| - 1], kind);
    }
  }

  /** Issues raised while reading signatures are only ever "generic" or "param" issues. */
  lemma SignatureIssueKinds(sig: Signature, file: string)
    ensures forall k :: 0 <= k < |SignatureIssues(sig, file)| ==>
      SignatureIssues(sig, file)[k].kind in {GenericKind, ParamKind}
      && SignatureIssues(sig, file)[k].file == file
  {
    var gi, pi := GenericIssues(sig.generics, file, "Function", sig.ident), ParamIssues(sig.inputs, file);
    TypeParamsAccounted(sig.generics, file, "Function", sig.ident);
    ParamIssuesAccounted(sig.inputs, file);
    assert SignatureIssues(sig, file) == gi + pi;
  }

  // ------------------------------------------------------------ structs

  predicate IsKeptField(f: Field) {
    IsPublic(f.vis) && f.ident.Some?
  }

  function FieldRecord(f: Field): ExtractField
    requires f.ident.Some?
  {
    ExtractField(f.ident.value, TypeText(f.ty))
  }

  /** The public named fields, in declaration order. */
  function PublicFields(fs: seq<Field>): seq<ExtractField> {
    if fs == [] then []
    else
      var last := fs[|fs| - 1];
      PublicFields(fs[..|fs| - 1]) + (if IsKeptField(last) then [FieldRecord(last)] else [])
  }

  /** Exactly the public named fields are kept: a private field never appears. */
  lemma {:induction false} PublicFieldsExactly(fs: seq<Field>)
    ensures forall j :: 0 <= j < |fs| && IsKeptField(fs[j]) ==> FieldRecord(fs[j]) in PublicFields(fs)
    ensures forall x :: x in PublicFields(fs) ==>
      exists j :: 0 <= j < |fs| && IsKeptField(fs[j]) && FieldRecord(fs[j]) == x
    ensures |PublicFields(fs)| == CountWhere(fs, IsKeptField)
  {
    if fs == [] {
      CountWhereEmpty(IsKeptField);
    } else {
      var init, last := fs[..|fs| - 1], fs[|fs| - 1];
      SplitLast(fs);
      CountWhereSnoc(init, last, IsKeptField);
      PublicFieldsExactly(init);
      forall x | x in PublicFields(fs)
        ensures exists j :: 0 <= j < |fs| && IsKeptField(fs[j]) && FieldRecord(fs[j]) == x
      {
        if x in PublicFields(init) {
          var j :| 0 <= j < |init| && IsKeptField(init[j]) && FieldRecord(init[j]) == x;
          assert fs[j] == init[j];
        } else {
          assert fs[|fs| - 1] == last;
        }
      }
    }
  }

  /** The kept fields stay in declaration order: the `j`-th field lands after the kept fields before it. */
  lemma {:induction false} PublicFieldsInOrder(fs: seq<Field>)
    ensures forall j :: 0 <= j < |fs| && IsKeptField(fs[j]) ==>
      var k := CountWhere(fs[..j], IsKeptField);
      k < |PublicFields(fs)| && PublicFields(fs)[k] == FieldRecord(fs[j])
  {
    if fs != [] {
      var init, last := fs[..|fs| - 1], fs[|fs| - 1];
      SplitLast(fs);
      PublicFieldsInOrder(init);
      PublicFieldsExactly(init);
      forall j | 0 <= j < |fs| && IsKeptField(fs[j])
        ensures var k := CountWhere(fs[..j], IsKeptField); k < |PublicFields(fs)| && PublicFields(fs)[k] == FieldRecord(fs[j])
      {
        if j < |init| {
          assert fs[..j] == init[..j] && fs[j] == init[j];
        } else {
          assert fs[..j] == init;
        }
      }
    }
  }

  function StructOf(s: ItemStruct, file: string): ExtractStruct {
    ExtractStruct(s.ident, TypeParamNames(s.generics), if s.fields.Named? then PublicFields(s.fields.named) else [])
  }

  function TupleStructIssue(s: ItemStruct, file: string): SkipIssue {
    SkipIssue(file, StructKind, s.ident, TupleStructReason)
  }

  function StructIssues(s: ItemStruct, file: string): seq<SkipIssue> {
    GenericIssues(s.generics, file, "Struct", s.ident)
      + (if s.fields.Unnamed? then [TupleStructIssue(s, file)] else [])
  }

  /** The field loop of `parse_struct`. */
  method ParseNamedFields(fs: seq<Field>) returns (fields: seq<ExtractField>)
    ensures fields == PublicFields(fs)
  {
    fields := [];
    for i := 0 to |fs|
      invariant fields == PublicFields(fs[..i])
    {
      assert fs[..i + 1][..i] == fs[..i];
      if !IsPublic(fs[i].vis) {
        continue;
      }
      if fs[i].ident.Some? {
        fields := fields + [ExtractField(fs[i].ident.value, TypeText(fs[i].ty))];
      }
    }
    assert fs[..|fs|] == fs;
  }

  /** `parse_struct`. */
  method ParseStruct(item: ItemStruct, file: string, issues: seq<SkipIssue>)
    returns (st: ExtractStruct, issues': seq<SkipIssue>)
    ensures st == StructOf(item, file)
    ensures issues' == issues + StructIssues(item, file)
  {
    var typeParams;
    typeParams, issues' := ParseTypeParams(item.generics, file, "Struct", item.ident, issues);
    var fields := [];
    match item.fields {
      case Named(named) =>
        fields := ParseNamedFields(named);
      case Unnamed(_) =>
        AppendAssoc(issues, GenericIssues(item.generics, file, "Struct", item.ident), [TupleStructIssue(item, file)]);
        issues' := issues' + [SkipIssue(file, StructKind, item.ident, TupleStructReason)];
      case Unit =>
    }
    st := ExtractStruct(item.ident, typeParams, fields);
  }

  /**
    The three field shapes: named fields keep exactly the public ones with no
    "struct" issue; a tuple struct has no fields and exactly one "struct"
    issue; a unit struct has no fields and no issue at all.
   */
  lemma StructContract(s: ItemStruct, file: string)
    ensures StructOf(s, file).name == s.ident
    ensures s.fields.Named? ==>
      StructOf(s, file).fields == PublicFields(s.fields.named)
      && CountKind(StructIssues(s, file), StructKind) == 0
    ensures s.fields.Unnamed? ==>
      StructOf(s, file).fields == [] && CountKind(StructIssues(s, file), StructKind) == 1
    ensures s.fields.Unit? ==>
      StructOf(s, file).fields == [] && StructIssues(s, file) == GenericIssues(s.generics, file, "Struct", s.ident)
    ensures CountKind(StructIssues(s, file), GenericKind) == CountWhere(s.generics, IsUnsupportedGeneric)
  {
    var gi := GenericIssues(s.generics, file, "Struct", s.ident);
    var tail: seq<SkipIssue> := if s.fields.Unnamed? then [TupleStructIssue(s, file)] else [];
    TypeParamsAccounted(s.generics, file, "Struct", s.ident);
    CountKindAppend(gi, tail, StructKind);
    CountKindAppend(gi, tail, GenericKind);
    CountKindAbsent(gi, StructKind);
    CountKindAll(gi, GenericKind);
    assert CountKind(tail, GenericKind) == 0 by {
      CountKindAbsent(tail, GenericKind);
    }
    if s.fields.Unnamed? {
      assert tail[..0] == [];
    } else {
      assert gi + tail == gi;
    }
  }

  // ------------------------------------------------------------ enums

  predicate HasPayload(v: Variant) {
    !v.fields.Unit?
  }

  /** Every variant name, in declaration order, whatever its payload. */
  function VariantNames(vs: seq<Variant>): seq<string> {
    if vs == [] then [] else VariantNames(vs[..|vs| - 1]) + [vs[|vs| - 1].ident]
  }

  function PayloadIssue(v: Variant, file: string): SkipIssue {
    SkipIssue(file, EnumKind, v.ident, PayloadVariantReason)
  }

  /** One "enum" issue per variant that carries a payload. */
  function PayloadIssues(vs: seq<Variant>, file: string): seq<SkipIssue> {
    if vs == [] then []
    else
      var last := vs[|vs| - 1];
      PayloadIssues(vs[..|vs| - 1], file) + (if HasPayload(last) then [PayloadIssue(last, file)] else [])
  }

  function EnumOf(e: ItemEnum, file: string): ExtractEnum {
    ExtractEnum(e.ident, TypeParamNames(e.generics), VariantNames(e.variants))
  }

  function EnumIssues(e: ItemEnum, file: string): seq<SkipIssue> {
    GenericIssues(e.generics, file, "Enum", e.ident) + PayloadIssues(e.variants, file)
  }

  /** The variant loop of `parse_enum`. */
  method ParseVariants(vs: seq<Variant>, file: string, issues: seq<SkipIssue>)
    returns (variants: seq<string>, issues': seq<SkipIssue>)
    ensures variants == VariantNames(vs)
    ensures issues' == issues + PayloadIssues(vs, file)
  {
    variants, issues' := [], issues;
    for i := 0 to |vs|
      invariant variants == VariantNames(vs[..i])
      invariant issues' == issues + PayloadIssues(vs[..i], file)
    {
      assert vs[..i + 1][..i] == vs[..i];
      if !vs[i].fields.Unit? {
        AppendAssoc(issues, PayloadIssues(vs[..i], file), [PayloadIssue(vs[i], file)]);
        issues' := issues' + [SkipIssue(file, EnumKind, vs[i].ident, PayloadVariantReason)];
      }
      variants := variants + [vs[i].ident];
    }
    assert vs[..|vs|] == vs;
  }

  /** `parse_enum`. */
  method ParseEnum(item: ItemEnum, file: string, issues: seq<SkipIssue>)
    returns (en: ExtractEnum, issues': seq<SkipIssue>)
    ensures en == EnumOf(item, file)
    ensures issues' == issues + EnumIssues(item, file)
  {
    var typeParams, variants;
    typeParams, issues' := ParseTypeParams(item.generics, file, "Enum", item.ident, issues);
    variants, issues' := ParseVariants(item.variants, file, issues');
    AppendAssoc(issues, GenericIssues(item.generics, file, "Enum", item.ident), PayloadIssues(item.variants, file));
    en := ExtractEnum(item.ident, typeParams, variants);
  }

  /**
    An enum lists every variant name in order, payload or not, and raises
    exactly one "enum" issue per payload-carrying variant (naming it) and none
    for a unit variant.
   */
  lemma {:induction false} VariantsAccounted(vs: seq<Variant>, file: string)
    ensures |VariantNames(vs)| == |vs|
    ensures forall i :: 0 <= i < |vs| ==> VariantNames(vs)[i] == vs[i].ident
    ensures |PayloadIssues(vs, file)| == CountWhere(vs, HasPayload)
    ensures forall k :: 0 <= k < |PayloadIssues(vs, file)| ==>
      PayloadIssues(vs, file)[k].kind == EnumKind && PayloadIssues(vs, file)[k].file == file
      && exists i :: 0 <= i < |vs| && HasPayload(vs[i]) && PayloadIssues(vs, file)[k].snippet == vs[i].ident
  {
    if vs == [] {
      CountWhereEmpty(HasPayload);
    } else {
      var init, last := vs[..|vs| - 1], vs[|vs| - 1];
      SplitLast(vs);
      CountWhereSnoc(init, last, HasPayload);
      VariantsAccounted(init, file);
      var r := PayloadIssues(vs, file);
      forall k | 0 <= k < |r|
        ensures exists i :: 0 <= i < |vs| && HasPayload(vs[i]) && r[k].snippet == vs[i].ident
      {
        if k < |PayloadIssues(init, file)| {
          var i :| 0 <= i < |init| && HasPayload(init[i]) && PayloadIssues(init, file)[k].snippet == init[i].ident;
          assert vs[i] == init[i];
        } else {
          assert vs[|vs| - 1] == last;
        }
      }
    }
  }

  lemma EnumContract(e: ItemEnum, file: string)
    ensures EnumOf(e, file).variants == VariantNames(e.variants)
    ensures |EnumOf(e, file).variants| == |e.variants|
    ensures CountKind(EnumIssues(e, file), EnumKind) == CountWhere(e.variants, HasPayload)
    ensures CountKind(EnumIssues(e, file), GenericKind) == CountWhere(e.generics, IsUnsupportedGeneric)
  {
    var gi, pi := GenericIssues(e.generics, file, "Enum", e.ident), PayloadIssues(e.variants, file);
    TypeParamsAccounted(e.generics, file, "Enum", e.ident);
    VariantsAccounted(e.variants, file);
    CountKindAppend(gi, pi, EnumKind);
    CountKindAppend(gi, pi, GenericKind);
    CountKindAbsent(gi, EnumKind);
    CountKindAbsent(pi, GenericKind);
    CountKindAll(gi, GenericKind);
    CountKindAll(pi, EnumKind);
  }

  // ------------------------------------------------------------ traits

  predicate NoDup<T(==)>(s: seq<T>) {
    forall i, j :: 0 <= i < j < |s| ==> s[i] != s[j]
  }

  predicate IsTraitFn(ti: TraitItem) { ti.TraitFn? }

  predicate IsTraitOther(ti: TraitItem) { ti.TraitOther? }

  /** What the member loop of `parse_trait` has built so far. */
  datatype TraitAcc = TraitAcc(typeParams: seq<string>, methods: seq<ExtractFunction>, issues: seq<SkipIssue>)

  function TraitMemberIssue(text: string, file: string): SkipIssue {
    SkipIssue(file, TraitKind, text, TraitMemberReason)
  }

  /** One trait member: a method is appended, an associated type is added unless present, anything else is reported. */
  function TraitStep(acc: TraitAcc, ti: TraitItem, file: string): TraitAcc {
    match ti
    case TraitFn(sig) => acc.(methods := acc.methods + [SignatureOf(sig, file)], issues := acc.issues + SignatureIssues(sig, file))
    case TraitType(a) => if a in acc.typeParams then acc else acc.(typeParams := acc.typeParams + [a])
    case TraitOther(text) => acc.(issues := acc.issues + [TraitMemberIssue(text, file)])
  }

  /** A member step appends the signature of a method, and nothing for any other member. */
  lemma TraitStepMethods(acc: TraitAcc, ti: TraitItem, file: string)
    ensures TraitStep(acc, ti, file).methods == acc.methods + (if ti.TraitFn? then [SignatureOf(ti.sig, file)] else [])
  {
  }

  function TraitMembers(init: TraitAcc, items: seq<TraitItem>, file: string): TraitAcc {
    if items == [] then init
    else TraitStep(TraitMembers(init, items[..|items| - 1], file), items[|items| - 1], file)
  }

  /** The trait's methods follow declaration order: the `i`-th item, a method, lands after the methods before it. */
  lemma TraitMethodsInOrder(init: TraitAcc, items: seq<TraitItem>, file: string, i: int)
    requires 0 <= i < |items| && items[i].TraitFn?
    ensures var k := |init.methods| + CountWhere(items[..i], IsTraitFn);
      k < |TraitMembers(init, items, file).methods| && TraitMembers(init, items, file).methods[k] == SignatureOf(items[i].sig, file)
  {
    TraitMembersMethods(init, items, file);
    TraitFnSigsInOrder(items, file, i);
  }

  /** The signatures of the method members, in member order. */
  function TraitFnSigs(items: seq<TraitItem>, file: string): seq<ExtractFunction> {
    if items == [] then []
    else
      var last := items[|items| - 1];
      TraitFnSigs(items[..|items| - 1], file) + (if last.TraitFn? then [SignatureOf(last.sig, file)] else [])
  }

  /** The member loop appends exactly the method signatures, in order, to the methods it starts from. */
  lemma {:induction false} TraitMembersMethods(init: TraitAcc, items: seq<TraitItem>, file: string)
    ensures TraitMembers(init, items, file).methods == init.methods + TraitFnSigs(items, file)
  {
    if items != [] {
      var pre, last := items[..|items| - 1], items[|items| - 1];
      TraitMembersMethods(init, pre, file);
      TraitStepMethods(TraitMembers(init, pre, file), last, file);
      AppendAssoc(init.methods, TraitFnSigs(pre, file), if last.TraitFn? then [SignatureOf(last.sig, file)] else []);
    }
  }

  /** One signature per method member, and the `i`-th member's lands after those of the methods before it. */
  lemma {:induction false} TraitFnSigsInOrder(items: seq<TraitItem>, file: string, i: int)
    requires 0 <= i < |items| && items[i].TraitFn?
    ensures |TraitFnSigs(items, file)| == CountWhere(items, IsTraitFn)
    ensures var k := CountWhere(items[..i], IsTraitFn);
      k < |TraitFnSigs(items, file)| && TraitFnSigs(items, file)[k] == SignatureOf(items[i].sig, file)
    decreases |items|
  {
    var pre, last := items[..|items| - 1], items[|items| - 1];
    SplitLast(items);
    CountWhereSnoc(pre, last, IsTraitFn);
    if i < |pre| {
      assert items[..i] == pre[..i] && items[i] == pre[i];
      TraitFnSigsInOrder(pre, file, i);
    } else {
      assert items[..i] == pre;
      TraitFnSigsCount(pre, file);
    }
  }

  lemma {:induction false} TraitFnSigsCount(items: seq<TraitItem>, file: string)
    ensures |TraitFnSigs(items, file)| == CountWhere(items, IsTraitFn)
  {
    if items == [] {
      CountWhereEmpty(IsTraitFn);
    } else {
      var pre, last := items[..|items| - 1], items[|items| - 1];
      SplitLast(items);
      CountWhereSnoc(pre, last, IsTraitFn);
      TraitFnSigsCount(pre, file);
    }
  }

  /** Supertrait bounds as whitespace-normalised text, in bound order. */
  function SuperTraitTexts(bounds: seq<string>): seq<string> {
    seq(|bounds|, i requires 0 <= i < |bounds| => NormalizeWs(bounds[i]))
  }

  /** One text per bound, each normalised, spelling the same visible characters and splitting into the same words as its bound. */
  lemma SuperTraitTextsNormalized(bounds: seq<string>)
    ensures var r := SuperTraitTexts(bounds);
      && |r| == |bounds|
      && forall i :: 0 <= i < |r| ==> Normalized(r[i]) && Visible(r[i]) == Visible(bounds[i]) && Words(r[i]) == Words(bounds[i])
  {
  }

  function TraitInit(t: ItemTrait): TraitAcc {
    TraitAcc(TypeParamNames(t.generics), [], [])
  }

  function TraitOf(t: ItemTrait, file: string): ExtractTrait {
    var acc := TraitMembers(TraitInit(t), t.items, file);
    ExtractTrait(t.ident, acc.typeParams, SuperTraitTexts(t.supertraits), acc.methods)
  }

  function TraitIssues(t: ItemTrait, file: string): seq<SkipIssue> {
    GenericIssues(t.generics, file, "Trait", t.ident) + TraitMembers(TraitInit(t), t.items, file).issues
  }

  /** The member loop of `parse_trait`. */
  method ParseTraitMembers(items: seq<TraitItem>, file: string, typeParams0: seq<string>, issues: seq<SkipIssue>)
    returns (typeParams: seq<string>, methods: seq<ExtractFunction>, issues': seq<SkipIssue>)
    ensures var acc := TraitMembers(TraitAcc(typeParams0, [], []), items, file);
      typeParams == acc.typeParams && methods == acc.methods && issues' == issues + acc.issues
  {
    ghost var init := TraitAcc(typeParams0, [], []);
    typeParams, methods, issues' := typeParams0, [], issues;
    for i := 0 to |items|
      invariant var acc := TraitMembers(init, items[..i], file);
        typeParams == acc.typeParams && methods == acc.methods && issues' == issues + acc.issues
    {
      assert items[..i + 1][..i] == items[..i];
      ghost var acc := TraitMembers(init, items[..i], file);
      match items[i] {
        case TraitFn(sig) =>
          var m;
          AppendAssoc(issues, acc.issues, SignatureIssues(sig, file));
          m, issues' := ParseSignature(sig, file, issues');
          methods := methods + [m];
        case TraitType(assoc) =>
          if assoc !in typeParams {
            typeParams := typeParams + [assoc];
          }
        case TraitOther(text) =>
          AppendAssoc(issues, acc.issues, [TraitMemberIssue(text, file)]);
          issues' := issues' + [SkipIssue(file, TraitKind, text, TraitMemberReason)];
      }
    }
    assert items[..|items|] == items;
  }

  /** `parse_trait`. */
  method ParseTrait(item: ItemTrait, file: string, issues: seq<SkipIssue>)
    returns (tr: ExtractTrait, issues': seq<SkipIssue>)
    ensures tr == TraitOf(item, file)
    ensures issues' == issues + TraitIssues(item, file)
  {
    var typeParams, methods;
    typeParams, issues' := ParseTypeParams(item.generics, file, "Trait", item.ident, issues);
    typeParams, methods, issues' := ParseTraitMembers(item.items, file, typeParams, issues');
    AppendAssoc(issues, GenericIssues(item.generics, file, "Trait", item.ident), TraitMembers(TraitInit(item), item.items, file).issues);
    var superTraits := SuperTraitTexts(item.supertraits);
    tr := ExtractTrait(item.ident, typeParams, superTraits, methods);
  }

  /**
    The type-parameter list only grows, by associated-type names that were
    absent: every associated type ends up in it, nothing else enters it, and
    no duplicate is ever created.
   */
  lemma {:induction false} TraitTypeParams(init: TraitAcc, items: seq<TraitItem>, file: string)
    ensures var tp := TraitMembers(init, items, file).typeParams;
      && |init.typeParams| <= |tp| && tp[..|init.typeParams|] == init.typeParams
      && (forall i :: 0 <= i < |items| && items[i].TraitType? ==> items[i].ident in tp)
      && (forall x :: x in tp ==> x in init.typeParams || TraitType(x) in items)
      && (NoDup(init.typeParams) ==> NoDup(tp))
  {
    if items != [] {
      var pre, last := items[..|items| - 1], items[|items| - 1];
      SplitLast(items);
      TraitTypeParams(init, pre, file);
      var tp := TraitMembers(init, items, file).typeParams;
      forall i | 0 <= i < |items| && items[i].TraitType? ensures items[i].ident in tp {
        if i < |pre| {
          assert items[i] == pre[i];
        }
      }
    }
  }

  /** Methods are appended in order, one per method member; each other non-type member gives one "trait" issue. */
  lemma {:induction false} TraitMethodsKept(init: TraitAcc, items: seq<TraitItem>, file: string)
    ensures var acc := TraitMembers(init, items, file);
      && |acc.methods| == |init.methods| + CountWhere(items, IsTraitFn)
      && acc.methods[..|init.methods|] == init.methods
      && (forall i :: 0 <= i < |items| && items[i].TraitFn? ==> SignatureOf(items[i].sig, file) in acc.methods)
  {
    if items == [] {
      CountWhereEmpty(IsTraitFn);
    } else {
      var pre, last := items[..|items| - 1], items[|items| - 1];
      SplitLast(items);
      TraitMethodsKept(init, pre, file);
      CountWhereSnoc(pre, last, IsTraitFn);
      var before := TraitMembers(init, pre, file);
      var acc := TraitMembers(init, items, file);
      assert acc.methods == before.methods + (if last.TraitFn? then [SignatureOf(last.sig, file)] else []);
      forall i | 0 <= i < |items| && items[i].TraitFn? ensures SignatureOf(items[i].sig, file) in acc.methods {
        if i < |pre| {
          assert items[i] == pre[i];
        }
      }
    }
  }

  lemma {:induction false} TraitOthersReported(init: TraitAcc, items: seq<TraitItem>, file: string)
    ensures CountKind(TraitMembers(init, items, file).issues, TraitKind)
         == CountKind(init.issues, TraitKind) + CountWhere(items, IsTraitOther)
  {
    if items == [] {
      CountWhereEmpty(IsTraitOther);
    } else {
      var pre, last := items[..|items| - 1], items[|items| - 1];
      SplitLast(items);
      TraitOthersReported(init, pre, file);
      CountWhereSnoc(pre, last, IsTraitOther);
      var before := TraitMembers(init, pre, file);
      match last {
        case TraitFn(sig) =>
          SignatureIssueKinds(sig, file);
          CountKindAppend(before.issues, SignatureIssues(sig, file), TraitKind);
          CountKindAbsent(SignatureIssues(sig, file), TraitKind);
        case TraitType(_) =>
        case TraitOther(text) =>
          CountKindAppend(before.issues, [TraitMemberIssue(text, file)], TraitKind);
          assert [TraitMemberIssue(text, file)][..0] == [];
      }
    }
  }

  /**
    `parse_trait` as a whole: with duplicate-free generics, each associated
    type's name appears exactly once among the type parameters; every method
    member becomes a method; supertraits are normalised text in bound order.
   */
  lemma TraitContract(t: ItemTrait, file: string)
    ensures NoDup(TypeParamNames(t.generics)) ==> NoDup(TraitOf(t, file).typeParams)
    ensures forall i :: 0 <= i < |t.items| && t.items[i].TraitType? ==> t.items[i].ident in TraitOf(t, file).typeParams
    ensures |TraitOf(t, file).methods| == CountWhere(t.items, IsTraitFn)
    ensures forall i :: 0 <= i < |t.items| && t.items[i].TraitFn? ==> SignatureOf(t.items[i].sig, file) in TraitOf(t, file).methods
    ensures CountKind(TraitIssues(t, file), TraitKind) == CountWhere(t.items, IsTraitOther)
    ensures |TraitOf(t, file).superTraits| == |t.supertraits|
  {
    TraitTypeParams(TraitInit(t), t.items, file);
    TraitMethodsKept(TraitInit(t), t.items, file);
    TraitOthersReported(TraitInit(t), t.items, file);
    var gi := GenericIssues(t.generics, file, "Trait", t.ident);
    TypeParamsAccounted(t.generics, file, "Trait", t.ident);
    CountKindAppend(gi, TraitMembers(TraitInit(t), t.items, file).issues, TraitKind);
    CountKindAbsent(gi, TraitKind);
  }

  // ------------------------------------------------------------ impls

  predicate IsPublicFn(ii: ImplItem) {
    ii.ImplFn? && IsPublic(ii.vis)
  }

  /** The last path segment of a path type; none for any other type. */
  function ImplTarget(ty: Type): Option<string> {
    if ty.PathType? && ty.segments != [] then Some(ty.segments[|ty.segments| - 1]) else None
  }

  /** The public methods of an impl block, in order. */
  function ImplMethods(items: seq<ImplItem>, file: string): seq<ExtractFunction> {
    if items == [] then []
    else
      var last := items[|items| - 1];
      ImplMethods(items[..|items| - 1], file) + (if IsPublicFn(last) then [SignatureOf(last.sig, file)] else [])
  }

  /** The public methods follow declaration order: the `j`-th item, a public method, lands after those before it. */
  lemma {:induction false} ImplMethodsInOrder(items: seq<ImplItem>, file: string)
    ensures forall j :: 0 <= j < |items| && IsPublicFn(items[j]) ==>
      var k := CountWhere(items[..j], IsPublicFn);
      k < |ImplMethods(items, file)| && ImplMethods(items, file)[k] == SignatureOf(items[j].sig, file)
  {
    if items != [] {
      var pre, last := items[..|items| - 1], items[|items| - 1];
      SplitLast(items);
      ImplMethodsInOrder(pre, file);
      ImplMethodsAccounted(pre, file);
      forall j | 0 <= j < |items| && IsPublicFn(items[j])
        ensures var k := CountWhere(items[..j], IsPublicFn); k < |ImplMethods(items, file)| && ImplMethods(items, file)[k] == SignatureOf(items[j].sig, file)
      {
        if j < |pre| {
          assert items[..j] == pre[..j] && items[j] == pre[j];
        } else {
          assert items[..j] == pre;
        }
      }
    }
  }

  function ImplMethodIssues(items: seq<ImplItem>, file: string): seq<SkipIssue> {
    if items == [] then []
    else
      var last := items[|items| - 1];
      ImplMethodIssues(items[..|items| - 1], file) + (if IsPublicFn(last) then SignatureIssues(last.sig, file) else [])
  }

  function ImplTargetIssue(ty: Type, file: string): SkipIssue {
    SkipIssue(file, ImplKind, ty.text, ImplTargetReason)
  }

  function ImplOf(i: ItemImpl, file: string): Option<PendingMethods> {
    if i.traitPath.Some? then None
    else
      match ImplTarget(i.selfTy)
      case None => None
      case Some(target) =>
        var ms := ImplMethods(i.items, file);
        if ms == [] then None else Some(PendingMethods(target, ms))
  }

  function ImplIssues(i: ItemImpl, file: string): seq<SkipIssue> {
    if i.traitPath.Some? then []
    else if ImplTarget(i.selfTy).None? then [ImplTargetIssue(i.selfTy, file)]
    else ImplMethodIssues(i.items, file)
  }

  /** The method loop of `parse_impl`. */
  method ParseImplMethods(items: seq<ImplItem>, file: string, issues: seq<SkipIssue>)
    returns (methods: seq<ExtractFunction>, issues': seq<SkipIssue>)
    ensures methods == ImplMethods(items, file)
    ensures issues' == issues + ImplMethodIssues(items, file)
  {
    methods, issues' := [], issues;
    for i := 0 to |items|
      invariant methods == ImplMethods(items[..i], file)
      invariant issues' == issues + ImplMethodIssues(items[..i], file)
    {
      assert items[..i + 1][..i] == items[..i];
      if items[i].ImplFn? {
        if !IsPublic(items[i].vis) {
          continue;
        }
        var m;
        AppendAssoc(issues, ImplMethodIssues(items[..i], file), SignatureIssues(items[i].sig, file));
        m, issues' := ParseSignature(items[i].sig, file, issues');
        methods := methods + [m];
      }
    }
    assert items[..|items|] == items;
  }

  /** `parse_impl`. */
  method ParseImpl(item: ItemImpl, file: string, issues: seq<SkipIssue>)
    returns (pending: Option<PendingMethods>, issues': seq<SkipIssue>)
    ensures pending == ImplOf(item, file)
    ensures issues' == issues + ImplIssues(item, file)
  {
    if item.traitPath.Some? {
      return None, issues;
    }
    var target := if item.selfTy.PathType? && item.selfTy.segments != []
      then Some(item.selfTy.segments[|item.selfTy.segments| - 1]) else None;
    if target.None? {
      issues' := issues + [SkipIssue(file, ImplKind, item.selfTy.text, ImplTargetReason)];
      return None, issues';
    }
    var methods;
    methods, issues' := ParseImplMethods(item.items, file, issues);
    if methods == [] {
      return None, issues';
    }
    pending := Some(PendingMethods(target.value, methods));
  }

  lemma {:induction false} ImplMethodsAccounted(items: seq<ImplItem>, file: string)
    ensures |ImplMethods(items, file)| == CountWhere(items, IsPublicFn)
    ensures forall j :: 0 <= j < |items| && IsPublicFn(items[j]) ==> SignatureOf(items[j].sig, file) in ImplMethods(items, file)
    ensures CountWhere(items, IsPublicFn) == 0 ==> ImplMethodIssues(items, file) == []
  {
    if items == [] {
      CountWhereEmpty(IsPublicFn);
    } else {
      var pre, last := items[..|items| - 1], items[|items| - 1];
      SplitLast(items);
      CountWhereSnoc(pre, last, IsPublicFn);
      ImplMethodsAccounted(pre, file);
      forall j | 0 <= j < |items| && IsPublicFn(items[j])
        ensures SignatureOf(items[j].sig, file) in ImplMethods(items, file)
      {
        if j < |pre| {
          assert items[j] == pre[j];
        }
      }
    }
  }

  /**
    A trait impl contributes nothing and reports nothing; a non-path self type
    gives exactly one "impl" issue and no entry; an impl with no public method
    gives no entry (never an empty one); otherwise the entry targets the last
    path segment and holds every public method.
   */
  lemma ImplContract(i: ItemImpl, file: string)
    ensures i.traitPath.Some? ==> ImplOf(i, file) == None && ImplIssues(i, file) == []
    ensures i.traitPath.None? && ImplTarget(i.selfTy).None? ==>
      ImplOf(i, file) == None && |ImplIssues(i, file)| == 1 && ImplIssues(i, file)[0].kind == ImplKind
    ensures ImplOf(i, file).Some? <==>
      i.traitPath.None? && ImplTarget(i.selfTy).Some? && CountWhere(i.items, IsPublicFn) > 0
    ensures ImplOf(i, file).None? && i.traitPath.None? && ImplTarget(i.selfTy).Some? ==> ImplIssues(i, file) == []
    ensures ImplOf(i, file).Some? ==>
      && ImplOf(i, file).value.target == i.selfTy.segments[|i.selfTy.segments| - 1]
      && |ImplOf(i, file).value.methods| == CountWhere(i.items, IsPublicFn)
      && forall j :: 0 <= j < |i.items| && IsPublicFn(i.items[j]) ==>
           SignatureOf(i.items[j].sig, file) in ImplOf(i, file).value.methods
  {
    ImplMethodsAccounted(i.items, file);
  }

  // ------------------------------------------------------------ issue labels

  /** Every issue names `file` and has one of the given kinds. */
  predicate IssuesOf(issues: seq<SkipIssue>, file: string, kinds: set<string>) {
    forall k :: 0 <= k < |issues| ==> issues[k].file == file && issues[k].kind in kinds
  }

  lemma IssuesOfAppend(a: seq<SkipIssue>, b: seq<SkipIssue>, file: string, kinds: set<string>)
    requires IssuesOf(a, file, kinds) && IssuesOf(b, file, kinds)
    ensures IssuesOf(a + b, file, kinds)
  {
    forall k | 0 <= k < |a + b| ensures (a + b)[k].file == file && (a + b)[k].kind in kinds {
      if k >= |a| {
        assert (a + b)[k] == b[k - |a|];
      }
    }
  }

  lemma IssuesOfWiden(a: seq<SkipIssue>, file: string, kinds: set<string>, wider: set<string>)
    requires IssuesOf(a, file, kinds) && kinds <= wider
    ensures IssuesOf(a, file, wider)
  {
  }

  /** The issues of a struct are "generic" or "struct" issues labelled with the struct's file. */
  lemma StructIssueLabels(s: ItemStruct, file: string)
    ensures IssuesOf(StructIssues(s, file), file, {GenericKind, StructKind})
  {
    TypeParamsAccounted(s.generics, file, "Struct", s.ident);
    var gi := GenericIssues(s.generics, file, "Struct", s.ident);
    IssuesOfWiden(gi, file, {GenericKind}, {GenericKind, StructKind});
    IssuesOfAppend(gi, if s.fields.Unnamed? then [TupleStructIssue(s, file)] else [], file, {GenericKind, StructKind});
  }

  lemma EnumIssueLabels(e: ItemEnum, file: string)
    ensures IssuesOf(EnumIssues(e, file), file, {GenericKind, EnumKind})
  {
    TypeParamsAccounted(e.generics, file, "Enum", e.ident);
    VariantsAccounted(e.variants, file);
    IssuesOfAppend(GenericIssues(e.generics, file, "Enum", e.ident), PayloadIssues(e.variants, file), file, {GenericKind, EnumKind});
  }

  lemma SignatureIssueLabels(sig: Signature, file: string, kinds: set<string>)
    requires {GenericKind, ParamKind} <= kinds
    ensures IssuesOf(SignatureIssues(sig, file), file, kinds)
  {
    SignatureIssueKinds(sig, file);
  }

  lemma {:induction false} TraitMemberIssueLabels(init: TraitAcc, items: seq<TraitItem>, file: string)
    requires IssuesOf(init.issues, file, {GenericKind, ParamKind, TraitKind})
    ensures IssuesOf(TraitMembers(init, items, file).issues, file, {GenericKind, ParamKind, TraitKind})
  {
    if items != [] {
      var before := TraitMembers(init, items[..|items| - 1], file);
      TraitMemberIssueLabels(init, items[..|items| - 1], file);
      match items[|items| - 1] {
        case TraitFn(sig) =>
          SignatureIssueLabels(sig, file, {GenericKind, ParamKind, TraitKind});
          IssuesOfAppend(before.issues, SignatureIssues(sig, file), file, {GenericKind, ParamKind, TraitKind});
        case TraitType(_) =>
        case TraitOther(text) =>
          IssuesOfAppend(before.issues, [TraitMemberIssue(text, file)], file, {GenericKind, ParamKind, TraitKind});
      }
    }
  }

  lemma TraitIssueLabels(t: ItemTrait, file: string)
    ensures IssuesOf(TraitIssues(t, file), file, {GenericKind, ParamKind, TraitKind})
  {
    TypeParamsAccounted(t.generics, file, "Trait", t.ident);
    TraitMemberIssueLabels(TraitInit(t), t.items, file);
    IssuesOfAppend(GenericIssues(t.generics, file, "Trait", t.ident), TraitMembers(TraitInit(t), t.items, file).issues,
      file, {GenericKind, ParamKind, TraitKind});
  }

  lemma {:induction false} ImplMethodIssueLabels(items: seq<ImplItem>, file: string)
    ensures IssuesOf(ImplMethodIssues(items, file), file, {GenericKind, ParamKind, ImplKind})
  {
    if items != [] {
      var last := items[|items| - 1];
      ImplMethodIssueLabels(items[..|items| - 1], file);
      if IsPublicFn(last) {
        SignatureIssueLabels(last.sig, file, {GenericKind, ParamKind, ImplKind});
        IssuesOfAppend(ImplMethodIssues(items[..|items| - 1], file), SignatureIssues(last.sig, file),
          file, {GenericKind, ParamKind, ImplKind});
      }
    }
  }

  lemma ImplIssueLabels(i: ItemImpl, file: string)
    ensures IssuesOf(ImplIssues(i, file), file, {GenericKind, ParamKind, ImplKind})
  {
    ImplMethodIssueLabels(i.items, file);
  }
}
