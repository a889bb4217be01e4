/**
  The module walk of the extractor: one `ExtractModule` record per module of
  a crate, built by folding the item classifiers over the module's items,
  recursing into public child modules (inline or in their own file), visiting
  each canonical file at most once, and finally ordering all records by
  module path.

  The file system is a map from canonical path to what reading that file
  yields; a path absent from the map does not exist.
 */
module Walker {
  import opened Wrappers
  import opened Syntax
  import opened Records
  import opened Text
  import opened Ordering
  import opened Paths
  import opened Classify

  /** What reading and parsing one existing file gives. */
  datatype Source =
    | Parsed(items: seq<Item>)
    | Unreadable(osError: string)
    | Unparseable(parseError: string)

  type FileSystem = map<Path, Source>

  /** The operating system's message for a missing file, as `canonicalize` reports it. */
  const NotFoundText := "No such file or directory (os error 2)"

  const UnitOk: Result<(), string> := Ok(())

  // ------------------------------------------------------------ one module's record

  function EmptyModule(file: string, parts: seq<string>): ExtractModule {
    ExtractModule(file, parts, [], [], [], [], [], [], [])
  }

  function UnnamedMacroIssue(m: ItemMacro, file: string): SkipIssue {
    SkipIssue(file, MacroKind, m.text, UnnamedMacroReason)
  }

  /** What one item adds to its module's record. Child modules add nothing here: they get records of their own. */
  function ClassifyItem(m: ExtractModule, it: Item, file: string): ExtractModule {
    match it
    case Const(c) =>
      if IsPublic(c.vis) then m.(consts := m.consts + [ParseConst(c)]) else m
    case Fn(f) =>
      if IsPublic(f.vis)
      then m.(functions := m.functions + [SignatureOf(f.sig, file)], issues := m.issues + SignatureIssues(f.sig, file))
      else m
    case Struct(s) =>
      if IsPublic(s.vis)
      then m.(structs := m.structs + [StructOf(s, file)], issues := m.issues + StructIssues(s, file))
      else m
    case Enum(e) =>
      if IsPublic(e.vis)
      then m.(enums := m.enums + [EnumOf(e, file)], issues := m.issues + EnumIssues(e, file))
      else m
    case Trait(t) =>
      if IsPublic(t.vis)
      then m.(traits := m.traits + [TraitOf(t, file)], issues := m.issues + TraitIssues(t, file))
      else m
    case Impl(i) =>
      var p := ImplOf(i, file);
      m.(pendingMethods := m.pendingMethods + (if p.Some? then [p.value] else []),
         issues := m.issues + ImplIssues(i, file))
    case Macro(mac) =>
      if !HasMacroExport(mac.attrs) then m
      else if mac.ident.Some? then m.(functions := m.functions + [MacroStub(mac.ident.value)])
      else m.(issues := m.issues + [UnnamedMacroIssue(mac, file)])
    case Mod(_, _, _) => m
    case OtherItem => m
  }

  function FoldItems(m: ExtractModule, items: seq<Item>, file: string): ExtractModule {
    if items == [] then m
    else ClassifyItem(FoldItems(m, items[..|items| - 1], file), items[|items| - 1], file)
  }

  function ModuleBody(file: string, parts: seq<string>, items: seq<Item>): ExtractModule {
    FoldItems(EmptyModule(file, parts), items, file)
  }

  /** `r` is `m` with items appended: same file and parts, every list of `m` a prefix of the one in `r`. */
  predicate RecordExtends(m: ExtractModule, r: ExtractModule) {
    && r.file == m.file && r.parts == m.parts
    && m.consts <= r.consts && m.enums <= r.enums && m.structs <= r.structs && m.traits <= r.traits
    && m.functions <= r.functions && m.pendingMethods <= r.pendingMethods && m.issues <= r.issues
  }

  /** Classifying items only appends to the record: nothing is renamed, replaced or removed. */
  lemma {:induction false} FoldExtends(m: ExtractModule, items: seq<Item>, file: string)
    ensures RecordExtends(m, FoldItems(m, items, file))
  {
    if items != [] {
      var pre := FoldItems(m, items[..|items| - 1], file);
      FoldExtends(m, items[..|items| - 1], file);
      StepExtends(pre, items[|items| - 1], file);
    }
  }

  lemma StepExtends(m: ExtractModule, it: Item, file: string)
    ensures RecordExtends(m, ClassifyItem(m, it, file))
  {
  }

  /**
    A `macro_rules!` item: without `#[macro_export]` it changes nothing; with
    it, a named macro adds one stub function named after it and no issue, and
    an unnamed one adds one "macro" issue naming the file and no function.
   */
  lemma MacroItemClassified(m: ExtractModule, mac: ItemMacro, file: string)
    ensures var r := ClassifyItem(m, Macro(mac), file);
      && r.(functions := m.functions, issues := m.issues) == m
      && (Attribute(["macro_export"]) !in mac.attrs ==> r == m)
      && (Attribute(["macro_export"]) in mac.attrs && mac.ident.Some? ==>
            r.functions == m.functions + [MacroStub(mac.ident.value)] && r.issues == m.issues)
      && (Attribute(["macro_export"]) in mac.attrs && mac.ident.None? ==>
            r.functions == m.functions && |r.issues| == |m.issues| + 1
            && r.issues[|m.issues|].kind == MacroKind && r.issues[|m.issues|].file == file)
  {
  }

  function PendingKey(p: PendingMethods): seq<string> {
    [p.target]
  }

  /** The record `collect_module_items` pushes: the body with its impl entries sorted by target. */
  function ModuleRecord(file: string, parts: seq<string>, items: seq<Item>): ExtractModule {
    var body := ModuleBody(file, parts, items);
    body.(pendingMethods := SortByKey(body.pendingMethods, PendingKey))
  }

  /** The impl entries of a module in item order: one per inherent impl block with a public method. */
  function ImplEntries(items: seq<Item>, file: string): seq<PendingMethods> {
    if items == [] then []
    else
      var last := items[|items| - 1];
      ImplEntries(items[..|items| - 1], file)
        + (if last.Impl? && ImplOf(last.i, file).Some? then [ImplOf(last.i, file).value] else [])
  }

  /** The leaf cases of the loop of `collect_module_items`: every item but a public `mod`. */
  method ClassifyLeaf(m: ExtractModule, it: Item, file: string) returns (m': ExtractModule)
    requires !(it.Mod? && IsPublic(it.vis))
    ensures m' == ClassifyItem(m, it, file)
  {
    m' := m;
    match it {
      case Const(c) =>
        if IsPublic(c.vis) {
          m' := m'.(consts := m'.consts + [ParseConst(c)]);
        }
      case Fn(f) =>
        if IsPublic(f.vis) {
          var fn, issues := ParseSignature(f.sig, file, m'.issues);
          m' := m'.(functions := m'.functions + [fn], issues := issues);
        }
      case Struct(s) =>
        if IsPublic(s.vis) {
          var st, issues := ParseStruct(s, file, m'.issues);
          m' := m'.(structs := m'.structs + [st], issues := issues);
        }
      case Enum(e) =>
        if IsPublic(e.vis) {
          var en, issues := ParseEnum(e, file, m'.issues);
          m' := m'.(enums := m'.enums + [en], issues := issues);
        }
      case Trait(t) =>
        if IsPublic(t.vis) {
          var tr, issues := ParseTrait(t, file, m'.issues);
          m' := m'.(traits := m'.traits + [tr], issues := issues);
        }
      case Impl(i) =>
        var pending, issues := ParseImpl(i, file, m'.issues);
        m' := m'.(issues := issues);
        if pending.Some? {
          m' := m'.(pendingMethods := m'.pendingMethods + [pending.value]);
        }
      case Macro(mac) =>
        if HasMacroExport(mac.attrs) {
          if mac.ident.Some? {
            m' := m'.(functions := m'.functions + [MacroStub(mac.ident.value)]);
          } else {
            m' := m'.(issues := m'.issues + [SkipIssue(file, MacroKind, mac.text, UnnamedMacroReason)]);
          }
        }
      case Mod(_, _, _) =>
      case OtherItem =>
    }
  }

  // ------------------------------------------------------------ what a record holds

  predicate IsPublicConst(it: Item) { it.Const? && IsPublic(it.c.vis) }

  predicate IsPublicFnItem(it: Item) { it.Fn? && IsPublic(it.f.vis) }

  predicate IsPublicStruct(it: Item) { it.Struct? && IsPublic(it.s.vis) }

  predicate IsPublicEnum(it: Item) { it.Enum? && IsPublic(it.e.vis) }

  predicate IsPublicTrait(it: Item) { it.Trait? && IsPublic(it.t.vis) }

  predicate IsNamedExport(it: Item) { it.Macro? && HasMacroExport(it.m.attrs) && it.m.ident.Some? }

  predicate IsUnnamedExport(it: Item) { it.Macro? && HasMacroExport(it.m.attrs) && it.m.ident.None? }

  /** Items that leave a module's record unchanged: private declarations, `mod` items, unexported macros, anything else unsupported. */
  predicate Inert(it: Item) {
    match it
    case Const(c) => !IsPublic(c.vis)
    case Fn(f) => !IsPublic(f.vis)
    case Struct(s) => !IsPublic(s.vis)
    case Enum(e) => !IsPublic(e.vis)
    case Trait(t) => !IsPublic(t.vis)
    case Impl(_) => false
    case Macro(mac) => !HasMacroExport(mac.attrs)
    case Mod(_, _, _) => true
    case OtherItem => true
  }

  const AllKinds := {GenericKind, ParamKind, StructKind, EnumKind, TraitKind, ImplKind, MacroKind}

  /**
    One record entry per public declaration of each kind, one function per
    public `fn` and per named exported macro, counted against the items.
   */
  lemma {:induction false} FoldCounts(m: ExtractModule, items: seq<Item>, file: string)
    ensures var r := FoldItems(m, items, file);
      && |r.consts| == |m.consts| + CountWhere(items, IsPublicConst)
      && |r.structs| == |m.structs| + CountWhere(items, IsPublicStruct)
      && |r.enums| == |m.enums| + CountWhere(items, IsPublicEnum)
      && |r.traits| == |m.traits| + CountWhere(items, IsPublicTrait)
      && |r.functions| == |m.functions| + CountWhere(items, IsPublicFnItem) + CountWhere(items, IsNamedExport)
  {
    if items == [] {
      CountWhereEmpty(IsPublicConst);
      CountWhereEmpty(IsPublicStruct);
      CountWhereEmpty(IsPublicEnum);
      CountWhereEmpty(IsPublicTrait);
      CountWhereEmpty(IsPublicFnItem);
      CountWhereEmpty(IsNamedExport);
    } else {
      var pre, last := items[..|items| - 1], items[|items| - 1];
      SplitLast(items);
      FoldCounts(m, pre, file);
      StepCounts(FoldItems(m, pre, file), last, file);
      CountWhereSnoc(pre, last, IsPublicConst);
      CountWhereSnoc(pre, last, IsPublicStruct);
      CountWhereSnoc(pre, last, IsPublicEnum);
      CountWhereSnoc(pre, last, IsPublicTrait);
      CountWhereSnoc(pre, last, IsPublicFnItem);
      CountWhereSnoc(pre, last, IsNamedExport);
    }
  }

  lemma StepCounts(m: ExtractModule, it: Item, file: string)
    ensures var r := ClassifyItem(m, it, file);
      && |r.consts| == |m.consts| + (if IsPublicConst(it) then 1 else 0)
      && |r.structs| == |m.structs| + (if IsPublicStruct(it) then 1 else 0)
      && |r.enums| == |m.enums| + (if IsPublicEnum(it) then 1 else 0)
      && |r.traits| == |m.traits| + (if IsPublicTrait(it) then 1 else 0)
      && |r.functions| == |m.functions| + (if IsPublicFnItem(it) then 1 else 0) + (if IsNamedExport(it) then 1 else 0)
  {
  }

  /** Impl entries are appended in item order, one per inherent impl block that has a public method. */
  lemma {:induction false} FoldPending(m: ExtractModule, items: seq<Item>, file: string)
    ensures FoldItems(m, items, file).pendingMethods == m.pendingMethods + ImplEntries(items, file)
  {
    if items != [] {
      FoldPending(m, items[..|items| - 1], file);
    }
  }

  /** The issues one item adds to its module's record. */
  function ItemIssues(it: Item, file: string): seq<SkipIssue> {
    match it
    case Fn(f) => if IsPublic(f.vis) then SignatureIssues(f.sig, file) else []
    case Struct(st) => if IsPublic(st.vis) then StructIssues(st, file) else []
    case Enum(e) => if IsPublic(e.vis) then EnumIssues(e, file) else []
    case Trait(t) => if IsPublic(t.vis) then TraitIssues(t, file) else []
    case Impl(i) => ImplIssues(i, file)
    case Macro(mac) => if HasMacroExport(mac.attrs) && mac.ident.None? then [UnnamedMacroIssue(mac, file)] else []
    case Const(_) => []
    case Mod(_, _, _) => []
    case OtherItem => []
  }

  lemma StepIssues(m: ExtractModule, it: Item, file: string)
    ensures ClassifyItem(m, it, file).issues == m.issues + ItemIssues(it, file)
    ensures IssuesOf(ItemIssues(it, file), file, AllKinds)
    ensures CountKind(ItemIssues(it, file), MacroKind) == if IsUnnamedExport(it) then 1 else 0
  {
    var added := ItemIssues(it, file);
    var kinds: set<string> := {};
    match it {
      case Fn(f) =>
        kinds := {GenericKind, ParamKind};
        SignatureIssueLabels(f.sig, file, kinds);
      case Struct(st) =>
        kinds := {GenericKind, StructKind};
        StructIssueLabels(st, file);
      case Enum(e) =>
        kinds := {GenericKind, EnumKind};
        EnumIssueLabels(e, file);
      case Trait(t) =>
        kinds := {GenericKind, ParamKind, TraitKind};
        TraitIssueLabels(t, file);
      case Impl(i) =>
        kinds := {GenericKind, ParamKind, ImplKind};
        ImplIssueLabels(i, file);
      case Macro(mac) =>
        kinds := {MacroKind};
        if HasMacroExport(mac.attrs) && mac.ident.None? {
          assert added[..0] == [];
        }
      case Const(_) =>
      case Mod(_, _, _) =>
      case OtherItem =>
    }
    IssuesOfWiden(added, file, kinds, AllKinds);
    if !IsUnnamedExport(it) {
      CountKindAbsent(added, MacroKind);
    }
  }

  /** Issues are only appended; each names the module's file; there is one "macro" issue per unnamed exported macro. */
  lemma {:induction false} FoldIssues(m: ExtractModule, items: seq<Item>, file: string)
    requires IssuesOf(m.issues, file, AllKinds)
    ensures var r := FoldItems(m, items, file);
      && Grows(m.issues, r.issues)
      && IssuesOf(r.issues, file, AllKinds)
      && CountKind(r.issues, MacroKind) == CountKind(m.issues, MacroKind) + CountWhere(items, IsUnnamedExport)
  {
    if items == [] {
      CountWhereEmpty(IsUnnamedExport);
    } else {
      var pre, last := items[..|items| - 1], items[|items| - 1];
      SplitLast(items);
      FoldIssues(m, pre, file);
      CountWhereSnoc(pre, last, IsUnnamedExport);
      var before := FoldItems(m, pre, file);
      StepIssues(before, last, file);
      IssuesOfAppend(before.issues, ItemIssues(last, file), file, AllKinds);
      CountKindAppend(before.issues, ItemIssues(last, file), MacroKind);
    }
  }

  /**
    The record of a module, as `collect_module_items` pushes it: labelled with
    its file and module path, one entry per public item of each kind, every
    issue naming the file, and the impl entries sorted by target while two
    entries with the same target keep their item order (the sort is stable and
    entries are never merged).
   */
  lemma ModuleRecordContents(file: string, parts: seq<string>, items: seq<Item>)
    ensures var r := ModuleRecord(file, parts, items);
      && r.file == file && r.parts == parts
      && |r.consts| == CountWhere(items, IsPublicConst)
      && |r.structs| == CountWhere(items, IsPublicStruct)
      && |r.enums| == CountWhere(items, IsPublicEnum)
      && |r.traits| == CountWhere(items, IsPublicTrait)
      && |r.functions| == CountWhere(items, IsPublicFnItem) + CountWhere(items, IsNamedExport)
      && IssuesOf(r.issues, file, AllKinds)
      && CountKind(r.issues, MacroKind) == CountWhere(items, IsUnnamedExport)
  {
    var e := EmptyModule(file, parts);
    FoldExtends(e, items, file);
    FoldCounts(e, items, file);
    FoldIssues(e, items, file);
  }

  lemma ImplBlocksKeptApart(file: string, parts: seq<string>, items: seq<Item>)
    ensures var pending := ModuleRecord(file, parts, items).pendingMethods;
      && SortedBy(pending, PendingKey)
      && multiset(pending) == multiset(ImplEntries(items, file))
      && forall target :: WithKey(pending, PendingKey, [target]) == WithKey(ImplEntries(items, file), PendingKey, [target])
  {
    var e := EmptyModule(file, parts);
    FoldPending(e, items, file);
    assert FoldItems(e, items, file).pendingMethods == ImplEntries(items, file);
    SortSortsAndPermutes(ImplEntries(items, file), PendingKey);
    forall target
      ensures WithKey(SortByKey(ImplEntries(items, file), PendingKey), PendingKey, [target])
           == WithKey(ImplEntries(items, file), PendingKey, [target])
    {
      SortIsStable(ImplEntries(items, file), PendingKey, [target]);
    }
  }

  lemma {:induction false} FoldAppend(m: ExtractModule, a: seq<Item>, b: seq<Item>, file: string)
    ensures FoldItems(m, a + b, file) == FoldItems(FoldItems(m, a, file), b, file)
    decreases |b|
  {
    if b == [] {
      assert a + b == a;
    } else {
      assert (a + b)[..|a + b| - 1] == a + b[..|b| - 1];
      FoldAppend(m, a, b[..|b| - 1], file);
    }
  }

  /** Removing an inert item (a private declaration, a `mod`, an unexported macro) does not change the record. */
  lemma InertItemIgnored(file: string, parts: seq<string>, pre: seq<Item>, it: Item, post: seq<Item>)
    requires Inert(it)
    ensures ModuleRecord(file, parts, pre + [it] + post) == ModuleRecord(file, parts, pre + post)
  {
    var e := EmptyModule(file, parts);
    FoldAppend(e, pre + [it], post, file);
    FoldAppend(e, pre, [it], file);
    FoldAppend(e, pre, post, file);
    assert [it][..0] == [];
  }

  // ------------------------------------------------------------ the walk

  function ItemSize(it: Item): nat {
    match it
    case Mod(_, _, Inline(c)) => 1 + ItemsSize(c)
    case _ => 1
  }

  function ItemsSize(items: seq<Item>): nat {
    if items == [] then 0 else ItemSize(items[0]) + ItemsSize(items[1..])
  }

  lemma {:induction false} ItemWithinItems(items: seq<Item>, i: int)
    requires 0 <= i < |items|
    ensures ItemSize(items[i]) <= ItemsSize(items)
  {
    if i > 0 {
      assert items[1..][i - 1] == items[i];
      ItemWithinItems(items[1..], i - 1);
    }
  }

  predicate HasPublicMod(items: seq<Item>) {
    exists i :: 0 <= i < |items| && items[i].Mod? && IsPublic(items[i].vis)
  }

  /** `a` is `b` with possibly more records pushed after it. */
  predicate Grows<T(==)>(a: seq<T>, b: seq<T>) {
    |a| <= |b| && b[..|a|] == a
  }

  /** `q` names a module at or below the module named `p`. */
  predicate Extends(p: seq<string>, q: seq<string>) {
    |p| <= |q| && q[..|p|] == p
  }

  /** `q` names a module strictly below the module named `p`. */
  predicate StrictlyExtends(p: seq<string>, q: seq<string>) {
    |p| < |q| && q[..|p|] == p
  }

  predicate AllAtOrBelow(mods: seq<ExtractModule>, from: int, parts: seq<string>)
    requires 0 <= from <= |mods|
  {
    forall k :: from <= k < |mods| ==> Extends(parts, mods[k].parts)
  }

  predicate IsPubMod(it: Item) {
    it.Mod? && IsPublic(it.vis)
  }

  /** `q` lies at or below `parts::name` for a `pub mod name` among the first `bound` items. */
  predicate UnderPubMod(q: seq<string>, parts: seq<string>, items: seq<Item>, bound: int)
    decreases bound
  {
    && 0 < bound <= |items|
    && (|| UnderPubMod(q, parts, items, bound - 1)
        || (IsPubMod(items[bound - 1]) && Extends(parts + [items[bound - 1].ident], q)))
  }

  lemma {:induction false} UnderExtends(q: seq<string>, parts: seq<string>, items: seq<Item>, bound: int)
    requires UnderPubMod(q, parts, items, bound)
    ensures StrictlyExtends(parts, q)
    decreases bound
  {
    if UnderPubMod(q, parts, items, bound - 1) {
      UnderExtends(q, parts, items, bound - 1);
    } else {
      assert q[..|parts|] == q[..|parts| + 1][..|parts|];
    }
  }

  /** Every record from `from` on lies below a `pub mod` among the first `bound` items. */
  predicate AllUnder(mods: seq<ExtractModule>, from: int, parts: seq<string>, items: seq<Item>, bound: int)
    requires 0 <= from <= |mods|
  {
    forall k :: from <= k < |mods| ==> UnderPubMod(mods[k].parts, parts, items, bound)
  }

  lemma AllAtOrBelowOfUnder(mods: seq<ExtractModule>, from: int, parts: seq<string>, items: seq<Item>, bound: int)
    requires 0 <= from <= |mods| && AllUnder(mods, from, parts, items, bound)
    ensures AllAtOrBelow(mods, from, parts)
  {
    forall k | from <= k < |mods| ensures Extends(parts, mods[k].parts) {
      UnderExtends(mods[k].parts, parts, items, bound);
    }
  }

  /**
    Every `pub mod` among the first `bound` items of a module, and every
    `pub mod` nested inline below them at any depth, has been walked: an
    inline one has its record among `mods` from `from` on, and a file one
    resolves to a file in `walked`.
   */
  predicate Closed(fs: FileSystem, fileLabel: string, parts: seq<string>, base: Path, items: seq<Item>, bound: int,
                   walked: set<Path>, mods: seq<ExtractModule>, from: int)
    requires bound <= |items| && 0 <= from <= |mods|
    decreases ItemsSize(items), 1
  {
    forall i {:trigger InnerClosed(fs, fileLabel, parts, base, items, i, walked, mods, from)} ::
      0 <= i < bound && IsPubMod(items[i]) ==> InnerClosed(fs, fileLabel, parts, base, items, i, walked, mods, from)
  }

  predicate InnerClosed(fs: FileSystem, fileLabel: string, parts: seq<string>, base: Path, items: seq<Item>, i: int,
                        walked: set<Path>, mods: seq<ExtractModule>, from: int)
    requires 0 <= i < |items| && items[i].Mod? && 0 <= from <= |mods|
    decreases ItemsSize(items), 0
  {
    var it := items[i];
    match it.content
    case Inline(body) =>
      ItemWithinItems(items, i);
      && (exists m :: from <= m < |mods| && mods[m] == ModuleRecord(fileLabel, parts + [it.ident], body))
      && Closed(fs, fileLabel, parts + [it.ident], Join(base, it.ident), body, |body|, walked, mods, from)
    case External =>
      var res := ResolveChildModuleFile(base, it.ident, fs.Keys);
      res.Ok? && res.value in walked
  }

  /** What was found walked stays walked as more records are pushed and more files walked. */
  lemma {:induction false} ClosedGrow(fs: FileSystem, fileLabel: string, parts: seq<string>, base: Path,
                                      items: seq<Item>, bound: int, walked: set<Path>, walked': set<Path>,
                                      before: seq<ExtractModule>, after: seq<ExtractModule>, from: int, from': int)
    requires bound <= |items| && 0 <= from' <= from <= |before| && Grows(before, after) && walked <= walked'
    requires Closed(fs, fileLabel, parts, base, items, bound, walked, before, from)
    ensures Closed(fs, fileLabel, parts, base, items, bound, walked', after, from')
    decreases ItemsSize(items)
  {
    forall i | 0 <= i < bound && IsPubMod(items[i])
      ensures InnerClosed(fs, fileLabel, parts, base, items, i, walked', after, from')
    {
      assert InnerClosed(fs, fileLabel, parts, base, items, i, walked, before, from);
      var it := items[i];
      if it.content.Inline? {
        var body := it.content.items;
        var m :| from <= m < |before| && before[m] == ModuleRecord(fileLabel, parts + [it.ident], body);
        assert after[m] == after[..|before|][m];
        ItemWithinItems(items, i);
        ClosedGrow(fs, fileLabel, parts + [it.ident], Join(base, it.ident), body, |body|, walked, walked', before, after, from, from');
      }
    }
  }

  /**
    The number of records the items of one module yield by themselves: the
    module's own, and one for every `pub mod` nested inline in it, at any depth.
   */
  function ModuleCount(items: seq<Item>): nat
    decreases ItemsSize(items), 1
  {
    1 + InlineCount(items, |items|)
  }

  /** The records yielded by the inline `pub mod`s among the first `bound` items. */
  function InlineCount(items: seq<Item>, bound: int): nat
    requires 0 <= bound <= |items|
    decreases ItemsSize(items), 0, bound
  {
    if bound == 0 then 0
    else
      var it := items[bound - 1];
      InlineCount(items, bound - 1)
        + if IsPubMod(it) && it.content.Inline? then ItemWithinItems(items, bound - 1); ModuleCount(it.content.items) else 0
  }

  function CanonicalizeError(path: Path): string {
    "Failed to canonicalize module path " + Display(path) + ": " + NotFoundText
  }

  /**
    One file walked: its canonical path, the module path it was walked at, and
    the index at which its own record was pushed.
   */
  datatype Visit = Visit(file: Path, parts: seq<string>, at: nat)

  /** The files walked. */
  function FilesOf(vs: seq<Visit>): set<Path> {
    PathSet(seq(|vs|, k requires 0 <= k < |vs| => vs[k].file))
  }

  function PathSet(ps: seq<Path>): set<Path> {
    if ps == [] then {} else PathSet(ps[..|ps| - 1]) + {ps[|ps| - 1]}
  }

  /** `FilesOf` unfolded at the last visit. */
  lemma FilesOfLast(vs: seq<Visit>)
    ensures vs == [] ==> FilesOf(vs) == {}
    ensures vs != [] ==> FilesOf(vs) == FilesOf(vs[..|vs| - 1]) + {vs[|vs| - 1].file}
  {
    var ps := seq(|vs|, k requires 0 <= k < |vs| => vs[k].file);
    if vs == [] {
      assert ps == [];
    } else {
      var front := vs[..|vs| - 1];
      assert ps[..|ps| - 1] == seq(|front|, k requires 0 <= k < |front| => front[k].file);
    }
  }

  /** The visit of file `p`, if it was walked. */
  function VisitOf(vs: seq<Visit>, p: Path): (r: Option<Visit>)
    ensures r.Some? <==> p in FilesOf(vs)
    ensures r.Some? ==> r.value.file == p && r.value in vs
  {
    if vs == [] then None
    else if vs[|vs| - 1].file == p then Some(vs[|vs| - 1])
    else FilesOfLast(vs); VisitOf(vs[..|vs| - 1], p)
  }

  /** The visits name distinct existing files, none of them walked before (in `seen`). */
  predicate FreshVisits(fs: FileSystem, seen: set<Path>, vs: seq<Visit>) {
    || vs == []
    || (var v := vs[|vs| - 1];
        FreshVisits(fs, seen, vs[..|vs| - 1]) && v.file in fs && v.file !in seen && v.file !in FilesOf(vs[..|vs| - 1]))
  }

  /**
    `mods[v.at]` is the record of the whole file `v.file`, walked at
    `v.parts`, and every `pub mod` of the file, at any depth of inline
    nesting, has been walked: inline ones have their records from `from` on,
    file ones resolve (from the file's base directory) to files in `walked`.
   */
  predicate FileRecordAt(fs: FileSystem, mods: seq<ExtractModule>, from: int, walked: set<Path>, v: Visit) {
    && 0 <= from <= v.at < |mods|
    && v.file in fs && fs[v.file].Parsed? && mods[v.at] == ModuleRecord(Display(v.file), v.parts, fs[v.file].items)
    && Closed(fs, Display(v.file), v.parts, ModuleBaseDir(v.file), fs[v.file].items, |fs[v.file].items|, walked, mods, from)
  }

  /** Each visited file has its own record among the records from `from` on, and its `pub mod`s walked. */
  predicate Recorded(fs: FileSystem, mods: seq<ExtractModule>, from: int, walked: set<Path>, vs: seq<Visit>) {
    forall k {:trigger FileRecordAt(fs, mods, from, walked, vs[k])} ::
      0 <= k < |vs| ==> FileRecordAt(fs, mods, from, walked, vs[k])
  }

  /** No two visits share a record index: each file's record was pushed for that file alone. */
  predicate AtsDistinct(vs: seq<Visit>) {
    forall j, k :: 0 <= j < k < |vs| ==> vs[j].at != vs[k].at
  }

  /** The records yielded by the walked files: each file's own and those of its inline modules. */
  function FilesCount(fs: FileSystem, vs: seq<Visit>): nat {
    if vs == [] then 0
    else
      var v := vs[|vs| - 1];
      FilesCount(fs, vs[..|vs| - 1]) + if v.file in fs && fs[v.file].Parsed? then ModuleCount(fs[v.file].items) else 0
  }

  lemma {:induction false} FilesCountAppend(fs: FileSystem, vs: seq<Visit>, cv: seq<Visit>)
    ensures FilesCount(fs, vs + cv) == FilesCount(fs, vs) + FilesCount(fs, cv)
    decreases |cv|
  {
    if cv != [] {
      assert (vs + cv)[..|vs + cv| - 1] == vs + cv[..|cv| - 1];
      FilesCountAppend(fs, vs, cv[..|cv| - 1]);
    } else {
      assert vs + cv == vs;
    }
  }

  predicate VisitsAtOrBelow(vs: seq<Visit>, parts: seq<string>) {
    forall v :: v in vs ==> Extends(parts, v.parts)
  }

  predicate VisitsUnder(vs: seq<Visit>, parts: seq<string>, items: seq<Item>, bound: int) {
    forall v :: v in vs ==> UnderPubMod(v.parts, parts, items, bound)
  }

  lemma {:induction false} FilesOfAppend(vs: seq<Visit>, cv: seq<Visit>)
    ensures FilesOf(vs + cv) == FilesOf(vs) + FilesOf(cv)
    decreases |cv|
  {
    FilesOfLast(vs + cv);
    FilesOfLast(cv);
    if cv != [] {
      assert (vs + cv)[..|vs + cv| - 1] == vs + cv[..|cv| - 1];
      FilesOfAppend(vs, cv[..|cv| - 1]);
    } else {
      assert vs + cv == vs;
    }
  }

  lemma {:induction false} VisitOfAppend(vs: seq<Visit>, cv: seq<Visit>, p: Path)
    ensures VisitOf(vs + cv, p) == if p in FilesOf(cv) then VisitOf(cv, p) else VisitOf(vs, p)
    decreases |cv|
  {
    FilesOfLast(cv);
    if cv != [] {
      assert (vs + cv)[..|vs + cv| - 1] == vs + cv[..|cv| - 1];
      VisitOfAppend(vs, cv[..|cv| - 1], p);
    } else {
      assert vs + cv == vs;
    }
  }

  /** A batch of files walked after `vs`, none walked before, keeps all visits distinct. */
  lemma {:induction false} VisitsJoin(fs: FileSystem, seen: set<Path>, vs: seq<Visit>, cv: seq<Visit>)
    requires FreshVisits(fs, seen, vs) && FreshVisits(fs, seen + FilesOf(vs), cv)
    ensures FreshVisits(fs, seen, vs + cv) && FilesOf(vs + cv) == FilesOf(vs) + FilesOf(cv)
    decreases |cv|
  {
    FilesOfAppend(vs, cv);
    if cv != [] {
      assert (vs + cv)[..|vs + cv| - 1] == vs + cv[..|cv| - 1];
      VisitsJoin(fs, seen, vs, cv[..|cv| - 1]);
    } else {
      assert vs + cv == vs;
    }
  }

  /** Records stay where they were as more are pushed after them and more files are walked. */
  lemma RecordedGrow(fs: FileSystem, before: seq<ExtractModule>, after: seq<ExtractModule>,
                     from: int, from': int, walked: set<Path>, walked': set<Path>, vs: seq<Visit>)
    requires 0 <= from' <= from && Grows(before, after) && walked <= walked' && Recorded(fs, before, from, walked, vs)
    ensures Recorded(fs, after, from', walked', vs)
  {
    forall k | 0 <= k < |vs| ensures FileRecordAt(fs, after, from', walked', vs[k]) {
      var v := vs[k];
      assert FileRecordAt(fs, before, from, walked, v);
      assert after[v.at] == after[..|before|][v.at];
      var items := fs[v.file].items;
      ClosedGrow(fs, Display(v.file), v.parts, ModuleBaseDir(v.file), items, |items|, walked, walked', before, after, from, from');
    }
  }

  lemma RecordedConcat(fs: FileSystem, mods: seq<ExtractModule>, from: int, walked: set<Path>, vs: seq<Visit>, cv: seq<Visit>)
    requires Recorded(fs, mods, from, walked, vs) && Recorded(fs, mods, from, walked, cv)
    ensures Recorded(fs, mods, from, walked, vs + cv)
  {
    var all := vs + cv;
    forall k | 0 <= k < |all| ensures FileRecordAt(fs, mods, from, walked, all[k]) {
      if k < |vs| {
        assert all[k] == vs[k];
        assert FileRecordAt(fs, mods, from, walked, vs[k]);
      } else {
        assert all[k] == cv[k - |vs|];
        assert FileRecordAt(fs, mods, from, walked, cv[k - |vs|]);
      }
    }
  }

  /** The visit of a walked file is one of the recorded ones. */
  lemma RecordedVisit(fs: FileSystem, mods: seq<ExtractModule>, from: int, walked: set<Path>, vs: seq<Visit>, p: Path)
    requires Recorded(fs, mods, from, walked, vs) && p in FilesOf(vs)
    ensures FileRecordAt(fs, mods, from, walked, VisitOf(vs, p).value)
  {
    var k :| 0 <= k < |vs| && vs[k] == VisitOf(vs, p).value;
    assert FileRecordAt(fs, mods, from, walked, vs[k]);
  }

  /** Visits recorded below `mid` followed by visits recorded from `mid` on keep distinct indices. */
  lemma AtsJoin(fs: FileSystem, before: seq<ExtractModule>, after: seq<ExtractModule>, from: int,
                walked: set<Path>, walked': set<Path>, vs: seq<Visit>, cv: seq<Visit>)
    requires Recorded(fs, before, from, walked, vs) && Recorded(fs, after, |before|, walked', cv)
    requires AtsDistinct(vs) && AtsDistinct(cv)
    ensures AtsDistinct(vs + cv)
  {
    var all := vs + cv;
    forall j, k | 0 <= j < k < |all| ensures all[j].at != all[k].at {
      if j < |vs| && k >= |vs| {
        assert FileRecordAt(fs, before, from, walked, vs[j]);
        assert FileRecordAt(fs, after, |before|, walked', cv[k - |vs|]);
      } else if j < |vs| {
        assert all[j] == vs[j] && all[k] == vs[k];
      } else {
        assert all[j] == cv[j - |vs|] && all[k] == cv[k - |vs|];
      }
    }
  }

  /**
    The `pub mod` item `items[i]` of a module at `parts` has been walked: an
    inline module's record is among `mods`; a file module resolves under
    `base`, and its file either was walked before (`seen`), or was walked at
    `parts::name`, or was reached first through an earlier `pub mod` sibling.
    Below an inline module, every `pub mod` at any depth has been walked too.
   */
  predicate ChildWalked(fs: FileSystem, fileLabel: string, parts: seq<string>, base: Path, items: seq<Item>, i: int,
                        seen: set<Path>, mods: seq<ExtractModule>, from: int, vs: seq<Visit>)
    requires 0 <= i < |items| && items[i].Mod? && 0 <= from <= |mods|
  {
    var it := items[i];
    match it.content
    case Inline(body) =>
      && (exists m :: from <= m < |mods| && mods[m] == ModuleRecord(fileLabel, parts + [it.ident], body))
      && Closed(fs, fileLabel, parts + [it.ident], Join(base, it.ident), body, |body|, seen + FilesOf(vs), mods, from)
    case External =>
      var res := ResolveChildModuleFile(base, it.ident, fs.Keys);
      && res.Ok?
      && (|| res.value in seen
          || (&& res.value in FilesOf(vs)
              && var at := VisitOf(vs, res.value).value.parts;
              || at == parts + [it.ident]
              || UnderPubMod(at, parts, items, i)))
  }

  /** Every `pub mod` among the first `bound` items has been walked. */
  predicate ChildrenWalked(fs: FileSystem, fileLabel: string, parts: seq<string>, base: Path, items: seq<Item>, bound: int,
                           seen: set<Path>, mods: seq<ExtractModule>, from: int, vs: seq<Visit>)
    requires bound <= |items| && 0 <= from <= |mods|
  {
    forall i {:trigger ChildWalked(fs, fileLabel, parts, base, items, i, seen, mods, from, vs)} ::
      0 <= i < bound && IsPubMod(items[i]) ==> ChildWalked(fs, fileLabel, parts, base, items, i, seen, mods, from, vs)
  }

  /** What the walked children were found to be stays true as more records and visits follow. */
  lemma ChildrenWalkedGrow(fs: FileSystem, fileLabel: string, parts: seq<string>, base: Path,
                           items: seq<Item>, bound: int, seen: set<Path>,
                           before: seq<ExtractModule>, after: seq<ExtractModule>, from: int,
                           vs: seq<Visit>, cv: seq<Visit>)
    requires bound <= |items| && 0 <= from <= |before| && Grows(before, after)
    requires FilesOf(vs) !! FilesOf(cv)
    requires ChildrenWalked(fs, fileLabel, parts, base, items, bound, seen, before, from, vs)
    ensures ChildrenWalked(fs, fileLabel, parts, base, items, bound, seen, after, from, vs + cv)
  {
    forall i | 0 <= i < bound && IsPubMod(items[i])
      ensures ChildWalked(fs, fileLabel, parts, base, items, i, seen, after, from, vs + cv)
    {
      assert ChildWalked(fs, fileLabel, parts, base, items, i, seen, before, from, vs);
      var it := items[i];
      match it.content {
        case Inline(body) =>
          var m :| from <= m < |before| && before[m] == ModuleRecord(fileLabel, parts + [it.ident], body);
          assert after[m] == after[..|before|][m];
          FilesOfAppend(vs, cv);
          ClosedGrow(fs, fileLabel, parts + [it.ident], Join(base, it.ident), body, |body|,
                     seen + FilesOf(vs), seen + FilesOf(vs + cv), before, after, from, from);
        case External =>
          var res := ResolveChildModuleFile(base, it.ident, fs.Keys);
          FilesOfAppend(vs, cv);
          VisitOfAppend(vs, cv, res.value);
      }
    }
  }

  /** The one-level promise, read at every depth: what was walked from here is closed under `pub mod`. */
  lemma ClosedOfWalked(fs: FileSystem, fileLabel: string, parts: seq<string>, base: Path, items: seq<Item>, bound: int,
                       seen: set<Path>, mods: seq<ExtractModule>, from: int, vs: seq<Visit>)
    requires bound <= |items| && 0 <= from <= |mods|
    requires ChildrenWalked(fs, fileLabel, parts, base, items, bound, seen, mods, from, vs)
    ensures Closed(fs, fileLabel, parts, base, items, bound, seen + FilesOf(vs), mods, from)
  {
    forall i | 0 <= i < bound && IsPubMod(items[i])
      ensures InnerClosed(fs, fileLabel, parts, base, items, i, seen + FilesOf(vs), mods, from)
    {
      assert ChildWalked(fs, fileLabel, parts, base, items, i, seen, mods, from, vs);
    }
  }

  /**
    `collect_module_items`: classifies the items of one module, walking each
    public child module first, then pushes the module's own record. The files
    walked meanwhile are exactly those added to `seen`, each once and with its
    record; every record pushed before the module's own lies below one of its
    `pub mod` children, and every `pub mod` child has been walked, a file
    module being resolved under `base`.
   */
  method CollectModuleItems(fs: FileSystem, fileLabel: string, parts: seq<string>, base: Path, items: seq<Item>,
                            out: seq<ExtractModule>, seen: set<Path>)
    returns (r: Result<(), string>, out': seq<ExtractModule>, seen': set<Path>, ghost visits: seq<Visit>)
    decreases fs.Keys - seen, ItemsSize(items) + 1, 2
    ensures Grows(out, out') && seen' == seen + FilesOf(visits) && FreshVisits(fs, seen, visits)
    ensures r.Ok? ==> |out| < |out'| && out'[|out'| - 1] == ModuleRecord(fileLabel, parts, items)
    ensures r.Ok? ==> |out'| == |out| + ModuleCount(items) + FilesCount(fs, visits) && AtsDistinct(visits)
    ensures r.Ok? ==> AllUnder(out'[..|out'| - 1], |out|, parts, items, |items|) && AllAtOrBelow(out', |out|, parts)
    ensures r.Ok? ==> Recorded(fs, out'[..|out'| - 1], |out|, seen', visits) && VisitsUnder(visits, parts, items, |items|)
    ensures r.Ok? ==> ChildrenWalked(fs, fileLabel, parts, base, items, |items|, seen, out', |out|, visits)
    ensures !HasPublicMod(items) ==>
      r.Ok? && out' == out + [ModuleRecord(fileLabel, parts, items)] && seen' == seen && visits == []
  {
    var record := EmptyModule(fileLabel, parts);
    out', seen', visits := out, seen, [];
    for i := 0 to |items|
      invariant record == ModuleBody(fileLabel, parts, items[..i])
      invariant Grows(out, out') && seen' == seen + FilesOf(visits) && FreshVisits(fs, seen, visits)
      invariant Recorded(fs, out', |out|, seen', visits) && VisitsUnder(visits, parts, items, i)
      invariant |out'| == |out| + InlineCount(items, i) + FilesCount(fs, visits) && AtsDistinct(visits)
      invariant AllUnder(out', |out|, parts, items, i)
      invariant ChildrenWalked(fs, fileLabel, parts, base, items, i, seen, out', |out|, visits)
      invariant !HasPublicMod(items[..i]) ==> out' == out && seen' == seen && visits == []
    {
      r, record, out', seen', visits := CollectItem(fs, fileLabel, parts, base, items, i, record, out, seen, out', seen', visits);
      if r.Err? {
        return;
      }
    }
    assert items[..|items|] == items;
    if |record.pendingMethods| > 0 {
      record := record.(pendingMethods := SortByKey(record.pendingMethods, PendingKey));
    }
    ghost var before := out';
    out' := out' + [record];
    r := UnitOk;
    ItemsFinish(fs, fileLabel, parts, base, items, out, seen, before, out', visits);
  }

  /** Pushing the finished record of a module closes what the item loop found about its children. */
  lemma ItemsFinish(fs: FileSystem, fileLabel: string, parts: seq<string>, base: Path, items: seq<Item>,
                    out: seq<ExtractModule>, seen: set<Path>, before: seq<ExtractModule>, after: seq<ExtractModule>,
                    visits: seq<Visit>)
    requires Grows(out, before) && after == before + [ModuleRecord(fileLabel, parts, items)]
    requires |before| == |out| + InlineCount(items, |items|) + FilesCount(fs, visits)
    requires AllUnder(before, |out|, parts, items, |items|)
    requires ChildrenWalked(fs, fileLabel, parts, base, items, |items|, seen, before, |out|, visits)
    ensures Grows(out, after) && |out| < |after| && after[..|after| - 1] == before
    ensures |after| == |out| + ModuleCount(items) + FilesCount(fs, visits)
    ensures AllAtOrBelow(after, |out|, parts)
    ensures ChildrenWalked(fs, fileLabel, parts, base, items, |items|, seen, after, |out|, visits)
  {
    FoldExtends(EmptyModule(fileLabel, parts), items, fileLabel);
    assert after[..|after| - 1] == before;
    AllAtOrBelowOfUnder(before, |out|, parts, items, |items|);
    ChildrenWalkedGrow(fs, fileLabel, parts, base, items, |items|, seen, before, after, |out|, visits, []);
    assert visits + [] == visits;
  }

  /** One pass of the item loop of `collect_module_items`: walk a `pub mod` child, or classify any other item. */
  method CollectItem(fs: FileSystem, fileLabel: string, parts: seq<string>, base: Path, items: seq<Item>, i: int,
                     record: ExtractModule, out: seq<ExtractModule>, seen: set<Path>,
                     mods: seq<ExtractModule>, walked: set<Path>, ghost vs: seq<Visit>)
    returns (r: Result<(), string>, record': ExtractModule, mods': seq<ExtractModule>, walked': set<Path>, ghost vs': seq<Visit>)
    requires 0 <= i < |items|
    requires record == ModuleBody(fileLabel, parts, items[..i])
    requires Grows(out, mods) && walked == seen + FilesOf(vs) && FreshVisits(fs, seen, vs)
    requires Recorded(fs, mods, |out|, walked, vs) && VisitsUnder(vs, parts, items, i)
    requires |mods| == |out| + InlineCount(items, i) + FilesCount(fs, vs) && AtsDistinct(vs)
    requires AllUnder(mods, |out|, parts, items, i)
    requires ChildrenWalked(fs, fileLabel, parts, base, items, i, seen, mods, |out|, vs)
    requires !HasPublicMod(items[..i]) ==> mods == out && walked == seen && vs == []
    decreases fs.Keys - walked, ItemsSize(items) + 1, 1
    ensures Grows(out, mods') && walked' == seen + FilesOf(vs') && FreshVisits(fs, seen, vs')
    ensures r.Ok? ==> record' == ModuleBody(fileLabel, parts, items[..i + 1])
    ensures r.Ok? ==> Recorded(fs, mods', |out|, walked', vs') && VisitsUnder(vs', parts, items, i + 1)
    ensures r.Ok? ==> |mods'| == |out| + InlineCount(items, i + 1) + FilesCount(fs, vs') && AtsDistinct(vs')
    ensures r.Ok? ==> AllUnder(mods', |out|, parts, items, i + 1)
    ensures r.Ok? ==> ChildrenWalked(fs, fileLabel, parts, base, items, i + 1, seen, mods', |out|, vs')
    ensures !HasPublicMod(items[..i + 1]) ==> r.Ok? && mods' == out && walked' == seen && vs' == []
  {
    BodyStep(fileLabel, parts, items, i);
    var item := items[i];
    if IsPubMod(item) {
      ItemWithinItems(items, i);
      ghost var cv;
      r, mods', walked', cv := CollectChild(fs, fileLabel, parts, base, item, mods, walked);
      VisitsJoin(fs, seen, vs, cv);
      vs' := vs + cv;
      record' := record;
      if r.Ok? {
        ChildStep(fs, fileLabel, parts, base, items, i, seen, mods, mods', |out|, vs, cv);
      }
    } else {
      r := UnitOk;
      record' := ClassifyLeaf(record, item, fileLabel);
      mods', walked', vs' := mods, walked, vs;
      LeafStep(fs, fileLabel, parts, base, items, i, seen, mods, |out|, vs);
    }
  }

  lemma BodyStep(fileLabel: string, parts: seq<string>, items: seq<Item>, i: int)
    requires 0 <= i < |items|
    ensures ModuleBody(fileLabel, parts, items[..i + 1]) == ClassifyItem(ModuleBody(fileLabel, parts, items[..i]), items[i], fileLabel)
    ensures HasPublicMod(items[..i + 1]) <==> HasPublicMod(items[..i]) || (items[i].Mod? && IsPublic(items[i].vis))
  {
    assert items[..i + 1][..i] == items[..i];
    if HasPublicMod(items[..i + 1]) && !(items[i].Mod? && IsPublic(items[i].vis)) {
      var j :| 0 <= j < i + 1 && items[..i + 1][j].Mod? && IsPublic(items[..i + 1][j].vis);
      assert items[..i][j] == items[..i + 1][j];
    }
    if HasPublicMod(items[..i]) {
      var j :| 0 <= j < i && items[..i][j].Mod? && IsPublic(items[..i][j].vis);
      assert items[..i + 1][j] == items[..i][j];
    }
    if items[i].Mod? && IsPublic(items[i].vis) {
      assert items[..i + 1][i] == items[i];
    }
  }

  /** A `pub mod` child walked at index `i` keeps every loop invariant of `CollectModuleItems`. */
  lemma ChildStep(fs: FileSystem, fileLabel: string, parts: seq<string>, base: Path, items: seq<Item>, i: int,
                  seen: set<Path>, before: seq<ExtractModule>, after: seq<ExtractModule>, from: int,
                  vs: seq<Visit>, cv: seq<Visit>)
    requires 0 <= i < |items| && IsPubMod(items[i]) && 0 <= from <= |before| && Grows(before, after)
    requires FreshVisits(fs, seen + FilesOf(vs), cv)
    requires Recorded(fs, before, from, seen + FilesOf(vs), vs) && VisitsUnder(vs, parts, items, i) && AllUnder(before, from, parts, items, i)
    requires |before| == from + InlineCount(items, i) + FilesCount(fs, vs) && AtsDistinct(vs)
    requires ChildrenWalked(fs, fileLabel, parts, base, items, i, seen, before, from, vs)
    requires Recorded(fs, after, |before|, seen + FilesOf(vs) + FilesOf(cv), cv) && VisitsAtOrBelow(cv, parts + [items[i].ident])
    requires |after| == |before| + (if items[i].content.Inline? then ModuleCount(items[i].content.items) else 0) + FilesCount(fs, cv)
    requires AtsDistinct(cv)
    requires AllAtOrBelow(after, |before|, parts + [items[i].ident])
    requires items[i].content.Inline? ==>
      && |before| < |after| && after[|after| - 1] == ModuleRecord(fileLabel, parts + [items[i].ident], items[i].content.items)
      && Closed(fs, fileLabel, parts + [items[i].ident], Join(base, items[i].ident), items[i].content.items,
                |items[i].content.items|, seen + FilesOf(vs) + FilesOf(cv), after, |before|)
    requires items[i].content.External? ==>
      var res := ResolveChildModuleFile(base, items[i].ident, fs.Keys);
      && res.Ok? && res.value in seen + FilesOf(vs) + FilesOf(cv)
      && (res.value !in seen + FilesOf(vs) ==> VisitOf(cv, res.value).value.parts == parts + [items[i].ident])
    ensures Recorded(fs, after, from, seen + FilesOf(vs + cv), vs + cv) && VisitsUnder(vs + cv, parts, items, i + 1)
    ensures |after| == from + InlineCount(items, i + 1) + FilesCount(fs, vs + cv) && AtsDistinct(vs + cv)
    ensures AllUnder(after, from, parts, items, i + 1)
    ensures ChildrenWalked(fs, fileLabel, parts, base, items, i + 1, seen, after, from, vs + cv)
  {
    ChildStepRecords(fs, parts, items, i, seen, before, after, from, vs, cv);
    ChildStepWalked(fs, fileLabel, parts, base, items, i, seen, before, after, from, vs, cv);
  }

  /** The records and visits half of `ChildStep`. */
  lemma ChildStepRecords(fs: FileSystem, parts: seq<string>, items: seq<Item>, i: int,
                         seen: set<Path>, before: seq<ExtractModule>, after: seq<ExtractModule>, from: int,
                         vs: seq<Visit>, cv: seq<Visit>)
    requires 0 <= i < |items| && IsPubMod(items[i]) && 0 <= from <= |before| && Grows(before, after)
    requires Recorded(fs, before, from, seen + FilesOf(vs), vs) && VisitsUnder(vs, parts, items, i) && AllUnder(before, from, parts, items, i)
    requires |before| == from + InlineCount(items, i) + FilesCount(fs, vs) && AtsDistinct(vs)
    requires Recorded(fs, after, |before|, seen + FilesOf(vs) + FilesOf(cv), cv) && VisitsAtOrBelow(cv, parts + [items[i].ident])
    requires |after| == |before| + (if items[i].content.Inline? then ModuleCount(items[i].content.items) else 0) + FilesCount(fs, cv)
    requires AtsDistinct(cv)
    requires AllAtOrBelow(after, |before|, parts + [items[i].ident])
    ensures Recorded(fs, after, from, seen + FilesOf(vs + cv), vs + cv) && VisitsUnder(vs + cv, parts, items, i + 1)
    ensures |after| == from + InlineCount(items, i + 1) + FilesCount(fs, vs + cv) && AtsDistinct(vs + cv)
    ensures AllUnder(after, from, parts, items, i + 1)
  {
    FilesOfAppend(vs, cv);
    var w := seen + FilesOf(vs + cv);
    RecordedGrow(fs, before, after, from, from, seen + FilesOf(vs), w, vs);
    RecordedGrow(fs, after, after, |before|, from, seen + FilesOf(vs) + FilesOf(cv), w, cv);
    RecordedConcat(fs, after, from, w, vs, cv);
    AtsJoin(fs, before, after, from, seen + FilesOf(vs), seen + FilesOf(vs) + FilesOf(cv), vs, cv);
    FilesCountAppend(fs, vs, cv);
    forall v | v in vs + cv ensures UnderPubMod(v.parts, parts, items, i + 1) {
      if v in vs {
        assert UnderPubMod(v.parts, parts, items, i);
      } else {
        assert Extends(parts + [items[i].ident], v.parts);
      }
    }
    forall k | from <= k < |after| ensures UnderPubMod(after[k].parts, parts, items, i + 1) {
      if k < |before| {
        assert after[k] == after[..|before|][k];
        assert UnderPubMod(before[k].parts, parts, items, i);
      } else {
        assert Extends(parts + [items[i].ident], after[k].parts);
      }
    }
  }

  /** The walked-children half of `ChildStep`. */
  lemma ChildStepWalked(fs: FileSystem, fileLabel: string, parts: seq<string>, base: Path, items: seq<Item>, i: int,
                        seen: set<Path>, before: seq<ExtractModule>, after: seq<ExtractModule>, from: int,
                        vs: seq<Visit>, cv: seq<Visit>)
    requires 0 <= i < |items| && IsPubMod(items[i]) && 0 <= from <= |before| && Grows(before, after)
    requires FreshVisits(fs, seen + FilesOf(vs), cv)
    requires ChildrenWalked(fs, fileLabel, parts, base, items, i, seen, before, from, vs) && VisitsUnder(vs, parts, items, i)
    requires items[i].content.Inline? ==>
      && |before| < |after| && after[|after| - 1] == ModuleRecord(fileLabel, parts + [items[i].ident], items[i].content.items)
      && Closed(fs, fileLabel, parts + [items[i].ident], Join(base, items[i].ident), items[i].content.items,
                |items[i].content.items|, seen + FilesOf(vs) + FilesOf(cv), after, |before|)
    requires items[i].content.External? ==>
      var res := ResolveChildModuleFile(base, items[i].ident, fs.Keys);
      && res.Ok? && res.value in seen + FilesOf(vs) + FilesOf(cv)
      && (res.value !in seen + FilesOf(vs) ==> VisitOf(cv, res.value).value.parts == parts + [items[i].ident])
    ensures ChildrenWalked(fs, fileLabel, parts, base, items, i + 1, seen, after, from, vs + cv)
  {
    FreshDisjoint(fs, seen, vs, cv);
    if items[i].content.Inline? {
      InlineChildWalked(fs, fileLabel, parts, base, items, i, seen, before, after, from, vs, cv);
    } else {
      ExternalChildWalked(fs, fileLabel, parts, base, items, i, seen, after, from, vs, cv);
    }
    ChildrenWalkedGrow(fs, fileLabel, parts, base, items, i, seen, before, after, from, vs, cv);
    assert ChildWalked(fs, fileLabel, parts, base, items, i, seen, after, from, vs + cv);
    forall j | 0 <= j < i + 1 && IsPubMod(items[j])
      ensures ChildWalked(fs, fileLabel, parts, base, items, j, seen, after, from, vs + cv)
    {
      if j < i {
        assert ChildWalked(fs, fileLabel, parts, base, items, j, seen, after, from, vs + cv);
      }
    }
  }

  /** A `pub mod name;` whose file was visited just now, or was seen before, counts as walked. */
  lemma ExternalChildWalked(fs: FileSystem, fileLabel: string, parts: seq<string>, base: Path, items: seq<Item>, i: int,
                            seen: set<Path>, after: seq<ExtractModule>, from: int, vs: seq<Visit>, cv: seq<Visit>)
    requires 0 <= i < |items| && items[i].Mod? && items[i].content.External? && 0 <= from <= |after|
    requires VisitsUnder(vs, parts, items, i) && FilesOf(vs) !! FilesOf(cv)
    requires
      var res := ResolveChildModuleFile(base, items[i].ident, fs.Keys);
      && res.Ok? && res.value in seen + FilesOf(vs) + FilesOf(cv)
      && (res.value !in seen + FilesOf(vs) ==> VisitOf(cv, res.value).value.parts == parts + [items[i].ident])
    ensures ChildWalked(fs, fileLabel, parts, base, items, i, seen, after, from, vs + cv)
  {
    FilesOfAppend(vs, cv);
    var p := ResolveChildModuleFile(base, items[i].ident, fs.Keys).value;
    VisitOfAppend(vs, cv, p);
    if p in seen {
    } else if p in FilesOf(vs) {
      var v := VisitOf(vs, p).value;
      assert v in vs;
      assert VisitOf(vs + cv, p).value == v && UnderPubMod(v.parts, parts, items, i);
    } else {
      assert VisitOf(vs + cv, p) == VisitOf(cv, p);
    }
  }

  /** An inline `pub mod` just walked, with its own record last, counts as walked. */
  lemma InlineChildWalked(fs: FileSystem, fileLabel: string, parts: seq<string>, base: Path, items: seq<Item>, i: int,
                          seen: set<Path>, before: seq<ExtractModule>, after: seq<ExtractModule>, from: int,
                          vs: seq<Visit>, cv: seq<Visit>)
    requires 0 <= i < |items| && items[i].Mod? && items[i].content.Inline? && 0 <= from <= |before| < |after|
    requires after[|after| - 1] == ModuleRecord(fileLabel, parts + [items[i].ident], items[i].content.items)
    requires Closed(fs, fileLabel, parts + [items[i].ident], Join(base, items[i].ident), items[i].content.items,
                    |items[i].content.items|, seen + FilesOf(vs) + FilesOf(cv), after, |before|)
    ensures ChildWalked(fs, fileLabel, parts, base, items, i, seen, after, from, vs + cv)
  {
    var body := items[i].content.items;
    var w := seen + FilesOf(vs) + FilesOf(cv);
    FilesOfAppend(vs, cv);
    UnionAssoc(seen, FilesOf(vs), FilesOf(cv));
    assert Grows(after, after) by {
      assert after[..|after|] == after;
    }
    ClosedGrow(fs, fileLabel, parts + [items[i].ident], Join(base, items[i].ident), body, |body|, w, w, after, after, |before|, from);
  }

  /** A solver hint: regrouping a union of three walked sets. */
  lemma UnionAssoc(a: set<Path>, b: set<Path>, c: set<Path>)
    ensures a + (b + c) == a + b + c
  {}

  lemma FreshDisjoint(fs: FileSystem, seen: set<Path>, vs: seq<Visit>, cv: seq<Visit>)
    requires FreshVisits(fs, seen + FilesOf(vs), cv)
    ensures FilesOf(vs) !! FilesOf(cv)
  {
    forall p | p in FilesOf(cv) ensures p !in FilesOf(vs) {
      FreshNotSeen(fs, seen + FilesOf(vs), cv, p);
    }
  }

  lemma {:induction false} FreshNotSeen(fs: FileSystem, seen: set<Path>, cv: seq<Visit>, p: Path)
    requires FreshVisits(fs, seen, cv) && p in FilesOf(cv)
    ensures p !in seen && p in fs
    decreases |cv|
  {
    FilesOfLast(cv);
    if cv[|cv| - 1].file != p {
      FreshNotSeen(fs, seen, cv[..|cv| - 1], p);
    }
  }

  /** An item other than a `pub mod` keeps every loop invariant of `CollectModuleItems`. */
  lemma LeafStep(fs: FileSystem, fileLabel: string, parts: seq<string>, base: Path, items: seq<Item>, i: int,
                 seen: set<Path>, mods: seq<ExtractModule>, from: int, vs: seq<Visit>)
    requires 0 <= i < |items| && !IsPubMod(items[i]) && 0 <= from <= |mods|
    requires VisitsUnder(vs, parts, items, i) && AllUnder(mods, from, parts, items, i)
    requires ChildrenWalked(fs, fileLabel, parts, base, items, i, seen, mods, from, vs)
    ensures VisitsUnder(vs, parts, items, i + 1) && AllUnder(mods, from, parts, items, i + 1)
    ensures InlineCount(items, i + 1) == InlineCount(items, i)
    ensures ChildrenWalked(fs, fileLabel, parts, base, items, i + 1, seen, mods, from, vs)
  {
    forall v | v in vs ensures UnderPubMod(v.parts, parts, items, i + 1) {
      assert UnderPubMod(v.parts, parts, items, i);
    }
    forall k | from <= k < |mods| ensures UnderPubMod(mods[k].parts, parts, items, i + 1) {
      assert UnderPubMod(mods[k].parts, parts, items, i);
    }
    forall j | 0 <= j < i + 1 && IsPubMod(items[j])
      ensures ChildWalked(fs, fileLabel, parts, base, items, j, seen, mods, from, vs)
    {
      assert ChildWalked(fs, fileLabel, parts, base, items, j, seen, mods, from, vs);
    }
  }

  lemma VisitsAtOrBelowOfUnder(vs: seq<Visit>, parts: seq<string>, items: seq<Item>, bound: int)
    requires VisitsUnder(vs, parts, items, bound)
    ensures VisitsAtOrBelow(vs, parts)
  {
    forall v | v in vs ensures Extends(parts, v.parts) {
      UnderExtends(v.parts, parts, items, bound);
    }
  }

  /** The walk of an inline module's body, with its own record pushed last, leaves that module closed. */
  lemma InlineWalkClosed(fs: FileSystem, fileLabel: string, parts: seq<string>, dir: Path, body: seq<Item>,
                         out: seq<ExtractModule>, seen: set<Path>, mods: seq<ExtractModule>, visits: seq<Visit>)
    requires Grows(out, mods) && |out| < |mods|
    requires Recorded(fs, mods[..|mods| - 1], |out|, seen + FilesOf(visits), visits) && VisitsUnder(visits, parts, body, |body|)
    requires ChildrenWalked(fs, fileLabel, parts, dir, body, |body|, seen, mods, |out|, visits)
    ensures Recorded(fs, mods, |out|, seen + FilesOf(visits), visits) && VisitsAtOrBelow(visits, parts)
    ensures Closed(fs, fileLabel, parts, dir, body, |body|, seen + FilesOf(visits), mods, |out|)
  {
    VisitsAtOrBelowOfUnder(visits, parts, body, |body|);
    RecordedGrow(fs, mods[..|mods| - 1], mods, |out|, |out|, seen + FilesOf(visits), seen + FilesOf(visits), visits);
    ClosedOfWalked(fs, fileLabel, parts, dir, body, |body|, seen, mods, |out|, visits);
  }

  /**
    The `pub mod` branch of `collect_module_items`: an inline module is walked
    in place with `base/name` as its directory, and its record is the last one
    pushed; a file module is resolved under `base` and collected from its
    file, which is walked at `parts::name` unless it was walked before.
   */
  method CollectChild(fs: FileSystem, fileLabel: string, parts: seq<string>, base: Path, item: Item,
                      out: seq<ExtractModule>, seen: set<Path>)
    returns (r: Result<(), string>, out': seq<ExtractModule>, seen': set<Path>, ghost visits: seq<Visit>)
    requires item.Mod?
    decreases fs.Keys - seen, ItemSize(item) + 1, 0
    ensures Grows(out, out') && seen' == seen + FilesOf(visits) && FreshVisits(fs, seen, visits)
    ensures r.Ok? ==> AllAtOrBelow(out', |out|, parts + [item.ident])
    ensures r.Ok? ==> Recorded(fs, out', |out|, seen', visits) && VisitsAtOrBelow(visits, parts + [item.ident])
    ensures r.Ok? ==>
      && |out'| == |out| + (if item.content.Inline? then ModuleCount(item.content.items) else 0) + FilesCount(fs, visits)
      && AtsDistinct(visits)
    ensures item.content.Inline? && r.Ok? ==>
      && |out| < |out'| && out'[|out'| - 1] == ModuleRecord(fileLabel, parts + [item.ident], item.content.items)
      && Closed(fs, fileLabel, parts + [item.ident], Join(base, item.ident), item.content.items, |item.content.items|,
                seen', out', |out|)
    ensures item.content.External? && ResolveChildModuleFile(base, item.ident, fs.Keys).Err? ==>
      r == Err(ResolveChildModuleFile(base, item.ident, fs.Keys).error) && out' == out && visits == []
    ensures item.content.External? ==>
      var res := ResolveChildModuleFile(base, item.ident, fs.Keys);
      res.Ok? && res.value in seen ==> r.Ok? && out' == out && visits == []
    ensures item.content.External? && r.Ok? ==>
      var res := ResolveChildModuleFile(base, item.ident, fs.Keys);
      && res.Ok? && res.value in seen'
      && (res.value !in seen ==> VisitOf(visits, res.value).value.parts == parts + [item.ident])
      && (res.value !in seen ==>
            && res.value in fs && fs[res.value].Parsed? && |out| < |out'|
            && out'[|out'| - 1] == ModuleRecord(Display(res.value), parts + [item.ident], fs[res.value].items))
  {
    var childParts := parts + [item.ident];
    if item.content.Inline? {
      r, out', seen', visits := CollectModuleItems(fs, fileLabel, childParts, Join(base, item.ident), item.content.items, out, seen);
      if r.Ok? {
        InlineWalkClosed(fs, fileLabel, childParts, Join(base, item.ident), item.content.items, out, seen, out', visits);
      }
    } else {
      var child := ResolveChildModuleFile(base, item.ident, fs.Keys);
      if child.Err? {
        return Err(child.error), out, seen, [];
      }
      r, out', seen', visits := CollectModuleFile(fs, child.value, childParts, out, seen);
    }
  }

  /**
    `collect_module_file`: canonicalises the path, returns at once if that
    file was already walked, otherwise marks it walked, reads and parses it,
    and collects its items with the file's display name as the record label
    and `module_base_dir_for_file` of the path as the directory its `pub mod`
    children are resolved in.
   */
  method CollectModuleFile(fs: FileSystem, path: Path, parts: seq<string>, out: seq<ExtractModule>, seen: set<Path>)
    returns (r: Result<(), string>, out': seq<ExtractModule>, seen': set<Path>, ghost visits: seq<Visit>)
    decreases fs.Keys - seen, 0, 1
    ensures Grows(out, out') && seen' == seen + FilesOf(visits) && FreshVisits(fs, seen, visits)
    ensures path !in fs ==> r == Err(CanonicalizeError(path)) && out' == out && visits == []
    ensures path in fs && path in seen ==> r.Ok? && out' == out && visits == []
    ensures path in fs && path !in seen ==> path in FilesOf(visits) && VisitOf(visits, path).value.parts == parts
    ensures path in fs && path !in seen && fs[path].Unreadable? ==>
      r == Err("Failed to read module file " + Display(path) + ": " + fs[path].osError) && out' == out
    ensures path in fs && path !in seen && fs[path].Unparseable? ==>
      r == Err("Failed to parse Rust module " + Display(path) + ": " + fs[path].parseError) && out' == out
    ensures r.Ok? ==> AllAtOrBelow(out', |out|, parts)
    ensures r.Ok? ==> Recorded(fs, out', |out|, seen', visits) && VisitsAtOrBelow(visits, parts)
    ensures r.Ok? ==> |out'| == |out| + FilesCount(fs, visits) && AtsDistinct(visits)
    ensures r.Ok? && path !in seen ==>
      && path in fs && fs[path].Parsed? && |out| < |out'|
      && out'[|out'| - 1] == ModuleRecord(Display(path), parts, fs[path].items)
      && VisitOf(visits, path).value.at == |out'| - 1
      && AllUnder(out'[..|out'| - 1], |out|, parts, fs[path].items, |fs[path].items|)
      && ChildrenWalked(fs, Display(path), parts, ModuleBaseDir(path), fs[path].items, |fs[path].items|,
                        seen + {path}, out', |out|, visits)
  {
    if path !in fs {
      r, out', seen', visits := Err(CanonicalizeError(path)), out, seen, [];
    } else if path in seen {
      r, out', seen', visits := UnitOk, out, seen, [];
    } else {
      var canonical := path;
      if fs[canonical].Parsed? {
        r, out', seen', visits := CollectParsedFile(fs, canonical, fs[canonical].items, parts, out, seen);
      } else {
        visits := [Visit(canonical, parts, |out|)];
        FileVisits(fs, seen, canonical, parts, |out|, []);
        assert visits + [] == visits;
        out', seen' := out, seen + {canonical};
        if fs[canonical].Unreadable? {
          r := Err("Failed to read module file " + Display(canonical) + ": " + fs[canonical].osError);
        } else {
          r := Err("Failed to parse Rust module " + Display(canonical) + ": " + fs[canonical].parseError);
        }
      }
    }
  }

  /** The parsed branch of `collect_module_file`: the file, marked walked, has its items collected. */
  method CollectParsedFile(fs: FileSystem, path: Path, items: seq<Item>, parts: seq<string>,
                           out: seq<ExtractModule>, seen: set<Path>)
    returns (r: Result<(), string>, out': seq<ExtractModule>, seen': set<Path>, ghost visits: seq<Visit>)
    requires path in fs && fs[path] == Parsed(items) && path !in seen
    decreases fs.Keys - seen, 0, 0
    ensures Grows(out, out') && seen' == seen + FilesOf(visits) && FreshVisits(fs, seen, visits)
    ensures path in FilesOf(visits) && VisitOf(visits, path).value.parts == parts
    ensures r.Ok? ==> AllAtOrBelow(out', |out|, parts)
    ensures r.Ok? ==> Recorded(fs, out', |out|, seen', visits) && VisitsAtOrBelow(visits, parts)
    ensures r.Ok? ==> |out'| == |out| + FilesCount(fs, visits) && AtsDistinct(visits)
    ensures r.Ok? ==>
      && |out| < |out'| && out'[|out'| - 1] == ModuleRecord(Display(path), parts, items)
      && VisitOf(visits, path).value.at == |out'| - 1
      && AllUnder(out'[..|out'| - 1], |out|, parts, items, |items|)
      && ChildrenWalked(fs, Display(path), parts, ModuleBaseDir(path), items, |items|, seen + {path}, out', |out|, visits)
  {
    ghost var inner;
    r, out', seen', inner := CollectModuleItems(fs, Display(path), parts, ModuleBaseDir(path), items, out, seen + {path});
    ghost var at := if r.Ok? then |out'| - 1 else |out|;
    visits := [Visit(path, parts, at)] + inner;
    FileVisits(fs, seen, path, parts, at, inner);
    if r.Ok? {
      FileWalked(fs, seen, path, parts, items, out, out', inner);
    }
  }

  /** The file walked first, then the files its walk reached: all distinct, none walked before. */
  lemma FileVisits(fs: FileSystem, seen: set<Path>, path: Path, parts: seq<string>, at: nat, inner: seq<Visit>)
    requires path in fs && path !in seen && FreshVisits(fs, seen + {path}, inner)
    ensures var vs := [Visit(path, parts, at)] + inner;
      && FreshVisits(fs, seen, vs) && FilesOf(vs) == {path} + FilesOf(inner)
      && VisitOf(vs, path) == Some(Visit(path, parts, at))
  {
    var v := Visit(path, parts, at);
    assert [v][..0] == [];
    FilesOfLast([v][..0]);
    FilesOfLast([v]);
    assert FilesOf([v]) == {path} && FreshVisits(fs, seen, [v]);
    VisitsJoin(fs, seen, [v], inner);
    FreshDisjoint(fs, seen, [v], inner);
    VisitOfAppend([v], inner, path);
  }

  /** A parsed file whose items were walked: its own record last, then what its items' walk found. */
  lemma FileWalked(fs: FileSystem, seen: set<Path>, path: Path, parts: seq<string>, items: seq<Item>,
                   out: seq<ExtractModule>, mods: seq<ExtractModule>, inner: seq<Visit>)
    requires path in fs && fs[path] == Parsed(items)
    requires Grows(out, mods) && |out| < |mods| && mods[|mods| - 1] == ModuleRecord(Display(path), parts, items)
    requires Recorded(fs, mods[..|mods| - 1], |out|, seen + {path} + FilesOf(inner), inner)
    requires VisitsUnder(inner, parts, items, |items|)
    requires |mods| == |out| + ModuleCount(items) + FilesCount(fs, inner) && AtsDistinct(inner)
    requires ChildrenWalked(fs, Display(path), parts, ModuleBaseDir(path), items, |items|, seen + {path}, mods, |out|, inner)
    ensures var vs := [Visit(path, parts, |mods| - 1)] + inner;
      && Recorded(fs, mods, |out|, seen + {path} + FilesOf(inner), vs) && VisitsAtOrBelow(vs, parts)
      && |mods| == |out| + FilesCount(fs, vs) && AtsDistinct(vs)
      && ChildrenWalked(fs, Display(path), parts, ModuleBaseDir(path), items, |items|, seen + {path}, mods, |out|, vs)
  {
    var v := Visit(path, parts, |mods| - 1);
    var w := seen + {path} + FilesOf(inner);
    ClosedOfWalked(fs, Display(path), parts, ModuleBaseDir(path), items, |items|, seen + {path}, mods, |out|, inner);
    assert FileRecordAt(fs, mods, |out|, w, v);
    assert Recorded(fs, mods, |out|, w, [v]);
    VisitsAtOrBelowOfUnder(inner, parts, items, |items|);
    RecordedGrow(fs, mods[..|mods| - 1], mods, |out|, |out|, w, w, inner);
    RecordedConcat(fs, mods, |out|, w, [v], inner);
    assert [v][..0] == [];
    FilesCountAppend(fs, [v], inner);
    var vs := [v] + inner;
    forall j, k | 0 <= j < k < |vs| ensures vs[j].at != vs[k].at {
      assert vs[k] == inner[k - 1];
      if j == 0 {
        assert FileRecordAt(fs, mods[..|mods| - 1], |out|, w, inner[k - 1]);
      } else {
        assert vs[j] == inner[j - 1];
      }
    }
    ChildrenWalkedPrefix(fs, Display(path), parts, ModuleBaseDir(path), items, |items|, seen + {path}, mods, |out|, [v], inner);
  }

  /** What the walked children were found to be stays true when earlier visits are listed first. */
  lemma ChildrenWalkedPrefix(fs: FileSystem, fileLabel: string, parts: seq<string>, base: Path,
                             items: seq<Item>, bound: int, seen: set<Path>,
                             mods: seq<ExtractModule>, from: int, pre: seq<Visit>, vs: seq<Visit>)
    requires bound <= |items| && 0 <= from <= |mods|
    requires ChildrenWalked(fs, fileLabel, parts, base, items, bound, seen, mods, from, vs)
    ensures ChildrenWalked(fs, fileLabel, parts, base, items, bound, seen, mods, from, pre + vs)
  {
    forall i | 0 <= i < bound && IsPubMod(items[i])
      ensures ChildWalked(fs, fileLabel, parts, base, items, i, seen, mods, from, pre + vs)
    {
      assert ChildWalked(fs, fileLabel, parts, base, items, i, seen, mods, from, vs);
      var it := items[i];
      FilesOfAppend(pre, vs);
      if it.content.External? {
        var res := ResolveChildModuleFile(base, it.ident, fs.Keys);
        VisitOfAppend(pre, vs, res.value);
      } else {
        var body := it.content.items;
        ClosedGrow(fs, fileLabel, parts + [it.ident], Join(base, it.ident), body, |body|,
                   seen + FilesOf(vs), seen + FilesOf(pre + vs), mods, mods, from, from);
      }
    }
  }

  // ------------------------------------------------------------ the crate

  /** The module path as the final sort sees it: segments joined by "::", the root as "". */
  function PartsKey(parts: seq<string>): string {
    if parts == [] then "" else JoinWith(parts, "::")
  }

  /** Records are ordered by module path, then by file fileLabel. */
  function ModuleKey(m: ExtractModule): seq<string> {
    [PartsKey(m.parts), m.file]
  }

  lemma {:induction false} JoinWithAppend(a: seq<string>, b: seq<string>, sep: string)
    requires a != [] && b != []
    ensures JoinWith(a + b, sep) == JoinWith(a, sep) + sep + JoinWith(b, sep)
  {
    if |a| == 1 {
      assert (a + b)[1..] == b;
    } else {
      assert (a + b)[1..] == a[1..] + b;
      JoinWithAppend(a[1..], b, sep);
    }
  }

  lemma {:induction false} JoinWithStartsWithFirst(ws: seq<string>, sep: string)
    requires ws != []
    ensures |ws[0]| <= |JoinWith(ws, sep)| && JoinWith(ws, sep)[..|ws[0]|] == ws[0]
  {
    if |ws| > 1 {
      assert JoinWith(ws, sep) == ws[0] + (sep + JoinWith(ws[1..], sep));
    }
  }

  /**
    A module's key sorts strictly before the key of any module below it, since
    the parent's joined path is a proper prefix of the child's (or empty, for
    the crate root); module idents are never empty.
   */
  lemma ParentKeyFirst(parent: ExtractModule, child: ExtractModule)
    requires StrictlyExtends(parent.parts, child.parts) && child.parts[|parent.parts|] != ""
    ensures KeyLt(ModuleKey(parent), ModuleKey(child))
  {
    var p, c := parent.parts, child.parts;
    var rest := c[|p|..];
    assert c == p + rest;
    if p == [] {
      JoinWithStartsWithFirst(c, "::");
      assert PartsKey(c) != [];
    } else {
      JoinWithAppend(p, rest, "::");
      assert PartsKey(c) == PartsKey(p) + ("::" + JoinWith(rest, "::"));
      StrLtProperPrefix(PartsKey(p), "::" + JoinWith(rest, "::"));
    }
  }

  /** Every module comes before the modules below it (whose next path segment is a real, non-empty ident). */
  predicate ParentsFirst(s: seq<ExtractModule>) {
    forall i, j ::
      0 <= i < |s| && 0 <= j < |s| && StrictlyExtends(s[i].parts, s[j].parts) && s[j].parts[|s[i].parts|] != ""
      ==> i < j
  }

  /** In a list sorted by module key, every module comes before the modules below it. */
  lemma SortedParentsFirst(s: seq<ExtractModule>, i: int, j: int)
    requires SortedBy(s, ModuleKey) && 0 <= i < |s| && 0 <= j < |s|
    requires StrictlyExtends(s[i].parts, s[j].parts) && s[j].parts[|s[i].parts|] != ""
    ensures i < j
  {
    ParentKeyFirst(s[i], s[j]);
    if j < i {
      assert KeyLe(ModuleKey(s[j]), ModuleKey(s[i]));
      KeyLtAsymmetric(ModuleKey(s[i]), ModuleKey(s[j]));
      KeyLtIrreflexive(ModuleKey(s[i]));
    }
  }

  /** Sorting keeps every walked file's record among the results. */
  lemma RecordsKept(fs: FileSystem, walked: seq<ExtractModule>, sorted: seq<ExtractModule>, files: set<Path>, vs: seq<Visit>)
    requires Recorded(fs, walked, 0, files, vs) && multiset(sorted) == multiset(walked)
    ensures forall k :: 0 <= k < |vs| ==> 0 <= vs[k].at < |walked| && walked[vs[k].at] in sorted
  {
    forall k | 0 <= k < |vs| ensures 0 <= vs[k].at < |walked| && walked[vs[k].at] in sorted {
      assert FileRecordAt(fs, walked, 0, files, vs[k]);
      assert walked[vs[k].at] in multiset(walked);
    }
  }

  /** The final sort of `extract_modules`: a permutation, ordered by module key, parents first. */
  lemma CrateSorted(walked: seq<ExtractModule>, sorted: seq<ExtractModule>)
    requires sorted == SortByKey(walked, ModuleKey)
    ensures SortedBy(sorted, ModuleKey) && multiset(sorted) == multiset(walked) && ParentsFirst(sorted)
  {
    SortSortsAndPermutes(walked, ModuleKey);
    forall i, j | 0 <= i < |sorted| && 0 <= j < |sorted| && StrictlyExtends(sorted[i].parts, sorted[j].parts)
      && sorted[j].parts[|sorted[i].parts|] != ""
      ensures i < j
    {
      SortedParentsFirst(sorted, i, j);
    }
  }

  /** What the walk from the crate root established, carried through the final sort. */
  lemma CrateWalked(fs: FileSystem, root: Path, walked: seq<ExtractModule>, seen: set<Path>, visits: seq<Visit>,
                    sorted: seq<ExtractModule>)
    requires root in fs && seen == {} + FilesOf(visits) && FreshVisits(fs, {}, visits)
    requires root in FilesOf(visits) && VisitOf(visits, root).value.parts == []
    requires Recorded(fs, walked, 0, seen, visits)
    requires |walked| == 0 + FilesCount(fs, visits) && AtsDistinct(visits)
    requires fs[root].Parsed? && |walked| > 0 && walked[|walked| - 1] == ModuleRecord(Display(root), [], fs[root].items)
    requires ChildrenWalked(fs, Display(root), [], ModuleBaseDir(root), fs[root].items, |fs[root].items|,
                            {} + {root}, walked, 0, visits)
    requires sorted == SortByKey(walked, ModuleKey)
    ensures SortedBy(sorted, ModuleKey) && multiset(sorted) == multiset(walked) && ParentsFirst(sorted)
    ensures Recorded(fs, walked, 0, FilesOf(visits), visits) && |sorted| == FilesCount(fs, visits)
    ensures forall k :: 0 <= k < |visits| ==> 0 <= visits[k].at < |walked| && walked[visits[k].at] in sorted
    ensures ChildrenWalked(fs, Display(root), [], ModuleBaseDir(root), fs[root].items, |fs[root].items|,
                           {root}, walked, 0, visits)
  {
    CrateSorted(walked, sorted);
    EmptyUnion(FilesOf(visits));
    EmptyUnion({root});
    RecordsKept(fs, walked, sorted, seen, visits);
    PermutationLength(walked, sorted);
  }

  /** A solver hint: the walk starts from no files seen. */
  lemma EmptyUnion(a: set<Path>)
    ensures {} + a == a
  {}

  lemma PermutationLength<T>(a: seq<T>, b: seq<T>)
    requires multiset(a) == multiset(b)
    ensures |a| == |b|
  {
    assert |a| == |multiset(a)| == |multiset(b)| == |b|;
  }

  function RootFile(crateRoot: Path): Path {
    Join(Join(crateRoot, "src"), "lib.rs")
  }

  /**
    `extract_modules`: walks the crate from `src/lib.rs` beside the manifest
    and returns every record, sorted by module key. `walked` is the list of
    records in the order the walk pushed them and `visits` the files walked,
    the crate root first: each file once, each with its own record among the
    results, and every `pub mod` of the root walked, file modules resolved
    beside `src/lib.rs`.
   */
  method ExtractModules(fs: FileSystem, manifest: Path)
    returns (r: Result<seq<ExtractModule>, string>, ghost walked: seq<ExtractModule>, ghost visits: seq<Visit>)
    ensures Parent(manifest).None? ==> r == Err("Manifest path has no parent directory: " + Display(manifest))
    ensures Parent(manifest).Some? && RootFile(Parent(manifest).value) !in fs ==>
      r == Err("Missing library root " + Display(RootFile(Parent(manifest).value)) + " (expected src/lib.rs).")
    ensures r.Ok? ==>
      && Parent(manifest).Some?
      && var root := RootFile(Parent(manifest).value);
      && root in fs && fs[root].Parsed?
      && |walked| > 0 && walked[|walked| - 1] == ModuleRecord(Display(root), [], fs[root].items)
      && SortedBy(r.value, ModuleKey)
      && multiset(r.value) == multiset(walked)
    ensures r.Ok? ==> ParentsFirst(r.value)
    ensures r.Ok? ==>
      && var root := RootFile(Parent(manifest).value);
      && root in FilesOf(visits) && VisitOf(visits, root).value.parts == []
      && FreshVisits(fs, {}, visits) && Recorded(fs, walked, 0, FilesOf(visits), visits) && AtsDistinct(visits)
      && |r.value| == FilesCount(fs, visits)
      && (forall k :: 0 <= k < |visits| ==> 0 <= visits[k].at < |walked| && walked[visits[k].at] in r.value)
      && ChildrenWalked(fs, Display(root), [], ModuleBaseDir(root), fs[root].items, |fs[root].items|,
                        {root}, walked, 0, visits)
  {
    walked, visits := [], [];
    var parent := Parent(manifest);
    if parent.None? {
      r := Err("Manifest path has no parent directory: " + Display(manifest));
    } else {
      var rootFile := RootFile(parent.value);
      if rootFile !in fs {
        r := Err("Missing library root " + Display(rootFile) + " (expected src/lib.rs).");
      } else {
        var res, modules, seen;
        res, modules, seen, visits := CollectModuleFile(fs, rootFile, [], [], {});
        if res.Err? {
          r := Err(res.error);
        } else {
          walked := modules;
          var sorted := SortByKey(modules, ModuleKey);
          CrateWalked(fs, rootFile, walked, seen, visits, sorted);
          r := Ok(sorted);
        }
      }
    }
  }
}
