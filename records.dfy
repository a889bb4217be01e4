/** The records the extractor emits (one JSON object each) and its diagnostics. */
module Records {

  /** A construct that was skipped because the output schema cannot express it. */
  datatype SkipIssue = SkipIssue(file: string, kind: string, snippet: string, reason: string)

  datatype ExtractField = ExtractField(name: string, typeText: string)

  datatype ExtractFunction = ExtractFunction(
    name: string,
    typeParams: seq<string>,
    params: seq<ExtractField>,
    returnType: string)

  datatype ExtractStruct = ExtractStruct(name: string, typeParams: seq<string>, fields: seq<ExtractField>)

  datatype ExtractEnum = ExtractEnum(name: string, typeParams: seq<string>, variants: seq<string>)

  datatype ExtractTrait = ExtractTrait(
    name: string,
    typeParams: seq<string>,
    superTraits: seq<string>,
    methods: seq<ExtractFunction>)

  /** The public methods of one inherent impl block, for the type named `target`. */
  datatype PendingMethods = PendingMethods(target: string, methods: seq<ExtractFunction>)

  datatype ExtractModule = ExtractModule(
    file: string,
    parts: seq<string>,
    consts: seq<ExtractField>,
    enums: seq<ExtractEnum>,
    structs: seq<ExtractStruct>,
    traits: seq<ExtractTrait>,
    functions: seq<ExtractFunction>,
    pendingMethods: seq<PendingMethods>,
    issues: seq<SkipIssue>)

  /** Number of issues of the given kind. */
  function CountKind(issues: seq<SkipIssue>, kind: string): (n: nat)
    ensures n <= |issues|
  {
    if issues == [] then 0
    else CountKind(issues[..|issues| - 1], kind) + (if issues[|issues| - 1].kind == kind then 1 else 0)
  }

  lemma {:induction false} CountKindAppend(a: seq<SkipIssue>, b: seq<SkipIssue>, kind: string)
    ensures CountKind(a + b, kind) == CountKind(a, kind) + CountKind(b, kind)
    decreases |b|
  {
    if b != [] {
      assert (a + b)[..|a + b| - 1] == a + b[..|b| - 1];
      CountKindAppend(a, b[..|b| - 1], kind);
    } else {
      assert a + b == a;
    }
  }

  /** An issue list in which no issue has the given kind counts zero of it. */
  lemma {:induction false} CountKindAbsent(issues: seq<SkipIssue>, kind: string)
    requires forall k :: 0 <= k < |issues| ==> issues[k].kind != kind
    ensures CountKind(issues, kind) == 0
    decreases |issues|
  {
    if issues != [] {
      CountKindAbsent(issues[..|issues| - 1], kind);
    }
  }
}
