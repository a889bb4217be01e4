# tsubabindgen rust-extractor, modelled in Dafny

The rust-extractor is the Rust half of `tsubabindgen`. It is given a crate's `Cargo.toml`. It walks the
crate's module tree, starting at `src/lib.rs`, and describes every public module as one record:
- its constants, structs, enums, traits and free functions;
- its inherent-impl method blocks ("pending methods");
- the items it could not represent ("skip issues").

Every record names the file it came from and the module path (`parts`) it lives at. The records
are then sorted by module path and file.

This project models that core on values:

| file | module | what it holds |
|---|---|---|
| `syntax.dfy` | `Syntax` | The part of the `syn` syntax tree the extractor looks at. Token text that the extractor only prints (types, patterns, bounds, generic parameters) is carried as text. |
| `records.dfy` | `Records` | The output records, and `CountKind`, the number of issues of one kind. |
| `text.dfy` | `Text` | `normalize_ws`: `split_whitespace` followed by `join(" ")`. |
| `ordering.dfy` | `Ordering` | Lexicographic string order, and the stable sort that `sort_by` performs. |
| `paths.dfy` | `Paths` | The path operations used (`join`, `parent`, `file_name`, `file_stem`, `display`), plus child-module resolution and the base directory of a module file. |
| `classify.dfy` | `Classify` | The per-item parsers: `parse_type_params`, `parse_signature`, `parse_struct`, `parse_enum`, `parse_trait` and `parse_impl`. |
| `walker.dfy` | `Walker` | `collect_module_items`, `collect_module_file` and `extract_modules`, over a file system given as a map from paths to file contents. |
| `fixtures.dfy` | `Fixtures` | Concrete cases from the extractor's test crates. |

Each parser is modelled twice:
- a method with the source's loop, which threads the `&mut Vec<SkipIssue>` through as an
  in/out value;
- a function that specifies what that loop produces.

Lemmas about the functions then state what the extractor promises. Examples:
- every generic parameter is either kept or reported;
- every payload variant is reported once;
- impl blocks for one target keep their order after sorting;
- a parent module is listed before its children.

A child module can resolve to a file named `main.rs`, `lib.rs` or `mod.rs` (for example
`pub mod main;` resolving to `src/main.rs`). Such a module takes its parent's directory as its own
base directory, so its children are looked up beside it rather than under `src/main/`. This
follows from `module_base_dir_for_file` and is stated by `Paths.RootNamedChildQuirk`. The model
keeps this behaviour as written.

String comparison in `sort_by` is byte-wise over UTF-8, which orders strings exactly as code-point
order does. The model compares `char`s.

## Model

| member | source | states |
|---|---|---|
| Classify.TypeText | packages/tsubabindgen/rust-extractor/src/main.rs:109-111 | A type's text is whitespace-normal and has exactly the whitespace-separated words of the token text, in order. |
| Text.NormalizeWs | packages/tsubabindgen/rust-extractor/src/main.rs:105-107 | `normalize_ws` returns whitespace-normal text (no leading or trailing whitespace, single spaces only) with exactly the whitespace-separated words of its input, in order, and so exactly its visible characters. |
| Text.NormalizeIdempotent | packages/tsubabindgen/rust-extractor/src/main.rs:105-107 | Normalising twice gives the same text as normalising once. |
| Text.NormalizeFixesNormalized | packages/tsubabindgen/rust-extractor/src/main.rs:105-107 | Text that is already whitespace-normal comes back unchanged. |
| Text.WordsOfJoin | packages/tsubabindgen/rust-extractor/src/main.rs:105-107 | Splitting on whitespace undoes joining words with one space (round trip). |
| Classify.ReturnTypeText | packages/tsubabindgen/rust-extractor/src/main.rs:113-118 | A missing return type reads as `()`. A written one becomes whitespace-normal text with exactly the words of the type's token text, in order. |
| Classify.ParseConst | packages/tsubabindgen/rust-extractor/src/main.rs:197-202 | A const keeps its name, and its type text is whitespace-normal with exactly the words of the type's token text, in order. |
| Classify.MacroStub | packages/tsubabindgen/rust-extractor/src/main.rs:89-99 | An exported macro becomes a non-generic function named after the macro, with one parameter whose type is also its return type. |
| Classify.HasMacroExport | packages/tsubabindgen/rust-extractor/src/main.rs:332-336 | A macro is exported iff one of its attributes has the one-segment path `macro_export`. |
| Classify.ParseTypeParams | packages/tsubabindgen/rust-extractor/src/main.rs:120-150 | The loop yields the type-parameter idents in order. It appends one generic issue per lifetime or const parameter, and the caller's issues are kept as a prefix. |
| Classify.TypeParamsAccounted | packages/tsubabindgen/rust-extractor/src/main.rs:120-150 | A name is among the type params iff a type parameter with that ident is declared. Names plus issues account for every parameter exactly once. Every issue has kind "generic" and names the file. |
| Classify.TypeParamNamesAccounted | packages/tsubabindgen/rust-extractor/src/main.rs:128-131 | A name is kept iff a type parameter with that name is declared. The number kept is the number of parameters minus the unsupported ones. |
| Classify.GenericIssuesAccounted | packages/tsubabindgen/rust-extractor/src/main.rs:132-147 | There is one issue per lifetime or const parameter, each with kind "generic" and the given file. |
| Classify.ParamsOneForOne | packages/tsubabindgen/rust-extractor/src/main.rs:154-188 | Each input produces exactly one parameter record, at the same position. |
| Classify.ParamIssuesAccounted | packages/tsubabindgen/rust-extractor/src/main.rs:169-178 | There is one "param" issue per typed argument whose pattern is not an identifier. Each issue names the file. |
| Classify.ParseParams | packages/tsubabindgen/rust-extractor/src/main.rs:154-188 | The parameter loop yields the specified parameter records and appends the specified issues after the caller's. |
| Classify.ParseSignature | packages/tsubabindgen/rust-extractor/src/main.rs:152-195 | `parse_signature` yields the specified function record, appending generic issues and then param issues. |
| Classify.SignatureContract | packages/tsubabindgen/rust-extractor/src/main.rs:152-195 | The name is the ident and there is one parameter per input. A receiver is named `&mut self`, `&self` or `self` with type `self`. A typed argument keeps its ident, or is named `unsupported`. The default return is `()`. The issues are exactly the param and generic issues, counted per cause. |
| Classify.SignatureIssueKinds | packages/tsubabindgen/rust-extractor/src/main.rs:152-195 | Every issue of a signature is "generic" or "param" and names the file. |
| Classify.PublicFieldsExactly | packages/tsubabindgen/rust-extractor/src/main.rs:207-219 | The named fields kept are exactly the public named ones: each is present, nothing else enters, and the count matches. |
| Classify.PublicFieldsInOrder | packages/tsubabindgen/rust-extractor/src/main.rs:207-219 | The kept fields follow declaration order: a public named field lands at the position given by the number of public named fields before it. |
| Classify.ParseNamedFields | packages/tsubabindgen/rust-extractor/src/main.rs:207-219 | The field loop yields exactly the specified public-field records. |
| Classify.ParseStruct | packages/tsubabindgen/rust-extractor/src/main.rs:204-235 | `parse_struct` yields the specified struct record and appends the specified issues. |
| Classify.StructContract | packages/tsubabindgen/rust-extractor/src/main.rs:204-235 | Named fields: public fields are kept and there is no struct issue. Tuple struct: no fields and exactly one "struct" issue. Unit struct: no fields and no struct issue. Generic issues are counted as for type params. |
| Classify.ParseVariants | packages/tsubabindgen/rust-extractor/src/main.rs:239-250 | The variant loop yields the specified variant names and payload issues. |
| Classify.ParseEnum | packages/tsubabindgen/rust-extractor/src/main.rs:237-256 | `parse_enum` yields the specified enum record and appends the specified issues. |
| Classify.VariantsAccounted | packages/tsubabindgen/rust-extractor/src/main.rs:239-250 | Every variant name is kept, in order. There is one "enum" issue per payload variant, and each issue names such a variant. |
| Classify.EnumContract | packages/tsubabindgen/rust-extractor/src/main.rs:237-256 | The variants are all variant names. The "enum" issues count the payload variants; the "generic" issues count lifetime and const params. |
| Classify.SuperTraitTextsNormalized | packages/tsubabindgen/rust-extractor/src/main.rs:277-282 | There is one supertrait text per bound, in bound order, each whitespace-normal and with exactly the words of the bound's token text. |
| Classify.ParseTraitMembers | packages/tsubabindgen/rust-extractor/src/main.rs:262-275 | The member loop yields the specified type params, methods and issues. |
| Classify.ParseTrait | packages/tsubabindgen/rust-extractor/src/main.rs:258-292 | `parse_trait` yields the specified trait record and appends the specified issues. |
| Classify.TraitTypeParams | packages/tsubabindgen/rust-extractor/src/main.rs:265-270 | Declared type params stay first. Every associated type name is present and no other name enters. Duplicates are never added. |
| Classify.TraitMethodsKept | packages/tsubabindgen/rust-extractor/src/main.rs:264 | Each method member contributes one method record, and every method member's signature is present. |
| Classify.TraitMethodsInOrder | packages/tsubabindgen/rust-extractor/src/main.rs:262-275 | The trait's methods follow member order: a method member lands right after the methods of the members before it. |
| Classify.TraitMembersMethods | packages/tsubabindgen/rust-extractor/src/main.rs:262-275 | The member loop appends to the starting methods exactly the signatures of the method members, in member order. |
| Classify.TraitFnSigsInOrder | packages/tsubabindgen/rust-extractor/src/main.rs:262-275 | There is one signature per method member, and a method member's signature sits at the position given by the number of method members before it. |
| Classify.TraitFnSigsCount | packages/tsubabindgen/rust-extractor/src/main.rs:262-275 | There are as many method signatures as method members. |
| Classify.TraitOthersReported | packages/tsubabindgen/rust-extractor/src/main.rs:271-276 | The "trait" issues are exactly one per member that is neither a method nor an associated type. |
| Classify.TraitContract | packages/tsubabindgen/rust-extractor/src/main.rs:258-292 | Combines the above for a whole trait. With duplicate-free declared params, the type params are duplicate-free and contain every associated type. Methods and "trait" issues are counted per member. There is one supertrait per bound. |
| Classify.ParseImplMethods | packages/tsubabindgen/rust-extractor/src/main.rs:316-324 | The method loop yields the specified public-method records and their issues. |
| Classify.ParseImpl | packages/tsubabindgen/rust-extractor/src/main.rs:294-330 | `parse_impl` yields the specified optional entry and issues. |
| Classify.ImplMethodsAccounted | packages/tsubabindgen/rust-extractor/src/main.rs:316-324 | There is one method per public `fn` item, and each is present. Without a public `fn` there are no issues. |
| Classify.ImplMethodsInOrder | packages/tsubabindgen/rust-extractor/src/main.rs:316-324 | The impl's methods follow item order: a public `fn` lands at the position given by the number of public `fn`s before it. |
| Classify.ImplContract | packages/tsubabindgen/rust-extractor/src/main.rs:294-330 | A trait impl gives nothing and no issue. A non-path target gives nothing and one "impl" issue. An entry exists iff the impl is inherent, has a path target and has a public `fn`. The target is the last path segment, with one method per public `fn`. |
| Classify.StructIssueLabels | packages/tsubabindgen/rust-extractor/src/main.rs:204-235 | Struct issues are "generic" or "struct" and name the file. |
| Classify.EnumIssueLabels | packages/tsubabindgen/rust-extractor/src/main.rs:237-256 | Enum issues are "generic" or "enum" and name the file. |
| Classify.TraitIssueLabels | packages/tsubabindgen/rust-extractor/src/main.rs:258-292 | Trait issues are "generic", "param" or "trait" and name the file. |
| Classify.ImplIssueLabels | packages/tsubabindgen/rust-extractor/src/main.rs:294-330 | Impl issues are "generic", "param" or "impl" and name the file. |
| Paths.ResolveChildModuleFile | packages/tsubabindgen/rust-extractor/src/main.rs:338-351 | Ok iff `base/name.rs` or `base/name/mod.rs` exists. The result exists, and `name.rs` wins over `mod.rs`. |
| Paths.ResolvedChildBaseDir | packages/tsubabindgen/rust-extractor/src/main.rs:338-364 | A resolved child file named other than mod, lib or main has `base/name` as its own base directory, whichever form was found. |
| Paths.ModuleBaseDirShape | packages/tsubabindgen/rust-extractor/src/main.rs:353-364 | A file's base directory is its own directory iff the file is `mod.rs`, `lib.rs` or `main.rs`. Otherwise it is one level below, named by the file stem. A path without a file name falls back to `./module`. |
| Paths.RsFileStem | packages/tsubabindgen/rust-extractor/src/main.rs:359-363 | The file stem of `name.rs` is `name`. |
| Paths.RootNamedChildQuirk | packages/tsubabindgen/rust-extractor/src/main.rs:353-364 | A child module file named `main.rs` has its parent's directory, not `base/main`, as its base directory. |
| Ordering.SortSortsAndPermutes | packages/tsubabindgen/rust-extractor/src/main.rs:444-448 | The sort returns a sorted permutation of its input. |
| Ordering.SortIsStable | packages/tsubabindgen/rust-extractor/src/main.rs:502-514 | Elements with equal keys keep their relative order, as `sort_by` guarantees. |
| Ordering.KeyLtTotal | packages/tsubabindgen/rust-extractor/src/main.rs:502-514 | The key order (`cmp`, then `then`) is total. |
| Ordering.KeyLtTransitive | packages/tsubabindgen/rust-extractor/src/main.rs:502-514 | The key order is transitive. |
| Walker.ClassifyLeaf | packages/tsubabindgen/rust-extractor/src/main.rs:406-440 | Each non-`pub mod` item updates the record as specified by `ClassifyItem`. |
| Walker.FoldCounts | packages/tsubabindgen/rust-extractor/src/main.rs:406-422 | Each public const, struct, enum and trait adds one entry to its list. Each public fn and each named exported macro adds one function. |
| Walker.FoldPending | packages/tsubabindgen/rust-extractor/src/main.rs:423-427 | The pending list grows by the impl entries, in item order. |
| Walker.StepIssues | packages/tsubabindgen/rust-extractor/src/main.rs:406-440 | One item appends its issues after the record's. They have one of the known kinds and name the file. A "macro" issue appears iff the item is an exported macro without a name. |
| Walker.FoldIssues | packages/tsubabindgen/rust-extractor/src/main.rs:386-442 | Issues only grow, keep the known kinds and the file, and "macro" issues count the unnamed exported macros. |
| Walker.ModuleRecordContents | packages/tsubabindgen/rust-extractor/src/main.rs:366-451 | A module record keeps its file and parts. Its list sizes equal the counts of public items of each kind, and its issues are labelled with the file and the known kinds. |
| Walker.ImplBlocksKeptApart | packages/tsubabindgen/rust-extractor/src/main.rs:444-448 | Pending entries are sorted by target and are a permutation of the impl entries. Entries for one target keep their item order. |
| Walker.InertItemIgnored | packages/tsubabindgen/rust-extractor/src/main.rs:101-440 | Private items (any visibility but `Visibility::Public`, as `is_public` tests), `mod` items (their records are pushed separately), unexported macros and unsupported items leave the module's own record exactly as if absent. |
| Walker.FoldExtends | packages/tsubabindgen/rust-extractor/src/main.rs:366-442 | Classifying items only appends to the record. The file and parts stay, and every list keeps its earlier entries as a prefix. |
| Walker.MacroItemClassified | packages/tsubabindgen/rust-extractor/src/main.rs:428-439 | A macro without `#[macro_export]` changes nothing. A named exported macro adds its stub function and no issue. An unnamed one adds one "macro" issue naming the file and no function. No other list changes. |
| Walker.FoldAppend | packages/tsubabindgen/rust-extractor/src/main.rs:386-442 | Classifying a concatenation is classifying the parts in turn. |
| Walker.CollectModuleItems | packages/tsubabindgen/rust-extractor/src/main.rs:366-451 | The output only grows. The files walked are exactly the ones added to `seen`, each new, each listed once, each at its own record index, and the number of records pushed is the module's own records plus those of the walked files. On success the last record is this module's record, every walked file has its own record, and every `pub mod` item was walked at any depth: inline bodies recursively, file modules to a walked file (see `ChildWalked`). Without a `pub mod`, exactly that one record is pushed. |
| Walker.ItemsFinish | packages/tsubabindgen/rust-extractor/src/main.rs:444-450 | Pushing the module's finished record after its items keeps the pushed records at or below `parts`, counts them, and keeps every `pub mod` walked. |
| Walker.CollectItem | packages/tsubabindgen/rust-extractor/src/main.rs:387-440 | One loop step keeps the loop's invariant. The body so far is classified one item further, the new visits are fresh with distinct record indices, and a `pub mod` item is walked at any depth. |
| Walker.ChildStep | packages/tsubabindgen/rust-extractor/src/main.rs:388-405 | After a `pub mod` item's walk, the walked files still have their records at distinct indices, the record count grows by the child's records, and this item joins the walked children. |
| Walker.ChildStepRecords | packages/tsubabindgen/rust-extractor/src/main.rs:388-405 | After a `pub mod` item's walk, every walked file keeps its own record, record indices stay distinct, and the records pushed are counted by the inline module count plus the newly walked files. |
| Walker.ChildStepWalked | packages/tsubabindgen/rust-extractor/src/main.rs:388-405 | After a `pub mod` item's walk, the earlier walked children stay walked and this child is walked too. |
| Walker.InlineChildWalked | packages/tsubabindgen/rust-extractor/src/main.rs:391-401 | An inline `pub mod` whose record was pushed last and whose body is closed counts as walked. |
| Walker.ExternalChildWalked | packages/tsubabindgen/rust-extractor/src/main.rs:403-404 | A `pub mod name;` whose resolved file was seen before, walked by an earlier sibling, or walked now at `parts::name` counts as walked. |
| Walker.LeafStep | packages/tsubabindgen/rust-extractor/src/main.rs:406-440 | An item other than `pub mod` leaves the walked children and the visits as they were. |
| Walker.VisitsJoin | packages/tsubabindgen/rust-extractor/src/main.rs:386-405 | Visits of two walks, the second fresh after the first, are fresh together and cover the union of their files. |
| Walker.ChildrenWalkedGrow | packages/tsubabindgen/rust-extractor/src/main.rs:386-405 | A walked child stays walked as records and disjoint visits follow. |
| Walker.ChildrenWalkedPrefix | packages/tsubabindgen/rust-extractor/src/main.rs:386-405 | A walked child stays walked when earlier visits are listed before. |
| Walker.ClosedGrow | packages/tsubabindgen/rust-extractor/src/main.rs:386-405 | A module found closed (every `pub mod` at any depth walked) stays closed as records are pushed and files are walked. |
| Walker.ClosedOfWalked | packages/tsubabindgen/rust-extractor/src/main.rs:386-405 | Walked children make the module closed: every `pub mod` at any depth has its record or its file among the walked ones. |
| Walker.RecordedGrow | packages/tsubabindgen/rust-extractor/src/main.rs:453-482 | Each walked file keeps its own record and its closed `pub mod`s as more records are pushed and more files walked. |
| Walker.RecordedConcat | packages/tsubabindgen/rust-extractor/src/main.rs:453-482 | Two lists of visits whose files have their records together have their records. |
| Walker.AtsJoin | packages/tsubabindgen/rust-extractor/src/main.rs:386-405 | Visits recorded before a child's walk and visits recorded during it keep distinct record indices. |
| Walker.FilesCountAppend | packages/tsubabindgen/rust-extractor/src/main.rs:386-405 | The records of two lists of walked files add up. |
| Walker.FilesOfAppend | packages/tsubabindgen/rust-extractor/src/main.rs:386-405 | The files of two lists of visits are the union of their files. |
| Walker.VisitOfAppend | packages/tsubabindgen/rust-extractor/src/main.rs:386-405 | A file's visit in two lists of visits is its visit in the later list if it is there, and otherwise in the earlier one. |
| Walker.FreshDisjoint | packages/tsubabindgen/rust-extractor/src/main.rs:453-482 | Visits fresh after earlier visits share no file with them. |
| Walker.FreshNotSeen | packages/tsubabindgen/rust-extractor/src/main.rs:453-482 | A file of fresh visits exists and was not walked before. |
| Walker.RecordedVisit | packages/tsubabindgen/rust-extractor/src/main.rs:453-482 | A walked file's visit points at that file's own record. |
| Walker.CollectChild | packages/tsubabindgen/rust-extractor/src/main.rs:388-405 | An inline `pub mod` ends with the child's own record and its body closed at any depth. A file module either fails with the resolution error and pushes nothing, or returns Ok pushing nothing when its file was walked before, or walks its newly resolved file at `parts::name` with that file's record last. Only records at or below `parts::name` are pushed, one per record index, counted per walked file. |
| Walker.InlineWalkClosed | packages/tsubabindgen/rust-extractor/src/main.rs:391-401 | The walk of an inline module's body, with its record pushed last, keeps every walked file recorded and leaves the module closed at any depth. |
| Walker.CollectModuleFile | packages/tsubabindgen/rust-extractor/src/main.rs:453-482 | A missing file fails to canonicalize. A file already seen returns Ok and changes nothing. Otherwise the file is marked seen and walked once at `parts`. Read and parse failures give their messages. Success ends with the file's record labelled by its display name, at the file's own visit index, with every `pub mod` of the file walked at any depth from its base directory, and one record per index counted per walked file. |
| Walker.CollectParsedFile | packages/tsubabindgen/rust-extractor/src/main.rs:473-481 | A parsed file is walked from its base directory. It is its own first visit, and on success its record is pushed last. |
| Walker.FileVisits | packages/tsubabindgen/rust-extractor/src/main.rs:453-482 | Listing a file ahead of its children's visits keeps the visits fresh and adds exactly that file. |
| Walker.FileWalked | packages/tsubabindgen/rust-extractor/src/main.rs:453-482 | A walked file's record and its children's records are all recorded, and its children stay walked. |
| Walker.ParentKeyFirst | packages/tsubabindgen/rust-extractor/src/main.rs:502-514 | A module's key sorts before the key of any module below it. |
| Walker.SortedParentsFirst | packages/tsubabindgen/rust-extractor/src/main.rs:502-514 | In a list sorted by module key, a parent precedes its descendants. |
| Walker.ExtractModules | packages/tsubabindgen/rust-extractor/src/main.rs:484-516 | Reports a missing manifest parent and a missing `src/lib.rs`. On success the root was walked at the crate path; every walked file was walked once, has its own record at its own index, and that record is among the results; every `pub mod` of the root and of every walked file was walked at any depth. The result has one record per record index of the walk, sorted by (path, file), with parents before children. |
| Walker.CrateWalked | packages/tsubabindgen/rust-extractor/src/main.rs:502-515 | The walk's promises survive the final sort: a sorted permutation with parents first, as many results as walked records, and every walked file's record among them. |
| Walker.RecordsKept | packages/tsubabindgen/rust-extractor/src/main.rs:502-515 | Sorting keeps every walked file's record among the results. |
| Walker.CrateSorted | packages/tsubabindgen/rust-extractor/src/main.rs:502-514 | The final sort returns a permutation, ordered by module key, with parents first. |
| Fixtures.EdgeConstGeneric | test/fixtures/bindgen/@tsuba/edge/crate/src/lib.rs:3-5 | `Bytes<const N: usize>` has no type params, one field `data`, and exactly one "generic" issue naming `Struct 'Bytes' const`. |
| Fixtures.EdgePayloadVariant | test/fixtures/bindgen/@tsuba/edge/crate/src/lib.rs:7-10 | `Event` keeps both variants, and only `Message` is reported. |
| Fixtures.TraitsAssociatedType | test/fixtures/bindgen/@tsuba/traits/crate/src/lib.rs:5-8 | `IteratorLike` gets type param `Item` and method `next(&mut self)`, with no issue. |
| Fixtures.AdvancedTraitImpl | test/fixtures/bindgen/@tsuba/advanced/crate/src/lib.rs:39-43 | A trait impl yields no entry and no issue. |
| Fixtures.SimplePointMethods | test/fixtures/bindgen/@tsuba/simple/crate/src/lib.rs:12-24 | `impl Point` yields one entry for `Point` with `new`, `sum` and `origin`, in order, and no issue. |
| Fixtures.SimpleMathModule | test/fixtures/bindgen/@tsuba/simple/crate/src/lib.rs:31 | `pub mod math;` resolves to `src/math.rs`, whose base directory is `src/math`. |
| Fixtures.SimpleCrateModules | test/fixtures/bindgen/@tsuba/simple/crate/src/lib.rs:1-31 | A successful extraction of the `simple` crate holds the record of `src/math.rs` at module path `math`, and the root record of `src/lib.rs`: const `ANSWER: i32`, function `add(a: i32, b: i32) -> i32`, struct `Point` with `x` and `y`, enum `Color` with `Red` and `Green`, one pending entry for `Point` with `new`, `sum` and `origin`, and no issue. |
| Fixtures.SimpleRootRecord | test/fixtures/bindgen/@tsuba/simple/crate/src/lib.rs:1-31 | The module record of `src/lib.rs` holds exactly the const, function, struct, enum and `Point` methods listed above, and no issue. |
| Fixtures.SimpleRootBody | test/fixtures/bindgen/@tsuba/simple/crate/src/lib.rs:1-31 | Classifying the six items of `src/lib.rs` in order yields that record before sorting; `pub mod math;` adds nothing to it. |
| Fixtures.SimpleCrateLayout | test/fixtures/bindgen/@tsuba/simple/crate/src/lib.rs:31 | The walk of the `simple` crate starts at `src/lib.rs` beside `Cargo.toml`, and `pub mod math;` resolves to `src/math.rs`. |
| Fixtures.SimpleCrateWalked | test/fixtures/bindgen/@tsuba/simple/crate/src/lib.rs:31 | In a crate whose root holds one `pub mod math;` as its last item, the walk's promises put both the root record and the record of `math` at module path `math` among the results. |
| Fixtures.SimpleLibShape | test/fixtures/bindgen/@tsuba/simple/crate/src/lib.rs:1-31 | `src/lib.rs` holds six items, and only the last, `pub mod math;`, is a `pub mod`. |
| Fixtures.PointStructParsed | test/fixtures/bindgen/@tsuba/simple/crate/src/lib.rs:7-10 | `Point` keeps both public fields `x: i32` and `y: i32`, in order, and raises no issue. |
| Fixtures.ColorEnumParsed | test/fixtures/bindgen/@tsuba/simple/crate/src/lib.rs:26-29 | `Color` keeps the unit variants `Red` and `Green`, in order, and raises no issue. |
| Fixtures.PointMethodList | test/fixtures/bindgen/@tsuba/simple/crate/src/lib.rs:12-24 | The methods of `impl Point` are the signatures of `new`, `sum` and `origin`, in order, and `sum` has the one parameter `&self`. |
| Fixtures.PointMethodsRaiseNothing | test/fixtures/bindgen/@tsuba/simple/crate/src/lib.rs:12-24 | `impl Point` raises no issue. |
| Fixtures.I32Text | test/fixtures/bindgen/@tsuba/simple/crate/src/lib.rs:1 | The type text of `i32` is `i32`. |

## Left out

- `run` and `main` (argument handling, the usage error, JSON serialisation with `serde`, printing, the exit code) are not part of this model.
- Parsing with `syn` and token rendering with `quote` are not modelled. Token text of types, patterns, generic parameters, supertrait bounds, other trait members and non-path impl targets is carried in the syntax tree as given text.
- `Source.Unparseable` carries `syn`'s parse error text as data.
- The file system is a map from paths to file contents (parsed, unreadable with an OS error text, or unparseable with a parse error text). It holds files only. `Path::exists` on a directory at `src/lib.rs`, `name.rs` or `name/mod.rs` is not modelled.
- Walker.CollectModuleFile: `fs::canonicalize` is the identity on paths. Symlinks and `..` segments are not resolved, so two spellings of one file count as two files. The "not found" error text is the fixed text of OS error 2.
- Walker.CollectModuleItems: on an error, the output is described only up to growth of the list and of the seen set. The records pushed before the error are not otherwise described (the source discards them too).
- Walker.ExtractModules: the set of records is described through the walk (`walked`, `visits`), not as a closed form over the crate's module tree. `to_string_lossy` is taken to be `display`.
- Walker.ExtractModules: uniqueness of the records is stated per record index (each walked file has its own index, the indices are distinct, and the result count is the sum of the walked files' record counts), not as distinctness of the record values: two modules with identical contents give equal values, as they do in the source.
- Walker.ExtractModules: success of a whole crate is not stated as a closed-form condition, so `Fixtures.SimpleCrateModules` states what a successful extraction holds.
- Walker.CollectItem, Walker.CollectParsedFile: the loop body of `collect_module_items` and the parsed branch of `collect_module_file` are helper methods, so that each proof stays small. They do not change what is computed.
- Classify.TraitContract: duplicate-freedom of the type params is stated only for duplicate-free declared generic params. `syn::parse_file` accepts duplicate generic names, and `parse_type_params` copies them as they are, so nothing stronger holds.
- `has_macro_export` compares the attribute's path segments with `["macro_export"]`. A path written with a leading `::` is not distinguished.
- Integer widths do not arise: the core only counts and compares strings.
