/**
  The shape of the `syn` syntax tree the extractor reads. Parsing is not part of
  this model: a parsed file is given as a sequence of `Item`s. Token-stream text
  (`to_token_stream().to_string()`) is carried as an opaque `text` field.
 */
module Syntax {
  import opened Wrappers

  /** `Visibility::Public` versus every other visibility (inherited, `pub(crate)`, ...). */
  datatype Vis = Public | Private

  datatype GenericParam =
    | TypeParam(ident: string)
    | LifetimeParam(text: string)
    | ConstParam(text: string)

  /** A type: a path type keeps its segment idents; every type keeps its token text. */
  datatype Type =
    | PathType(segments: seq<string>, text: string)
    | OtherType(text: string)

  datatype Pat = IdentPat(ident: string) | OtherPat(text: string)

  datatype FnArg =
    | Receiver(isRef: bool, isMut: bool)
    | Typed(pat: Pat, ty: Type)

  datatype ReturnType = DefaultReturn | Returns(ty: Type)

  datatype Signature = Signature(
    ident: string,
    generics: seq<GenericParam>,
    inputs: seq<FnArg>,
    output: ReturnType)

  datatype Field = Field(vis: Vis, ident: Option<string>, ty: Type)

  datatype Fields =
    | Named(named: seq<Field>)
    | Unnamed(unnamed: seq<Field>)
    | Unit

  datatype Variant = Variant(ident: string, fields: Fields)

  datatype TraitItem =
    | TraitFn(sig: Signature)
    | TraitType(ident: string)
    | TraitOther(text: string)

  datatype ImplItem =
    | ImplFn(vis: Vis, sig: Signature)
    | ImplOther

  /** An attribute, by the segments of its path (`#[macro_export]` has path ["macro_export"]). */
  datatype Attribute = Attribute(path: seq<string>)

  datatype ItemConst = ItemConst(vis: Vis, ident: string, ty: Type)

  datatype ItemFn = ItemFn(vis: Vis, sig: Signature)

  datatype ItemStruct = ItemStruct(vis: Vis, ident: string, generics: seq<GenericParam>, fields: Fields)

  datatype ItemEnum = ItemEnum(vis: Vis, ident: string, generics: seq<GenericParam>, variants: seq<Variant>)

  datatype ItemTrait = ItemTrait(
    vis: Vis,
    ident: string,
    generics: seq<GenericParam>,
    supertraits: seq<string>,  // token text of each bound, in bound order
    items: seq<TraitItem>)

  /** `impl [Trait for] SelfTy { items }`; `traitPath` is the trait's text when present. */
  datatype ItemImpl = ItemImpl(traitPath: Option<string>, selfTy: Type, items: seq<ImplItem>)

  /** `macro_rules!` invocation-as-item; `ident` is the defined macro's name, if any. */
  datatype ItemMacro = ItemMacro(attrs: seq<Attribute>, ident: Option<string>, text: string)

  /** `mod name { items }` versus `mod name;`, whose items live in another file. */
  datatype ModContent = Inline(items: seq<Item>) | External

  datatype Item =
    | Mod(vis: Vis, ident: string, content: ModContent)
    | Const(c: ItemConst)
    | Fn(f: ItemFn)
    | Struct(s: ItemStruct)
    | Enum(e: ItemEnum)
    | Trait(t: ItemTrait)
    | Impl(i: ItemImpl)
    | Macro(m: ItemMacro)
    | OtherItem
}
