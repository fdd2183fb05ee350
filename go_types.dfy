/** The view of Go's type information (go/types) that the generator works
    on, the 64-bit integers it parses enum values into, and the foreign
    functions it calls but whose code is not part of this model. */
module GoTypes {

  datatype Option<+T> = None | Some(value: T)

  /** Go's int64. */
  newtype int64 = x: int | -0x8000_0000_0000_0000 <= x < 0x8000_0000_0000_0000

  const MinInt64: int64 := -0x8000_0000_0000_0000
  const MaxInt64: int64 := 0x7fff_ffff_ffff_ffff

  /** Go's `a + b` on int64, which wraps around modulo 2^64. */
  function AddWrap(a: int64, b: int64): (r: int64)
    ensures (r as int - (a as int + b as int)) % 0x1_0000_0000_0000_0000 == 0
    ensures MinInt64 as int <= a as int + b as int <= MaxInt64 as int ==> r as int == a as int + b as int
  {
    var s := a as int + b as int;
    if s > MaxInt64 as int then (s - 0x1_0000_0000_0000_0000) as int64
    else if s < MinInt64 as int then (s + 0x1_0000_0000_0000_0000) as int64
    else s as int64
  }

  /** The shape of a type's underlying type (types.Type.Underlying()):
      *types.Basic, *types.Slice, *types.Pointer, *types.Struct with its
      members, *types.Map with its key and element types, or anything else
      (arrays, interfaces, channels, signatures). */
  datatype Shape =
    | Basic
    | Slice
    | Pointer
    | Struct(members: seq<Member>)
    | Map(key: GoType, elem: GoType)
    | Other

  /** A Go type: its String() (for a named type the package-qualified name,
      such as "example.com/pkg.Person"), the String() of its underlying
      type, the shape of its underlying type, and whether the type is a
      named (defined) type rather than a type literal. */
  datatype GoType = GoType(str: string, underStr: string, under: Shape, named: bool)

  /** One member of a struct (types.Struct.Field(i) with Tag(i)). */
  datatype Member = Member(name: string, exported: bool, tag: string, typ: GoType)

  /** A declared object (types.Object): its name, its type, the path of the
      package that declares it, whether it is exported, and, exactly when
      the object is a constant (*types.Const), the text of its value. */
  datatype Decl = Decl(name: string, typ: GoType, pkgPath: string, exported: bool, constVal: Option<string>)

  /** The functions the generator calls whose code is not part of this
      model: strcase.ToSnake, strcase.ToScreamingSnake, strconv.ParseInt
      with bit size 64 (text, base), structtag.Parse followed by Tags.Get
      (a map from tag key to the tag's name, or None when the tag does not
      parse), and the repository's isEnumType and getEnumTypeName. */
  datatype Foreign = Foreign(
    toSnake: string -> string,
    toScreamingSnake: string -> string,
    parseInt: (string, int) -> Option<int64>,
    parseTag: string -> Option<map<string, string>>,
    isEnumType: Decl -> bool,
    enumTypeName: Decl -> string)

  /** The errors the core reports. */
  datatype Error =
    | ParseIntError(text: string)
    | EnumValueError(constName: string, cause: Error)
    | NotAMap(name: string)
}
