/** The type-name helpers of helpers.go: kind tests on declarations, the
    split of a qualified type name into package and simple name, the
    primitive type table and the field name and field type rules. */
module Helpers {
  import opened GoStrings
  import opened GoTypes
  import opened Consts

  /** isStruct: the declaration's underlying type is a struct. */
  predicate IsStruct(t: Decl)
  {
    t.typ.under.Struct?
  }

  /** isConst: the declaration is a constant. */
  predicate IsConst(t: Decl)
  {
    t.constVal.Some?
  }

  /** isMap: the declaration's underlying type is a map. */
  predicate IsMap(t: Decl)
  {
    t.typ.under.Map?
  }

  /** isRepeated: the member's underlying type is a slice. */
  predicate IsRepeated(f: Member)
  {
    f.typ.under.Slice?
  }

  /** getPackageFromType: the text before the last '.', or the whole name
      when it has no '.'. */
  function GetPackageFromType(typeName: string): (r: string)
    ensures '.' !in typeName ==> r == typeName
    ensures '.' in typeName ==> typeName == r + "." + LastPart(typeName, '.')
  {
    var lastDot := LastIndex(typeName, '.');
    if lastDot >= 0 then typeName[..lastDot] else typeName
  }

  /** splitTypeNameHelperStr: the last '.'-separated segment with one
      leading '*' removed. Go indexes the segment's first byte, so an empty
      segment panics; hence the precondition. */
  function SplitTypeNameHelperStr(typeName: string): (name: string)
    requires LastPart(typeName, '.') != []
    ensures '.' !in name
    ensures var last := LastPart(typeName, '.');
              last == (if last[0] == '*' then "*" else "") + name
  {
    var parts := Split(typeName, '.');
    var last := parts[|parts| - 1];
    assert last == LastPart(typeName, '.');
    assert last == [last[0]] + last[1..];
    if last[0] == '*' then last[1..] else last
  }

  /** splitTypeNameHelper, the same code applied to a type's String(). */
  function SplitTypeNameHelper(t: GoType): (name: string)
    requires LastPart(t.str, '.') != []
    ensures name == SplitTypeNameHelperStr(t.str)
  {
    var parts := Split(t.str, '.');
    var name := parts[|parts| - 1];
    if name[0] == '*' then name[1..] else name
  }

  /** A qualified name without a leading '*' on its last segment is its
      package followed by '.' and its simple name. */
  lemma {:induction false} TypeNameRoundTrip(typeName: string)
    requires '.' in typeName
    requires LastPart(typeName, '.') != [] && LastPart(typeName, '.')[0] != '*'
    ensures GetPackageFromType(typeName) + "." + SplitTypeNameHelperStr(typeName) == typeName
  {
  }

  predicate IsPrimitive(name: string)
  {
    name in {GoTypeInt, GoTypeInt64, GoTypeInt32, GoTypeFloat32, GoTypeFloat64}
  }

  /** normalizeType does not panic: when it strips the package, the simple
      name it takes is not empty. */
  predicate NormalizeDefined(name: string, pkgPath: string)
  {
    GetPackageFromType(name) == pkgPath ==> LastPart(name, '.') != []
  }

  /** normalizeType: Go primitives become proto3 scalars; a name of the
      package being generated loses its package; any other name is kept.
      The result is either the name itself or has no '.'. */
  function NormalizeType(name: string, pkgPath: string): (r: string)
    requires NormalizeDefined(name, pkgPath)
    ensures r == name || '.' !in r
  {
    ScalarsHaveNoDot();
    if name == GoTypeInt || name == GoTypeInt64 || name == GoTypeInt32 then ProtoTypeInt64
    else if name == GoTypeFloat32 then ProtoTypeFloat
    else if name == GoTypeFloat64 then ProtoTypeDouble
    else if GetPackageFromType(name) == pkgPath then SplitTypeNameHelperStr(name)
    else name
  }

  lemma ScalarsHaveNoDot()
    ensures '.' !in ProtoTypeInt64 && '.' !in ProtoTypeFloat && '.' !in ProtoTypeDouble
  {
    assert ProtoTypeInt64 == ['i', 'n', 't', '6', '4'];
    assert ProtoTypeFloat == ['f', 'l', 'o', 'a', 't'];
    assert ProtoTypeDouble == ['d', 'o', 'u', 'b', 'l', 'e'];
  }

  /** The primitive table of normalizeType. */
  lemma NormalizeTypePrimitives(pkgPath: string)
    ensures NormalizeType("int", pkgPath) == "int64"
    ensures NormalizeType("int32", pkgPath) == "int64"
    ensures NormalizeType("int64", pkgPath) == "int64"
    ensures NormalizeType("float32", pkgPath) == "float"
    ensures NormalizeType("float64", pkgPath) == "double"
  {
  }

  /** A type of the package being generated is named by its simple name. */
  lemma NormalizeTypeOwnPackage(pkgPath: string, simple: string)
    requires '.' !in simple && simple != [] && simple[0] != '*'
    ensures NormalizeDefined(pkgPath + "." + simple, pkgPath)
    ensures NormalizeType(pkgPath + "." + simple, pkgPath) == simple
  {
    var name := pkgPath + "." + simple;
    LastPartOfJoined(pkgPath, '.', simple);
    assert '.' in name by {
      assert name[|pkgPath|] == '.';
    }
    DottedNotPrimitive(name);
    assert GetPackageFromType(name) == pkgPath;
    assert SplitTypeNameHelperStr(name) == simple;
  }

  /** No primitive name contains a '.'. */
  lemma DottedNotPrimitive(name: string)
    requires '.' in name
    ensures !IsPrimitive(name)
  {
    assert GoTypeInt == ['i', 'n', 't'];
    assert GoTypeInt32 == ['i', 'n', 't', '3', '2'];
    assert GoTypeInt64 == ['i', 'n', 't', '6', '4'];
    assert GoTypeFloat32 == ['f', 'l', 'o', 'a', 't', '3', '2'];
    assert GoTypeFloat64 == ['f', 'l', 'o', 'a', 't', '6', '4'];
  }

  /** Any other non-primitive name is left as it is. */
  lemma NormalizeTypeForeign(name: string, pkgPath: string)
    requires !IsPrimitive(name) && GetPackageFromType(name) != pkgPath
    ensures NormalizeDefined(name, pkgPath)
    ensures NormalizeType(name, pkgPath) == name
  {
  }

  /** toProtoFieldName: a name of exactly two bytes is lower-cased as it
      is; every other name goes through strcase.ToSnake. */
  function ToProtoFieldName(name: string, lib: Foreign): (r: string)
    ensures |name| == 2 ==> |r| == 2 && r[0] == LowerChar(name[0]) && r[1] == LowerChar(name[1])
    ensures |name| != 2 ==> r == lib.toSnake(name)
  {
    if |name| == 2 then ToLower(name) else lib.toSnake(name)
  }

  const SliceMarkers: set<char> := {'[', ']'}

  /** toProtoFieldTypeName does not panic on a member of type t. */
  predicate FieldTypeNameDefined(t: GoType, pkgPath: string)
  {
    match t.under
    case Basic => NormalizeDefined(t.str, pkgPath)
    case Slice =>
      LastPart(t.str, '.') != [] && NormalizeDefined(TrimLeft(SplitTypeNameHelper(t), SliceMarkers), pkgPath)
    case Pointer => LastPart(t.str, '.') != [] && NormalizeDefined(SplitTypeNameHelper(t), pkgPath)
    case Struct(_) => LastPart(t.str, '.') != [] && NormalizeDefined(SplitTypeNameHelper(t), pkgPath)
    case Map(k, e) => t.named || (NormalizeDefined(k.str, pkgPath) && NormalizeDefined(e.str, pkgPath))
    case Other => true
  }

  /** toProtoFieldTypeName: the proto type of a member of type t, dispatched
      on the underlying shape. Slices, pointers and structs are named by a
      simple name without any '.', a map type literal becomes
      map<key,elem>, and anything else (a named map type included) keeps
      its Go type string. */
  function ToProtoFieldTypeName(t: GoType, pkgPath: string): (r: string)
    requires FieldTypeNameDefined(t, pkgPath)
    ensures t.under.Basic? ==> r == NormalizeType(t.str, pkgPath)
    ensures (t.under.Slice? || t.under.Pointer? || t.under.Struct?) ==> '.' !in r
    ensures t.under.Slice? ==> r == NormalizeType(TrimLeft(SplitTypeNameHelper(t), SliceMarkers), pkgPath)
    ensures (t.under.Pointer? || t.under.Struct?) ==> r == NormalizeType(SplitTypeNameHelper(t), pkgPath)
    ensures t.under.Map? && !t.named
         ==> r == "map<" + NormalizeType(t.under.key.str, pkgPath) + "," + NormalizeType(t.under.elem.str, pkgPath) + ">"
    ensures (t.under.Other? || (t.under.Map? && t.named)) ==> r == t.str
  {
    match t.under
    case Basic => NormalizeType(t.str, pkgPath)
    case Slice =>
      var name := SplitTypeNameHelper(t);
      NormalizeType(TrimLeft(name, SliceMarkers), pkgPath)
    case Pointer => NormalizeType(SplitTypeNameHelper(t), pkgPath)
    case Struct(_) => NormalizeType(SplitTypeNameHelper(t), pkgPath)
    case Map(k, e) =>
      if !t.named then "map<" + NormalizeType(k.str, pkgPath) + "," + NormalizeType(e.str, pkgPath) + ">"
      else t.str
    case Other => t.str
  }
}
