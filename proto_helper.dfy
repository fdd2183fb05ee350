/** protoHelper.go: the default naming hooks the package catalog calls on
    each message, field, enum value and map it adds. Only the display
    names of a field or an enum value are rewritten. The hooks take the
    package path and the foreign functions of the catalog in place of the
    catalog itself. */
module ProtoHelper {
  import opened GoTypes
  import opened Helpers
  import opened Schema
  import opened Enums
  import opened Messages

  /** OnMessage does nothing. */
  method OnMessage(m: Message)
    ensures unchanged(m)
  {
  }

  /** The display names of f are the ones its member calls for. */
  predicate Displays(f: Field, pkgPath: string, lib: Foreign)
    reads f
  {
    && FieldTypeNameDefined(f.Var.typ, pkgPath)
    && f.Name == ToProtoFieldName(f.Var.name, lib)
    && f.TypeName == ToProtoFieldTypeName(f.Var.typ, pkgPath)
  }

  /** OnField: recompute Name and TypeName from the field's struct member;
      Order, IsRepeated and JSONName stay. A field that already displays
      these names is left as it is, so a second call changes nothing. */
  method OnField(f: Field, pkgPath: string, lib: Foreign)
    requires FieldTypeNameDefined(f.Var.typ, pkgPath)
    modifies f`Name, f`TypeName
    ensures Displays(f, pkgPath, lib)
    ensures old(Displays(f, pkgPath, lib)) ==> unchanged(f)
  {
    f.Name := ToProtoFieldName(f.Var.name, lib);
    f.TypeName := ToProtoFieldTypeName(f.Var.typ, pkgPath);
  }

  /** A field just built by createMessage already displays its names, so
      OnField leaves it unchanged. */
  lemma BuiltFieldDisplays(f: Field, m: Member, i: nat, pkgPath: string, lib: Foreign)
    requires FieldFrom(f, m, i, pkgPath, lib)
    ensures Displays(f, pkgPath, lib)
  {
  }

  /** OnEnumValue: the value renamed after its constant in
      SCREAMING_SNAKE_CASE; its number and constant are kept. */
  function OnEnumValue(e: EnumValue, lib: Foreign): (r: EnumValue)
    ensures r.Value == e.Value && r.Const == e.Const
    ensures r.Name == lib.toScreamingSnake(e.Const.name)
  {
    e.(Name := lib.toScreamingSnake(e.Const.name))
  }

  /** Renaming twice is renaming once, and a value made by AddValue is
      already named this way, so the hook does not change it. */
  lemma OnEnumValueFixes(e: EnumValue, c: Decl, v: int64, lib: Foreign)
    ensures OnEnumValue(OnEnumValue(e, lib), lib) == OnEnumValue(e, lib)
    ensures OnEnumValue(EnumValue(lib.toScreamingSnake(c.name), v, c), lib) == EnumValue(lib.toScreamingSnake(c.name), v, c)
  {
  }

  /** OnMap does nothing. */
  function OnMap(m: Map): (r: Map)
    ensures r == m
  {
    m
  }
}
