/** packageInfo.go: the catalog of one Go package. Declarations are added
    one at a time: structs of the package become messages (and structs of
    other packages become imports), enum constants are collected into
    enums, and named map types into maps. Canonicalize then sorts and
    finalises the catalog. */
module Catalog {
  import opened GoTypes
  import opened GoStrings
  import opened Sorting
  import opened Helpers
  import opened Schema
  import opened Enums
  import opened Messages
  import opened ProtoHelper

  /** Messages are sorted on their names. */
  function MessageName(m: Message): string { m.Name }

  lemma NameLessIsStrictOrder()
    ensures StrictOrder(Less)
  {
    forall a: string
      ensures !Less(a, a)
    {
      LessIrreflexive(a);
    }
    forall a: string, b: string, c: string | Less(a, b) && Less(b, c)
      ensures Less(a, c)
    {
      LessTransitive(a, b, c);
    }
  }

  /** The sort.Slice call of canonicalizeMessages. */
  function SortByName(s: seq<Message>): (r: seq<Message>)
    ensures SortedBy(r, MessageName, Less) && multiset(r) == multiset(s)
    ensures |r| == |s|
  {
    NameLessIsStrictOrder();
    var r := Sort(s, MessageName, Less);
    assert |r| == |multiset(r)| == |multiset(s)| == |s|;
    r
  }

  /** The map record addMap makes for a named map type t. */
  function MapOf(t: Decl): (r: Schema.Map)
    requires IsMap(t)
    ensures r.Name == t.name
    ensures r.KeyType == t.typ.under.key.str && r.UnderlyingKeyType == t.typ.under.key.underStr
    ensures r.ElemType == t.typ.under.elem.str && r.UnderlyingElemType == t.typ.under.elem.underStr
  {
    Schema.Map(t.name, t.typ.under.key.str, t.typ.under.key.underStr, t.typ.under.elem.str, t.typ.under.elem.underStr)
  }

  /** The catalog. The package it describes contributes its name, its path
      and, in place of the code this model does not contain, the foreign
      functions. */
  class PackageInfo {
    const Name: string
    const Path: string
    const lib: Foreign
    var seen: set<string>
    var Messages: seq<Message>
    var Imports: seq<string>
    var Enums: map<string, Enum>
    var Maps: map<string, Schema.Map>

    /** Every type string in seen produced exactly one message or one
        import, and no enum object is stored under two names. */
    predicate Valid()
      reads this
    {
      && |Messages| + |Imports| == |seen|
      && forall a, b :: a in Enums && b in Enums && a != b ==> Enums[a] != Enums[b]
    }

    /** NewPackageInfo: an empty catalog. */
    constructor (name: string, path: string, lib: Foreign)
      ensures Name == name && Path == path && this.lib == lib
      ensures seen == {} && Messages == [] && Imports == [] && Enums == map[] && Maps == map[]
      ensures Valid()
    {
      Name := name;
      Path := path;
      this.lib := lib;
      seen := {};
      Messages := [];
      Imports := [];
      Enums := map[];
      Maps := map[];
    }

    /** IsPackageType: t's type is qualified by this package's path, or is
        that path itself when it has no '.'. */
    function IsPackageType(t: Decl): (r: bool)
      ensures '.' in t.typ.str ==> (r <==> t.typ.str == Path + "." + LastPart(t.typ.str, '.'))
      ensures '.' !in t.typ.str ==> (r <==> t.typ.str == Path)
    {
      GetPackageFromType(t.typ.str) == Path
    }

    /** The declaration is a struct whose type string has not been seen and
        whose package is the one declaring it: a message is built for it. */
    predicate Admits(t: Decl)
      reads this
    {
      t.typ.under.Struct? && t.typ.str !in seen && GetPackageFromType(t.typ.str) == t.pkgPath
    }

    /** Building the message for t does not panic. */
    predicate MessageDefined(t: Decl)
      reads this
    {
      Admits(t) ==> MembersDefined(t.typ.under.members, Path)
    }

    /** The constant t is one the catalog collects into an enum. */
    predicate IsEnumConst(t: Decl)
    {
      IsConst(t) && IsPackageType(t) && lib.isEnumType(t)
    }

    /** GetEnum: the enum stored under enumTypeName, created empty and
        stored first if there is none; no other entry changes. */
    method GetEnum(enumTypeName: string, t: Decl) returns (result: Enum)
      requires Valid()
      modifies this`Enums
      ensures Valid()
      ensures enumTypeName in old(Enums) ==> result == old(Enums)[enumTypeName] && Enums == old(Enums)
      ensures enumTypeName !in old(Enums) ==>
                && fresh(result) && result.Name == enumTypeName && result.Object == t
                && result.Values == [] && !result.AllowAlias && !result.MissingDefault && !result.HasGaps
                && Enums == old(Enums)[enumTypeName := result]
    {
      if enumTypeName in Enums {
        result := Enums[enumTypeName];
      } else {
        result := new Enum(enumTypeName, t);
        Enums := Enums[enumTypeName := result];
      }
    }

    /** GetEnumForType: the enum of t, got or created, when t is an enum
        constant of this package; nothing otherwise. */
    method GetEnumForType(t: Decl) returns (result: Option<Enum>)
      requires Valid()
      modifies this`Enums
      ensures Valid()
      ensures !IsEnumConst(t) ==> result == None && Enums == old(Enums)
      ensures IsEnumConst(t) ==>
                var name := lib.enumTypeName(t);
                && result.Some?
                && (name in old(Enums) ==> result.value == old(Enums)[name] && Enums == old(Enums))
                && (name !in old(Enums) ==>
                      && fresh(result.value) && result.value.Name == name && result.value.Object == t
                      && result.value.Values == [] && !result.value.AllowAlias
                      && !result.value.MissingDefault && !result.value.HasGaps
                      && Enums == old(Enums)[name := result.value])
    {
      result := None;
      if IsConst(t) {
        if IsPackageType(t) && lib.isEnumType(t) {
          var e := GetEnum(lib.enumTypeName(t), t);
          result := Some(e);
        }
      }
    }

    /** shouldAddMessage: false, with nothing changed, for a non-struct or a
        type string already seen. Otherwise the type string is marked seen,
        and a struct of another package appends its package to Imports
        (without removing duplicates) and gives false. */
    method ShouldAddMessage(t: Decl) returns (b: bool)
      modifies this`seen, this`Imports
      ensures b == old(Admits(t))
      ensures !t.typ.under.Struct? || t.typ.str in old(seen) ==> seen == old(seen) && Imports == old(Imports)
      ensures t.typ.under.Struct? && t.typ.str !in old(seen) ==>
                && seen == old(seen) + {t.typ.str}
                && var pkg := GetPackageFromType(t.typ.str);
                   Imports == old(Imports) + (if pkg != t.pkgPath then [pkg] else [])
    {
      if !t.typ.under.Struct? {
        return false;
      }
      if t.typ.str in seen {
        return false;
      }
      seen := seen + {t.typ.str};
      var typePkgName := GetPackageFromType(t.typ.str);
      if typePkgName != t.pkgPath {
        Imports := Imports + [typePkgName];
        return false;
      }
      return true;
    }

    /** addMessage: when shouldAddMessage admits t, the message built from
        its struct is appended to Messages. It never reports an error. */
    method AddMessage(t: Decl) returns (result: Option<Message>, err: Option<Error>)
      requires Valid() && MessageDefined(t)
      modifies this`seen, this`Imports, this`Messages
      ensures Valid() && err == None
      ensures result.Some? == old(Admits(t))
      ensures !t.typ.under.Struct? || t.typ.str in old(seen) ==> seen == old(seen) && Imports == old(Imports)
      ensures t.typ.under.Struct? && t.typ.str !in old(seen) ==>
                && seen == old(seen) + {t.typ.str}
                && var pkg := GetPackageFromType(t.typ.str);
                   Imports == old(Imports) + (if pkg != t.pkgPath then [pkg] else [])
      ensures result.None? ==> Messages == old(Messages)
      ensures result.Some? ==>
                var m := result.value;
                var s := t.typ.under.members;
                && fresh(m) && Messages == old(Messages) + [m]
                && m.Name == t.name && m.Struct == s
                && |m.Fields| == |ExportedIndices(s)|
                && (forall k :: 0 <= k < |m.Fields| ==>
                      fresh(m.Fields[k]) && FieldFrom(m.Fields[k], s[ExportedIndices(s)[k]], ExportedIndices(s)[k], Path, lib))
    {
      err := None;
      result := None;
      var admitted := ShouldAddMessage(t);
      if admitted {
        var m := CreateMessage(t, t.typ.under.members, Path, lib);
        Messages := Messages + [m];
        result := Some(m);
      }
    }

    /** addEnum: for an enum constant of this package, its enum is got or
        created and the constant's value added to it; a parse failure is
        reported wrapped in the constant's name, after the enum has been
        created. Any other declaration changes nothing. */
    method AddEnum(t: Decl) returns (result: Option<EnumValue>, err: Option<Error>)
      requires Valid()
      modifies this`Enums, Enums.Values
      ensures Valid()
      ensures !IsEnumConst(t) ==>
                && result == None && err == None && Enums == old(Enums)
                && forall e :: e in old(Enums.Values) ==> unchanged(e)
      ensures IsEnumConst(t) ==>
                var name := lib.enumTypeName(t);
                var parsed := lib.parseInt(t.constVal.value, 0);
                && name in Enums && Enums.Keys == old(Enums.Keys) + {name}
                && (forall n :: n in old(Enums) && n != name ==> Enums[n] == old(Enums[n]) && unchanged(Enums[n]))
                && (name in old(Enums) ==>
                      && Enums[name] == old(Enums[name])
                      && Enums[name].AllowAlias == old(Enums[name].AllowAlias)
                      && Enums[name].MissingDefault == old(Enums[name].MissingDefault)
                      && Enums[name].HasGaps == old(Enums[name].HasGaps))
                && (name !in old(Enums) ==>
                      && fresh(Enums[name]) && Enums[name].Name == name && Enums[name].Object == t
                      && !Enums[name].AllowAlias && !Enums[name].MissingDefault && !Enums[name].HasGaps)
                && var before := if name in old(Enums) then old(Enums[name].Values) else [];
                   && (parsed.Some? ==>
                         && err == None
                         && result == Some(EnumValue(lib.toScreamingSnake(t.name), parsed.value, t))
                         && Enums[name].Values == before + [result.value])
                   && (parsed.None? ==>
                         && result == None
                         && err == Some(EnumValueError(t.name, ParseIntError(t.constVal.value)))
                         && Enums[name].Values == before)
    {
      result, err := None, None;
      var e := GetEnumForType(t);
      if e.Some? {
        var cause;
        result, cause := e.value.AddValue(t, lib);
        if cause.Some? {
          err := Some(EnumValueError(t.name, cause.value));
        }
      }
    }

    /** addMap: an error, with nothing changed, when t is not a map type;
        nothing when a map of that name is already known; otherwise exactly
        one new entry under t's name. */
    method AddMap(t: Decl) returns (result: Option<Schema.Map>, err: Option<Error>)
      modifies this`Maps
      ensures !IsMap(t) ==> result == None && err == Some(NotAMap(t.name)) && Maps == old(Maps)
      ensures IsMap(t) && t.name in old(Maps) ==> result == None && err == None && Maps == old(Maps)
      ensures IsMap(t) && t.name !in old(Maps) ==>
                result == Some(MapOf(t)) && err == None && Maps == old(Maps)[t.name := MapOf(t)]
    {
      if !t.typ.under.Map? {
        return None, Some(NotAMap(t.name));
      }
      if t.name in Maps {
        return None, None;
      }
      var m := MapOf(t);
      Maps := Maps[t.name := m];
      return Some(m), None;
    }

    /** AddType: a struct goes to addMessage, then a constant to addEnum,
        then a map type to addMap; the matching hook runs on the result
        only when there is a result and no error, OnField once per field in
        field order. The hooks change no display name of a freshly built
        field or value, so the results are those of the add methods. */
    method AddType(t: Decl) returns (err: Option<Error>)
      requires Valid() && (IsStruct(t) ==> MessageDefined(t))
      modifies this, Enums.Values
      ensures Valid()
      ensures IsStruct(t) ==>
                && err == None && Enums == old(Enums) && Maps == old(Maps)
                && (forall e :: e in old(Enums.Values) ==> unchanged(e))
                && (t.typ.str in old(seen) ==> seen == old(seen) && Imports == old(Imports) && Messages == old(Messages))
                && (t.typ.str !in old(seen) ==>
                      && seen == old(seen) + {t.typ.str}
                      && var pkg := GetPackageFromType(t.typ.str);
                         Imports == old(Imports) + (if pkg != t.pkgPath then [pkg] else []))
                && (!old(Admits(t)) ==> Messages == old(Messages))
                && (old(Admits(t)) ==>
                      && |Messages| == |old(Messages)| + 1
                      && Messages[..|old(Messages)|] == old(Messages)
                      && var m := Messages[|old(Messages)|];
                         var s := t.typ.under.members;
                         && fresh(m) && m.Name == t.name
                         && |m.Fields| == |ExportedIndices(s)|
                         && (forall k :: 0 <= k < |m.Fields| ==>
                               FieldFrom(m.Fields[k], s[ExportedIndices(s)[k]], ExportedIndices(s)[k], Path, lib)))
      ensures !IsStruct(t) && IsConst(t) ==>
                && seen == old(seen) && Messages == old(Messages) && Imports == old(Imports) && Maps == old(Maps)
                && (!IsEnumConst(t) ==>
                      && err == None && Enums == old(Enums)
                      && forall e :: e in old(Enums.Values) ==> unchanged(e))
                && (IsEnumConst(t) ==>
                        var name := lib.enumTypeName(t);
                        var parsed := lib.parseInt(t.constVal.value, 0);
                        && name in Enums && Enums.Keys == old(Enums.Keys) + {name}
                        && (forall n :: n in old(Enums) && n != name ==> Enums[n] == old(Enums[n]) && unchanged(Enums[n]))
                        && (name in old(Enums) ==>
                              && Enums[name] == old(Enums[name])
                              && Enums[name].AllowAlias == old(Enums[name].AllowAlias)
                              && Enums[name].MissingDefault == old(Enums[name].MissingDefault)
                              && Enums[name].HasGaps == old(Enums[name].HasGaps))
                        && (name !in old(Enums) ==>
                              && fresh(Enums[name]) && Enums[name].Name == name && Enums[name].Object == t
                              && !Enums[name].AllowAlias && !Enums[name].MissingDefault && !Enums[name].HasGaps)
                        && var before := if name in old(Enums) then old(Enums[name].Values) else [];
                           && (parsed.Some? ==>
                                 && err == None
                                 && Enums[name].Values == before + [EnumValue(lib.toScreamingSnake(t.name), parsed.value, t)])
                           && (parsed.None? ==>
                                 && err == Some(EnumValueError(t.name, ParseIntError(t.constVal.value)))
                                 && Enums[name].Values == before))
      ensures !IsStruct(t) && !IsConst(t) && IsMap(t) ==>
                && seen == old(seen) && Messages == old(Messages) && Imports == old(Imports) && Enums == old(Enums)
                && (forall e :: e in old(Enums.Values) ==> unchanged(e))
                && err == None
                && (t.name in old(Maps) ==> Maps == old(Maps))
                && (t.name !in old(Maps) ==> Maps == old(Maps)[t.name := MapOf(t)])
      ensures !IsStruct(t) && !IsConst(t) && !IsMap(t) ==>
                && err == None && seen == old(seen) && Messages == old(Messages) && Imports == old(Imports)
                && Enums == old(Enums) && Maps == old(Maps)
                && (forall e :: e in old(Enums.Values) ==> unchanged(e))
    {
      err := None;
      if IsStruct(t) {
        err := AddStruct(t);
      } else if IsConst(t) {
        err := AddConst(t);
      } else if IsMap(t) {
        var m;
        m, err := AddMap(t);
        if err.None? && m.Some? {
          var same := OnMap(m.value);
        }
      }
    }

    /** The constant branch of AddType: addEnum, then OnEnumValue on the
        value added, whose renaming leaves the value as addEnum made it. */
    method AddConst(t: Decl) returns (err: Option<Error>)
      requires Valid() && IsConst(t)
      modifies this`Enums, Enums.Values
      ensures Valid()
      ensures !IsEnumConst(t) ==>
                && err == None && Enums == old(Enums)
                && forall e :: e in old(Enums.Values) ==> unchanged(e)
      ensures IsEnumConst(t) ==>
                var name := lib.enumTypeName(t);
                var parsed := lib.parseInt(t.constVal.value, 0);
                && name in Enums && Enums.Keys == old(Enums.Keys) + {name}
                && (forall n :: n in old(Enums) && n != name ==> Enums[n] == old(Enums[n]) && unchanged(Enums[n]))
                && (name in old(Enums) ==>
                      && Enums[name] == old(Enums[name])
                      && Enums[name].AllowAlias == old(Enums[name].AllowAlias)
                      && Enums[name].MissingDefault == old(Enums[name].MissingDefault)
                      && Enums[name].HasGaps == old(Enums[name].HasGaps))
                && (name !in old(Enums) ==>
                      && fresh(Enums[name]) && Enums[name].Name == name && Enums[name].Object == t
                      && !Enums[name].AllowAlias && !Enums[name].MissingDefault && !Enums[name].HasGaps)
                && var before := if name in old(Enums) then old(Enums[name].Values) else [];
                   && (parsed.Some? ==>
                         && err == None
                         && Enums[name].Values == before + [EnumValue(lib.toScreamingSnake(t.name), parsed.value, t)])
                   && (parsed.None? ==>
                         && err == Some(EnumValueError(t.name, ParseIntError(t.constVal.value)))
                         && Enums[name].Values == before)
    {
      var e;
      e, err := AddEnum(t);
      if err.None? && e.Some? {
        var renamed := OnEnumValue(e.value, lib);
        OnEnumValueFixes(e.value, t, e.value.Value, lib);
        assert renamed == e.value;
      }
    }

    /** The struct branch of AddType: addMessage, then the message hooks
        when a message was built. */
    method AddStruct(t: Decl) returns (err: Option<Error>)
      requires Valid() && IsStruct(t) && MessageDefined(t)
      modifies this
      ensures Valid()
      ensures err == None && Enums == old(Enums) && Maps == old(Maps)
      ensures t.typ.str in old(seen) ==> seen == old(seen) && Imports == old(Imports) && Messages == old(Messages)
      ensures t.typ.str !in old(seen) ==>
                && seen == old(seen) + {t.typ.str}
                && var pkg := GetPackageFromType(t.typ.str);
                   Imports == old(Imports) + (if pkg != t.pkgPath then [pkg] else [])
      ensures !old(Admits(t)) ==> Messages == old(Messages)
      ensures old(Admits(t)) ==>
                && |Messages| == |old(Messages)| + 1
                && Messages[..|old(Messages)|] == old(Messages)
                && var m := Messages[|old(Messages)|];
                   var s := t.typ.under.members;
                   && fresh(m) && m.Name == t.name
                   && |m.Fields| == |ExportedIndices(s)|
                   && (forall k :: 0 <= k < |m.Fields| ==>
                         FieldFrom(m.Fields[k], s[ExportedIndices(s)[k]], ExportedIndices(s)[k], Path, lib))
    {
      var m;
      m, err := AddMessage(t);
      if err.None? && m.Some? {
        assert Messages[|old(Messages)|] == m.value;
        MessageHooks(m.value, t.typ.under.members);
      }
    }

    /** The hooks AddType runs on a message addMessage has just built:
        OnMessage, then OnField on each field in order. They leave every
        field as it was built. */
    method MessageHooks(m: Message, s: seq<Member>)
      requires |m.Fields| == |ExportedIndices(s)|
      requires forall k :: 0 <= k < |m.Fields| ==>
                 FieldFrom(m.Fields[k], s[ExportedIndices(s)[k]], ExportedIndices(s)[k], Path, lib)
      modifies set k | 0 <= k < |m.Fields| :: m.Fields[k]
      ensures forall k :: 0 <= k < |m.Fields| ==> unchanged(m.Fields[k])
    {
      OnMessage(m);
      var fields := m.Fields;
      for j := 0 to |fields|
        invariant forall k :: 0 <= k < |fields| ==> unchanged(fields[k])
      {
        BuiltFieldDisplays(fields[j], s[ExportedIndices(s)[j]], ExportedIndices(s)[j], Path, lib);
        OnField(fields[j], Path, lib);
      }
    }

    /** canonicalizeEnums: every enum is canonicalised; the enums are
        visited in no particular order, each once. */
    method CanonicalizeEnums()
      requires Valid()
      modifies Enums.Values
      ensures forall e :: e in Enums.Values ==>
                Canonical(old(e.Values), old(e.AllowAlias), old(e.HasGaps),
                          e.Values, e.MissingDefault, e.AllowAlias, e.HasGaps)
    {
      var todo := Enums.Values;
      while todo != {}
        invariant todo <= Enums.Values
        invariant forall e :: e in Enums.Values - todo ==>
                    Canonical(old(e.Values), old(e.AllowAlias), old(e.HasGaps),
                              e.Values, e.MissingDefault, e.AllowAlias, e.HasGaps)
        invariant forall e :: e in todo ==> unchanged(e)
        decreases |todo|
      {
        var e :| e in todo;
        e.Canonicalize();
        todo := todo - {e};
      }
    }

    /** canonicalizeMessages: the messages sorted by name. */
    method CanonicalizeMessages()
      modifies this`Messages
      ensures |Messages| == |old(Messages)|
      ensures SortedBy(Messages, MessageName, Less) && multiset(Messages) == multiset(old(Messages))
    {
      Messages := SortByName(Messages);
    }

    /** Canonicalize: every enum canonicalised, then the messages sorted by
        name; the catalog keeps its invariant. */
    method Canonicalize()
      requires Valid()
      modifies this`Messages, Enums.Values
      ensures Valid()
      ensures forall e :: e in Enums.Values ==>
                Canonical(old(e.Values), old(e.AllowAlias), old(e.HasGaps),
                          e.Values, e.MissingDefault, e.AllowAlias, e.HasGaps)
      ensures SortedBy(Messages, MessageName, Less) && multiset(Messages) == multiset(old(Messages))
    {
      CanonicalizeEnums();
      CanonicalizeMessages();
    }
  }
}
