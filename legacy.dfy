/** main.go: the older, single-function version of the generator. One pass
    over the package's definitions collects structs into messages (or
    imports) and int constants into enums; then the messages are sorted by
    name and every enum is sorted and given its flags. Its rules differ
    from the catalog's: only constants whose underlying type is exactly
    "int" count, values are parsed in base 10, only "int" maps to int64,
    and AllowAlias is recomputed from scratch. The helpers main.go shares
    word for word with helpers.go (getPackageFromType, the split helpers,
    toProtoFieldName, isRepeated) are those of module Helpers. */
module Legacy {
  import opened GoTypes
  import opened GoStrings
  import opened Sorting
  import opened EnumFlags
  import opened Consts
  import Helpers
  import Messages

  datatype Field = Field(Name: string, TypeName: string, Order: int, IsRepeated: bool, JSONName: string)
  datatype Message = Message(Name: string, Fields: seq<Field>)
  datatype EnumValue = EnumValue(Name: string, Value: int64)
  datatype Enum = Enum(Name: string, Values: seq<EnumValue>, AllowAlias: bool, MissingDefault: bool)

  /** The catalog main.go returns. */
  datatype PackageInfo = PackageInfo(
    Name: string,
    Path: string,
    seen: set<string>,
    Messages: seq<Message>,
    Imports: seq<string>,
    Enums: map<string, Enum>)

  /** normalizeType of main.go: only "int" becomes int64; "int32" and
      "int64" take the default branch like any other name. */
  function NormalizeType(name: string, pkgPath: string): (r: string)
    requires Helpers.NormalizeDefined(name, pkgPath)
    ensures r == name || '.' !in r
  {
    Helpers.ScalarsHaveNoDot();
    if name == GoTypeInt then ProtoTypeInt64
    else if name == GoTypeFloat32 then ProtoTypeFloat
    else if name == GoTypeFloat64 then ProtoTypeDouble
    else if Helpers.GetPackageFromType(name) == pkgPath then Helpers.SplitTypeNameHelperStr(name)
    else name
  }

  /** The two versions of normalizeType agree on every name except
      "int32", which the older one leaves as it is. */
  lemma NormalizeTypeVersions(name: string, pkgPath: string)
    requires Helpers.NormalizeDefined(name, pkgPath)
    ensures NormalizeType(name, pkgPath) == Helpers.NormalizeType(name, pkgPath) <==> name != GoTypeInt32
    ensures name == GoTypeInt32 ==> NormalizeType(name, pkgPath) == GoTypeInt32
  {
    if name == GoTypeInt32 {
      Int32Kept(pkgPath);
    } else if name == GoTypeInt64 {
      PlainNameKept(name, pkgPath);
    }
  }

  /** "int32" is kept by the older normalizeType and becomes int64 in the
      newer one. */
  lemma Int32Kept(pkgPath: string)
    ensures Helpers.NormalizeDefined(GoTypeInt32, pkgPath)
    ensures NormalizeType(GoTypeInt32, pkgPath) == GoTypeInt32
    ensures Helpers.NormalizeType(GoTypeInt32, pkgPath) == ProtoTypeInt64 != GoTypeInt32
  {
    PlainNameKept(GoTypeInt32, pkgPath);
    assert ProtoTypeInt64[3] != GoTypeInt32[3];
  }

  /** Outside the table, a name without '.' or leading '*' is kept by the
      older normalizeType. */
  lemma PlainNameKept(name: string, pkgPath: string)
    requires name != [] && '.' !in name && name[0] != '*'
    requires name != GoTypeInt && name != GoTypeFloat32 && name != GoTypeFloat64
    ensures Helpers.NormalizeDefined(name, pkgPath)
    ensures NormalizeType(name, pkgPath) == name
  {
    assert LastPart(name, '.') == name;
  }

  /** toProtoFieldTypeName of main.go: the same dispatch as the catalog's,
      over the older normalizeType. */
  function ToProtoFieldTypeName(t: GoType, pkgPath: string): (r: string)
    requires Helpers.FieldTypeNameDefined(t, pkgPath)
    ensures t.under.Basic? ==> r == NormalizeType(t.str, pkgPath)
    ensures (t.under.Slice? || t.under.Pointer? || t.under.Struct?) ==> '.' !in r
    ensures t.under.Slice? ==> r == NormalizeType(TrimLeft(Helpers.SplitTypeNameHelper(t), Helpers.SliceMarkers), pkgPath)
    ensures (t.under.Pointer? || t.under.Struct?) ==> r == NormalizeType(Helpers.SplitTypeNameHelper(t), pkgPath)
    ensures t.under.Map? && !t.named
         ==> r == "map<" + NormalizeType(t.under.key.str, pkgPath) + "," + NormalizeType(t.under.elem.str, pkgPath) + ">"
    ensures (t.under.Other? || (t.under.Map? && t.named)) ==> r == t.str
  {
    match t.under
    case Basic => NormalizeType(t.str, pkgPath)
    case Slice =>
      var name := Helpers.SplitTypeNameHelper(t);
      NormalizeType(TrimLeft(name, Helpers.SliceMarkers), pkgPath)
    case Pointer => NormalizeType(Helpers.SplitTypeNameHelper(t), pkgPath)
    case Struct(_) => NormalizeType(Helpers.SplitTypeNameHelper(t), pkgPath)
    case Map(k, e) =>
      if !t.named then "map<" + NormalizeType(k.str, pkgPath) + "," + NormalizeType(e.str, pkgPath) + ">"
      else t.str
    case Other => t.str
  }

  /** The field appendMessage makes for member m at position i. */
  function FieldOf(m: Member, i: nat, pkgPath: string, lib: Foreign): (f: Field)
    requires Helpers.FieldTypeNameDefined(m.typ, pkgPath)
    ensures f.Order == i + 1
    ensures f.IsRepeated <==> m.typ.under.Slice?
  {
    Field(Helpers.ToProtoFieldName(m.name, lib), ToProtoFieldTypeName(m.typ, pkgPath), i + 1,
          Helpers.IsRepeated(m), Messages.JsonName(m.tag, lib))
  }

  /** The message appendMessage makes for struct s of declaration t: named
      after t, with one field per exported member in declaration order,
      whose Order is the member's position among all members plus one (so
      Messages.FieldOrders applies: strictly increasing, between 1 and |s|,
      each exported member covered). */
  function BuildMessage(t: Decl, s: seq<Member>, pkgPath: string, lib: Foreign): (msg: Message)
    requires Messages.MembersDefined(s, pkgPath)
    ensures msg.Name == t.name
    ensures |msg.Fields| == |Messages.ExportedIndices(s)|
    ensures forall k :: 0 <= k < |msg.Fields| ==>
              && msg.Fields[k].Order == Messages.ExportedIndices(s)[k] + 1
              && msg.Fields[k].IsRepeated == Helpers.IsRepeated(s[Messages.ExportedIndices(s)[k]])
  {
    var idx := Messages.ExportedIndices(s);
    Message(t.name, seq(|idx|, k requires 0 <= k < |idx| => FieldOf(s[idx[k]], idx[k], pkgPath, lib)))
  }

  /** appendMessage: out with the message built from s appended. */
  method AppendMessage(out: seq<Message>, t: Decl, s: seq<Member>, pkgPath: string, lib: Foreign)
    returns (r: seq<Message>)
    requires Messages.MembersDefined(s, pkgPath)
    ensures r == out + [BuildMessage(t, s, pkgPath, lib)]
  {
    var fields: seq<Field> := [];
    ghost var idx: seq<nat> := [];
    for i := 0 to |s|
      invariant idx == Messages.ExportedIndices(s[..i])
      invariant |fields| == |idx|
      invariant forall k :: 0 <= k < |fields| ==> idx[k] < |s| && fields[k] == FieldOf(s[idx[k]], idx[k], pkgPath, lib)
    {
      Messages.ExportedStep(s, i);
      var f := s[i];
      if f.exported {
        var jsonName := Messages.JsonName(f.tag, lib);
        var newField := Field(Helpers.ToProtoFieldName(f.name, lib), ToProtoFieldTypeName(f.typ, pkgPath), i + 1,
                              Helpers.IsRepeated(f), jsonName);
        fields := fields + [newField];
        idx := idx + [i];
      }
    }
    assert s[..|s|] == s;
    var msg := Message(t.name, fields);
    ghost var built := BuildMessage(t, s, pkgPath, lib);
    assert |built.Fields| == |fields|;
    assert forall k :: 0 <= k < |fields| ==> built.Fields[k] == fields[k];
    assert msg == built;
    r := out + [msg];
  }

  /** The catalog while the definitions are being read. */
  datatype State = State(seen: set<string>, Messages: seq<Message>, Imports: seq<string>, Enums: map<string, Enum>)

  /** An exported constant, not of struct type, whose underlying type is
      exactly "int" and whose type belongs to the package: the only
      constants main.go collects. */
  predicate Admitted(d: Option<Decl>, pkgPath: string)
  {
    && d.Some? && d.value.exported && !d.value.typ.under.Struct?
    && d.value.constVal.Some? && d.value.typ.underStr == GoTypeInt
    && Helpers.GetPackageFromType(d.value.typ.str) == pkgPath
  }

  /** An exported struct of its own package: a message is built for it
      unless its type string was seen before. */
  predicate OwnStruct(d: Option<Decl>)
  {
    && d.Some? && d.value.exported && d.value.typ.under.Struct?
    && Helpers.GetPackageFromType(d.value.typ.str) == d.value.pkgPath
  }

  /** Reading definition d does not panic. */
  predicate Defined(d: Option<Decl>, pkgPath: string)
  {
    && (OwnStruct(d) ==> Messages.MembersDefined(d.value.typ.under.members, pkgPath))
    && (Admitted(d, pkgPath) ==> LastPart(d.value.typ.str, '.') != [])
  }

  /** The enum an admitted constant belongs to: its type's simple name. */
  function EnumKey(t: Decl): string
    requires LastPart(t.typ.str, '.') != []
  {
    Helpers.SplitTypeNameHelper(t.typ)
  }

  /** The parsed value of a constant, named in SCREAMING_SNAKE_CASE, when
      its text parses as a base-10 int64. */
  function ParsedValue(t: Decl, lib: Foreign): Option<EnumValue>
    requires t.constVal.Some?
  {
    match lib.parseInt(t.constVal.value, 10)
    case Some(v) => Some(EnumValue(lib.toScreamingSnake(t.name), v))
    case None => None
  }

  /** What reading one definition means for the enums: nothing, or the
      name of the enum an admitted constant belongs to and its parsed value
      (None when the text did not parse). */
  datatype ConstRead = Skipped | Read(enumName: string, value: Option<EnumValue>)

  function ReadConst(d: Option<Decl>, pkgPath: string, lib: Foreign): (r: ConstRead)
    requires Admitted(d, pkgPath) ==> LastPart(d.value.typ.str, '.') != []
    ensures r.Read? <==> Admitted(d, pkgPath)
  {
    if Admitted(d, pkgPath) then Read(EnumKey(d.value), ParsedValue(d.value, lib)) else Skipped
  }

  /** The enum part of one iteration: the enum of a read constant is
      created when missing, then the parsed value is appended to it. */
  function ApplyRead(enums: map<string, Enum>, r: ConstRead): map<string, Enum>
  {
    match r
    case Skipped => enums
    case Read(name, value) =>
      var e := if name in enums then enums[name] else Enum(name, [], false, false);
      enums[name := if value.Some? then e.(Values := e.Values + [value.value]) else e]
  }

  function EnumStep(enums: map<string, Enum>, d: Option<Decl>, pkgPath: string, lib: Foreign): map<string, Enum>
    requires Admitted(d, pkgPath) ==> LastPart(d.value.typ.str, '.') != []
  {
    ApplyRead(enums, ReadConst(d, pkgPath, lib))
  }

  /** One iteration of the loop over the definitions. */
  function Step(st: State, d: Option<Decl>, pkgPath: string, lib: Foreign): State
    requires Defined(d, pkgPath)
  {
    if d.None? || !d.value.exported then st
    else
      var t := d.value;
      if t.typ.under.Struct? then
        if t.typ.str in st.seen then st
        else
          var seen := st.seen + {t.typ.str};
          var typePkgName := Helpers.GetPackageFromType(t.typ.str);
          if typePkgName != t.pkgPath then st.(seen := seen, Imports := st.Imports + [typePkgName])
          else st.(seen := seen, Messages := st.Messages + [BuildMessage(t, t.typ.under.members, pkgPath, lib)])
      else st.(Enums := EnumStep(st.Enums, d, pkgPath, lib))
  }

  predicate AllDefined(defs: seq<Option<Decl>>, pkgPath: string)
  {
    forall i :: 0 <= i < |defs| ==> Defined(defs[i], pkgPath)
  }

  /** The catalog after reading defs in order, before sorting. */
  function Collect(defs: seq<Option<Decl>>, pkgPath: string, lib: Foreign): State
    requires AllDefined(defs, pkgPath)
  {
    if defs == [] then State({}, [], [], map[])
    else Step(Collect(defs[..|defs| - 1], pkgPath, lib), defs[|defs| - 1], pkgPath, lib)
  }

  /** Every type string seen gave exactly one message or one import. */
  lemma {:induction false} CollectCounts(defs: seq<Option<Decl>>, pkgPath: string, lib: Foreign)
    requires AllDefined(defs, pkgPath)
    ensures var st := Collect(defs, pkgPath, lib);
            |st.Messages| + |st.Imports| == |st.seen|
  {
    if defs != [] {
      CollectCounts(defs[..|defs| - 1], pkgPath, lib);
    }
  }

  /** Every import is the package of an exported struct of another
      package. */
  lemma {:induction false} ImportsFromForeignStructs(defs: seq<Option<Decl>>, pkgPath: string, lib: Foreign)
    requires AllDefined(defs, pkgPath)
    ensures forall p :: p in Collect(defs, pkgPath, lib).Imports ==>
              exists i :: 0 <= i < |defs| && defs[i].Some? && defs[i].value.exported && defs[i].value.typ.under.Struct?
                          && p == Helpers.GetPackageFromType(defs[i].value.typ.str) && p != defs[i].value.pkgPath
  {
    if defs != [] {
      var front := defs[..|defs| - 1];
      ImportsFromForeignStructs(front, pkgPath, lib);
      forall p | p in Collect(defs, pkgPath, lib).Imports
        ensures exists i :: 0 <= i < |defs| && defs[i].Some? && defs[i].value.exported && defs[i].value.typ.under.Struct?
                            && p == Helpers.GetPackageFromType(defs[i].value.typ.str) && p != defs[i].value.pkgPath
      {
        if p in Collect(front, pkgPath, lib).Imports {
          var i :| 0 <= i < |front| && front[i].Some? && front[i].value.exported && front[i].value.typ.under.Struct?
                   && p == Helpers.GetPackageFromType(front[i].value.typ.str) && p != front[i].value.pkgPath;
          assert defs[i] == front[i];
        } else {
          assert defs[|defs| - 1].Some?;
        }
      }
    }
  }

  /** An exported struct definition, of this package or another. */
  predicate StructDef(d: Option<Decl>)
  {
    d.Some? && d.value.exported && d.value.typ.under.Struct?
  }

  /** The type strings of the exported structs among defs. */
  function StructStrings(defs: seq<Option<Decl>>): set<string>
  {
    set i | 0 <= i < |defs| && StructDef(defs[i]) :: defs[i].value.typ.str
  }

  /** defs[i] is an exported struct whose type string no earlier exported
      struct of defs has. */
  predicate FirstOf(defs: seq<Option<Decl>>, i: int)
    requires 0 <= i < |defs|
  {
    && StructDef(defs[i])
    && forall j :: 0 <= j < i && StructDef(defs[j]) ==> defs[j].value.typ.str != defs[i].value.typ.str
  }

  /** The messages of the first occurrences of the own-package structs of
      defs, in order. */
  function BuiltMessages(defs: seq<Option<Decl>>, pkgPath: string, lib: Foreign): seq<Message>
    requires AllDefined(defs, pkgPath)
  {
    if defs == [] then []
    else
      var d := defs[|defs| - 1];
      BuiltMessages(defs[..|defs| - 1], pkgPath, lib)
        + (if FirstOf(defs, |defs| - 1) && OwnStruct(d)
           then [BuildMessage(d.value, d.value.typ.under.members, pkgPath, lib)] else [])
  }

  /** The packages of the first occurrences of the structs of defs that
      belong to another package, in order. */
  function ForeignImports(defs: seq<Option<Decl>>): seq<string>
  {
    if defs == [] then []
    else
      var d := defs[|defs| - 1];
      ForeignImports(defs[..|defs| - 1])
        + (if FirstOf(defs, |defs| - 1) && !OwnStruct(d) then [Helpers.GetPackageFromType(d.value.typ.str)] else [])
  }

  /** The last definition is the first occurrence of its type string
      exactly when no earlier exported struct has that string. */
  lemma LastFirstOf(defs: seq<Option<Decl>>)
    requires defs != [] && StructDef(defs[|defs| - 1])
    ensures FirstOf(defs, |defs| - 1) <==> defs[|defs| - 1].value.typ.str !in StructStrings(defs[..|defs| - 1])
  {
    var front := defs[..|defs| - 1];
    var str := defs[|defs| - 1].value.typ.str;
    if str in StructStrings(front) {
      var j :| 0 <= j < |front| && StructDef(front[j]) && front[j].value.typ.str == str;
      assert defs[j] == front[j];
    }
    if !FirstOf(defs, |defs| - 1) {
      var j :| 0 <= j < |defs| - 1 && StructDef(defs[j]) && defs[j].value.typ.str == str;
      assert front[j] == defs[j];
    }
  }

  /** The struct strings of defs grow by the last definition's string when
      it is an exported struct. */
  lemma StructStringsSnoc(defs: seq<Option<Decl>>)
    requires defs != []
    ensures var d := defs[|defs| - 1];
            StructStrings(defs) == StructStrings(defs[..|defs| - 1]) + (if StructDef(d) then {d.value.typ.str} else {})
  {
    var front := defs[..|defs| - 1];
    forall str | str in StructStrings(defs)
      ensures str in StructStrings(front) || str == defs[|defs| - 1].value.typ.str
    {
      var i :| 0 <= i < |defs| && StructDef(defs[i]) && defs[i].value.typ.str == str;
      if i < |front| {
        assert front[i] == defs[i];
      }
    }
    forall str | str in StructStrings(front)
      ensures str in StructStrings(defs)
    {
      var i :| 0 <= i < |front| && StructDef(front[i]) && front[i].value.typ.str == str;
      assert defs[i] == front[i];
    }
  }

  /** The seen set of the loop holds the type strings of the exported
      structs read. */
  lemma {:induction false} CollectedSeen(defs: seq<Option<Decl>>, pkgPath: string, lib: Foreign)
    requires AllDefined(defs, pkgPath)
    ensures Collect(defs, pkgPath, lib).seen == StructStrings(defs)
  {
    if defs == [] {
      assert StructStrings(defs) == {};
    } else {
      var front := defs[..|defs| - 1];
      assert AllDefined(front, pkgPath);
      CollectedSeen(front, pkgPath, lib);
      StructStringsSnoc(defs);
    }
  }

  /** The struct part of the loop: each first occurrence of a type string
      among the exported structs gives one message, in order, when the
      struct belongs to its own package, and one import of its package
      otherwise; a repeated string gives nothing. */
  lemma {:induction false} CollectedStructs(defs: seq<Option<Decl>>, pkgPath: string, lib: Foreign)
    requires AllDefined(defs, pkgPath)
    ensures Collect(defs, pkgPath, lib).Messages == BuiltMessages(defs, pkgPath, lib)
    ensures Collect(defs, pkgPath, lib).Imports == ForeignImports(defs)
  {
    if defs != [] {
      var front := defs[..|defs| - 1];
      var d := defs[|defs| - 1];
      assert AllDefined(front, pkgPath);
      CollectedStructs(front, pkgPath, lib);
      CollectedSeen(front, pkgPath, lib);
      if StructDef(d) {
        LastFirstOf(defs);
      }
    }
  }

  /** The enums after a sequence of reads. */
  function ApplyReads(rs: seq<ConstRead>): map<string, Enum>
  {
    if rs == [] then map[] else ApplyRead(ApplyReads(rs[..|rs| - 1]), rs[|rs| - 1])
  }

  /** The parsed values of the reads of enum k, in the order read. */
  function ValuesRead(rs: seq<ConstRead>, k: string): seq<EnumValue>
  {
    if rs == [] then []
    else
      var r := rs[|rs| - 1];
      ValuesRead(rs[..|rs| - 1], k) + (if r.Read? && r.enumName == k && r.value.Some? then [r.value.value] else [])
  }

  /** An enum exists exactly for the names some read constant belongs to;
      it carries that name and starts with no flags set; and its values are
      the parsed values of the reads of that enum, in the order read. */
  lemma {:induction false} ApplyReadsContents(rs: seq<ConstRead>)
    ensures forall k :: k in ApplyReads(rs) <==> exists i :: 0 <= i < |rs| && rs[i].Read? && rs[i].enumName == k
    ensures forall k :: k in ApplyReads(rs) ==>
              ApplyReads(rs)[k].Name == k && !ApplyReads(rs)[k].AllowAlias && !ApplyReads(rs)[k].MissingDefault
    ensures forall k :: k in ApplyReads(rs) ==> ApplyReads(rs)[k].Values == ValuesRead(rs, k)
    ensures forall k :: k !in ApplyReads(rs) ==> ValuesRead(rs, k) == []
  {
    if rs != [] {
      var front := rs[..|rs| - 1];
      var last := rs[|rs| - 1];
      ApplyReadsContents(front);
      var prev := ApplyReads(front);
      var next := ApplyReads(rs);
      assert next == ApplyRead(prev, last);
      forall k
        ensures k in next <==> exists i :: 0 <= i < |rs| && rs[i].Read? && rs[i].enumName == k
      {
        if i :| 0 <= i < |rs| && rs[i].Read? && rs[i].enumName == k {
          if i < |front| {
            assert front[i] == rs[i];
          }
        }
        if k in prev {
          var i :| 0 <= i < |front| && front[i].Read? && front[i].enumName == k;
          assert rs[i] == front[i];
        }
      }
      forall k
        ensures k in next ==> next[k].Values == ValuesRead(rs, k)
        ensures k !in next ==> ValuesRead(rs, k) == []
      {
        assert ValuesRead(rs, k) == ValuesRead(front, k)
          + (if last.Read? && last.enumName == k && last.value.Some? then [last.value.value] else []);
      }
    }
  }

  /** No admitted constant among defs has an empty simple type name. */
  predicate EnumsDefined(defs: seq<Option<Decl>>, pkgPath: string)
  {
    forall i :: 0 <= i < |defs| && Admitted(defs[i], pkgPath) ==> LastPart(defs[i].value.typ.str, '.') != []
  }

  /** The reads of defs, in order. */
  function Reads(defs: seq<Option<Decl>>, pkgPath: string, lib: Foreign): (rs: seq<ConstRead>)
    requires EnumsDefined(defs, pkgPath)
    ensures |rs| == |defs|
    ensures forall i :: 0 <= i < |defs| ==> rs[i] == ReadConst(defs[i], pkgPath, lib)
  {
    seq(|defs|, i requires 0 <= i < |defs| && EnumsDefined(defs, pkgPath) => ReadConst(defs[i], pkgPath, lib))
  }

  /** The enums of the whole loop are those of its enum steps alone:
      structs never touch them. */
  lemma {:induction false} CollectEnumsAgree(defs: seq<Option<Decl>>, pkgPath: string, lib: Foreign)
    requires AllDefined(defs, pkgPath)
    ensures EnumsDefined(defs, pkgPath)
    ensures Collect(defs, pkgPath, lib).Enums == ApplyReads(Reads(defs, pkgPath, lib))
  {
    if defs != [] {
      var front := defs[..|defs| - 1];
      assert AllDefined(front, pkgPath);
      CollectEnumsAgree(front, pkgPath, lib);
      var rs := Reads(defs, pkgPath, lib);
      assert rs[..|rs| - 1] == Reads(front, pkgPath, lib);
    }
  }

  /** The parsed values of the admitted constants of defs whose simple
      type name is k, in the order of defs. */
  function ParsedFor(defs: seq<Option<Decl>>, pkgPath: string, lib: Foreign, k: string): seq<EnumValue>
    requires EnumsDefined(defs, pkgPath)
  {
    if defs == [] then []
    else
      var d := defs[|defs| - 1];
      ParsedFor(defs[..|defs| - 1], pkgPath, lib, k) + ParsedOne(d, pkgPath, lib, k)
  }

  /** The parsed value of d, when d is an admitted constant of type k
      whose text parsed. */
  function ParsedOne(d: Option<Decl>, pkgPath: string, lib: Foreign, k: string): (r: seq<EnumValue>)
    requires Admitted(d, pkgPath) ==> LastPart(d.value.typ.str, '.') != []
    ensures |r| <= 1
    ensures forall v :: v in r <==> ParsedAs(d, pkgPath, lib, k, v)
  {
    if Admitted(d, pkgPath) && EnumKey(d.value) == k && ParsedValue(d.value, lib).Some?
    then [ParsedValue(d.value, lib).value] else []
  }

  /** d is an admitted constant of type k whose text parsed to v. */
  predicate ParsedAs(d: Option<Decl>, pkgPath: string, lib: Foreign, k: string, v: EnumValue)
  {
    && Admitted(d, pkgPath) && LastPart(d.value.typ.str, '.') != []
    && EnumKey(d.value) == k && ParsedValue(d.value, lib) == Some(v)
  }

  /** v is among the values read for k exactly when some read of k
      parsed to v. */
  lemma {:induction false} ValuesReadMembers(rs: seq<ConstRead>, k: string, v: EnumValue)
    ensures v in ValuesRead(rs, k) <==> exists i :: 0 <= i < |rs| && rs[i] == Read(k, Some(v))
  {
    if rs != [] {
      var front := rs[..|rs| - 1];
      var r := rs[|rs| - 1];
      ValuesReadMembers(front, k, v);
      var tail := if r.Read? && r.enumName == k && r.value.Some? then [r.value.value] else [];
      assert ValuesRead(rs, k) == ValuesRead(front, k) + tail;
      assert v in tail <==> r == Read(k, Some(v));
      if r == Read(k, Some(v)) {
        assert rs[|rs| - 1] == Read(k, Some(v));
      }
      if i :| 0 <= i < |rs| && rs[i] == Read(k, Some(v)) {
        if i < |front| {
          assert front[i] == rs[i];
        }
      }
      if i :| 0 <= i < |front| && front[i] == Read(k, Some(v)) {
        assert rs[i] == front[i];
      }
    }
  }

  /** v is among the parsed values of k exactly when some admitted
      constant of type k parsed to it. */
  lemma ParsedForMembers(defs: seq<Option<Decl>>, pkgPath: string, lib: Foreign, k: string, v: EnumValue)
    requires EnumsDefined(defs, pkgPath)
    ensures v in ParsedFor(defs, pkgPath, lib, k) <==> exists i :: 0 <= i < |defs| && ParsedAs(defs[i], pkgPath, lib, k, v)
  {
    var rs := Reads(defs, pkgPath, lib);
    ReadsValues(defs, pkgPath, lib, k);
    ValuesReadMembers(rs, k, v);
    forall i | 0 <= i < |defs|
      ensures rs[i] == Read(k, Some(v)) <==> ParsedAs(defs[i], pkgPath, lib, k, v)
    {
    }
  }

  /** The values read for k from the reads of defs are its parsed values. */
  lemma {:induction false} ReadsValues(defs: seq<Option<Decl>>, pkgPath: string, lib: Foreign, k: string)
    requires EnumsDefined(defs, pkgPath)
    ensures ValuesRead(Reads(defs, pkgPath, lib), k) == ParsedFor(defs, pkgPath, lib, k)
  {
    if defs != [] {
      var front := defs[..|defs| - 1];
      ReadsValues(front, pkgPath, lib, k);
      var rs := Reads(defs, pkgPath, lib);
      assert rs[..|rs| - 1] == Reads(front, pkgPath, lib);
    }
  }

  /** enums holds one enum per simple type name of an admitted constant of
      defs, named after it. */
  ghost predicate KeyedBy(enums: map<string, Enum>, defs: seq<Option<Decl>>, pkgPath: string)
    requires EnumsDefined(defs, pkgPath)
  {
    && (forall k :: k in enums <==>
          exists i :: 0 <= i < |defs| && Admitted(defs[i], pkgPath) && EnumKey(defs[i].value) == k)
    && (forall k :: k in enums ==> enums[k].Name == k)
  }

  /** enums is keyed by defs, and each enum holds the parsed values of its
      admitted constants in the order of defs. */
  ghost predicate ReadInOrder(enums: map<string, Enum>, defs: seq<Option<Decl>>, pkgPath: string, lib: Foreign)
    requires EnumsDefined(defs, pkgPath)
  {
    && KeyedBy(enums, defs, pkgPath)
    && forall k :: k in enums ==> enums[k].Values == ParsedFor(defs, pkgPath, lib, k)
  }

  /** enums is keyed by defs, and each enum holds the parsed values of its
      admitted constants, each as often as it was parsed, in some order. */
  ghost predicate Gathered(enums: map<string, Enum>, defs: seq<Option<Decl>>, pkgPath: string, lib: Foreign)
    requires EnumsDefined(defs, pkgPath)
  {
    && KeyedBy(enums, defs, pkgPath)
    && forall k :: k in enums ==> multiset(enums[k].Values) == multiset(ParsedFor(defs, pkgPath, lib, k))
  }

  /** Every enum of enums is sorted by (Value, Name); MissingDefault holds
      iff none of its values is 0, and AllowAlias iff two of them share a
      value. */
  ghost predicate Flagged(enums: map<string, Enum>)
  {
    forall k :: k in enums ==>
      && SortedBy(enums[k].Values, Whole, ValueLess)
      && (enums[k].MissingDefault <==> forall v :: v in enums[k].Values ==> v.Value != 0)
      && (enums[k].AllowAlias <==>
            exists i, j :: 0 <= i < j < |enums[k].Values| && enums[k].Values[i].Value == enums[k].Values[j].Value)
  }

  /** The enums main.go collects from defs, before the final loop: one per
      simple type name of an admitted constant, holding the parsed values of
      the admitted constants of that type in the order read. */
  lemma CollectedEnums(defs: seq<Option<Decl>>, pkgPath: string, lib: Foreign)
    requires AllDefined(defs, pkgPath)
    ensures ReadInOrder(Collect(defs, pkgPath, lib).Enums, defs, pkgPath, lib)
  {
    CollectEnumsAgree(defs, pkgPath, lib);
    ReadsInOrder(defs, pkgPath, lib);
  }

  /** Applying the reads of defs gives the enums of defs in read order. */
  lemma ReadsInOrder(defs: seq<Option<Decl>>, pkgPath: string, lib: Foreign)
    requires EnumsDefined(defs, pkgPath)
    ensures ReadInOrder(ApplyReads(Reads(defs, pkgPath, lib)), defs, pkgPath, lib)
  {
    var rs := Reads(defs, pkgPath, lib);
    ApplyReadsContents(rs);
    forall i | 0 <= i < |defs|
      ensures rs[i].Read? <==> Admitted(defs[i], pkgPath)
      ensures rs[i].Read? ==> rs[i] == Read(EnumKey(defs[i].value), ParsedValue(defs[i].value, lib))
    {
    }
    forall k | k in ApplyReads(rs)
      ensures ApplyReads(rs)[k].Values == ParsedFor(defs, pkgPath, lib, k)
    {
      ReadsValues(defs, pkgPath, lib, k);
    }
  }

  /** The less function main.go hands to sort.Slice for enum values: by
      Value, and by Name among equal values. */
  predicate ValueLess(a: EnumValue, b: EnumValue)
  {
    if a.Value == b.Value then Less(a.Name, b.Name) else a.Value < b.Value
  }

  function Whole(v: EnumValue): EnumValue { v }

  function ValuesOf(s: seq<EnumValue>): (vs: seq<int64>)
    ensures |vs| == |s|
    ensures forall k :: 0 <= k < |s| ==> vs[k] == s[k].Value
  {
    seq(|s|, k requires 0 <= k < |s| => s[k].Value)
  }

  lemma ValueLessIsStrictOrder()
    ensures StrictOrder(ValueLess)
  {
    forall a: EnumValue
      ensures !ValueLess(a, a)
    {
      LessIrreflexive(a.Name);
    }
    forall a: EnumValue, b: EnumValue, c: EnumValue | ValueLess(a, b) && ValueLess(b, c)
      ensures ValueLess(a, c)
    {
      if a.Value == b.Value == c.Value {
        LessTransitive(a.Name, b.Name, c.Name);
      }
    }
  }

  /** The sort.Slice call on an enum's values. */
  function SortValues(s: seq<EnumValue>): (r: seq<EnumValue>)
    ensures SortedBy(r, Whole, ValueLess) && multiset(r) == multiset(s)
  {
    ValueLessIsStrictOrder();
    Sort(s, Whole, ValueLess)
  }

  function MessageName(m: Message): string { m.Name }

  /** The sort.Slice call on the messages. */
  function SortMessages(s: seq<Message>): (r: seq<Message>)
    ensures SortedBy(r, MessageName, Less) && multiset(r) == multiset(s)
  {
    assert StrictOrder(Less) by {
      forall a: string
        ensures !Less(a, a)
      {
        LessIrreflexive(a);
      }
      forall a: string, b: string, c: string | Less(a, b) && Less(b, c)
        ensures Less(a, c)
      {
        LessTransitive(a, b, c);
      }
    }
    Sort(s, MessageName, Less)
  }

  /** What the final loop does to one enum: sort its values, then set
      MissingDefault and AllowAlias from the sorted values alone. */
  function FinalizeEnum(e: Enum): Enum
  {
    var vs := SortValues(e.Values);
    e.(Values := vs, MissingDefault := !HasZero(ValuesOf(vs)), AllowAlias := HasAdjacentEqual(ValuesOf(vs)))
  }

  /** A finalised enum keeps its name and its values, in (Value, Name)
      order; MissingDefault holds iff no value is 0, and AllowAlias iff two
      values are equal, whatever AllowAlias was before. */
  lemma FinalizeEnumFlags(e: Enum)
    ensures var r := FinalizeEnum(e);
            && r.Name == e.Name
            && SortedBy(r.Values, Whole, ValueLess) && multiset(r.Values) == multiset(e.Values)
            && (r.MissingDefault <==> forall v :: v in e.Values ==> v.Value != 0)
            && (r.AllowAlias <==> exists i, j :: 0 <= i < j < |r.Values| && r.Values[i].Value == r.Values[j].Value)
  {
    var r := FinalizeEnum(e);
    var vs := ValuesOf(r.Values);
    SortedValuesNonDecreasing(r.Values);
    AdjacentEqualIffRepeated(vs);
    ZeroIffZeroValue(e.Values, r.Values);
  }

  lemma SortedValuesNonDecreasing(s: seq<EnumValue>)
    requires SortedBy(s, Whole, ValueLess)
    ensures NonDecreasing(ValuesOf(s))
  {
    var vs := ValuesOf(s);
    forall i, j | 0 <= i < j < |vs|
      ensures vs[i] <= vs[j]
    {
      assert !ValueLess(s[j], s[i]);
    }
  }

  /** A permutation has a value 0 exactly when the original does. */
  lemma ZeroIffZeroValue(s: seq<EnumValue>, r: seq<EnumValue>)
    requires multiset(r) == multiset(s)
    ensures HasZero(ValuesOf(r)) <==> exists v :: v in s && v.Value == 0
  {
    var vs := ValuesOf(r);
    if HasZero(vs) {
      var k :| 0 <= k < |vs| && vs[k] == 0;
      assert r[k] in multiset(r);
    }
    if v :| v in s && v.Value == 0 {
      assert v in multiset(r);
      var k :| 0 <= k < |r| && r[k] == v;
      assert vs[k] == 0;
    }
  }

  /** The catalog main.go returns after reading defs. */
  function Finalize(name: string, pkgPath: string, st: State): (r: PackageInfo)
    ensures SortedBy(r.Messages, MessageName, Less) && multiset(r.Messages) == multiset(st.Messages)
    ensures r.Enums.Keys == st.Enums.Keys
  {
    PackageInfo(name, pkgPath, st.seen, SortMessages(st.Messages), st.Imports,
                FinalizeAll(st.Enums))
  }

  /** Every enum of a map finalised, under the same key. */
  function FinalizeAll(enums: map<string, Enum>): (r: map<string, Enum>)
    ensures r.Keys == enums.Keys
  {
    map k | k in enums :: FinalizeEnum(enums[k])
  }

  /** The enums getMessagesForPackage returns: one per simple type name of
      an admitted constant, named after it, holding exactly the parsed
      values of the admitted constants of that type, sorted by (Value,
      Name); MissingDefault holds iff none of them is 0 and AllowAlias iff
      two of them share a value. */
  lemma ReturnedEnums(name: string, pkgPath: string, defs: seq<Option<Decl>>, lib: Foreign)
    requires AllDefined(defs, pkgPath)
    ensures Gathered(Finalize(name, pkgPath, Collect(defs, pkgPath, lib)).Enums, defs, pkgPath, lib)
    ensures Flagged(Finalize(name, pkgPath, Collect(defs, pkgPath, lib)).Enums)
  {
    var collected := Collect(defs, pkgPath, lib).Enums;
    assert Finalize(name, pkgPath, Collect(defs, pkgPath, lib)).Enums == FinalizeAll(collected);
    CollectedEnums(defs, pkgPath, lib);
    FinalizedGathered(defs, pkgPath, lib, collected);
  }

  /** Finalising the enums read from defs keeps, for each of them, the
      parsed values of its constants each as often as parsed, and sorts and
      flags each enum. */
  lemma FinalizedGathered(defs: seq<Option<Decl>>, pkgPath: string, lib: Foreign, collected: map<string, Enum>)
    requires EnumsDefined(defs, pkgPath) && ReadInOrder(collected, defs, pkgPath, lib)
    ensures Gathered(FinalizeAll(collected), defs, pkgPath, lib)
    ensures Flagged(FinalizeAll(collected))
  {
    FinalizedEnums(collected);
  }

  /** Finalising every enum of a map keeps its keys and each enum's name
      and values (as a multiset), and leaves each sorted and flagged from
      its values. */
  lemma FinalizedEnums(collected: map<string, Enum>)
    ensures var enums := FinalizeAll(collected);
            && enums.Keys == collected.Keys
            && (forall k :: k in enums ==> multiset(enums[k].Values) == multiset(collected[k].Values))
            && (forall k :: k in enums ==> enums[k].Name == collected[k].Name)
            && Flagged(enums)
  {
    var enums := FinalizeAll(collected);
    forall k | k in enums
      ensures multiset(enums[k].Values) == multiset(collected[k].Values)
      ensures enums[k].MissingDefault <==> forall v :: v in enums[k].Values ==> v.Value != 0
    {
      FinalizeEnumFlags(collected[k]);
      SameMembers(collected[k].Values, enums[k].Values);
    }
    forall k | k in enums
      ensures && enums[k].Name == collected[k].Name
              && SortedBy(enums[k].Values, Whole, ValueLess)
              && (enums[k].AllowAlias <==>
                    exists i, j :: 0 <= i < j < |enums[k].Values| && enums[k].Values[i].Value == enums[k].Values[j].Value)
    {
      FinalizeEnumFlags(collected[k]);
    }
  }

  /** Two sequences with the same multiset have the same members. */
  lemma SameMembers(s: seq<EnumValue>, r: seq<EnumValue>)
    requires multiset(r) == multiset(s)
    ensures forall v :: v in r <==> v in s
  {
    forall v
      ensures v in r <==> v in s
    {
      assert v in r <==> v in multiset(r);
      assert v in s <==> v in multiset(s);
    }
  }

  /** The scan of one enum's sorted values in main.go: whether some value
      is 0 and whether some value equals the one before it. */
  method ScanValues(values: seq<EnumValue>) returns (hasZero: bool, hasAlias: bool)
    ensures hasZero == HasZero(ValuesOf(values))
    ensures hasAlias == HasAdjacentEqual(ValuesOf(values))
  {
    ghost var vs := ValuesOf(values);
    assert vs[..0] == [];
    hasZero, hasAlias := false, false;
    var lastValue: int64 := 0;
    var hasLast := false;
    for i := 0 to |values|
      invariant hasZero == HasZero(vs[..i])
      invariant hasAlias == HasAdjacentEqual(vs[..i])
      invariant hasLast == (i > 0)
      invariant i > 0 ==> lastValue == vs[i - 1]
    {
      var val := values[i];
      ZeroStep(vs, i);
      AdjacentEqualStep(vs, i);
      if val.Value == 0 {
        hasZero := true;
      }
      if hasLast && val.Value == lastValue {
        hasAlias := true;
      }
      lastValue := val.Value;
      hasLast := true;
    }
    assert vs[..|values|] == vs;
  }

  /** getMessagesForPackage: read the definitions in the order given (Go's
      map order, which is unspecified), then sort the messages and finalise
      every enum. A constant whose value does not parse is skipped after
      its enum has been created. */
  method GetMessagesForPackage(name: string, pkgPath: string, defs: seq<Option<Decl>>, lib: Foreign)
    returns (result: PackageInfo)
    requires AllDefined(defs, pkgPath)
    ensures result == Finalize(name, pkgPath, Collect(defs, pkgPath, lib))
  {
    var seen: set<string> := {};
    var messages: seq<Message> := [];
    var imports: seq<string> := [];
    var enums: map<string, Enum> := map[];
    for i := 0 to |defs|
      invariant State(seen, messages, imports, enums) == Collect(defs[..i], pkgPath, lib)
    {
      assert defs[..i + 1][..i] == defs[..i];
      seen, messages, imports, enums := ReadDefinition(seen, messages, imports, enums, defs[i], pkgPath, lib);
    }
    assert defs[..|defs|] == defs;

    messages := SortMessages(messages);
    enums := FinalizeEnums(enums);
    result := PackageInfo(name, pkgPath, seen, messages, imports, enums);
  }

  /** The body of the loop over the definitions. */
  method ReadDefinition(seen: set<string>, messages: seq<Message>, imports: seq<string>, enums: map<string, Enum>,
                        d: Option<Decl>, pkgPath: string, lib: Foreign)
    returns (seen': set<string>, messages': seq<Message>, imports': seq<string>, enums': map<string, Enum>)
    requires Defined(d, pkgPath)
    ensures State(seen', messages', imports', enums') == Step(State(seen, messages, imports, enums), d, pkgPath, lib)
  {
    seen', messages', imports', enums' := seen, messages, imports, enums;
    if d.None? {
      return;
    }
    var t := d.value;
    if !t.exported {
      return;
    }
    if t.typ.under.Struct? {
      if t.typ.str in seen {
        return;
      }
      seen' := seen + {t.typ.str};
      var typePkgName := Helpers.GetPackageFromType(t.typ.str);
      if typePkgName != t.pkgPath {
        imports' := imports + [typePkgName];
        return;
      }
      messages' := AppendMessage(messages, t, t.typ.under.members, pkgPath, lib);
    } else if t.constVal.Some? && t.typ.underStr == GoTypeInt && Helpers.GetPackageFromType(t.typ.str) == pkgPath {
      assert Admitted(d, pkgPath);
      enums' := AddConstant(enums, t, pkgPath, lib);
    }
  }

  /** The constant branch: find or create the enum of t's type, then append
      t's value when it parses. */
  method AddConstant(enums: map<string, Enum>, t: Decl, pkgPath: string, lib: Foreign)
    returns (enums': map<string, Enum>)
    requires t.constVal.Some? && LastPart(t.typ.str, '.') != []
    ensures enums' == ApplyRead(enums, Read(EnumKey(t), ParsedValue(t, lib)))
  {
    var enumTypeName := Helpers.SplitTypeNameHelper(t.typ);
    var val := lib.parseInt(t.constVal.value, 10);
    var parsed := if val.Some? then Some(EnumValue(lib.toScreamingSnake(t.name), val.value)) else None;
    enums' := RecordConstant(enums, enumTypeName, parsed);
  }

  /** The enum named enumTypeName, created when missing, with the parsed
      value appended when there is one. */
  method RecordConstant(enums: map<string, Enum>, enumTypeName: string, parsed: Option<EnumValue>)
    returns (enums': map<string, Enum>)
    ensures enums' == ApplyRead(enums, Read(enumTypeName, parsed))
  {
    enums' := enums;
    var e: Enum;
    if enumTypeName in enums' {
      e := enums'[enumTypeName];
    } else {
      e := Enum(enumTypeName, [], false, false);
      enums' := enums'[enumTypeName := e];
    }
    if parsed.Some? {
      e := e.(Values := e.Values + [parsed.value]);
      enums' := enums'[enumTypeName := e];
    }
  }

  /** The final loop over the enums: every enum sorted and flagged. */
  method FinalizeEnums(enums: map<string, Enum>) returns (r: map<string, Enum>)
    ensures r == FinalizeAll(enums)
  {
    r := enums;
    var todo := enums.Keys;
    while todo != {}
      invariant todo <= r.Keys && r.Keys == enums.Keys
      invariant forall k :: k in r ==> r[k] == (if k in todo then enums[k] else FinalizeEnum(enums[k]))
      decreases |todo|
    {
      var k :| k in todo;
      var e := r[k];
      var values := SortValues(e.Values);
      var hasZero, hasAlias := ScanValues(values);
      r := r[k := e.(Values := values, MissingDefault := !hasZero, AllowAlias := hasAlias)];
      todo := todo - {k};
    }
  }
}
