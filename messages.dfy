/** message.go: a proto message built from a Go struct, one field per
    exported member. */
module Messages {
  import opened GoTypes
  import opened Helpers
  import opened Schema

  /** A proto message under construction. */
  class Message {
    const Name: string
    var Fields: seq<Field>
    const Struct: seq<Member>

    /** NewMessage: the given name and struct, and no fields yet. */
    constructor (name: string, s: seq<Member>)
      ensures Name == name && Struct == s && Fields == []
    {
      Name := name;
      Struct := s;
      Fields := [];
    }
  }

  /** The positions of the exported members of s, in declaration order. */
  function ExportedIndices(s: seq<Member>): (r: seq<nat>)
    ensures forall k :: 0 <= k < |r| ==> r[k] < |s| && s[r[k]].exported
  {
    if s == [] then []
    else ExportedIndices(s[..|s| - 1]) + (if s[|s| - 1].exported then [|s| - 1] else [])
  }

  /** Every exported member is listed, and the positions increase strictly,
      so each is listed once. */
  lemma {:induction false} ExportedIndicesExact(s: seq<Member>)
    ensures forall k, l :: 0 <= k < l < |ExportedIndices(s)| ==> ExportedIndices(s)[k] < ExportedIndices(s)[l]
    ensures forall i :: 0 <= i < |s| && s[i].exported ==> i in ExportedIndices(s)
    decreases |s|
  {
    if s != [] {
      var front := s[..|s| - 1];
      ExportedIndicesExact(front);
      var e := ExportedIndices(front);
      assert ExportedIndices(s) == e + (if s[|s| - 1].exported then [|s| - 1] else []);
      forall i | 0 <= i < |s| && s[i].exported
        ensures i in ExportedIndices(s)
      {
        if i < |s| - 1 {
          assert front[i] == s[i];
        }
      }
    }
  }

  /** The name of the json key of a struct tag, or "" when the tag does not
      parse or has no json key; a malformed tag is not an error. */
  function JsonName(tag: string, lib: Foreign): (r: string)
    ensures lib.parseTag(tag).Some? && "json" in lib.parseTag(tag).value ==> r == lib.parseTag(tag).value["json"]
    ensures lib.parseTag(tag).None? || "json" !in lib.parseTag(tag).value ==> r == ""
  {
    match lib.parseTag(tag)
    case Some(tags) => if "json" in tags then tags["json"] else ""
    case None => ""
  }

  /** toProtoFieldTypeName does not panic on any exported member of s. */
  predicate MembersDefined(s: seq<Member>, pkgPath: string)
  {
    forall i :: 0 <= i < |s| && s[i].exported ==> FieldTypeNameDefined(s[i].typ, pkgPath)
  }

  /** f is the field createMessage makes for member m at position i. */
  predicate FieldFrom(f: Field, m: Member, i: nat, pkgPath: string, lib: Foreign)
    reads f
  {
    && FieldTypeNameDefined(m.typ, pkgPath)
    && f.Var == m
    && f.Name == ToProtoFieldName(m.name, lib)
    && f.TypeName == ToProtoFieldTypeName(m.typ, pkgPath)
    && f.IsRepeated == IsRepeated(m)
    && f.Order == i + 1
    && f.JSONName == JsonName(m.tag, lib)
  }

  /** createMessage: a message named after t with one new field for each
      exported member of s, in declaration order, whose Order is the
      member's position among all members plus one. */
  method CreateMessage(t: Decl, s: seq<Member>, pkgPath: string, lib: Foreign) returns (msg: Message)
    requires MembersDefined(s, pkgPath)
    ensures fresh(msg) && msg.Name == t.name && msg.Struct == s
    ensures |msg.Fields| == |ExportedIndices(s)|
    ensures forall k :: 0 <= k < |msg.Fields| ==>
              fresh(msg.Fields[k]) && FieldFrom(msg.Fields[k], s[ExportedIndices(s)[k]], ExportedIndices(s)[k], pkgPath, lib)
    ensures forall k, l :: 0 <= k < l < |msg.Fields| ==> msg.Fields[k] != msg.Fields[l]
  {
    msg := new Message(t.name, s);
    ghost var idx: seq<nat> := [];
    var i := 0;
    while i < |s|
      invariant 0 <= i <= |s|
      invariant fresh(msg) && msg.Name == t.name && msg.Struct == s
      invariant idx == ExportedIndices(s[..i])
      invariant |msg.Fields| == |idx|
      invariant forall k :: 0 <= k < |idx| ==> idx[k] < i
      invariant forall k :: 0 <= k < |msg.Fields| ==>
                  fresh(msg.Fields[k]) && FieldFrom(msg.Fields[k], s[idx[k]], idx[k], pkgPath, lib)
      invariant forall k, l :: 0 <= k < l < |msg.Fields| ==> msg.Fields[k] != msg.Fields[l]
    {
      var f := s[i];
      ExportedStep(s, i);
      if f.exported {
        var jsonName := JsonName(f.tag, lib);
        var newField := new Field(f, ToProtoFieldName(f.name, lib), ToProtoFieldTypeName(f.typ, pkgPath),
                                  i + 1, IsRepeated(f), jsonName);
        msg.Fields := msg.Fields + [newField];
        idx := idx + [i];
      }
      i := i + 1;
    }
    assert s[..i] == s;
  }

  /** The orders of the fields of a built message (each its member's
      position plus one) increase strictly, lie between 1 and the number of
      members, belong to exported members, and cover every exported member;
      the orders of unexported members are skipped. */
  lemma FieldOrders(orders: seq<int>, s: seq<Member>)
    requires |orders| == |ExportedIndices(s)|
    requires forall k :: 0 <= k < |orders| ==> orders[k] == ExportedIndices(s)[k] + 1
    ensures forall k :: 0 <= k < |orders| ==> 1 <= orders[k] <= |s| && s[orders[k] - 1].exported
    ensures forall k, l :: 0 <= k < l < |orders| ==> orders[k] < orders[l]
    ensures forall i :: 0 <= i < |s| && s[i].exported ==> exists k :: 0 <= k < |orders| && orders[k] == i + 1
  {
    ExportedIndicesExact(s);
    var idx := ExportedIndices(s);
    forall i | 0 <= i < |s| && s[i].exported
      ensures exists k :: 0 <= k < |orders| && orders[k] == i + 1
    {
      var k :| 0 <= k < |idx| && idx[k] == i;
      assert orders[k] == i + 1;
    }
  }

  lemma ExportedStep(s: seq<Member>, i: nat)
    requires i < |s|
    ensures ExportedIndices(s[..i + 1]) == ExportedIndices(s[..i]) + (if s[i].exported then [i] else [])
  {
    assert s[..i + 1][..i] == s[..i];
  }
}
