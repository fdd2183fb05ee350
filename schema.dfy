/** The records the generator fills in for the templates: a proto field
    (field.go) and a proto map declaration (map.go). */
module Schema {
  import opened GoTypes

  /** One field of a proto message. The struct member it comes from never
      changes; the naming hooks rewrite Name and TypeName in place. */
  class Field {
    const Var: Member
    var Name: string
    var TypeName: string
    var Order: int
    var IsRepeated: bool
    var JSONName: string

    constructor (v: Member, name: string, typeName: string, order: int, isRepeated: bool, jsonName: string)
      ensures Var == v && Name == name && TypeName == typeName && Order == order
      ensures IsRepeated == isRepeated && JSONName == jsonName
    {
      Var := v;
      Name := name;
      TypeName := typeName;
      Order := order;
      IsRepeated := isRepeated;
      JSONName := jsonName;
    }
  }

  /** A named Go map type: its name and the String() of its key and
      element types and of their underlying types. */
  datatype Map = Map(
    Name: string,
    KeyType: string,
    UnderlyingKeyType: string,
    ElemType: string,
    UnderlyingElemType: string)
}
