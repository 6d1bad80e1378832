/** The type-tree walker: borrowed handles into a column-type tree and the
    accessors that narrow a handle to one of its children
    (rust/src/row_set.rs, the `row_set_type_info_get_*` functions).
    Each accessor panics when its argument has the wrong shape or an index
    is out of range; those conditions are the accessors' preconditions. */
module TypeInfo {
  import opened ColumnTypes

  /** A borrowed reference to a node of a type tree, or the null handle.
      The walker never copies nodes: a handle denotes the node itself. */
  datatype Handle = NullHandle | Borrowed(node: ColumnType)

  predicate IsListNode(t: ColumnType) {
    t.Collection? && t.kind.List?
  }

  predicate IsSetNode(t: ColumnType) {
    t.Collection? && t.kind.Set?
  }

  predicate IsMapNode(t: ColumnType) {
    t.Collection? && t.kind.Map?
  }

  /** `row_set_type_info_get_code`: a null handle panics. */
  function GetCode(h: Handle): (c: u8)
    requires h.Borrowed?
    ensures c == ColumnTypeToCode(h.node)
    ensures c >= CodeList <==> IsComposite(h.node)
  {
    ColumnTypeToCode(h.node)
  }

  /** `row_set_type_info_get_list_child`: only a list node has one. */
  function GetListChild(h: Handle): (child: Handle)
    requires h.Borrowed? && IsListNode(h.node)
    ensures child.Borrowed? && Children(h.node) == [child.node]
    ensures Depth(child.node) < Depth(h.node)
  {
    Borrowed(h.node.kind.element)
  }

  /** `row_set_type_info_get_set_child`: only a set node has one. */
  function GetSetChild(h: Handle): (child: Handle)
    requires h.Borrowed? && IsSetNode(h.node)
    ensures child.Borrowed? && Children(h.node) == [child.node]
    ensures Depth(child.node) < Depth(h.node)
  {
    Borrowed(h.node.kind.element)
  }

  /** `row_set_type_info_get_map_children`: the key handle and the value
      handle of a map node, returned together. */
  function GetMapChildren(h: Handle): (kv: (Handle, Handle))
    requires h.Borrowed? && IsMapNode(h.node)
    ensures kv.0.Borrowed? && kv.1.Borrowed?
    ensures Children(h.node) == [kv.0.node, kv.1.node]
    ensures Depth(kv.0.node) < Depth(h.node) && Depth(kv.1.node) < Depth(h.node)
  {
    (Borrowed(h.node.kind.key), Borrowed(h.node.kind.value))
  }

  /** `row_set_type_info_get_tuple_field_count` */
  function GetTupleFieldCount(h: Handle): (n: nat)
    requires h.Borrowed? && h.node.Tuple?
    ensures n == |Children(h.node)|
  {
    |h.node.fields|
  }

  /** `row_set_type_info_get_tuple_field`: an index at or past the field
      count panics. */
  function GetTupleField(h: Handle, index: nat): (field: Handle)
    requires h.Borrowed? && h.node.Tuple?
    requires index < GetTupleFieldCount(h)
    ensures field.Borrowed? && field.node == Children(h.node)[index]
    ensures Depth(field.node) < Depth(h.node)
  {
    ChildrenAreShallower(h.node);
    Borrowed(h.node.fields[index])
  }

  /** `row_set_type_info_get_udt_name` */
  function GetUdtName(h: Handle): (name: string)
    requires h.Borrowed? && h.node.UserDefinedType?
    ensures name == h.node.definition.name
  {
    h.node.definition.name
  }

  /** `row_set_type_info_get_udt_field_count` */
  function GetUdtFieldCount(h: Handle): (n: nat)
    requires h.Borrowed? && h.node.UserDefinedType?
    ensures n == |Children(h.node)|
  {
    |h.node.definition.fieldTypes|
  }

  /** `row_set_type_info_get_udt_field`: the field's name and a handle to
      its type; an index at or past the field count panics. */
  function GetUdtField(h: Handle, index: nat): (field: (string, Handle))
    requires h.Borrowed? && h.node.UserDefinedType?
    requires index < GetUdtFieldCount(h)
    ensures field.0 == h.node.definition.fieldTypes[index].0
    ensures field.1.Borrowed? && field.1.node == Children(h.node)[index]
    ensures Depth(field.1.node) < Depth(h.node)
  {
    ChildrenAreShallower(h.node);
    var (name, typ) := h.node.definition.fieldTypes[index];
    (name, Borrowed(typ))
  }

  /** Reading the fields of a user-defined type one index at a time, from 0
      up to the field count, yields its definition's fields in declaration
      order. */
  function UdtFieldsFrom(h: Handle, from: nat): (fields: seq<(string, ColumnType)>)
    requires h.Borrowed? && h.node.UserDefinedType?
    requires from <= GetUdtFieldCount(h)
    ensures fields == h.node.definition.fieldTypes[from..]
    decreases GetUdtFieldCount(h) - from
  {
    if from == GetUdtFieldCount(h) then []
    else
      var (name, typ) := GetUdtField(h, from);
      [(name, typ.node)] + UdtFieldsFrom(h, from + 1)
  }

  /** Reading the fields of a tuple one index at a time yields its fields
      in order. */
  function TupleFieldsFrom(h: Handle, from: nat): (fields: seq<ColumnType>)
    requires h.Borrowed? && h.node.Tuple?
    requires from <= GetTupleFieldCount(h)
    ensures fields == h.node.fields[from..]
    decreases GetTupleFieldCount(h) - from
  {
    if from == GetTupleFieldCount(h) then []
    else [GetTupleField(h, from).node] + TupleFieldsFrom(h, from + 1)
  }

  /** The code a caller reads first tells it which accessor is allowed:
      0x20 admits the list accessor except on a vector node, which also
      reports 0x20 but panics there; 0x21, 0x22, 0x30 and 0x31 admit exactly
      the map, set, user-defined-type and tuple accessors. */
  lemma CodeSelectsAccessor(t: ColumnType)
    ensures ColumnTypeToCode(t) == CodeList <==> IsListNode(t) || t.Vector?
    ensures ColumnTypeToCode(t) == CodeMap <==> IsMapNode(t)
    ensures ColumnTypeToCode(t) == CodeSet <==> IsSetNode(t)
    ensures ColumnTypeToCode(t) == CodeUdt <==> t.UserDefinedType?
    ensures ColumnTypeToCode(t) == CodeTuple <==> t.Tuple?
  {
  }

  /** A vector node reports the list code, yet the list accessor refuses it. */
  lemma VectorLooksLikeList(t: ColumnType)
    requires t.Vector?
    ensures GetCode(Borrowed(t)) == CodeList
    ensures !IsListNode(t)
  {
  }
}
