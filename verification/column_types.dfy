/** The recursive column-type tree of a result set and the stable one-byte
    type code the boundary reports for each node (rust/src/row_set.rs,
    `column_type_to_code`). */
module ColumnTypes {
  import opened Ffi

  /** An unsigned byte: the width of a type code and of frame bytes. */
  newtype u8 = x: int | 0 <= x < 0x100

  datatype NativeType =
    | Ascii | BigInt | Blob | Boolean | Counter | Decimal | Double | Float | Int | Text
    | Timestamp | Uuid | Varint | Timeuuid | Inet | Date | Time | SmallInt | TinyInt | Duration
    /** Any native type the code table does not list (the driver's enum is
        non-exhaustive). */
    | OtherNative(name: string)

  datatype CollectionType =
    | List(element: ColumnType)
    | Map(key: ColumnType, value: ColumnType)
    | Set(element: ColumnType)
    /** Any collection kind the code table does not list. */
    | OtherCollection(name: string)

  /** A user-defined type: its name and its fields in declaration order. */
  datatype UdtDefinition = UdtDefinition(keyspace: string, name: string, fieldTypes: seq<(string, ColumnType)>)

  datatype ColumnType =
    | Native(native: NativeType)
    | Collection(frozen: bool, kind: CollectionType)
    | Vector(element: ColumnType, dimensions: nat)
    | UserDefinedType(frozen: bool, definition: UdtDefinition)
    | Tuple(fields: seq<ColumnType>)
    /** Any other kind of column type (the driver's enum is non-exhaustive). */
    | OtherColumnType(name: string)

  const CodeUnknown: u8 := 0x00
  const CodeList: u8 := 0x20
  const CodeMap: u8 := 0x21
  const CodeSet: u8 := 0x22
  const CodeUdt: u8 := 0x30
  const CodeTuple: u8 := 0x31

  /** The code table: the code of every supported native type. 0x0D is not used. */
  const NativeCodeTable: seq<(NativeType, u8)> := [
    (Ascii, 0x01), (BigInt, 0x02), (Blob, 0x03), (Boolean, 0x04), (Counter, 0x05),
    (Decimal, 0x06), (Double, 0x07), (Float, 0x08), (Int, 0x09), (Text, 0x0A),
    (Timestamp, 0x0B), (Uuid, 0x0C), (Varint, 0x0E), (Timeuuid, 0x0F), (Inet, 0x10),
    (Date, 0x11), (Time, 0x12), (SmallInt, 0x13), (TinyInt, 0x14), (Duration, 0x15)
  ]

  /** Every code the boundary can report. */
  const ValidCodes: set<u8> := {
    0x00, 0x01, 0x02, 0x03, 0x04, 0x05, 0x06, 0x07, 0x08, 0x09, 0x0A, 0x0B, 0x0C,
    0x0E, 0x0F, 0x10, 0x11, 0x12, 0x13, 0x14, 0x15,
    0x20, 0x21, 0x22, 0x30, 0x31
  }

  /** Nodes whose metadata is exposed through a type handle: the known
      collections, vectors, user-defined types and tuples. */
  predicate IsComposite(t: ColumnType) {
    || (t.Collection? && !t.kind.OtherCollection?)
    || t.Vector?
    || t.UserDefinedType?
    || t.Tuple?
  }

  /** Nodes the code table does not know. */
  predicate IsUnsupported(t: ColumnType) {
    || (t.Native? && t.native.OtherNative?)
    || (t.Collection? && t.kind.OtherCollection?)
    || t.OtherColumnType?
  }

  /** The frozen flag the metadata reports: only collections and
      user-defined types carry one. */
  predicate IsFrozen(t: ColumnType) {
    match t
    case Collection(frozen, _) => frozen
    case UserDefinedType(frozen, _) => frozen
    case _ => false
  }

  function ColumnTypeToCode(t: ColumnType): (c: u8)
    ensures c >= CodeList <==> IsComposite(t)
    ensures c == CodeUnknown <==> IsUnsupported(t)
  {
    match t
    case Native(nt) =>
      (match nt
       case Ascii => 0x01
       case BigInt => 0x02
       case Blob => 0x03
       case Boolean => 0x04
       case Counter => 0x05
       case Decimal => 0x06
       case Double => 0x07
       case Float => 0x08
       case Int => 0x09
       case Text => 0x0A
       case Timestamp => 0x0B
       case Uuid => 0x0C
       case Varint => 0x0E
       case Timeuuid => 0x0F
       case Inet => 0x10
       case Date => 0x11
       case Time => 0x12
       case SmallInt => 0x13
       case TinyInt => 0x14
       case Duration => 0x15
       case OtherNative(_) => CodeUnknown)
    case Collection(_, kind) =>
      (match kind
       case List(_) => CodeList
       case Map(_, _) => CodeMap
       case Set(_) => CodeSet
       case OtherCollection(_) => CodeUnknown)
    case Vector(_, _) => CodeList
    case UserDefinedType(_, _) => CodeUdt
    case Tuple(_) => CodeTuple
    case OtherColumnType(_) => CodeUnknown
  }

  /** Every code reported is one of `ValidCodes`; in particular
      0x0D and everything between 0x16 and 0x1F are never reported. */
  lemma CodesAreDocumented(t: ColumnType)
    ensures ColumnTypeToCode(t) in ValidCodes
    ensures ColumnTypeToCode(t) != 0x0D
  {
  }

  /** Every supported native type gets exactly the code the table documents. */
  lemma NativeCodesFollowTable()
    ensures forall k | 0 <= k < |NativeCodeTable| ::
      ColumnTypeToCode(Native(NativeCodeTable[k].0)) == NativeCodeTable[k].1
  {
  }

  /** The inverse of the native part of the code table. The boundary itself
      only encodes; this inverse exists so that the round-trip lemmas below
      can state that the table is injective. */
  function NativeOfCode(c: u8): Option<NativeType> {
    match c
    case 0x01 => Some(Ascii)
    case 0x02 => Some(BigInt)
    case 0x03 => Some(Blob)
    case 0x04 => Some(Boolean)
    case 0x05 => Some(Counter)
    case 0x06 => Some(Decimal)
    case 0x07 => Some(Double)
    case 0x08 => Some(Float)
    case 0x09 => Some(Int)
    case 0x0A => Some(Text)
    case 0x0B => Some(Timestamp)
    case 0x0C => Some(Uuid)
    case 0x0E => Some(Varint)
    case 0x0F => Some(Timeuuid)
    case 0x10 => Some(Inet)
    case 0x11 => Some(Date)
    case 0x12 => Some(Time)
    case 0x13 => Some(SmallInt)
    case 0x14 => Some(TinyInt)
    case 0x15 => Some(Duration)
    case _ => None
  }

  /** Decoding the code of a native type gives the type back, for every
      supported native type; unsupported ones share the code 0x00, which
      decodes to nothing. */
  lemma NativeCodeRoundTrip(nt: NativeType)
    ensures !nt.OtherNative? ==> NativeOfCode(ColumnTypeToCode(Native(nt))) == Some(nt)
    ensures nt.OtherNative? ==> NativeOfCode(ColumnTypeToCode(Native(nt))) == None
  {
  }

  /** Every code that decodes to a native type is that type's code, and
      the decoded pair is a row of the code table. */
  lemma CodeNativeRoundTrip(c: u8, nt: NativeType)
    requires NativeOfCode(c) == Some(nt)
    ensures ColumnTypeToCode(Native(nt)) == c
    ensures (nt, c) in NativeCodeTable
  {
  }

  /** The larger of two depths. */
  function Max(a: nat, b: nat): nat {
    if a < b then b else a
  }

  /** The largest element of a sequence, or 0 for the empty one. */
  function MaxOf(s: seq<nat>): (m: nat)
    ensures forall k | 0 <= k < |s| :: s[k] <= m
  {
    if |s| == 0 then 0 else Max(s[0], MaxOf(s[1..]))
  }

  /** The height of a type tree; the tree is finite and acyclic. */
  function Depth(t: ColumnType): nat {
    match t
    case Native(_) => 0
    case Collection(_, List(e)) => 1 + Depth(e)
    case Collection(_, Map(k, v)) => 1 + Max(Depth(k), Depth(v))
    case Collection(_, Set(e)) => 1 + Depth(e)
    case Collection(_, OtherCollection(_)) => 0
    case Vector(e, _) => 1 + Depth(e)
    case UserDefinedType(_, d) =>
      1 + MaxOf(seq(|d.fieldTypes|, i requires 0 <= i < |d.fieldTypes| => Depth(d.fieldTypes[i].1)))
    case Tuple(fs) => 1 + MaxOf(seq(|fs|, i requires 0 <= i < |fs| => Depth(fs[i])))
    case OtherColumnType(_) => 0
  }

  /** The direct children of a node, in order: the element of a list, set
      or vector, the key then the value of a map, the fields of a tuple,
      the field types of a user-defined type in declaration order. */
  function Children(t: ColumnType): seq<ColumnType> {
    match t
    case Collection(_, List(e)) => [e]
    case Collection(_, Map(k, v)) => [k, v]
    case Collection(_, Set(e)) => [e]
    case Vector(e, _) => [e]
    case UserDefinedType(_, d) => seq(|d.fieldTypes|, i requires 0 <= i < |d.fieldTypes| => d.fieldTypes[i].1)
    case Tuple(fs) => fs
    case _ => []
  }

  /** Every child is strictly shallower than its parent, so any walk that
      only descends reaches a leaf. */
  lemma ChildrenAreShallower(t: ColumnType)
    ensures forall k | 0 <= k < |Children(t)| :: Depth(Children(t)[k]) < Depth(t)
  {
    match t
    case UserDefinedType(_, d) =>
      var depths := seq(|d.fieldTypes|, i requires 0 <= i < |d.fieldTypes| => Depth(d.fieldTypes[i].1));
      assert forall k | 0 <= k < |Children(t)| :: Depth(Children(t)[k]) == depths[k];
    case Tuple(fs) =>
      var depths := seq(|fs|, i requires 0 <= i < |fs| => Depth(fs[i]));
      assert forall k | 0 <= k < |fs| :: Depth(fs[k]) == depths[k];
    case _ =>
  }
}
