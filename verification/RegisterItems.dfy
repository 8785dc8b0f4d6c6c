/** One Modbus register row: its type, address, declared size and last value. */
module RegisterItems {
  import opened Bytes

  datatype RegisterType =
    | Bool | UI8 | I8 | UI16 | I16 | UI32 | I32 | UI64 | I64 | Float | Double | Text | Invalid

  /** The registers that a value of the type fills. */
  function RegisterCount(t: RegisterType): (n: nat)
    ensures n == 1 || n == 2 || n == 4
  {
    match t
    case UI32 | I32 | Float => 2
    case UI64 | I64 | Double => 4
    case _ => 1
  }

  lemma RegisterCountIs(t: RegisterType)
    ensures RegisterCount(t) == 1 <==> t in {Bool, UI8, I8, UI16, I16, Text, Invalid}
    ensures RegisterCount(t) == 2 <==> t in {UI32, I32, Float}
    ensures RegisterCount(t) == 4 <==> t in {UI64, I64, Double}
  {}

  predicate IsFloating(t: RegisterType) { t.Float? || t.Double? }

  datatype ByteOrder = Default | BigEndian | LittleEndian | BigEndianByteSwap | LittleEndianByteSwap

  /** The live alternative of a register's value; floating values are kept as their bits. */
  datatype RegisterValue = IntegerValue(value: u64) | FloatValue(bits: u32) | DoubleValue(doubleBits: u64)

  const NO_VALUE := IntegerValue(0)

  /** A register row as a value. */
  datatype Item = Item(
    name: string,
    branches: u32,
    byteOrder: ByteOrder,
    manualAddress: int,
    offset: nat,
    kind: RegisterType,
    registerSize: Option<nat>,
    value: RegisterValue)
  {
    function Size(): nat {
      match registerSize
      case Some(n) => n
      case None => RegisterCount(kind)
    }

    function End(): nat { offset + Size() }
  }

  /** A register row as the tables own it: the fields an edit or a poll rewrites are mutable. */
  class ModbusItem {
    const name: string
    const branches: u32
    const byteOrder: ByteOrder
    const manualAddress: int
    var offset: nat
    var kind: RegisterType
    var registerSize: Option<nat>
    var value: RegisterValue

    constructor (view: Item)
      ensures View() == view
    {
      name, branches, byteOrder, manualAddress := view.name, view.branches, view.byteOrder, view.manualAddress;
      offset, kind, registerSize, value := view.offset, view.kind, view.registerSize, view.value;
    }

    function View(): Item
      reads this
    {
      Item(name, branches, byteOrder, manualAddress, offset, kind, registerSize, value)
    }

    function Size(): (n: nat)
      reads this
      ensures n == View().Size()
    {
      if registerSize.Some? then registerSize.value else RegisterCount(kind)
    }
  }

  /** The rows of a table as values. */
  function Views(items: seq<ModbusItem>): (views: seq<Item>)
    reads items
    ensures |views| == |items|
    ensures forall i :: 0 <= i < |items| ==> views[i] == items[i].View()
  {
    if items == [] then [] else [items[0].View()] + Views(items[1..])
  }

  /** Every row is a separate object: the table owns its rows. */
  ghost predicate Distinct(items: seq<ModbusItem>) {
    forall i, j :: 0 <= i < j < |items| ==> items[i] != items[j]
  }
}
