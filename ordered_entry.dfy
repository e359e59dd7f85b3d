/**
 * ElementWithOrder: an element stamped with an int order. Entries compare by
 * their order alone, through a 32-bit subtraction.
 */
module OrderedEntries {

  /** Java's `int`. */
  newtype int32 = x: int | -0x8000_0000 <= x < 0x8000_0000

  const IntMax: int32 := 0x7fff_ffff

  /** Java's two's-complement wrap of an exact integer result to 32 bits. */
  function Wrap32(x: int): (r: int32)
    ensures (r as int - x) % 0x1_0000_0000 == 0
    ensures -0x8000_0000 <= x < 0x8000_0000 ==> r as int == x
  {
    var m := x % 0x1_0000_0000;
    assert x == (x / 0x1_0000_0000) * 0x1_0000_0000 + m;
    (if m < 0x8000_0000 then m else m - 0x1_0000_0000) as int32
  }

  /** compareTo: `order - o.order` evaluated in 32-bit arithmetic. */
  function Compare(order: int32, other: int32): (c: int32)
    ensures -0x8000_0000 <= order as int - other as int < 0x8000_0000 ==>
      (c < 0 <==> order < other) && (c == 0 <==> order == other) && (c > 0 <==> order > other)
  {
    Wrap32(order as int - other as int)
  }

  /** Stamps handed out by the ordered set are never negative, so for them the
      comparison is the plain order of the integers. */
  lemma CompareOnStamps(order: int32, other: int32)
    requires 0 <= order && 0 <= other
    ensures Compare(order, other) < 0 <==> order < other
    ensures Compare(order, other) == 0 <==> order == other
    ensures Compare(order, other) > 0 <==> order > other
  {
  }

  /** Without the no-overflow assumption the sign is wrong: the least int
      compares as greater than 1. */
  lemma CompareOverflows()
    ensures Compare(-0x8000_0000, 1) > 0
  {
  }

  /** The comparison compareTo evidently intends (Integer.compare): its sign
      is the order of the two ints for every pair, with no overflow. */
  function CompareOrders(order: int32, other: int32): (c: int32)
    ensures c < 0 <==> order < other
    ensures c == 0 <==> order == other
    ensures c > 0 <==> order > other
    ensures -1 <= c <= 1
  {
    if order < other then -1 else if order == other then 0 else 1
  }

  /** Wherever the 32-bit difference does not overflow, the written comparison
      and the intended one have the same sign. */
  lemma CompareAgreesWithoutOverflow(order: int32, other: int32)
    requires -0x8000_0000 <= order as int - other as int < 0x8000_0000
    ensures (Compare(order, other) < 0) == (CompareOrders(order, other) < 0)
    ensures (Compare(order, other) == 0) == (CompareOrders(order, other) == 0)
  {
  }

  /** The value an ElementWithOrder holds: its stamp and its element. */
  datatype Entry<E> = Entry(order: int32, element: E)

  class ElementWithOrder<E> {
    var element: E
    var order: int32

    constructor (pOrder: int32, pElement: E)
      ensures order == pOrder && element == pElement
    {
      order := pOrder;
      element := pElement;
    }

    function GetOrder(): int32
      reads this
    {
      order
    }

    method SetOrder(newOrder: int32)
      modifies this
      ensures order == newOrder && GetOrder() == newOrder
      ensures element == old(element)
    {
      order := newOrder;
    }

    function GetElement(): E
      reads this
    {
      element
    }

    /** Only the orders take part; the elements are never looked at. */
    function CompareTo(o: ElementWithOrder<E>): (c: int32)
      reads this, o
      ensures order == o.order ==> c == 0
      ensures 0 <= order && 0 <= o.order ==>
        (c < 0 <==> order < o.order) && (c == 0 <==> order == o.order) && (c > 0 <==> order > o.order)
    {
      Compare(order, o.order)
    }

    /** The entry this object currently holds: what each of the set's two
        indexes refers to. */
    function Value(): Entry<E>
      reads this
    {
      Entry(order, element)
    }
  }
}
