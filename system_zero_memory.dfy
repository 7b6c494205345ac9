/** The columns of the system_zero memory unit: sixteen consecutive column
    indices starting at START_MEMORY, which the enclosing register layout
    defines and which is a parameter here. Each index is the one before it
    plus 1; the six sorted columns follow the six unsorted ones. */
module SystemZeroMemory {

  function MemoryAddrContext(start: nat): (c: nat)
    ensures c == start
  {
    start
  }

  function MemoryAddrSegment(start: nat): (c: nat)
    ensures c == start + 1
  {
    MemoryAddrContext(start) + 1
  }

  function MemoryAddrVirtual(start: nat): (c: nat)
    ensures c == start + 2
  {
    MemoryAddrSegment(start) + 1
  }

  function MemoryFrom(start: nat): (c: nat)
    ensures c == start + 3
  {
    MemoryAddrVirtual(start) + 1
  }

  function MemoryTo(start: nat): (c: nat)
    ensures c == start + 4
  {
    MemoryFrom(start) + 1
  }

  function MemoryTimestamp(start: nat): (c: nat)
    ensures c == start + 5
  {
    MemoryTo(start) + 1
  }

  function SortedMemoryAddrContext(start: nat): (c: nat)
    ensures c == start + 6
  {
    MemoryTimestamp(start) + 1
  }

  function SortedMemoryAddrSegment(start: nat): (c: nat)
    ensures c == start + 7
  {
    SortedMemoryAddrContext(start) + 1
  }

  function SortedMemoryAddrVirtual(start: nat): (c: nat)
    ensures c == start + 8
  {
    SortedMemoryAddrSegment(start) + 1
  }

  function SortedMemoryFrom(start: nat): (c: nat)
    ensures c == start + 9
  {
    SortedMemoryAddrVirtual(start) + 1
  }

  function SortedMemoryTo(start: nat): (c: nat)
    ensures c == start + 10
  {
    SortedMemoryFrom(start) + 1
  }

  function SortedMemoryTimestamp(start: nat): (c: nat)
    ensures c == start + 11
  {
    SortedMemoryTo(start) + 1
  }

  function MemoryTraceContext(start: nat): (c: nat)
    ensures c == start + 12
  {
    SortedMemoryTimestamp(start) + 1
  }

  function MemoryTraceSegment(start: nat): (c: nat)
    ensures c == start + 13
  {
    MemoryTraceContext(start) + 1
  }

  function MemoryTraceVirtual(start: nat): (c: nat)
    ensures c == start + 14
  {
    MemoryTraceSegment(start) + 1
  }

  function MemoryCurrent(start: nat): (c: nat)
    ensures c == start + 15
  {
    MemoryTraceVirtual(start) + 1
  }

  /** One past the last memory column: where the next unit starts. */
  function End(start: nat): (e: nat)
    ensures e == start + 16
  {
    MemoryCurrent(start) + 1
  }

  /** The sixteen columns, in declaration order. */
  function Columns(start: nat): (cols: seq<nat>)
    ensures |cols| == 16
  {
    [MemoryAddrContext(start), MemoryAddrSegment(start), MemoryAddrVirtual(start),
     MemoryFrom(start), MemoryTo(start), MemoryTimestamp(start),
     SortedMemoryAddrContext(start), SortedMemoryAddrSegment(start), SortedMemoryAddrVirtual(start),
     SortedMemoryFrom(start), SortedMemoryTo(start), SortedMemoryTimestamp(start),
     MemoryTraceContext(start), MemoryTraceSegment(start), MemoryTraceVirtual(start),
     MemoryCurrent(start)]
  }

  /** The unsorted address/value/timestamp columns, in declaration order. */
  function UnsortedColumns(start: nat): (cols: seq<nat>)
    ensures |cols| == 6
  {
    [MemoryAddrContext(start), MemoryAddrSegment(start), MemoryAddrVirtual(start),
     MemoryFrom(start), MemoryTo(start), MemoryTimestamp(start)]
  }

  /** Their sorted copies, in the same order. */
  function SortedColumns(start: nat): (cols: seq<nat>)
    ensures |cols| == 6
  {
    [SortedMemoryAddrContext(start), SortedMemoryAddrSegment(start), SortedMemoryAddrVirtual(start),
     SortedMemoryFrom(start), SortedMemoryTo(start), SortedMemoryTimestamp(start)]
  }

  /** Column i of the unit is START_MEMORY + i, so the unit fills
      [START_MEMORY, END) with no gap, and END is 16 past the start. */
  lemma {:induction false} ColumnsConsecutive(start: nat)
    ensures forall i :: 0 <= i < 16 ==> Columns(start)[i] == start + i
    ensures End(start) == start + |Columns(start)|
  {
  }

  /** No two memory columns share an index, and all lie in [START_MEMORY, END). */
  lemma {:induction false} ColumnsDistinctInRange(start: nat)
    ensures forall i, j :: 0 <= i < j < 16 ==> Columns(start)[i] != Columns(start)[j]
    ensures forall i :: 0 <= i < 16 ==> start <= Columns(start)[i] < End(start)
  {
    ColumnsConsecutive(start);
  }

  /** Each sorted column sits six past its unsorted counterpart. */
  lemma {:induction false} SortedFollowsUnsorted(start: nat)
    ensures forall i :: 0 <= i < 6 ==> SortedColumns(start)[i] == UnsortedColumns(start)[i] + 6
  {
  }
}
