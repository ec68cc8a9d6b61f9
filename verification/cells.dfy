/**
  The tagged value cell (RDValue) that a Dict stores per key, and the heap that
  owns the payloads of boxed cells.

  A cell is either empty, a plain-old-data scalar stored inline, or a reference
  to a heap box. The heap is modelled as the set of live box ids plus an
  allocation watermark; freeing a box that is not live would be a double free,
  so every release requires its box to be live.
*/
module Cells {

  type BoxId = nat

  /** The scalar tags an RDValue stores inline (bool, int, unsigned, float, double). */
  datatype PodKind = BoolTag | IntTag | UnsignedIntTag | FloatTag | DoubleTag

  /** The payload of a box: text, or any other heap-held object (opaque). */
  datatype Payload = Text(text: string) | Object(token: int)

  /** The logical content of a cell, independent of where its box lives. */
  datatype Value = NoValue | Scalar(kind: PodKind, bits: int) | Heaped(payload: Payload)

  datatype Cell = Empty | Pod(kind: PodKind, bits: int) | Boxed(id: BoxId, payload: Payload)

  /** unstable::is_pod: empty and inline scalar cells own no heap memory. */
  predicate IsPod(c: Cell) {
    !c.Boxed?
  }

  function ValueOf(c: Cell): (v: Value)
    ensures v.Heaped? <==> !IsPod(c)
  {
    match c
    case Empty => NoValue
    case Pod(k, b) => Scalar(k, b)
    case Boxed(_, p) => Heaped(p)
  }

  /** The box a cell owns, if any. */
  function BoxOf(c: Cell): set<BoxId> {
    if c.Boxed? then {c.id} else {}
  }

  /** Live boxes and the allocation watermark: every live id is below `next`. */
  datatype Heap = Heap(live: set<BoxId>, next: BoxId) {
    ghost predicate Valid() {
      forall id :: id in live ==> id < next
    }
  }

  /**
    The RDValue constructor from a typed value: scalars are stored inline, a
    heap object gets a freshly allocated box.
  */
  function Construct(v: Value, h: Heap): (r: (Cell, Heap))
    requires h.Valid()
    ensures ValueOf(r.0) == v
    ensures BoxOf(r.0) !! h.live
    ensures r.1.live == h.live + BoxOf(r.0) && r.1.Valid()
  {
    match v
    case NoValue => (Empty, h)
    case Scalar(k, b) => (Pod(k, b), h)
    case Heaped(p) => (Boxed(h.next, p), Heap(h.live + {h.next}, h.next + 1))
  }

  /**
    cleanup_rdvalue: releases the box of a boxed cell and does nothing to the
    heap otherwise. The box must be live (releasing it twice is a double free).
    The cell itself is re-tagged empty in the source; every caller overwrites
    or discards it right after, so only the heap effect is returned.
  */
  function Cleanup(c: Cell, h: Heap): (h': Heap)
    requires BoxOf(c) <= h.live
    ensures h'.live == h.live - BoxOf(c) && h'.next == h.next
    ensures BoxOf(c) !! h'.live
    ensures h.Valid() ==> h'.Valid()
  {
    if c.Boxed? then Heap(h.live - {c.id}, h.next) else h
  }

  /**
    copy_rdvalue into a block of fresh boxes starting at `base`: the copy of
    box `id` lives at `base + id`. Allocating this way needs no enumeration
    order, so a single cell and a whole map are copied by the same rule.
  */
  function Relocate(c: Cell, base: BoxId): (r: Cell)
    ensures ValueOf(r) == ValueOf(c)
    ensures c.Boxed? ==> r.Boxed? && r.id >= base
  {
    if c.Boxed? then Boxed(base + c.id, c.payload) else c
  }

  /** The heap after allocating the block that `Relocate(_, h.next)` uses. */
  function Grow(h: Heap, added: set<BoxId>): (h': Heap)
    ensures h'.live == h.live + added
  {
    Heap(h.live + added, h.next + h.next)
  }

  /** Deep copy of one cell: same value, a fresh box if it is boxed. */
  function CopyCell(c: Cell, h: Heap): (r: (Cell, Heap))
    requires h.Valid() && BoxOf(c) <= h.live
    ensures ValueOf(r.0) == ValueOf(c)
    ensures BoxOf(r.0) !! h.live
    ensures r.1.live == h.live + BoxOf(r.0) && r.1.Valid()
  {
    var c' := Relocate(c, h.next);
    (c', Grow(h, BoxOf(c')))
  }
}
