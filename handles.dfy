/** The type-tagged handle of main.cpp: a heap cell that carries an integer
    type tag and the wrapped NIX entity, and that the host refers to by the
    cell's address, passed around as a 64-bit token.

    The process heap is a map from address to cell. Address 0 plays the part
    of `nullptr`: a handle rebuilt from token 0 is the empty handle, so no
    cell ever lives there. */
module Handles {
  import opened Outcomes

  /** The NIX entity types a handle can wrap: the three `entity_to_id` is
      specialised for in main.cpp, then the other types the `classdef`
      chains of nix_mx.cc bind, in the order they are registered. */
  datatype EntityType =
    | File | Block | DataArray
    | Source | Tag | MultiTag | Section | Feature | Property
    | SetDimension | SampledDimension | RangeDimension

  /** The tag a cell carries once it has been destroyed. */
  const DestroyedId := 0

  /** `entity_to_id<T>::value()`. File, Block and DataArray carry main.cpp's
      tags 1, 2 and 3; the other types get the next tags in turn. */
  function EntityToId(t: EntityType): (id: int)
    ensures t == File ==> id == 1
    ensures t == Block ==> id == 2
    ensures t == DataArray ==> id == 3
    ensures 1 <= id <= 12
    ensures id != DestroyedId
  {
    match t
    case File => 1
    case Block => 2
    case DataArray => 3
    case Source => 4
    case Tag => 5
    case MultiTag => 6
    case Section => 7
    case Feature => 8
    case Property => 9
    case SetDimension => 10
    case SampledDimension => 11
    case RangeDimension => 12
  }

  /** Distinct types get distinct tags, so comparing tags compares types. */
  lemma EntityToIdInjective(s: EntityType, t: EntityType)
    ensures EntityToId(s) == EntityToId(t) <==> s == t
  {
  }

  /** A `time_t`: a signed 64-bit count of seconds. */
  predicate IsTimeT(t: int) {
    -0x8000_0000_0000_0000 <= t < 0x8000_0000_0000_0000
  }

  /** The part of a NIX entity the bridge itself looks at: what asking it
      for the time it was last updated (`updated_at()`) yields, a time or an
      exception. Everything else is the NIX library's. */
  datatype Native = Native(updatedAt: Result<TimeT, Exception>)

  type TimeT = t: int | IsTimeT(t)

  /** A NIX entity value of static type `kind`. NIX entities are nullable:
      `native == None` is the value `nix::none`. */
  datatype Entity = Entity(kind: EntityType, native: Option<Native>)

  /** `cell<T>`: the type tag (field `id` of the base `entity`) and `obj`. */
  datatype Cell = Cell(id: int, obj: Entity)

  /** A live cell's tag is the tag of the type of the value it holds. */
  predicate WellTagged(c: Cell) {
    c.id == EntityToId(c.obj.kind)
  }

  /** Every cell in `cells` is well tagged. */
  predicate AllWellTagged(cells: map<nat, Cell>) {
    forall a :: a in cells ==> WellTagged(cells[a])
  }

  const EmptyHandleError := StdException("called get on empty handle")
  const WrongTypeError := StdException("tried to get a entity of wrong type")

  /** `handle::address()` of a handle whose cell pointer is `et`. */
  function TokenOf(et: Option<nat>): nat {
    match et
    case None => 0
    case Some(a) => a
  }

  /** The cell pointer of `handle(uint64_t h)`. */
  function HandleOf(token: nat): Option<nat> {
    if token == 0 then None else Some(token)
  }

  /** Turning a handle into its token and back designates the same cell,
      and so does turning a token into a handle and back. */
  lemma TokenRoundTrip(et: Option<nat>, token: nat)
    requires et.Some? ==> et.value != 0
    ensures HandleOf(TokenOf(et)) == et
    ensures TokenOf(HandleOf(token)) == token
  {
  }

  /** What `get<T>` on a handle pointing at `et` yields; the pointer must be
      null or a live cell (anything else is undefined behaviour). */
  function Recover(cells: map<nat, Cell>, et: Option<nat>, kind: EntityType): (r: Result<Entity, Exception>)
    requires et.Some? ==> et.value in cells
    ensures r.Success? ==> et.Some? && r.value == cells[et.value].obj
    ensures r.Success? && WellTagged(cells[et.value]) ==> r.value.kind == kind
  {
    if et.None? then Failure(EmptyHandleError)
    else if EntityToId(kind) != cells[et.value].id then Failure(WrongTypeError)
    else Success(cells[et.value].obj)
  }

  /** A live cell can be recovered at the type it was built with and fails
      with the wrong-type error at every other type. */
  lemma RecoverAtStoredTypeOnly(cells: map<nat, Cell>, a: nat, kind: EntityType)
    requires a in cells && WellTagged(cells[a])
    ensures kind == cells[a].obj.kind ==> Recover(cells, Some(a), kind) == Success(cells[a].obj)
    ensures kind != cells[a].obj.kind ==> Recover(cells, Some(a), kind) == Failure(WrongTypeError)
  {
    EntityToIdInjective(kind, cells[a].obj.kind);
  }

  /** Every finite set of addresses leaves a non-null address unused. */
  lemma {:induction false} UnusedAddress(used: set<nat>) returns (a: nat)
    ensures 0 < a
    ensures forall x :: x in used ==> x < a
    decreases used
  {
    if used == {} {
      a := 1;
    } else {
      var x :| x in used;
      var b := UnusedAddress(used - {x});
      a := if x < b then b else x + 1;
      assert forall y :: y in used ==> y == x || y in used - {x};
    }
  }

  /** The process heap, as far as handle cells go. `retired` remembers the
      last contents of every cell that was freed. */
  class Heap {
    var cells: map<nat, Cell>
    ghost var retired: map<nat, Cell>

    ghost predicate Valid()
      reads this
    {
      0 !in cells && AllWellTagged(cells)
    }

    constructor ()
      ensures Valid() && cells == map[] && retired == map[]
    {
      cells := map[];
      retired := map[];
    }
  }

  /** `handle`: a pointer to a cell, or null. */
  class Handle {
    var et: Option<nat>

    /** `handle(const T &obj)`: allocate a fresh cell tagged with T's tag. */
    constructor Wrap(heap: Heap, obj: Entity)
      requires heap.Valid()
      modifies heap
      ensures heap.Valid()
      ensures et.Some? && et.value !in old(heap.cells)
      ensures heap.cells == old(heap.cells)[et.value := Cell(EntityToId(obj.kind), obj)]
      ensures heap.retired == old(heap.retired)
    {
      ghost var bound := UnusedAddress(heap.cells.Keys);
      assert bound !in heap.cells;
      var addr: nat :| 0 < addr && addr !in heap.cells;
      heap.cells := heap.cells[addr := Cell(EntityToId(obj.kind), obj)];
      et := Some(addr);
    }

    /** `handle(uint64_t h)`: reinterpret a token as a cell pointer. */
    constructor FromToken(token: nat)
      ensures et == HandleOf(token)
    {
      et := HandleOf(token);
    }

    /** `handle::address()`. */
    method Address() returns (token: nat)
      ensures token == TokenOf(et)
    {
      token := TokenOf(et);
    }

    /** `get<T>()`: the empty-handle check comes first, then the tag check. */
    method Get(heap: Heap, kind: EntityType) returns (r: Result<Entity, Exception>)
      requires heap.Valid() && (et.Some? ==> et.value in heap.cells)
      ensures r == Recover(heap.cells, et, kind)
      ensures et.None? ==> r == Failure(EmptyHandleError)
      ensures et.Some? && heap.cells[et.value].obj.kind != kind ==> r == Failure(WrongTypeError)
      ensures et.Some? && heap.cells[et.value].obj.kind == kind ==> r == Success(heap.cells[et.value].obj)
    {
      if et.None? {
        return Failure(EmptyHandleError);
      }
      var c := heap.cells[et.value];
      EntityToIdInjective(kind, c.obj.kind);
      if EntityToId(kind) != c.id {
        return Failure(WrongTypeError);
      }
      r := Success(c.obj);
    }

    /** `handle::destroy()`: clear the tag, reset the value to `nix::none`
        (`cell::destory`), free the cell and null the pointer. The handle
        must point at a live cell: destroying a null, forged or freed handle
        is undefined behaviour. */
    method Destroy(heap: Heap)
      requires heap.Valid() && et.Some? && et.value in heap.cells
      modifies this, heap
      ensures heap.Valid()
      ensures et == None
      ensures heap.cells == old(heap.cells) - {old(et.value)}
      ensures heap.retired == old(heap.retired)[old(et.value) := Cell(DestroyedId, Entity(old(heap.cells[et.value].obj.kind), None))]
      ensures forall kind :: Recover(heap.cells, et, kind) == Failure(EmptyHandleError)
    {
      var a := et.value;
      heap.cells := heap.cells[a := heap.cells[a].(id := DestroyedId)];
      heap.cells := heap.cells[a := heap.cells[a].(obj := heap.cells[a].obj.(native := None))];
      heap.retired := heap.retired[a := heap.cells[a]];
      heap.cells := heap.cells - {a};
      et := None;
    }
  }
}
