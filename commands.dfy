/** The commands a dispatch table can bind: the two universal entity
    commands, whose bodies are part of the bridge, and library commands
    bound to functions built on the NIX library, whose visible effect is
    given from outside. */
module Commands {
  import opened Outcomes
  import opened Handles
  import opened Arguments

  datatype Command =
    | EntityDestroy
    | EntityUpdatedAt
    | Library(name: string)

  /** What a library-bound function leaves behind when it returns: nothing,
      a host value in output slot 0 (`output.set(0, arr)`), or a NIX entity
      it wraps in a new handle whose token goes to slot 0
      (`output.set(0, handle(e))`). */
  datatype LibraryOutput =
    | NoOutput
    | ValueOutput(value: MxArray)
    | HandleOutput(obj: Entity)

  /** How a call of a library-bound function ends: it returns with its
      output, or, before writing anything, it throws or reports an error to
      the host. */
  datatype LibraryCall =
    | Returned(output: LibraryOutput)
    | Throws(exception: Exception)
    | Reports(report: ErrorReport)

  /** 2^64: conversion to `uint64_t` is modulo this. */
  const UInt64Modulus := 0x1_0000_0000_0000_0000

  /** `static_cast<uint64_t>(t)` for a `time_t` `t`. */
  function TimeToUInt64(t: int): (u: nat)
    requires IsTimeT(t)
    ensures u < UInt64Modulus
    ensures 0 <= t ==> u == t
    ensures t < 0 ==> u == t + UInt64Modulus
  {
    t % UInt64Modulus
  }

  /** The inverse of the cast: a stored `uint64_t` read back as a
      two's-complement `time_t`. */
  function UInt64ToTime(u: nat): (t: int)
    requires u < UInt64Modulus
    ensures IsTimeT(t)
    ensures u < 0x8000_0000_0000_0000 ==> t == u
    ensures 0x8000_0000_0000_0000 <= u ==> t < 0
  {
    if u < 0x8000_0000_0000_0000 then u else u - UInt64Modulus
  }

  /** The conversion loses nothing: every `time_t` comes back unchanged. */
  lemma TimeRoundTrip(t: int)
    requires IsTimeT(t)
    ensures UInt64ToTime(TimeToUInt64(t)) == t
  {
  }

  /** The call is defined behaviour in the source: each universal command
      rebuilds a handle from the token at input position 1 and uses its
      cell, so that token must be the address of a live cell. What NIX does
      when asked for the update time of `nix::none` is not part of this
      model, so `Entity::updatedAt` also needs a real entity. */
  predicate CallIsDefined(cmd: Command, input: Extractor, cells: map<nat, Cell>) {
    match cmd
    case EntityDestroy => input.HoldsLiveToken(1, cells)
    case EntityUpdatedAt => input.HoldsLiveToken(1, cells) && cells[input.UInt64At(1)].obj.native.Some?
    case Library(_) => true
  }

  /** What `updated_at()` yields on the entity whose token is at input
      position 1. */
  function UpdatedAt(input: Extractor, cells: map<nat, Cell>): Result<TimeT, Exception>
    requires CallIsDefined(EntityUpdatedAt, input, cells)
  {
    cells[input.UInt64At(1)].obj.native.value.updatedAt
  }

  /** How a call of `cmd` completes. */
  function CompletionOf(cmd: Command, input: Extractor, cells: map<nat, Cell>, library: string -> LibraryCall): Completion
    requires CallIsDefined(cmd, input, cells)
  {
    match cmd
    case EntityDestroy => Completed
    case EntityUpdatedAt =>
      (match UpdatedAt(input, cells)
       case Success(_) => Completed
       case Failure(e) => Threw(e))
    case Library(name) =>
      (match library(name)
       case Returned(_) => Completed
       case Throws(e) => Threw(e)
       case Reports(r) => Aborted(r))
  }

  /** The entity a call of `cmd` wraps in a new cell, if any. */
  function Wraps(cmd: Command, library: string -> LibraryCall): Option<Entity> {
    if cmd.Library? && library(cmd.name).Returned? && library(cmd.name).output.HandleOutput?
    then Some(library(cmd.name).output.obj)
    else None
  }

  /** The heap cells after a call of `cmd`, where `created` is the address
      a wrapping call's new cell receives. `Entity::destroy` frees the cell
      its token designates; a call that wraps an entity adds one cell,
      tagged with the entity's type, at a previously unused address;
      nothing else adds, frees or alters a cell. */
  function CellsAfter(cmd: Command, input: Extractor, cells: map<nat, Cell>, library: string -> LibraryCall, created: nat): (after: map<nat, Cell>)
    requires CallIsDefined(cmd, input, cells)
    requires Wraps(cmd, library).Some? ==> 0 < created && created !in cells
    ensures cmd.EntityDestroy? ==> after.Keys == cells.Keys - {input.UInt64At(1)}
    ensures !cmd.EntityDestroy? ==> forall a :: a in cells ==> a in after && after[a] == cells[a]
    ensures forall a :: a in after ==> (a in cells && after[a] == cells[a]) || (Wraps(cmd, library).Some? && a == created)
    ensures Wraps(cmd, library).Some? ==>
      var obj := Wraps(cmd, library).value;
      created in after && after[created] == Cell(EntityToId(obj.kind), obj)
    ensures AllWellTagged(cells) ==> AllWellTagged(after)
  {
    match cmd
    case EntityDestroy => cells - {input.UInt64At(1)}
    case EntityUpdatedAt => cells
    case Library(name) =>
      match Wraps(cmd, library)
      case None => cells
      case Some(obj) => cells[created := Cell(EntityToId(obj.kind), obj)]
  }

  /** The output slots after a call of `cmd`. Only slot 0 is ever written:
      `Entity::updatedAt` writes the update time as a `uint64_t`, a library
      function that returns writes its value or the new cell's token, and a
      call that fails writes nothing. */
  function SlotsAfter(cmd: Command, input: Extractor, cells: map<nat, Cell>, library: string -> LibraryCall, created: nat, slots: seq<Option<MxArray>>): (after: seq<Option<MxArray>>)
    requires CallIsDefined(cmd, input, cells) && |slots| >= 1
    ensures |after| == |slots|
    ensures forall i :: 1 <= i < |slots| ==> after[i] == slots[i]
    ensures CompletionOf(cmd, input, cells, library) != Completed ==> after == slots
    ensures cmd.EntityDestroy? ==> after == slots
    ensures cmd.EntityUpdatedAt? && UpdatedAt(input, cells).Success? ==>
      after[0] == Some(MxUInt64(TimeToUInt64(UpdatedAt(input, cells).value)))
    ensures cmd.Library? && library(cmd.name) == Returned(NoOutput) ==> after == slots
    ensures cmd.Library? && library(cmd.name).Returned? && library(cmd.name).output.ValueOutput? ==>
      after[0] == Some(library(cmd.name).output.value)
    ensures Wraps(cmd, library).Some? ==> after[0] == Some(MxUInt64(created))
  {
    match cmd
    case EntityDestroy => slots
    case EntityUpdatedAt =>
      (match UpdatedAt(input, cells)
       case Success(t) => slots[0 := Some(MxUInt64(TimeToUInt64(t)))]
       case Failure(_) => slots)
    case Library(name) =>
      (match library(name)
       case Throws(_) => slots
       case Reports(_) => slots
       case Returned(NoOutput) => slots
       case Returned(ValueOutput(v)) => slots[0 := Some(v)]
       case Returned(HandleOutput(_)) => slots[0 := Some(MxUInt64(created))])
  }

  /** The token a wrapping call writes to slot 0, passed back in by a later
      call, recovers the wrapped entity at its own type. */
  lemma {:induction false} WrappedTokenRecovers(cmd: Command, input: Extractor, cells: map<nat, Cell>, library: string -> LibraryCall, created: nat, slots: seq<Option<MxArray>>)
    requires CallIsDefined(cmd, input, cells) && |slots| >= 1
    requires Wraps(cmd, library).Some? && 0 < created && created !in cells
    ensures var after := CellsAfter(cmd, input, cells, library, created);
      var token := SlotsAfter(cmd, input, cells, library, created, slots)[0].value.value;
      HandleOf(token).Some? && HandleOf(token).value in after &&
      Recover(after, HandleOf(token), Wraps(cmd, library).value.kind) == Success(Wraps(cmd, library).value)
  {
    var obj := Wraps(cmd, library).value;
    var after := CellsAfter(cmd, input, cells, library, created);
    assert after[created] == Cell(EntityToId(obj.kind), obj);
    TokenRoundTrip(Some(created), created);
  }

  /** Once `Entity::destroy` has freed a token's cell, calling either
      universal command on that token again is no longer defined: the
      source does not defend against it. */
  lemma NoUseAfterDestroy(input: Extractor, cells: map<nat, Cell>, library: string -> LibraryCall, cmd: Command)
    requires CallIsDefined(EntityDestroy, input, cells)
    requires !cmd.Library?
    ensures !CallIsDefined(cmd, input, CellsAfter(EntityDestroy, input, cells, library, 0))
  {
  }

  /** `output.set(0, handle(obj))`: wrap `obj` in a new cell and write its
      token to output slot 0. `created` is the new cell's address. */
  method StoreNewHandle(obj: Entity, heap: Heap, output: Infusor) returns (ghost created: nat)
    requires heap.Valid() && output.Valid()
    modifies heap, output.slots
    ensures heap.Valid()
    ensures 0 < created && created !in old(heap.cells)
    ensures heap.cells == old(heap.cells)[created := Cell(EntityToId(obj.kind), obj)]
    ensures heap.retired == old(heap.retired)
    ensures output.slots[..] == old(output.slots[..])[0 := Some(MxUInt64(created))]
  {
    var h := new Handle.Wrap(heap, obj);
    output.SetHandle(0, h);
    created := h.et.value;
  }

  /** `entity_destroy` (nix_mx.cc) and `entity_destory` (main.cpp): destroy
      the handle whose token is at input position 1; write no output.
      `entity_updated_at`: write the update time of the entity whose token
      is at input position 1 into output slot 0, unless asking for it
      throws. A library function completes and writes as `library` says,
      wrapping an entity in a new handle when its output is one. `created`
      is the address the new cell receives. */
  method Invoke(cmd: Command, input: Extractor, output: Infusor, heap: Heap, library: string -> LibraryCall)
    returns (c: Completion, ghost created: nat)
    requires heap.Valid() && output.Valid() && CallIsDefined(cmd, input, heap.cells)
    modifies heap, output.slots
    ensures heap.Valid()
    ensures c == CompletionOf(cmd, input, old(heap.cells), library)
    ensures Wraps(cmd, library).Some? ==> 0 < created && created !in old(heap.cells)
    ensures heap.cells == CellsAfter(cmd, input, old(heap.cells), library, created)
    ensures output.slots[..] == SlotsAfter(cmd, input, old(heap.cells), library, created, old(output.slots[..]))
    ensures cmd.EntityDestroy? ==> heap.retired == old(heap.retired)[input.UInt64At(1) := Cell(DestroyedId, Entity(old(heap.cells[input.UInt64At(1)].obj.kind), None))]
    ensures !cmd.EntityDestroy? ==> heap.retired == old(heap.retired)
  {
    created := 0;
    match cmd
    case EntityDestroy =>
      var h := Hdl(input, 1);
      h.Destroy(heap);
      c := Completed;
    case EntityUpdatedAt =>
      var h := Hdl(input, 1);
      var curr := heap.cells[h.et.value];
      match curr.obj.native.value.updatedAt {
        case Success(uat) =>
          output.SetUInt64(0, TimeToUInt64(uat));
          c := Completed;
        case Failure(e) =>
          c := Threw(e);
      }
    case Library(name) =>
      var call := library(name);
      match call {
        case Throws(e) =>
          c := Threw(e);
        case Reports(r) =>
          c := Aborted(r);
        case Returned(out) =>
          match out {
            case NoOutput =>
            case ValueOutput(v) =>
              output.SetArray(0, v);
            case HandleOutput(obj) =>
              created := StoreNewHandle(obj, heap, output);
          }
          c := Completed;
      }
  }
}
