/** The fixed command table of main.cpp and its entry point: a linear,
    first-match search over (name, function) pairs. */
module LegacyDispatch {
  import opened Outcomes
  import opened Handles
  import opened Arguments
  import opened Commands

  /** `fendpoint`. */
  datatype Endpoint = Endpoint(name: string, fn: Command)

  /** `funcs`, in table order. Only `Entity::destroy` has a body the bridge
      owns; the others are bound to the NIX library. */
  const Funcs: seq<Endpoint> := [
    Endpoint("Entity::destroy", EntityDestroy),
    Endpoint("File::open", Library("File::open")),
    Endpoint("File::listBlocks", Library("File::listBlocks")),
    Endpoint("File::listDataArrays", Library("File::listDataArrays")),
    Endpoint("File::openBlock", Library("File::openBlock")),
    Endpoint("Block::openDataArray", Library("Block::openDataArray")),
    Endpoint("DataArray::describe", Library("DataArray::describe")),
    Endpoint("DataArray::readAll", Library("DataArray::readAll"))
  ]

  /** The table binds `Entity::destroy` first, every other endpoint to the
      library function of its own name, and no name twice. */
  lemma FuncsTable()
    ensures |Funcs| == 8 && Funcs[0] == Endpoint("Entity::destroy", EntityDestroy)
    ensures forall i :: 1 <= i < |Funcs| ==> Funcs[i].fn == Library(Funcs[i].name)
    ensures forall i, j :: 0 <= i < j < |Funcs| ==> Funcs[i].name != Funcs[j].name
  {
  }

  /** A library call that, when it returns, has wrapped an entity of type
      `kind` in a new handle (possibly `nix::none`: the opening endpoints do
      not check what NIX gave them). */
  predicate Opens(call: LibraryCall, kind: EntityType) {
    call.Returned? ==> call.output.HandleOutput? && call.output.obj.kind == kind
  }

  /** A library call that, when it returns, has written a host value. */
  predicate WritesValue(call: LibraryCall) {
    call.Returned? ==> call.output.ValueOutput?
  }

  /** What the library-bound endpoints of main.cpp leave behind when they
      return: `open_file`, `open_block` and `open_data_array` put a handle to
      the File, Block or DataArray they obtained in slot 0; `list_blocks`,
      `list_data_arrays`, `data_array_describe` and `data_array_read_all`
      put a struct or numeric array there. Each may fail first. */
  predicate EndpointsBehave(library: string -> LibraryCall) {
    && Opens(library("File::open"), File)
    && Opens(library("File::openBlock"), Block)
    && Opens(library("Block::openDataArray"), DataArray)
    && WritesValue(library("File::listBlocks"))
    && WritesValue(library("File::listDataArrays"))
    && WritesValue(library("DataArray::describe"))
    && WritesValue(library("DataArray::readAll"))
  }

  /** After an opening endpoint returns, the token it wrote to slot 0 is
      accepted by `entity<T>` at the type it opened, which yields the
      opened entity, and rejected at every other type. */
  lemma {:induction false} OpenedTokenRecovers(name: string, kind: EntityType, input: Extractor, cells: map<nat, Cell>, library: string -> LibraryCall, created: nat, slots: seq<Option<MxArray>>)
    requires (name, kind) in {("File::open", File), ("File::openBlock", Block), ("Block::openDataArray", DataArray)}
    requires EndpointsBehave(library) && library(name).Returned?
    requires 0 < created && created !in cells && |slots| >= 1
    ensures var after := CellsAfter(Library(name), input, cells, library, created);
      var out := SlotsAfter(Library(name), input, cells, library, created, slots);
      && out[0] == Some(MxUInt64(created))
      && Recover(after, HandleOf(created), kind) == Success(library(name).output.obj)
      && forall other :: other != kind ==> Recover(after, HandleOf(created), other) == Failure(WrongTypeError)
  {
    var cmd := Library(name);
    assert Wraps(cmd, library) == Some(library(name).output.obj);
    WrappedTokenRecovers(cmd, input, cells, library, created, slots);
    var after := CellsAfter(cmd, input, cells, library, created);
    forall other | other != kind
      ensures Recover(after, HandleOf(created), other) == Failure(WrongTypeError)
    {
      RecoverAtStoredTypeOnly(after, created, other);
    }
  }

  /** The names of a table's endpoints, in order. */
  function Names(table: seq<Endpoint>): (names: seq<string>)
    ensures |names| == |table|
    ensures forall i :: 0 <= i < |table| ==> names[i] == table[i].name
  {
    seq(|table|, i requires 0 <= i < |table| => table[i].name)
  }

  /** The index of the first name equal to `cmd`, if any. */
  function FirstMatch(names: seq<string>, cmd: string): (r: Option<nat>)
    ensures r.None? <==> cmd !in names
    ensures r.Some? ==> r.value < |names| && names[r.value] == cmd
    ensures r.Some? ==> forall j :: 0 <= j < r.value ==> names[j] != cmd
  {
    if |names| == 0 then None
    else if names[0] == cmd then Some(0)
    else match FirstMatch(names[1..], cmd)
      case None => None
      case Some(i) => Some(i + 1)
  }

  /** An index whose name is `cmd` and that no earlier name equals is the
      one `FirstMatch` finds. */
  lemma FirstMatchIsUnique(names: seq<string>, cmd: string, i: nat)
    requires i < |names| && names[i] == cmd
    requires forall j :: 0 <= j < i ==> names[j] != cmd
    ensures FirstMatch(names, cmd) == Some(i)
  {
    assert cmd in names;
  }

  const UnknownCommandReport := ErrorReport("MATLAB:arg:dispatch", "Unkown command")

  /** The error main.cpp's entry point reports for a dispatch that found no
      endpoint (`None`) or whose endpoint completed as given. */
  function LegacyReport(outcome: Option<Completion>): (r: Option<ErrorReport>)
    ensures r.None? <==> outcome == Some(Completed)
    ensures outcome.None? ==> r == Some(UnknownCommandReport)
    ensures outcome.Some? && outcome.value.Threw? ==> r.Some? && r.value.id == "MATLAB:arg:dispatch"
    ensures outcome == Some(Threw(NonStandard)) ==> r == Some(ErrorReport("MATLAB:arg:dispatch", "unkown exception"))
    ensures outcome.Some? && outcome.value.Threw? && !outcome.value.exception.NonStandard? ==> r.value.message == outcome.value.exception.what
    ensures outcome.Some? && outcome.value.Aborted? ==> r == Some(outcome.value.report)
  {
    match outcome
    case None => Some(UnknownCommandReport)
    case Some(Completed) => None
    case Some(Aborted(report)) => Some(report)
    case Some(Threw(InvalidArgument(what))) => Some(ErrorReport("MATLAB:arg:dispatch", what))
    case Some(Threw(StdException(what))) => Some(ErrorReport("MATLAB:arg:dispatch", what))
    case Some(Threw(NonStandard)) => Some(ErrorReport("MATLAB:arg:dispatch", "unkown exception"))
  }

  /** The call is defined when the endpoint `cmd` resolves to, if any, is
      called on arguments it may use. */
  predicate ResolvedCallIsDefined(cmd: string, input: Extractor, cells: map<nat, Cell>) {
    match FirstMatch(Names(Funcs), cmd)
    case None => true
    case Some(i) => CallIsDefined(Funcs[i].fn, input, cells)
  }

  /** main.cpp's `mexFunction`: read the command name at input position 0,
      run the first endpoint of that name, at most once, and turn what
      happened into the reported error, if any. `ran` lists the functions
      that were run; `created` is the address of the cell the run function
      wrapped an entity in, if it did. */
  method MexFunction(input: Extractor, output: Infusor, heap: Heap, library: string -> LibraryCall)
    returns (report: Option<ErrorReport>, ran: seq<Command>, ghost created: nat)
    requires heap.Valid() && output.Valid()
    requires |input.args| > 0 && input.args[0].MxString?
    requires ResolvedCallIsDefined(input.Str(0), input, heap.cells)
    modifies heap, output.slots
    ensures heap.Valid()
    ensures FirstMatch(Names(Funcs), input.Str(0)).None? ==>
      && ran == []
      && report == Some(UnknownCommandReport)
      && heap.cells == old(heap.cells)
      && output.slots[..] == old(output.slots[..])
    ensures FirstMatch(Names(Funcs), input.Str(0)).Some? ==>
      var fn := Funcs[FirstMatch(Names(Funcs), input.Str(0)).value].fn;
      && ran == [fn]
      && report == LegacyReport(Some(CompletionOf(fn, input, old(heap.cells), library)))
      && (Wraps(fn, library).Some? ==> 0 < created && created !in old(heap.cells))
      && heap.cells == CellsAfter(fn, input, old(heap.cells), library, created)
      && output.slots[..] == SlotsAfter(fn, input, old(heap.cells), library, created, old(output.slots[..]))
  {
    var cmd := input.Str(0);
    var processed := false;
    var completion := Completed;
    ran := [];
    created := 0;
    var i := 0;
    while i < |Funcs|
      invariant 0 <= i <= |Funcs|
      invariant forall j :: 0 <= j < i ==> Funcs[j].name != cmd
      invariant !processed && ran == []
      invariant heap.cells == old(heap.cells) && heap.retired == old(heap.retired)
      invariant output.slots[..] == old(output.slots[..])
    {
      if Funcs[i].name == cmd {
        FirstMatchIsUnique(Names(Funcs), cmd, i);
        completion, created := Invoke(Funcs[i].fn, input, output, heap, library);
        ran := [Funcs[i].fn];
        processed := true;
        break;
      }
      i := i + 1;
    }

    if !processed {
      assert cmd !in Names(Funcs);
      report := LegacyReport(None);
    } else {
      report := LegacyReport(Some(completion));
    }
  }
}
