/** The entry point of nix_mx.cc: a process-wide command registry that is
    built on the first call and then reused, dispatch by command name, and
    the mapping of every failure onto one (identifier, message) report. */
module Entry {
  import opened Outcomes
  import opened Handles
  import opened Arguments
  import opened Commands
  import LegacyDispatch

  /** The pairs passed to `methods->add` directly, in call order. */
  const DirectAdds: seq<(string, Command)> := [
    ("Entity::destroy", EntityDestroy),
    ("Entity::updatedAt", EntityUpdatedAt),
    ("Block::createDataArray", Library("Block::createDataArray")),
    ("Block::createMultiTag", Library("Block::createMultiTag")),
    ("DataArray::delete_dimension", Library("DataArray::delete_dimension")),
    ("DataArray::readAll", Library("DataArray::readAll")),
    ("DataArray::writeAll", Library("DataArray::writeAll")),
    ("DataArray::addSource", Library("DataArray::addSource")),
    ("DataArray::removeSource", Library("DataArray::removeSource")),
    ("Tag::retrieveData", Library("Tag::retrieveData")),
    ("Tag::featureRetrieveData", Library("Tag::featureRetrieveData")),
    ("Tag::addReference", Library("Tag::addReference")),
    ("Tag::addSource", Library("Tag::addSource")),
    ("Tag::createFeature", Library("Tag::createFeature")),
    ("MultiTag::retrieveData", Library("MultiTag::retrieveData")),
    ("MultiTag::featureRetrieveData", Library("MultiTag::featureRetrieveData")),
    ("MultiTag::addReference", Library("MultiTag::addReference")),
    ("MultiTag::addSource", Library("MultiTag::addSource")),
    ("MultiTag::createFeature", Library("MultiTag::createFeature")),
    ("MultiTag::addPositions", Library("MultiTag::addPositions")),
    ("MultiTag::addExtents", Library("MultiTag::addExtents")),
    ("Section::properties", Library("Section::properties")),
    ("Section::createProperty", Library("Section::createProperty")),
    ("Section::createPropertyWithValue", Library("Section::createPropertyWithValue")),
    ("Property::values", Library("Property::values")),
    ("Property::updateValues", Library("Property::updateValues"))
  ]

  /** The registry a sequence of `add` calls leaves behind, starting from an
      empty one. */
  function Bindings(adds: seq<(string, Command)>): map<string, Command> {
    if adds == [] then map[]
    else Bindings(adds[..|adds| - 1])[adds[|adds| - 1].0 := adds[|adds| - 1].1]
  }

  /** Exactly the added names are registered. */
  lemma {:induction false} BindingsKeys(adds: seq<(string, Command)>)
    ensures Bindings(adds).Keys == set i | 0 <= i < |adds| :: adds[i].0
  {
    if adds != [] {
      var init := adds[..|adds| - 1];
      BindingsKeys(init);
      assert forall i :: 0 <= i < |init| ==> init[i] == adds[i];
      assert (set i | 0 <= i < |adds| :: adds[i].0) == (set i | 0 <= i < |init| :: init[i].0) + {adds[|adds| - 1].0};
    }
  }

  /** A name is bound by the last `add` of that name. */
  lemma {:induction false} BindingsLastWins(adds: seq<(string, Command)>, i: nat)
    requires i < |adds|
    requires forall j :: i < j < |adds| ==> adds[j].0 != adds[i].0
    ensures adds[i].0 in Bindings(adds) && Bindings(adds)[adds[i].0] == adds[i].1
  {
    if i < |adds| - 1 {
      var init := adds[..|adds| - 1];
      assert init[i] == adds[i];
      BindingsLastWins(init, i);
    }
  }

  /** The commands registered by name with `methods->add`. */
  const RegisteredCommands: map<string, Command> := Bindings(DirectAdds)

  /** No name is passed to `methods->add` twice. */
  lemma DirectAddsDistinct()
    ensures forall i, j :: 0 <= i < j < |DirectAdds| ==> DirectAdds[i].0 != DirectAdds[j].0
  {
  }

  /** Every direct `add` is in effect: its name is bound to its function. */
  lemma DirectAddsRegistered()
    ensures forall i :: 0 <= i < |DirectAdds| ==>
      DirectAdds[i].0 in RegisteredCommands && RegisteredCommands[DirectAdds[i].0] == DirectAdds[i].1
  {
    DirectAddsDistinct();
    forall i | 0 <= i < |DirectAdds|
      ensures DirectAdds[i].0 in RegisteredCommands && RegisteredCommands[DirectAdds[i].0] == DirectAdds[i].1
    {
      BindingsLastWins(DirectAdds, i);
    }
  }

  /** Both universal commands are registered, bound to their own bodies. */
  lemma UniversalCommandsRegistered()
    ensures "Entity::destroy" in RegisteredCommands && RegisteredCommands["Entity::destroy"] == EntityDestroy
    ensures "Entity::updatedAt" in RegisteredCommands && RegisteredCommands["Entity::updatedAt"] == EntityUpdatedAt
  {
    DirectAddsRegistered();
    assert DirectAdds[0] == ("Entity::destroy", EntityDestroy);
    assert DirectAdds[1] == ("Entity::updatedAt", EntityUpdatedAt);
  }

  const UnknownCommandReport := ErrorReport("nix:arg:dispatch", "Unkown command")
  const UnknownExceptionReport := ErrorReport("nix:arg:dispatch", "unkown exception")

  /** The error the entry point reports for a dispatch that found no command
      (`None`) or whose command completed as given. An error reported by the
      command itself ends the call before the entry point can look at it. */
  function ReportFor(outcome: Option<Completion>): (r: Option<ErrorReport>)
    ensures r.None? <==> outcome == Some(Completed)
    ensures outcome.None? ==> r == Some(UnknownCommandReport)
    ensures outcome == Some(Threw(NonStandard)) ==> r == Some(UnknownExceptionReport)
    ensures outcome.Some? && outcome.value.Threw? && outcome.value.exception.InvalidArgument? ==>
      r == Some(ErrorReport("nix:arg:inval", outcome.value.exception.what))
    ensures outcome.Some? && outcome.value.Threw? && outcome.value.exception.StdException? ==>
      r == Some(ErrorReport("nix:arg:dispatch", outcome.value.exception.what))
    ensures outcome.Some? && outcome.value.Aborted? ==> r == Some(outcome.value.report)
  {
    match outcome
    case None => Some(UnknownCommandReport)
    case Some(Completed) => None
    case Some(Aborted(report)) => Some(report)
    case Some(Threw(InvalidArgument(what))) => Some(ErrorReport("nix:arg:inval", what))
    case Some(Threw(StdException(what))) => Some(ErrorReport("nix:arg:dispatch", what))
    case Some(Threw(NonStandard)) => Some(UnknownExceptionReport)
  }

  /** The registry path and main.cpp's table path fail in exactly the same
      cases and with the same message. Their identifiers differ except when
      the command reported its own error. */
  lemma ReportsAgreeWithLegacy(outcome: Option<Completion>)
    ensures ReportFor(outcome).None? <==> LegacyDispatch.LegacyReport(outcome).None?
    ensures ReportFor(outcome).Some? ==> ReportFor(outcome).value.message == LegacyDispatch.LegacyReport(outcome).value.message
    ensures ReportFor(outcome).Some? ==>
      (ReportFor(outcome).value.id == LegacyDispatch.LegacyReport(outcome).value.id <==> outcome.Some? && outcome.value.Aborted?)
  {
  }

  /** `glue::registry`: command names and what they are bound to. */
  class Registry {
    var entries: map<string, Command>

    constructor ()
      ensures entries == map[]
    {
      entries := map[];
    }

    /** `add(name, fn)`. What the registry does with a name it already
        holds is left open: a later `add` of the same name replaces the
        binding here. */
    method Add(name: string, fn: Command)
      modifies this
      ensures entries == old(entries)[name := fn]
    {
      entries := entries[name := fn];
    }

    /** The `add` calls a `classdef` chain makes, one per binding of
        `group`, in no particular order: the names are distinct. */
    method AddGroup(group: map<string, Command>)
      modifies this
      ensures entries == old(entries) + group
    {
      var pending := group.Keys;
      while pending != {}
        invariant pending <= group.Keys
        invariant entries == old(entries) + map n | n in group.Keys - pending :: group[n]
        decreases pending
      {
        var n :| n in pending;
        Add(n, group[n]);
        pending := pending - {n};
      }
    }

    /** One `add` call per pair of `adds`, in order. */
    method AddInOrder(adds: seq<(string, Command)>)
      modifies this
      ensures entries == old(entries) + Bindings(adds)
    {
      var i := 0;
      while i < |adds|
        invariant 0 <= i <= |adds|
        invariant entries == old(entries) + Bindings(adds[..i])
      {
        assert adds[..i + 1][..i] == adds[..i];
        Add(adds[i].0, adds[i].1);
        i := i + 1;
      }
      assert adds[..i] == adds;
    }

    /** `dispatch(cmd, input, output)`: run the command registered under
        `cmd` and say so, or say that there is none. `created` is the
        address of the cell the command wrapped an entity in, if it did. */
    method Dispatch(cmd: string, input: Extractor, output: Infusor, heap: Heap, library: string -> LibraryCall)
      returns (outcome: Option<Completion>, ghost created: nat)
      requires heap.Valid() && output.Valid()
      requires cmd in entries ==> CallIsDefined(entries[cmd], input, heap.cells)
      modifies heap, output.slots
      ensures heap.Valid()
      ensures cmd !in entries ==> outcome.None? && heap.cells == old(heap.cells) && output.slots[..] == old(output.slots[..])
      ensures cmd in entries ==>
        && outcome == Some(CompletionOf(entries[cmd], input, old(heap.cells), library))
        && (Wraps(entries[cmd], library).Some? ==> 0 < created && created !in old(heap.cells))
        && heap.cells == CellsAfter(entries[cmd], input, old(heap.cells), library, created)
        && output.slots[..] == SlotsAfter(entries[cmd], input, old(heap.cells), library, created, old(output.slots[..]))
    {
      created := 0;
      if cmd !in entries {
        return None, created;
      }
      var c;
      c, created := Invoke(entries[cmd], input, output, heap, library);
      outcome := Some(c);
    }
  }

  /** The process-wide state of nix_mx.cc: `init_flag`, `methods`, and the
      heap the handle cells live on. `classBindings` are the commands the
      `classdef` chains register; how their names are composed is not part
      of this model, so they are given, each bound to a library function. */
  class Bridge {
    var initFlag: bool
    var methods: Registry?
    const heap: Heap
    const classBindings: map<string, Command>

    /** Everything the registry holds once it is built. */
    function Registered(): map<string, Command> {
      classBindings + RegisteredCommands
    }

    ghost predicate Valid()
      reads this, methods, heap
    {
      && heap.Valid()
      && (forall n :: n in classBindings ==> classBindings[n].Library?)
      && (initFlag <==> methods != null)
      && (methods != null ==> methods.entries == Registered())
    }

    constructor (classBindings: map<string, Command>)
      requires forall n :: n in classBindings ==> classBindings[n].Library?
      ensures Valid() && !initFlag && fresh(heap) && heap.cells == map[]
      ensures this.classBindings == classBindings
    {
      initFlag := false;
      methods := null;
      heap := new Heap();
      this.classBindings := classBindings;
    }

    /** The body of the `std::call_once`: build the registry and set the
        flag. The `classdef` bindings are registered as one group ahead of
        the direct `add` calls, so a name registered both ways keeps its
        direct binding. */
    method Initialise()
      requires !initFlag
      modifies this
      ensures initFlag && methods != null && fresh(methods)
      ensures methods.entries == Registered()
    {
      var r := new Registry();
      r.AddGroup(classBindings);
      r.AddInOrder(DirectAdds);
      assert r.entries == Registered();
      methods := r;
      initFlag := true;
    }

    /** nix_mx.cc's `mexFunction`: read the command name at input position
        0, build the registry if this is the first call, dispatch, and turn
        what happened into the reported error, if any. `created` is the
        address of the cell the command wrapped an entity in, if it did. */
    method MexFunction(input: Extractor, output: Infusor, library: string -> LibraryCall)
      returns (report: Option<ErrorReport>, ghost created: nat)
      requires Valid() && output.Valid()
      requires |input.args| > 0 && input.args[0].MxString?
      requires input.Str(0) in Registered() ==> CallIsDefined(Registered()[input.Str(0)], input, heap.cells)
      modifies this, heap, output.slots
      ensures Valid() && initFlag
      ensures old(initFlag) ==> methods == old(methods)
      ensures !old(initFlag) ==> fresh(methods)
      ensures input.Str(0) !in Registered() ==>
        && report == Some(UnknownCommandReport)
        && heap.cells == old(heap.cells)
        && output.slots[..] == old(output.slots[..])
      ensures input.Str(0) in Registered() ==>
        var fn := Registered()[input.Str(0)];
        && report == ReportFor(Some(CompletionOf(fn, input, old(heap.cells), library)))
        && (Wraps(fn, library).Some? ==> 0 < created && created !in old(heap.cells))
        && heap.cells == CellsAfter(fn, input, old(heap.cells), library, created)
        && output.slots[..] == SlotsAfter(fn, input, old(heap.cells), library, created, old(output.slots[..]))
    {
      var cmd := input.Str(0);
      if !initFlag {
        Initialise();
      }
      var outcome;
      outcome, created := methods.Dispatch(cmd, input, output, heap, library);
      report := ReportFor(outcome);
    }
  }
}
