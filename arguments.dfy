/** The argument view (`extractor`) over the host's inbound values and the
    result sink (`infusor`) over its outbound slots, with the helpers of
    their common base `argument_helper`. Host values are abstract: only
    their class, a string's text and a uint64 scalar's value are visible. */
module Arguments {
  import opened Outcomes
  import opened Handles

  /** `mxClassID`, in the order of its enumerators. */
  datatype ClassId =
    | UnknownClass | CellClass | StructClass | LogicalClass | CharClass
    | VoidClass | DoubleClass | SingleClass | Int8Class | UInt8Class
    | Int16Class | UInt16Class | Int32Class | UInt32Class | Int64Class
    | UInt64Class | FunctionClass

  /** A host value (`mxArray`): a string, a uint64 scalar, or any other
      value of some class whose contents the bridge does not inspect. */
  datatype MxArray =
    | MxString(text: string)
    | MxUInt64(value: nat)
    | MxOther(classId: ClassId)

  /** `mxGetClassID`. */
  function ClassIdOf(v: MxArray): ClassId {
    match v
    case MxString(_) => CharClass
    case MxUInt64(_) => UInt64Class
    case MxOther(c) => c
  }

  /** 2^64: `size_t` arithmetic is modulo this. */
  const SizeTModulus := 0x1_0000_0000_0000_0000

  /** `argument_helper::check_size(pos, fatal)`: true when `pos` is out of
      range. `pos` is a C `int` and `number` a `size_t`, so `pos + 1` is
      converted to `size_t` before the comparison; `fatal` is ignored.
      `pos + 1` must not overflow `int`. */
  function CheckSize(pos: int, number: nat, fatal: bool): (outOfRange: bool)
    requires -0x8000_0000 <= pos < 0x7fff_ffff
    requires number < SizeTModulus
    ensures 0 <= pos ==> (outOfRange <==> number <= pos)
    ensures pos == -1 ==> !outOfRange
    ensures pos < -1 ==> (outOfRange <==> number < SizeTModulus + pos + 1)
  {
    (pos + 1) % SizeTModulus > number
  }

  /** The error `require_arguments` reports in fatal mode. */
  const NumOrTypeReport := ErrorReport("MATLAB:args:numortype", "Wrong number or types of arguments.")

  /** `extractor`: the `nrhs` values the host passed in. */
  datatype Extractor = Extractor(args: seq<MxArray>) {

    function Number(): nat {
      |args|
    }

    /** `class_id(pos)`: a string has the character class and a uint64
        scalar the uint64 class. */
    function ClassIdAt(pos: nat): (id: ClassId)
      requires pos < |args|
      ensures args[pos].MxString? ==> id == CharClass
      ensures args[pos].MxUInt64? ==> id == UInt64Class
    {
      ClassIdOf(args[pos])
    }

    /** The classes of all the arguments, in order. */
    function ClassIds(): (ids: seq<ClassId>)
      ensures |ids| == |args|
      ensures forall i :: 0 <= i < |args| ==> ids[i] == ClassIdOf(args[i])
    {
      seq(|args|, i requires 0 <= i < |args| => ClassIdOf(args[i]))
    }

    /** `str(pos)`: only defined on a string value. */
    function Str(pos: nat): string
      requires pos < |args| && args[pos].MxString?
    {
      args[pos].text
    }

    /** `uint64(pos)`: only defined on a uint64 scalar. */
    function UInt64At(pos: nat): nat
      requires pos < |args| && args[pos].MxUInt64?
    {
      args[pos].value
    }

    /** Position `pos` holds a token that `hdl(pos)` may use: the null
        token or the address of a live cell. */
    predicate HoldsUsableToken(pos: nat, cells: map<nat, Cell>) {
      pos < |args| && args[pos].MxUInt64? && (args[pos].value == 0 || args[pos].value in cells)
    }

    /** Position `pos` holds the address of a live cell. */
    predicate HoldsLiveToken(pos: nat, cells: map<nat, Cell>) {
      pos < |args| && args[pos].MxUInt64? && args[pos].value in cells
    }
  }

  /** `require_arguments(args, fatal)`: the required classes must be a
      prefix of the supplied ones, so extra trailing arguments are allowed.
      On a mismatch fatal mode reports `NumOrTypeReport`, which ends the
      host call. */
  method RequireArguments(input: Extractor, args: seq<ClassId>, fatal: bool) returns (r: Result<bool, ErrorReport>)
    ensures args <= input.ClassIds() ==> r == Success(true)
    ensures !(args <= input.ClassIds()) && !fatal ==> r == Success(false)
    ensures !(args <= input.ClassIds()) && fatal ==> r == Failure(NumOrTypeReport)
  {
    var res := true;
    if |args| > input.Number() {
      res := false;
    } else {
      var i := 0;
      while i < |args|
        invariant 0 <= i <= |args| <= input.Number()
        invariant forall j :: 0 <= j < i ==> input.ClassIdAt(j) == args[j]
      {
        if input.ClassIdAt(i) != args[i] {
          assert input.ClassIds()[i] != args[i];
          res := false;
          break;
        }
        i := i + 1;
      }
      if res {
        assert args == input.ClassIds()[..|args|];
      }
    }

    if !res && fatal {
      return Failure(NumOrTypeReport);
    }
    r := Success(res);
  }

  /** Supplying more arguments never turns an accepted call into a
      rejected one. */
  lemma {:induction false} TrailingArgumentsAllowed(input: Extractor, extra: seq<MxArray>, args: seq<ClassId>)
    requires args <= input.ClassIds()
    ensures args <= Extractor(input.args + extra).ClassIds()
  {
    var longer := Extractor(input.args + extra);
    assert forall i :: 0 <= i < |args| ==> args[i] == input.ClassIds()[i] == longer.ClassIds()[i];
  }

  /** `hdl(pos)`: read the token at `pos` and rebuild a handle from it. */
  method Hdl(input: Extractor, pos: nat) returns (h: Handle)
    requires pos < |input.args| && input.args[pos].MxUInt64?
    ensures fresh(h)
    ensures h.et == HandleOf(input.UInt64At(pos))
  {
    var address := input.UInt64At(pos);
    h := new Handle.FromToken(address);
  }

  /** `entity<T>(pos)`: `hdl(pos).get<T>()`. */
  method EntityAt(input: Extractor, pos: nat, heap: Heap, kind: EntityType) returns (r: Result<Entity, Exception>)
    requires heap.Valid() && input.HoldsUsableToken(pos, heap.cells)
    ensures r == Recover(heap.cells, HandleOf(input.UInt64At(pos)), kind)
    ensures input.UInt64At(pos) == 0 ==> r == Failure(EmptyHandleError)
    ensures r.Success? ==> r.value.kind == kind && r.value == heap.cells[input.UInt64At(pos)].obj
  {
    var h := Hdl(input, pos);
    r := h.Get(heap, kind);
  }

  /** `infusor`: the host's output slots. `nlhs` is a C `int`, and MATLAB
      always provides `plhs[0]`, even when `nlhs` is 0, so there are
      max(nlhs, 1) slots. */
  class Infusor {
    const slots: array<Option<MxArray>>
    const number: nat

    ghost predicate Valid()
      reads this
    {
      slots.Length == (if number == 0 then 1 else number) && number < 0x8000_0000
    }

    constructor (nlhs: nat)
      requires nlhs < 0x8000_0000
      ensures Valid() && number == nlhs && fresh(slots)
      ensures forall i :: 0 <= i < slots.Length ==> slots[i] == None
    {
      number := nlhs;
      slots := new Option<MxArray>[if nlhs == 0 then 1 else nlhs](_ => None);
    }

    /** `set(pos, std::string)`: the only overload guarded by `check_size`.
        Position -1 passes that guard and would write before the array, so
        it is excluded. */
    method SetString(pos: int, s: string)
      requires Valid()
      requires -0x8000_0000 <= pos < 0x7fff_ffff && pos != -1
      modifies slots
      ensures CheckSize(pos, number, false) ==> slots[..] == old(slots[..])
      ensures !CheckSize(pos, number, false) ==> 0 <= pos < slots.Length && slots[..] == old(slots[..])[pos := Some(MxString(s))]
    {
      if CheckSize(pos, number, false) {
        return;
      }
      slots[pos] := Some(MxString(s));
    }

    /** `set(pos, uint64_t)`: unguarded, so `pos` must be a real slot. */
    method SetUInt64(pos: nat, v: nat)
      requires Valid() && pos < slots.Length
      modifies slots
      ensures slots[..] == old(slots[..])[pos := Some(MxUInt64(v))]
    {
      slots[pos] := Some(MxUInt64(v));
    }

    /** `set(pos, mxArray *)`: unguarded. */
    method SetArray(pos: nat, arr: MxArray)
      requires Valid() && pos < slots.Length
      modifies slots
      ensures slots[..] == old(slots[..])[pos := Some(arr)]
    {
      slots[pos] := Some(arr);
    }

    /** `set(pos, const handle &)`: stores the handle's token. */
    method SetHandle(pos: nat, h: Handle)
      requires Valid() && pos < slots.Length
      modifies slots
      ensures slots[..] == old(slots[..])[pos := Some(MxUInt64(TokenOf(h.et)))]
    {
      var token := h.Address();
      SetUInt64(pos, token);
    }
  }

  /** A token the sink stored for a handle, read back as an argument by a
      later call, rebuilds a handle designating the same cell. */
  lemma {:induction false} StoredTokenRoundTrip(out: seq<Option<MxArray>>, pos: nat, et: Option<nat>, input: Extractor, at: nat)
    requires pos < |out| && out[pos] == Some(MxUInt64(TokenOf(et)))
    requires et.Some? ==> et.value != 0
    requires at < |input.args| && Some(input.args[at]) == out[pos]
    ensures input.args[at].MxUInt64? && HandleOf(input.UInt64At(at)) == et
  {
    TokenRoundTrip(et, 0);
  }
}
