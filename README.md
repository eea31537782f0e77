# nix-mx bridge runtime, modelled in Dafny

nix-mx lets MATLAB drive the NIX data library through a single MEX entry
point. Every MATLAB call arrives as `mexFunction(nlhs, plhs, nrhs, prhs)`.
Argument 0 names a command, for example `"Entity::destroy"`. The entry point
looks the name up in a dispatch table and runs the bound function. Any failure
becomes a MATLAB error with an identifier and a message. NIX objects stay on
the C++ side. MATLAB holds them only as opaque 64-bit tokens: each token is the
address of a heap cell that carries an integer type tag and the wrapped NIX
entity.

This project models that runtime core:

- **`Outcomes`** (`outcomes.dfy`): option and result values. Also the
  exceptions a command can throw, the (identifier, message) pairs handed to
  `mexErrMsgIdAndTxt`, and how one invocation of a command ends.
- **`Handles`** (`handles.dfy`): the type-tagged handle of `main.cpp`, with
  `entity_to_id`, `handle`, `entity` and `cell`.
  - The process heap is a `Heap` object whose `cells` map addresses to cells.
    Address 0 is `nullptr`.
  - A `Handle` is a class whose one field `et` points at a cell or is null.
  - Construction allocates a fresh tagged cell. `get<T>` checks for the empty
    handle first, then the tag. `address()` yields the token. `destroy()`
    clears the tag, resets the value to `nix::none`, frees the cell and nulls
    the pointer.
- **`Arguments`** (`arguments.dfy`): `argument_helper`, plus `extractor` (the
  inbound argument view) and `infusor` (the outbound result sink).
  - `check_size` is modelled with the C++ `int` to `size_t` conversion written
    out.
  - `require_arguments` is a method whose loop proves it accepts exactly the
    calls whose required class list is a prefix of the supplied classes.
  - The sink is a class over an array of `max(nlhs, 1)` slots, because MATLAB
    always provides `plhs[0]`.
- **`Commands`** (`commands.dfy`): the two universal commands whose bodies the
  bridge owns, `Entity::destroy` and `Entity::updatedAt`, and commands bound
  to functions built on the NIX library, `Library(name)`.
  - Every command is specified by functions giving how it completes and the
    heap cells and output slots after the call.
  - `updated_at()` on an entity either yields a time or throws; which one is
    part of the entity's data.
  - What a library-bound function does is a parameter of type `string ->
    LibraryCall`. The function either throws or reports an error before
    writing anything, or it
    returns having written nothing, a host value in slot 0, or the token of a
    newly wrapped entity in slot 0 (as `output.set(0, handle(e))` does).
- **`LegacyDispatch`** (`legacy_dispatch.dfy`): the fixed table `funcs` of
  `main.cpp`, and its entry point. The entry point searches linearly for the
  first matching name, runs that function at most once, and reports failures
  under `MATLAB:arg:dispatch`. `EndpointsBehave` records what the table's own
  library-bound endpoints write: a handle for the three `open` endpoints, a
  host value for the listings, `describe` and `readAll`.
- **`Entry`** (`entry.dfy`): the entry point of `nix_mx.cc`.
  - The registry is filled exactly once (`init_flag`, `methods`), on the first
    call. It receives the bindings of the `classdef` chains, which are a
    parameter of the bridge, and the 26 pairs passed to `methods->add`
    directly, in call order.
  - Dispatch goes by name.
  - Exceptions are mapped to `nix:arg:inval` or `nix:arg:dispatch`, and an
    unknown command to `nix:arg:dispatch`.
  - `ReportsAgreeWithLegacy` relates the two entry points' error mappings.

## Notes on the code's behaviour

- **Address after `destroy()`.** `handle::destroy` sets the cell pointer to
  `nullptr` (`main.cpp:90`). So a destroyed handle's `address()` is 0, and no
  longer its old address.
- **Stale tokens.** Nothing resets the token MATLAB still holds after
  `Entity::destroy`, so a second call on the same token dereferences freed
  memory rather than failing with the empty-handle error. The model makes such calls
  preconditions (`CallIsDefined`). `Commands.NoUseAfterDestroy` shows that
  they stop being defined once the cell is freed.
- **Unguarded overloads and accessors.** Only `infusor::set(int, std::string)`
  is guarded by `check_size`. The `uint64_t`, `mxArray *` and handle overloads
  write `plhs[pos]` unguarded. `extractor::str` and `extractor::uint64` do not
  check the argument's class or position.
- **Dispatch error messages.** Neither entry point adds the command name to a
  dispatch error message. Each passes `e.what()` on unchanged.

## Model

| member | source | states |
|---|---|---|
| `Handles.EntityToId` | main.cpp:41-57 | File, Block and DataArray get tags 1, 2 and 3; the nine further types the `classdef` chains bind get tags 4 to 12; no type's tag is the destroyed tag 0 |
| `Handles.EntityToIdInjective` | main.cpp:44-57 | two tags are equal exactly when the types are, so the tag check in `get` is a type check |
| `Handles.TokenRoundTrip` | main.cpp:66-84 | `handle(h.address())` designates the same cell as `h`, and `handle(t).address() == t` for every token |
| `Handles.Recover` | main.cpp:68-80 | `get<T>` succeeds only on a non-null handle, and then yields the stored object, of type T when the cell is well tagged |
| `Handles.RecoverAtStoredTypeOnly` | main.cpp:74-79 | a live cell is recovered at the type it was built with and fails with "tried to get a entity of wrong type" at every other type |
| `Handles.UnusedAddress` | main.cpp:65 | every finite set of used addresses leaves a non-null address free, so allocating a new cell always succeeds |
| `Handles.Handle.Wrap` | main.cpp:64-65 | wrapping an entity allocates one cell at a previously unused non-null address, tagged with the entity type's tag; no other cell changes |
| `Handles.Handle.FromToken` | main.cpp:66 | a handle rebuilt from token 0 is empty; any other token designates the cell at that address |
| `Handles.Handle.Address` | main.cpp:82-84 | the token of a handle is its cell's address, 0 for the empty handle |
| `Handles.Handle.Get` | main.cpp:68-80 | "called get on empty handle" for a null handle; otherwise "tried to get a entity of wrong type" when the stored type differs, and the stored object when it matches |
| `Handles.Handle.Destroy` | main.cpp:86-91 | the cell is freed, and its last contents are tag 0 and `nix::none` (`cell::destory`, main.cpp:110-112); the handle becomes empty, so every later `get` fails with the empty-handle error; no other cell changes |
| `Arguments.CheckSize` | main.cpp:130-133 | a non-negative position is out of range exactly when it is at least the slot count; position -1 is never out of range; below -1 the `size_t` conversion decides; `fatal` has no effect |
| `Arguments.Extractor.ClassIdAt` | main.cpp:191-193 | a string argument has class `mxCHAR_CLASS` and a uint64 scalar `mxUINT64_CLASS` |
| `Arguments.RequireArguments` | main.cpp:135-153 | success with `true` exactly when the required classes are a prefix of the supplied ones; otherwise `false`, or the `MATLAB:args:numortype` report in fatal mode |
| `Arguments.TrailingArgumentsAllowed` | main.cpp:137-146 | appending arguments never turns an accepted call into a rejected one |
| `Arguments.Hdl` | main.cpp:185-189 | `hdl(pos)` is a new handle rebuilt from the uint64 token at `pos` |
| `Arguments.EntityAt` | main.cpp:180-183 | `entity<T>(pos)` is `get<T>` on the handle of the token at `pos`: the empty-handle error for token 0, else the object of type T stored at that address |
| `Arguments.Infusor.constructor` | main.cpp:206 | the sink wraps `max(nlhs, 1)` empty slots |
| `Arguments.Infusor.SetString` | main.cpp:208-214 | an out-of-range position (by `check_size`) writes nothing; otherwise exactly slot `pos` receives the string |
| `Arguments.Infusor.SetUInt64` | main.cpp:216-220 | exactly slot `pos` receives a uint64 scalar holding `v` |
| `Arguments.Infusor.SetArray` | main.cpp:222-224 | exactly slot `pos` receives the given array |
| `Arguments.Infusor.SetHandle` | main.cpp:226-228 | exactly slot `pos` receives the handle's token as a uint64 scalar |
| `Arguments.StoredTokenRoundTrip` | main.cpp:185-228 | a token the sink stored for a handle, passed back in as an argument, rebuilds a handle to the same cell |
| `Commands.TimeToUInt64` | nix_mx.cc:37-38 | the `time_t` to `uint64_t` cast keeps non-negative times and adds 2^64 to negative ones |
| `Commands.UInt64ToTime` | nix_mx.cc:37-38 | the inverse of the cast, used by `TimeRoundTrip`: a stored value below 2^63 reads back as itself, any larger one as a negative `time_t` |
| `Commands.TimeRoundTrip` | nix_mx.cc:37-38 | the cast loses nothing: every `time_t` comes back unchanged |
| `Commands.CellsAfter` | nix_mx.cc:28-32 | `Entity::destroy` frees exactly the cell its token designates; a call that wraps an entity adds one cell at an unused non-null address, tagged with the entity's type; no command alters or frees any other cell; well-tagging is kept |
| `Commands.SlotsAfter` | nix_mx.cc:34-40 | only slot 0 is ever written: `Entity::updatedAt` writes the update time as uint64, a returning library function its value or the new cell's token; a call that fails writes nothing; `Entity::destroy` writes nothing |
| `Commands.WrappedTokenRecovers` | src/nixsection.cc:61-69 | the token a wrapping call writes to slot 0, passed back in, designates a live cell from which `get` recovers the wrapped entity at its own type |
| `Commands.NoUseAfterDestroy` | main.cpp:86-91 | after `Entity::destroy` on a token, neither universal command is defined on that token any more |
| `Commands.StoreNewHandle` | src/nixsection.cc:68 | `output.set(0, handle(obj))` adds exactly one cell for `obj` at an unused non-null address and writes that address to slot 0 only |
| `Commands.Invoke` | nix_mx.cc:28-40 | running a command (also `entity_destory`, main.cpp:235-240) completes as `CompletionOf` says: `Entity::updatedAt` throws exactly when `updated_at()` does, and a library function as its parameter says. It leaves the cells and output slots as `CellsAfter`/`SlotsAfter` say, with a wrapped entity's cell at an address unused before, and keeps the heap well formed |
| `LegacyDispatch.FuncsTable` | main.cpp:489-498 | the table has eight endpoints, `Entity::destroy` first and bound to its own body, every other one to the library function of its name, and no name twice |
| `LegacyDispatch.OpenedTokenRecovers` | main.cpp:242-311 | after `File::open`, `File::openBlock` or `Block::openDataArray` returns, slot 0 holds a token from which `get` recovers the opened entity at the opened type (File, Block or DataArray), and at every other type fails with "tried to get a entity of wrong type" |
| `LegacyDispatch.FirstMatch` | main.cpp:514-526 | the index of the first endpoint named `cmd`: none exactly when no name matches, otherwise a matching index with no earlier match |
| `LegacyDispatch.FirstMatchIsUnique` | main.cpp:514-526 | the first matching index is the only one the search can select |
| `LegacyDispatch.LegacyReport` | main.cpp:516-530 | no report exactly when the command ran and completed; "Unkown command" when none matched; `MATLAB:arg:dispatch` with `e.what()` or "unkown exception" for a throw; a report raised by the command itself passes through |
| `LegacyDispatch.MexFunction` | main.cpp:501-531 | reads the command at position 0 and runs the first endpoint of that name exactly once (none when no name matches, which reports "Unkown command" and changes nothing), with the report, cells and slots of that endpoint's run |
| `Entry.ReportFor` | nix_mx.cc:293-317 | no report exactly when the command ran and completed; `nix:arg:inval` for `std::invalid_argument`; `nix:arg:dispatch` for other exceptions, "unkown exception" and "Unkown command"; a report raised by the command itself passes through |
| `Entry.ReportsAgreeWithLegacy` | nix_mx.cc:305-317 | both entry points report on the same outcomes with the same message; the identifiers differ except for a report raised by the command itself |
| `Entry.BindingsKeys` | nix_mx.cc:89-259 | after a sequence of `add` calls, exactly the added names are registered |
| `Entry.BindingsLastWins` | nix_mx.cc:89-259 | a name is bound by the last `add` of that name |
| `Entry.DirectAddsDistinct` | nix_mx.cc:89-259 | no name is passed to `methods->add` twice |
| `Entry.DirectAddsRegistered` | nix_mx.cc:89-259 | every direct `add` is in effect: each of the 26 names is bound to the function passed with it |
| `Entry.UniversalCommandsRegistered` | nix_mx.cc:89-90 | `Entity::destroy` and `Entity::updatedAt` are registered, bound to the universal commands |
| `Entry.Registry.constructor` | nix_mx.cc:87 | a new registry has no entries |
| `Entry.Registry.Add` | nix_mx.cc:89-90 | adding binds the name to the function and leaves every other entry unchanged |
| `Entry.Registry.AddGroup` | nix_mx.cc:92-288 | the `classdef` chains' registrations add all their bindings to the registry |
| `Entry.Registry.AddInOrder` | nix_mx.cc:89-259 | a sequence of `add` calls leaves the earlier entries overridden by the bindings of the sequence |
| `Entry.Registry.Dispatch` | nix_mx.cc:296 | an unknown name yields "not processed" and changes nothing; a known one runs its function once, with `Invoke`'s completion, cells and slots |
| `Entry.Bridge.constructor` | nix_mx.cc:45-46 | the process starts uninitialised with no registry and an empty heap; the `classdef` bindings are all library-bound |
| `Entry.Bridge.Initialise` | nix_mx.cc:80-291 | builds a fresh registry holding exactly the `classdef` bindings and the direct `add` pairs, and sets the once-flag |
| `Entry.Bridge.MexFunction` | nix_mx.cc:68-318 | the registry is built on the first call only and reused afterwards; a name it does not hold reports "Unkown command" and changes nothing; a registered one runs once, and the report is `ReportFor` of its completion, with the cells and slots of its run |

## Left out

- The `classdef<T>(...).desc(...)`, `.add(...)` and `.reg(...)` chains of `nix_mx.cc`: the names they register are composed in `utils/glue.h`, which is not part of this model, so their bindings are a parameter of `Entry.Bridge`. They are registered as one group ahead of the direct `add` calls, not interleaved with them. So for a name registered both ways, the model keeps the direct binding; the names visible in `nix_mx.cc` do not collide.
- What the library-bound functions do inside NIX: each is `Library(name)`, and its visible effect is a parameter. That effect is to fail before writing, or to return having written nothing, one host value in slot 0, or the token of one newly wrapped entity in slot 0. A function that writes other slots, wraps several entities, or frees or alters existing cells is not captured. The functions visible in `main.cpp` and `src/nixsection.cc` stay within these shapes. `EndpointsBehave` states these shapes for main.cpp's own endpoints and is assumed only by `LegacyDispatch.OpenedTokenRecovers`; the entry points hold for every library.
- `src/nixsection.cc` and `src/nixdataarray.cc`: domain glue, not part of this model.
- The `handle`, `extractor` and `infusor` that `nix_mx.cc` uses are declared in `handle.h` and `arguments.h`, which are not part of this model. They are modelled by the `main.cpp` versions; `the_entity()->updated_at()` reads the update time from the cell's entity. `main.cpp` tags only File, Block and DataArray; the tags `handle.h` gives Source, Tag, MultiTag, Section, Feature, Property and the three dimension types are not part of this model, so `Handles.EntityToId` gives them the distinct non-zero tags 4 to 12, in the order the `classdef` chains register them (nix_mx.cc:158-288). Only the distinctness of tags matters to the properties proved.
- Host value marshalling (`mxArrayToString`, `mxGetData`, `mxCreateString`, `mxCreateNumericMatrix`): host values are abstract, and only their class, a string's text and a uint64 scalar's value are visible.
- `Arguments.Extractor.Str` and `Arguments.Extractor.UInt64At` require a string, respectively a uint64 scalar, at an existing position. The source does not check this, and any other input reads garbage or crashes.
- `Arguments.Infusor.SetString` excludes position -1: it passes `check_size` and then writes before the output array.
- `Arguments.Infusor.SetUInt64`, `Arguments.Infusor.SetArray`, `Arguments.Infusor.SetHandle`: these require a real slot, because the source writes the slot unguarded.
- The 64-bit width of addresses and tokens: addresses are unbounded natural numbers. Which non-null address `new` picks is left open (any unused one).
- `Commands.CallIsDefined`: a universal command must get the token of a live cell at position 1. A null, forged or freed token is undefined behaviour in the source. `Entity::updatedAt` must also get a real entity, because what NIX does for `nix::none` is not part of this model.
- `Entry.Registry.Add`: adding a name twice overwrites the entry in the model. The registry's own behaviour for duplicates is defined in `utils/glue.h`, which is not part of this model, and `Entry.DirectAddsDistinct` shows the entry point never adds a name twice directly.
- Aborting through `mexErrMsgIdAndTxt` is represented as a returned report rather than a non-local exit. A command that raises one itself is `Aborted(report)`.
- `std::call_once` synchronisation between threads: MATLAB calls the entry point from one thread, so the once-flag is a plain boolean.
- `mexPrintf` tracing, `mexAtExit(on_exit)` and the registry's deletion at unload: output and process teardown only.
- `extractor::is_str`: not used by the modelled core.
