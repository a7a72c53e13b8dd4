# rust-x-plane-plugin: the `xplane_plugin!` boundary adapter

The crate lets a Rust type implementing the `Plugin` trait be loaded by
X-Plane. The `xplane_plugin!` macro generates the five C entry points the
host calls (`XPluginStart`, `XPluginStop`, `XPluginEnable`,
`XPluginDisable`, `XPluginReceiveMessage`) over one process-wide slot,
`PLUGIN`, that is either null or holds the one boxed plugin instance.

This project models that adapter in Dafny:

- `wrappers.dfy`: the `Option` type.
- `cstrings.dfy` (module `CStrings`): bytes, what a C reader finds in a
  buffer (`ReadCString`), `ffi::CString::new` (`CStringNew`), the
  `<invalid>` fallback, the marshaling rule for one text field (`Marshal`),
  and `strcpy` into a host buffer (`StrCpy`).
- `plugin.dfy` (module `PluginContract`): `PluginInfo`, the calls the
  adapter makes on a `Plugin` implementation (`Call`), and the lifecycle
  those calls follow: `Live` says whether an instance exists after a trace
  of calls, `WellFormed` that every call was made in turn.
- `adapter.dfy` (module `PluginMacro`): class `Adapter<P>` holds the slot
  (`slot: Option<P>`, `None` being the null pointer) and a ghost trace of
  calls; each entry point is a method. The `Plugin` implementation is
  abstract: what `start()` returns and what `info()` returns are
  parameters of `XPluginStart`, and `enable`, `disable`, `stop` and `info`
  are recorded in the trace. The host's three output buffers are arrays.
  Calls the code does not defend against are preconditions: stop, enable
  or disable on an empty slot, start on a full slot, and output buffers
  that overlap or are too small for what `strcpy` copies.
- `scenarios.dfy` (module `Scenarios`): the crate's test plugin descriptor
  and a name with an embedded NUL, run through the marshaling rule.

## Model

| member | source | states |
|---|---|---|
| CStrings.ReadCString | src/lib.rs:117-128 | what the host reads from a C string buffer: a prefix of the buffer free of NUL, directly followed by the first NUL |
| CStrings.ReadCStringAppend | src/lib.rs:117-128 | NUL-free bytes in front of a buffer are read back unchanged, followed by what the rest reads as |
| CStrings.ReadTerminated | src/lib.rs:118 | a well-formed C string reads back as its bytes before the terminator, whatever follows it in the buffer |
| CStrings.CStringNew | src/lib.rs:117 | `CString::new` fails exactly when the text holds a NUL byte; on success the result is a well-formed C string that reads back as the text |
| CStrings.InvalidLiteral | src/lib.rs:119 | the literal `b"<invalid>"` as written: nine bytes and no NUL among them |
| CStrings.AsWrittenFallbackReadsOn | src/lib.rs:119 | the literal as written is not a C string, and what `strcpy` copies from it depends on the memory that follows it |
| CStrings.Fallback | src/lib.rs:119 | the intended fallback: a well-formed C string that reads back as `<invalid>` |
| CStrings.Marshal | src/lib.rs:117-128 | the bytes intended to be copied for one field are a well-formed C string; without a NUL in the text, stripping the terminator gives the text back; with one, the result is exactly the corrected fallback `<invalid>` plus NUL (as written, the copy runs on past the unterminated literal) |
| CStrings.HostText | src/lib.rs:117-128 | the text the host ends up with never holds a NUL, and equals the field exactly when the field holds no NUL |
| CStrings.MarshalRead | src/lib.rs:117-128 | round trip and fallback law: a buffer starting with the marshaled field reads back as the field when it has no NUL, and as `<invalid>` when it has one, whatever the rest of the buffer holds |
| CStrings.CopiedOverReads | src/lib.rs:117-128 | a host buffer whose front was overwritten with a marshaled field reads back as `HostText` of that field |
| CStrings.StrCpy | src/lib.rs:118 | `strcpy` of a well-formed C string that fits: its bytes, terminator included, replace the front of the buffer and the rest is untouched |
| PluginContract.AppendCall | src/lib.rs:104-160 | one more call: a successful start makes an instance alive, a failed start leaves none, stop ends it, the others keep it; the longer trace is well-formed exactly when the shorter one is and the new call was allowed |
| PluginContract.LivePrefix | src/lib.rs:104-160 | the same, stated for consecutive prefixes of one trace |
| PluginContract.WellFormedIff | src/lib.rs:104-160 | a trace is well-formed exactly when each call was allowed by the state the calls before it left: start only with no instance, enable, disable, info and stop only with one |
| PluginContract.StopEndsInstance | src/lib.rs:142-148 | in a well-formed trace the call after a stop, if any, is a new start: stop is the last call made on an instance |
| PluginContract.LiveSinceStart | src/lib.rs:108-113 | an instance created by a successful start stays alive until a stop |
| PluginContract.OneInstanceAtATime | src/lib.rs:100-148 | between a successful start and any later start there is a stop, so at most one instance exists at a time |
| PluginMacro.WriteField | src/lib.rs:117-120 | one `strcpy` of a marshaled field: the front of the buffer holds it, the rest is untouched, and the host reads the field or `<invalid>` |
| PluginMacro.WriteInfo | src/lib.rs:117-128 | the three copies, each buffer receiving its own field only, so an invalid name does not change what is written for signature or description |
| PluginMacro.Adapter.constructor | src/lib.rs:100 | the slot starts null and no call has been made |
| PluginMacro.Adapter.XPluginStart | src/lib.rs:104-138 | on `Some`: returns 1, stores the instance, calls `info` after storing it, and overwrites the front of each buffer with the marshaled text of its own field only, so that the host reads each field, or `<invalid>` under the intended terminated fallback; on `None`: returns 0, the slot stays empty and no buffer is written |
| PluginMacro.Adapter.XPluginStop | src/lib.rs:142-148 | requires an instance; calls `stop` exactly once and leaves the slot empty |
| PluginMacro.Adapter.XPluginEnable | src/lib.rs:152-154 | requires an instance; records exactly one `enable` and leaves the slot as it was |
| PluginMacro.Adapter.XPluginDisable | src/lib.rs:158-160 | requires an instance; records exactly one `disable` and leaves the slot as it was |
| PluginMacro.Adapter.XPluginReceiveMessage | src/lib.rs:165-169 | for every sender, message and parameter, no state changes |
| PluginMacro.Cycle | src/lib.rs:142-160 | from any state with an instance, enable, disable, enable, disable, stop appends exactly those five calls and leaves the slot empty |
| PluginMacro.Lifecycle | src/lib.rs:104-160 | start, enable, disable, enable, disable, stop drives exactly that sequence of calls on the implementation and ends with the slot empty |
| Scenarios.InvalidLiteralText | src/lib.rs:119 | the nine bytes of the fallback literal are the ASCII text `<invalid>` |
| Scenarios.AsciiReadsBack | src/lib.rs:117-118 | ASCII text without a NUL reaches the host unchanged |
| Scenarios.TestPluginReadsBack | src/lib.rs:192-198 | every field of the test plugin's descriptor reaches the host unchanged |
| Scenarios.BadNameFallsBack | src/lib.rs:117-120 | a name with an embedded NUL is marshaled as the fallback and read by the host as `<invalid>` |

## Left out

- Raw pointers, `Box::into_raw` and `Box::from_raw`: the slot holds the instance as a value; allocation and freeing are not modelled beyond the slot being full or empty.
- Host buffer capacity: the code is not told it; `XPluginStart` requires each buffer to be at least as long as what `strcpy` copies into it, which `strcpy` relies on without checking.
- Aliased output buffers: X-Plane passes three separate buffers, and the model assumes so (`BuffersFit` requires distinct arrays); with aliased buffers the code is still defined (the later copy overwrites the earlier one), but the model does not cover that case.
- CStrings.Marshal: models the intended fallback `<invalid>` followed by a NUL, not the unterminated literal `b"<invalid>"` the code passes to `strcpy`; as written the bytes copied after `<invalid>` depend on the memory following the literal (see Findings).
- PluginMacro.Adapter.XPluginStart: its buffer postconditions use the intended terminated fallback; for a field holding a NUL the code as written copies `<invalid>` and then whatever memory follows the literal, up to a NUL, which the model does not describe.
- The internal state of a `Plugin` implementation: `enable`, `disable` and `stop` are recorded in the trace, not executed; `info` is asked once, so its answer is a parameter.
- `extern "C"`, `#[no_mangle]`, the C ABI and the macro-expansion mechanics.
- Panics and unwinding across the C boundary: the code catches nothing, and the model has no panics.
- Call order beyond the slot: the code enforces no order between enable, disable and stop; the model assumes the host calls stop, enable and disable only while an instance exists and start only while none does (the requires of those methods), and states nothing about enable/disable pairing.
- Threads: `static mut PLUGIN` has no synchronisation, and the model is sequential.
- UTF-8 validity of `&str`: only NUL bytes matter to `CString::new`, so text is a byte sequence.
- The message parameter pointer is modelled as an address (`nat`); it is never read.

## Findings

| source | as written | input that shows it | evidently intended | confidence | as-written member | corrected member |
|---|---|---|---|---|---|---|
| src/lib.rs:119 (also 123, 127) | `b"<invalid>"` is a byte-string literal with no terminating NUL, passed to `strcpy` as a C string | any field holding a NUL byte, such as the name `Bad\0Name`: `strcpy` copies `<invalid>` and then reads on into the memory after the literal, up to some NUL | copy `<invalid>` followed by one NUL (`b"<invalid>\0"`) | not executed; high that the literal is unterminated, the copied bytes depend on memory layout | CStrings.AsWrittenFallbackReadsOn | CStrings.Fallback |
