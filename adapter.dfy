/** The entry points that `xplane_plugin!` generates (src/lib.rs:92-171),
    for one Plugin implementation whose instances have type P. */
module PluginMacro {
  import opened Wrappers
  import opened CStrings
  import opened PluginContract

  /** `libc::c_int`. */
  newtype int32 = x: int | -0x8000_0000 <= x < 0x8000_0000

  /** Whether three host buffers are distinct and each can take what the
      adapter copies into it for `info`. */
  predicate BuffersFit(info: PluginInfo, outName: array<byte>, outSig: array<byte>, outDescription: array<byte>) {
    outName != outSig && outName != outDescription && outSig != outDescription &&
    |Marshal(info.name)| <= outName.Length &&
    |Marshal(info.signature)| <= outSig.Length &&
    |Marshal(info.description)| <= outDescription.Length
  }

  /** One `strcpy` of src/lib.rs:117-128: the marshaled field overwrites the
      front of its buffer, and the host reads the field (or `<invalid>`). */
  method WriteField(dst: array<byte>, text: seq<byte>)
    requires |Marshal(text)| <= dst.Length
    modifies dst
    ensures CopiedOver(dst[..], old(dst[..]), Marshal(text))
    ensures NUL in dst[..] && ReadCString(dst[..]) == HostText(text)
  {
    StrCpy(dst, Marshal(text));
    CopiedOverReads(dst[..], old(dst[..]), text);
  }

  /** The three copies of src/lib.rs:117-128, each into its own buffer. */
  method WriteInfo(info: PluginInfo, outName: array<byte>, outSig: array<byte>, outDescription: array<byte>)
    requires BuffersFit(info, outName, outSig, outDescription)
    modifies outName, outSig, outDescription
    ensures CopiedOver(outName[..], old(outName[..]), Marshal(info.name))
    ensures CopiedOver(outSig[..], old(outSig[..]), Marshal(info.signature))
    ensures CopiedOver(outDescription[..], old(outDescription[..]), Marshal(info.description))
    ensures NUL in outName[..] && ReadCString(outName[..]) == HostText(info.name)
    ensures NUL in outSig[..] && ReadCString(outSig[..]) == HostText(info.signature)
    ensures NUL in outDescription[..] && ReadCString(outDescription[..]) == HostText(info.description)
  {
    WriteField(outName, info.name);
    WriteField(outSig, info.signature);
    WriteField(outDescription, info.description);
  }

  /** The process-wide state of one loaded plugin: the static `PLUGIN` slot
      and, as ghost state, the calls made on the Plugin implementation. */
  class Adapter<P> {
    /** `PLUGIN`: `None` is the null pointer, `Some(p)` the boxed instance. */
    var slot: Option<P>
    /** Every call made on the Plugin implementation, oldest first. */
    ghost var trace: seq<Call>

    /** The slot is full exactly while the trace says an instance is alive,
        and no call was made out of turn. */
    ghost predicate Valid()
      reads this
    {
      WellFormed(trace) && (slot.Some? <==> Live(trace))
    }

    /** The static initialiser `0 as PluginPtr` (src/lib.rs:100). */
    constructor ()
      ensures Valid() && slot == None && trace == []
    {
      slot := None;
      trace := [];
    }

    /** XPluginStart. `started` is what `start()` returns; `info` is what
        `info()` returns on the stored instance. */
    method XPluginStart(started: Option<P>, info: PluginInfo,
                        outName: array<byte>, outSig: array<byte>, outDescription: array<byte>)
      returns (status: int32)
      requires Valid() && slot.None?
      requires started.Some? ==> BuffersFit(info, outName, outSig, outDescription)
      modifies this, outName, outSig, outDescription
      ensures Valid() && slot == started
      ensures status == if started.Some? then 1 else 0
      ensures started.None? ==>
        trace == old(trace) + [Start(false)] && unchanged(outName, outSig, outDescription)
      ensures started.Some? ==> trace == old(trace) + [Start(true), Info]
      ensures started.Some? ==>
        CopiedOver(outName[..], old(outName[..]), Marshal(info.name)) &&
        CopiedOver(outSig[..], old(outSig[..]), Marshal(info.signature)) &&
        CopiedOver(outDescription[..], old(outDescription[..]), Marshal(info.description))
      ensures started.Some? ==>
        NUL in outName[..] && ReadCString(outName[..]) == HostText(info.name) &&
        NUL in outSig[..] && ReadCString(outSig[..]) == HostText(info.signature) &&
        NUL in outDescription[..] && ReadCString(outDescription[..]) == HostText(info.description)
    {
      AppendCall(trace, Start(started.Some?));
      trace := trace + [Start(started.Some?)];
      match started
      case None =>
        status := 0;
      case Some(plugin) =>
        slot := Some(plugin);
        AppendCall(trace, Info);
        AppendTwo(old(trace), Start(true), Info);
        trace := trace + [Info];
        WriteInfo(info, outName, outSig, outDescription);
        status := 1;
    }

    /** XPluginStop: `stop()` on the instance, then free it and null the slot. */
    method XPluginStop()
      requires Valid() && slot.Some?
      modifies this
      ensures Valid() && slot.None?
      ensures trace == old(trace) + [Stop]
    {
      AppendCall(trace, Stop);
      trace := trace + [Stop];
      slot := None;
    }

    /** XPluginEnable: `enable()` on the instance. */
    method XPluginEnable()
      requires Valid() && slot.Some?
      modifies this
      ensures Valid() && slot == old(slot)
      ensures trace == old(trace) + [Enable]
    {
      AppendCall(trace, Enable);
      trace := trace + [Enable];
    }

    /** XPluginDisable: `disable()` on the instance. */
    method XPluginDisable()
      requires Valid() && slot.Some?
      modifies this
      ensures Valid() && slot == old(slot)
      ensures trace == old(trace) + [Disable]
    {
      AppendCall(trace, Disable);
      trace := trace + [Disable];
    }

    /** XPluginReceiveMessage: every message is discarded. `param` is the
        address the host passes; it is never dereferenced. */
    method XPluginReceiveMessage(from: int32, message: int32, param: nat)
      ensures unchanged(this)
    {
    }
  }

  /** A host that enables, disables, enables, disables and stops a loaded
      plugin drives exactly that sequence of calls on the implementation. */
  method Cycle<P>(a: Adapter<P>)
    requires a.Valid() && a.slot.Some?
    modifies a
    ensures a.Valid() && a.slot.None?
    ensures a.trace == old(a.trace) + [Enable, Disable, Enable, Disable, Stop]
  {
    a.XPluginEnable();
    a.XPluginDisable();
    a.XPluginEnable();
    a.XPluginDisable();
    a.XPluginStop();
  }

  /** The trace of a load followed by a cycle. */
  lemma WholeCycle(t: seq<Call>)
    requires t == [] + [Start(true), Info]
    ensures t + [Enable, Disable, Enable, Disable, Stop]
         == [Start(true), Info, Enable, Disable, Enable, Disable, Stop]
  {
  }

  /** The whole lifecycle, from load to stop, on a fresh adapter. */
  method Lifecycle<P>(plugin: P, info: PluginInfo,
                      outName: array<byte>, outSig: array<byte>, outDescription: array<byte>)
    returns (a: Adapter<P>, status: int32)
    requires BuffersFit(info, outName, outSig, outDescription)
    modifies outName, outSig, outDescription
    ensures fresh(a) && a.Valid() && a.slot.None? && status == 1
    ensures a.trace == [Start(true), Info, Enable, Disable, Enable, Disable, Stop]
  {
    a := new Adapter();
    status := a.XPluginStart(Some(plugin), info, outName, outSig, outDescription);
    ghost var started := a.trace;
    Cycle(a);
    WholeCycle(started);
  }
}
