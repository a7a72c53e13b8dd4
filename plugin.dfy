/** The Plugin trait (src/lib.rs:60-85) seen from the adapter: the descriptor
    `info` returns, the calls the adapter makes on an implementation, and the
    lifecycle those calls follow. */
module PluginContract {
  import opened CStrings

  /** PluginInfo: the three text fields, as the bytes of their `&str`s. */
  datatype PluginInfo = PluginInfo(name: seq<byte>, signature: seq<byte>, description: seq<byte>)

  /** One call on the Plugin implementation. `Start(succeeded)` is the call
      of `start()` and whether it returned `Some`. */
  datatype Call = Start(succeeded: bool) | Info | Enable | Disable | Stop

  /** Whether an instance is alive (the slot is full) after the calls of t:
      a successful start creates one, stop ends it, nothing else changes it. */
  function Live(t: seq<Call>): bool {
    if t == [] then false else
      match t[|t| - 1]
      case Start(ok) => ok
      case Stop => false
      case _ => Live(t[..|t| - 1])
  }

  /** `start` may be called only when no instance is alive; every other call
      only on a live instance. */
  predicate Allowed(live: bool, c: Call) {
    if c.Start? then !live else live
  }

  /** Every call of t was allowed when it was made. */
  predicate WellFormed(t: seq<Call>) {
    t == [] || (WellFormed(t[..|t| - 1]) && Allowed(Live(t[..|t| - 1]), t[|t| - 1]))
  }

  /** Appending one call: how liveness and well-formedness of the longer
      trace follow from those of the shorter one. */
  lemma AppendCall(t: seq<Call>, c: Call)
    ensures Live(t + [c]) == (if c.Start? then c.succeeded else if c.Stop? then false else Live(t))
    ensures WellFormed(t + [c]) <==> WellFormed(t) && Allowed(Live(t), c)
  {
    assert (t + [c])[..|t|] == t;
  }

  /** Two calls appended one at a time are the two appended together. */
  lemma AppendTwo(t: seq<Call>, c: Call, d: Call)
    ensures t + [c] + [d] == t + [c, d]
  {
  }

  /** Live of a prefix one call longer. */
  lemma LivePrefix(t: seq<Call>, k: nat)
    requires k < |t|
    ensures Live(t[..k + 1]) == (if t[k].Start? then t[k].succeeded else if t[k].Stop? then false else Live(t[..k]))
  {
    assert t[..k + 1] == t[..k] + [t[k]];
    AppendCall(t[..k], t[k]);
  }

  /** The recursive definition agrees with the call-by-call reading. */
  lemma {:induction false} WellFormedIff(t: seq<Call>)
    ensures WellFormed(t) <==> forall i :: 0 <= i < |t| ==> Allowed(Live(t[..i]), t[i])
  {
    if t != [] {
      var s := t[..|t| - 1];
      WellFormedIff(s);
      assert forall i :: 0 <= i < |s| ==> s[..i] == t[..i] && s[i] == t[i];
      assert t[..|t| - 1] == s;
    }
  }

  /** After stop, the next call (if any) is a fresh start: stop is the last
      call made on an instance. */
  lemma StopEndsInstance(t: seq<Call>)
    requires WellFormed(t)
    ensures forall i :: 0 <= i < |t| - 1 && t[i].Stop? ==> t[i + 1].Start?
  {
    WellFormedIff(t);
    forall i | 0 <= i < |t| - 1 && t[i].Stop?
      ensures t[i + 1].Start?
    {
      LivePrefix(t, i);
      assert Allowed(Live(t[..i + 1]), t[i + 1]);
    }
  }

  /** An instance created at i stays alive until a stop. */
  lemma {:induction false} LiveSinceStart(t: seq<Call>, i: nat, j: nat)
    requires WellFormed(t) && i < j <= |t| && t[i] == Start(true)
    requires forall k :: i < k < j ==> !t[k].Stop?
    ensures Live(t[..j])
  {
    if j == i + 1 {
      LivePrefix(t, i);
    } else {
      LiveSinceStart(t, i, j - 1);
      LivePrefix(t, j - 1);
      WellFormedIff(t);
      assert Allowed(Live(t[..j - 1]), t[j - 1]);
    }
  }

  /** At most one instance is alive at a time: between a successful start
      and any later start there is a stop. */
  lemma OneInstanceAtATime(t: seq<Call>, i: nat, j: nat)
    requires WellFormed(t) && i < j < |t| && t[i] == Start(true) && t[j].Start?
    ensures exists k :: i < k < j && t[k].Stop?
  {
    if forall k :: i < k < j ==> !t[k].Stop? {
      LiveSinceStart(t, i, j);
      WellFormedIff(t);
      assert false;
    }
  }
}
