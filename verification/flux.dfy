/** The process-wide diffusion-model handle `_flux_instance` and its lazy
    accessor `get_flux_instance`. */
module Flux {
  import opened Wrappers

  /** The fixed configuration the handle is built with. */
  const Alias := "schnell"
  const Quantize: nat := 4

  /** A handle returned by the model library's constructor. `serial` numbers
      the constructor calls of the process (the first call gives 0), so two
      handles from different constructions are never equal. */
  datatype FluxHandle = FluxHandle(alias: string, quantize: nat, serial: nat)

  /** The global variable, plus the number of constructor calls so far,
      whether they returned or raised. */
  datatype FluxSlot = FluxSlot(instance: Option<FluxHandle>, constructions: nat)

  /** The state at import time: `_flux_instance = None`. */
  const Unset := FluxSlot(None, 0)

  /** A slot the program can reach: still empty (after any number of
      constructor calls that raised), or holding the handle that the most
      recent constructor call returned. */
  predicate Reachable(slot: FluxSlot) {
    || slot.instance.None?
    || (slot.constructions >= 1 && slot.instance == Some(FluxHandle(Alias, Quantize, slot.constructions - 1)))
  }

  /** `get_flux_instance()`: the cached handle, built first when the global is
      still unset. `builds` is whether `Flux1.from_alias` returns (true) or
      raises (false) if it is called. Returns the handle, `None` when the
      constructor raised, and the global afterwards; a raising constructor
      leaves the global unset, so the next call tries again. */
  function GetFluxInstance(slot: FluxSlot, builds: bool): (r: (Option<FluxHandle>, FluxSlot))
    ensures r.1.instance == r.0
    ensures slot.instance.Some? ==> r.0 == slot.instance && r.1 == slot
    ensures slot.instance.None? ==> r.1.constructions == slot.constructions + 1
    ensures r.0.Some? <==> slot.instance.Some? || builds
    ensures slot.instance.None? && builds ==>
      r.0 == Some(FluxHandle(Alias, Quantize, slot.constructions))
    ensures Reachable(slot) ==> Reachable(r.1)
  {
    match slot.instance
    case Some(h) => (Some(h), slot)
    case None =>
      var c := slot.constructions;
      if builds then
        var h := FluxHandle(Alias, Quantize, c);
        (Some(h), FluxSlot(Some(h), c + 1))
      else
        (None, FluxSlot(None, c + 1))
  }

  /** One call per element of `outcomes` (what the constructor would do if
      that call ran it): the handles returned and the global afterwards. */
  function CallRepeatedly(slot: FluxSlot, outcomes: seq<bool>): (r: (seq<Option<FluxHandle>>, FluxSlot))
    ensures |r.0| == |outcomes|
    decreases |outcomes|
  {
    if |outcomes| == 0 then ([], slot)
    else
      var (h, next) := GetFluxInstance(slot, outcomes[0]);
      var (hs, last) := CallRepeatedly(next, outcomes[1..]);
      ([h] + hs, last)
  }

  /** The position of the first constructor call that would return, or
      `|outcomes|` when every one would raise. */
  function FirstBuild(outcomes: seq<bool>): (k: nat)
    ensures k <= |outcomes|
    ensures forall i :: 0 <= i < k ==> !outcomes[i]
    ensures k < |outcomes| ==> outcomes[k]
  {
    if |outcomes| == 0 || outcomes[0] then 0 else 1 + FirstBuild(outcomes[1..])
  }

  /** Once the global is set, every further call returns the same handle and
      leaves the global as it is: the constructor never runs again. */
  lemma {:induction false} SetSlotIsStable(slot: FluxSlot, outcomes: seq<bool>)
    requires slot.instance.Some?
    ensures CallRepeatedly(slot, outcomes).1 == slot
    ensures forall i :: 0 <= i < |outcomes| ==> CallRepeatedly(slot, outcomes).0[i] == slot.instance
    decreases |outcomes|
  {
    if |outcomes| > 0 {
      SetSlotIsStable(slot, outcomes[1..]);
      var hs := CallRepeatedly(slot, outcomes).0;
      assert hs == [slot.instance] + CallRepeatedly(slot, outcomes[1..]).0;
    }
  }

  /** From an unset global after `c` constructor calls: the calls before the
      first successful construction return nothing and each runs the
      constructor; that construction's handle is returned by it and by
      every later call, and the constructor never runs again. */
  lemma {:induction false} CallsFromUnset(c: nat, outcomes: seq<bool>)
    ensures var k := FirstBuild(outcomes);
      forall i :: 0 <= i < |outcomes| ==>
        CallRepeatedly(FluxSlot(None, c), outcomes).0[i]
          == if i < k then None else Some(FluxHandle(Alias, Quantize, c + k))
    ensures var k := FirstBuild(outcomes);
      CallRepeatedly(FluxSlot(None, c), outcomes).1
        == if k < |outcomes| then FluxSlot(Some(FluxHandle(Alias, Quantize, c + k)), c + k + 1)
           else FluxSlot(None, c + |outcomes|)
    decreases |outcomes|
  {
    if |outcomes| > 0 {
      var slot := FluxSlot(None, c);
      var (h, next) := GetFluxInstance(slot, outcomes[0]);
      var hs := CallRepeatedly(slot, outcomes).0;
      assert hs == [h] + CallRepeatedly(next, outcomes[1..]).0;
      if outcomes[0] {
        SetSlotIsStable(next, outcomes[1..]);
      } else {
        CallsFromUnset(c + 1, outcomes[1..]);
      }
    }
  }

  /** From process start, the handle is built successfully at most once: the
      constructor runs on every call up to its first success and never after,
      the calls before that success get no handle, and that call and every
      later one return the one handle it built. */
  lemma {:induction false} ConstructedAtMostOnce(outcomes: seq<bool>)
    ensures var k := FirstBuild(outcomes);
      forall i :: 0 <= i < |outcomes| ==>
        (CallRepeatedly(Unset, outcomes).0[i].Some? <==> i >= k)
    ensures var k := FirstBuild(outcomes);
      forall i :: 0 <= i < |outcomes| ==>
        CallRepeatedly(Unset, outcomes).0[i].Some? ==>
          CallRepeatedly(Unset, outcomes).0[i].value == FluxHandle(Alias, Quantize, k)
    ensures CallRepeatedly(Unset, outcomes).1.constructions
         == if FirstBuild(outcomes) < |outcomes| then FirstBuild(outcomes) + 1 else |outcomes|
  {
    CallsFromUnset(0, outcomes);
  }

}
