/** The manager's commands: load a page map, check it against the file, send its batches to the module. */
module Manager {
  import opened Alignment
  import opened Options
  import opened PageCache
  import opened PageCacheSpec
  import opened PageMapLoader
  import opened PageMapText
  import opened RestoreBatches
  import opened Session

  /** The module receives the replace messages one by one. */
  method Send(m: Module, msgs: seq<Message>)
    requires m.Valid() && WellSized(msgs)
    modifies m, m.backups
    ensures m.Valid() && m.View() == Deliver(old(m.View()), m.frames, msgs)
  {
    hide ReplacePages;
    for k := 0 to |msgs|
      invariant m.Valid() && m.View() == Deliver(old(m.View()), m.frames, msgs[..k])
    {
      assert msgs[k] in msgs && msgs[..k + 1][..k] == msgs[..k];
      m.ReceiveReplace(RequestOf(msgs[k]));
    }
    assert msgs[..|msgs|] == msgs;
  }

  method SendRestores(m: Module, msgs: seq<RestoreMessage>)
    requires m.Valid() && Sized(msgs)
    modifies m, m.backups
    ensures m.Valid() && m.View() == DeliverRestores(old(m.View()), msgs)
  {
    hide RestorePages;
    for k := 0 to |msgs|
      invariant m.Valid() && m.View() == DeliverRestores(old(m.View()), msgs[..k])
    {
      assert msgs[k] in msgs && msgs[..k + 1][..k] == msgs[..k];
      m.ReceiveRestore(RestoreRequest(msgs[k]));
    }
    assert msgs[..|msgs|] == msgs;
  }

  /** What the manager loads from the map's text. */
  ghost predicate Fits(plan: Option<seq<Entry>>, size: nat) {
    plan.Some? && forall k :: 0 <= k < |plan.value| ==> plan.value[k].fileOffset + PAGE <= size
  }

  /** How many messages a plan takes. */
  function Batches(pages: nat): nat { (pages + PageCacheSpec.MAX_PAGES - 1) / PageCacheSpec.MAX_PAGES }

  /** `replace` for a page map and a file of the given size; `accepted` is how many messages the socket takes. */
  method ReplaceCommand(m: Module, text: string, size: nat, accepted: nat)
    returns (ok: bool, ghost plan: Option<seq<Entry>>, ghost msgs: seq<Message>)
    requires m.Valid()
    modifies m, m.backups
    ensures IsLoadedFrom(plan, text)
    ensures m.Valid() && WellSized(msgs) && m.View() == Deliver(old(m.View()), m.frames, msgs)
    ensures ok <==> Fits(plan, size) && plan.value != [] && accepted >= Batches(|plan.value|)
    ensures ok ==> Sent(msgs) == PlanPairs(plan.value)
  {
    hide Chunks, Acceptable, Deliver, Sent;
    msgs := [];
    var loaded := LoadPageMappings(text);
    plan := loaded;
    NothingDelivered(m.View(), m.frames);
    if loaded.None? {
      return false, plan, [];
    }
    var valid := ValidateForFile(loaded.value, size);
    if !valid {
      return false, plan, [];
    }
    var sent;
    ok, sent := ReplaceByPlan(loaded.value, accepted);
    Send(m, sent);
    msgs := sent;
  }

  lemma NothingDelivered(s: State, frames: map<nat, nat>)
    ensures Deliver(s, frames, []) == s && DeliverRestores(s, []) == s
  {
  }

  /** `restore` for the same page map. */
  method RestoreCommand(m: Module, text: string, size: nat, accepted: nat)
    returns (ok: bool, ghost plan: Option<seq<Entry>>, ghost msgs: seq<RestoreMessage>)
    requires m.Valid()
    modifies m, m.backups
    ensures IsLoadedFrom(plan, text)
    ensures m.Valid() && Sized(msgs) && m.View() == DeliverRestores(old(m.View()), msgs)
    ensures ok <==> Fits(plan, size) && plan.value != [] && accepted >= Batches(|plan.value|)
    ensures ok ==> Asked(msgs) == OffsetsOf(plan.value)
  {
    hide Chunks, Acceptable, DeliverRestores, Asked;
    msgs := [];
    var loaded := LoadPageMappings(text);
    plan := loaded;
    NothingDelivered(m.View(), m.frames);
    if loaded.None? {
      return false, plan, [];
    }
    var valid := ValidateForFile(loaded.value, size);
    if !valid {
      return false, plan, [];
    }
    var sent;
    ok, sent := RestoreByPlan(loaded.value, accepted);
    SendRestores(m, sent);
    msgs := sent;
  }
}
