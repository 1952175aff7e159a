/** What the binding's staging functions answer, slot field by slot field: which sends and stagings
    succeed, and why the others are refused. */
module StagingAnswers {
  import opened Wrappers
  import opened Staging

  /** That a response can be written to a slot: it is leased, not poisoned and not sealed, and no
      body region is open on it. */
  predicate TakesResponse(core: Core, slot: nat) {
    && slot in core && core[slot].leased && !core[slot].poisoned && !core[slot].sealed && !core[slot].regionOpen
  }

  /** Why a slot takes none: it is gone, a call on it panicked, its response is sealed, or a body
      region is open. */
  lemma RefusedBecause(core: Core, slot: nat)
    ensures Writable(core, slot).None? <==> TakesResponse(core, slot)
    ensures slot !in core || !core[slot].leased ==> Writable(core, slot) == Some(Closed)
    ensures slot in core && core[slot].leased && core[slot].poisoned ==> Writable(core, slot) == Some(Panic)
    ensures slot in core && core[slot].leased && !core[slot].poisoned && core[slot].sealed
         ==> Writable(core, slot) == Some(Closed)
    ensures slot in core && core[slot].leased && !core[slot].poisoned && !core[slot].sealed && core[slot].regionOpen
         ==> Writable(core, slot) == Some(InvalidArgument)
  {
  }

  /** That a call is a send of a slot's staged region by its own buffer: the arguments are allowed,
      the buffer is attached over the region and is detached when asked. */
  ghost predicate SendsItsRegion(s: State, call: SendCall) {
    && call.argumentsAllowed && call.detachedKnown && call.detaches
    && call.slot in s.staged && call.buffer < |s.buffers|
    && s.buffers[call.buffer] == Attached(s.staged[call.slot].region)
  }

  /** In every state of a run such a send to a slot that takes a response is sent if and only if the
      body is not over the slot's limit; over it the answer is the limit. Either way the buffer is
      detached and the region is staged no more. */
  lemma SendIsSent(states: seq<State>, ops: seq<Op>, k: nat)
    requires Run(states, ops) && k < |ops| && ops[k].Send? && SendsItsRegion(states[k], ops[k].call)
    requires TakesResponse(ops[k].call.before, ops[k].call.slot) && TakesResponse(ops[k].call.after, ops[k].call.slot)
    ensures var s, s', call := states[k], states[k + 1], ops[k].call;
            var entry := s.staged[call.slot];
            && s'.staged == s.staged - {call.slot} && s'.buffers == s.buffers[call.buffer := Detached]
            && s'.blocks == s.blocks
            && if entry.len <= call.after[call.slot].limit then
                 SendStep(s, call).1 == Sent && s'.sent == s.sent + [entry.region] && s'.bodies == s.bodies + {entry.region}
               else SendStep(s, call).1 == NotSent(Limit) && s'.sent == s.sent && s'.bodies == s.bodies
  {
    RunKeepsInv(states, ops, k);
    assert Enabled(states[k], ops[k]) && states[k + 1] == Apply(states[k], ops[k]);
  }

  /** In every state of a run the buffers the send takes for a slot's are exactly those over its
      region: one of the same address and length is over the same memory. */
  lemma BufferIsTheRegions(states: seq<State>, ops: seq<Op>, k: nat, slot: nat, buffer: nat)
    requires Run(states, ops) && k < |states| && slot in states[k].staged && buffer < |states[k].buffers|
    ensures SameBuffer(states[k], states[k].staged[slot], buffer)
       <==> states[k].buffers[buffer] == Attached(states[k].staged[slot].region)
  {
    RunKeepsInv(states, ops, k);
    if SameBuffer(states[k], states[k].staged[slot], buffer) { SameBufferIsRegion(states[k], slot, buffer); }
  }

  /** The sends that are refused by a check, and what they answer: a status or field line that is
      not allowed or a slot without a staged region, another buffer, and a slot that takes no
      response. */
  lemma SendRefused(s: State, call: SendCall)
    requires call.buffer < |s.buffers|
    ensures !call.argumentsAllowed ==> SendStep(s, call) == (s, NotSent(InvalidArgument))
    ensures call.slot !in s.staged ==> SendStep(s, call) == (s, NotSent(InvalidArgument))
    ensures call.argumentsAllowed && call.slot in s.staged && call.detachedKnown && s.buffers[call.buffer].Attached?
            && !SameBuffer(s, s.staged[call.slot], call.buffer)
         ==> SendStep(s, call) == (s, NotSent(InvalidArgument))
    ensures call.argumentsAllowed && call.slot in s.staged && call.detachedKnown
            && SameBuffer(s, s.staged[call.slot], call.buffer) && !TakesResponse(call.before, call.slot)
         ==> SendStep(s, call) == (s, NotSent(Writable(call.before, call.slot).value))
  {
    RefusedBecause(call.before, call.slot);
  }

  /** When the slot is changed meanwhile by others, the write after the checks may still be refused: for a
      slot that is gone or sealed, one a call panicked on, a body over the limit, or else an open region. */
  lemma SendRefusedLater(s: State, call: SendCall)
    requires Known(s) && SendsItsRegion(s, call) && TakesResponse(call.before, call.slot)
    ensures var slot, answer := call.slot, SendStep(s, call).1;
            && (slot !in call.after || !call.after[slot].leased ==> answer == NotSent(Closed))
            && (slot in call.after && call.after[slot].leased ==>
                  && (call.after[slot].poisoned ==> answer == NotSent(Panic))
                  && (!call.after[slot].poisoned && call.after[slot].sealed ==> answer == NotSent(Closed))
                  && (!call.after[slot].poisoned && !call.after[slot].sealed ==>
                        && (s.staged[slot].len > call.after[slot].limit ==> answer == NotSent(Limit))
                        && (s.staged[slot].len <= call.after[slot].limit && call.after[slot].regionOpen ==>
                              answer == NotSent(InvalidArgument))))
    ensures SendStep(s, call).1.NotSent? ==>
              SendStep(s, call).0 == s.(staged := s.staged - {call.slot}, buffers := s.buffers[call.buffer := Detached])
  {
    RefusedBecause(call.before, call.slot);
  }

  /** When Node cannot tell whether the buffer is detached, nothing is done. */
  lemma DetachmentUnknown(s: State, call: SendCall)
    requires call.buffer < |s.buffers| && call.argumentsAllowed && call.slot in s.staged && !call.detachedKnown
    ensures SendStep(s, call) == (s, NotSent(Limit))
  {
  }

  /** A buffer that JavaScript detached, or that does not let itself be detached, is answered as
      such if the slot takes a response; the region is staged no more and is not sent. */
  lemma DetachedIsAnswered(s: State, call: SendCall)
    requires call.buffer < |s.buffers| && call.argumentsAllowed && call.slot in s.staged && call.detachedKnown
    requires || !s.buffers[call.buffer].Attached?
             || (SameBuffer(s, s.staged[call.slot], call.buffer) && TakesResponse(call.before, call.slot) && !call.detaches)
    ensures SendStep(s, call).0 == s.(staged := s.staged - {call.slot})
    ensures SendStep(s, call).1
         == if TakesResponse(call.after, call.slot) then AnsweredDetached else NotSent(Writable(call.after, call.slot).value)
  {
    RefusedBecause(call.before, call.slot);
    RefusedBecause(call.after, call.slot);
  }

  /** From 64 staged regions on, pruning keeps those of the slots that take a response, and no
      others; before that it keeps all. */
  lemma PruneKeeps(staged: map<nat, Staged>, core: Core)
    ensures |staged| < 64 ==> Prune(staged, core) == staged
    ensures |staged| >= 64 ==> forall slot :: slot in Prune(staged, core) <==> slot in staged && TakesResponse(core, slot)
    ensures forall slot :: slot in Prune(staged, core) ==> Prune(staged, core)[slot] == staged[slot]
  {
    forall slot ensures Writable(core, slot).None? <==> TakesResponse(core, slot) {
      RefusedBecause(core, slot);
    }
  }

  /** A slot that takes a response and has no staged region gets one, of at least one octet, with a
      new buffer over it, if its memory can be allocated and shared; else the answer says why not,
      and nothing but pruned regions is lost. */
  lemma StageIsBuffered(s: State, core: Core, slot: nat, len: nat, external: External)
    requires len > 0 && TakesResponse(core, slot) && slot !in s.staged
    ensures var (s', r) := StageStep(s, core, slot, len, external);
            match external
            case Shared(address) =>
              && r == Buffered(|s.buffers|) && s'.buffers == s.buffers + [Attached(|s.blocks|)]
              && s'.blocks == s.blocks + [Block(address, len)]
              && s'.staged == Prune(s.staged, core)[slot := Staged(|s.blocks|, address, len)]
              && s'.sent == s.sent && s'.bodies == s.bodies
            case Copied => r == NotStaged(Unsupported) && s' == s.(staged := Prune(s.staged, core))
            case _ => r == NotStaged(Limit) && s' == s.(staged := Prune(s.staged, core))
  {
    RefusedBecause(core, slot);
    PruneKeeps(s.staged, core);
  }

  /** The stagings that are refused before anything is allocated. */
  lemma StageRefused(s: State, core: Core, slot: nat, len: nat, external: External)
    ensures len == 0 ==> StageStep(s, core, slot, len, external) == (s, NotStaged(InvalidArgument))
    ensures len > 0 && !TakesResponse(core, slot)
         ==> StageStep(s, core, slot, len, external) == (s, NotStaged(Writable(core, slot).value))
    ensures len > 0 && TakesResponse(core, slot) && slot in s.staged
         ==> StageStep(s, core, slot, len, external).1 == NotStaged(InvalidArgument)
  {
    RefusedBecause(core, slot);
    PruneKeeps(s.staged, core);
  }
}
