/** Large-body staging: the isolate's map of staged regions, the ArrayBuffers JavaScript holds
    over memory blocks, and the regions the core sends. */
module Staging {
  import opened Wrappers

  const PRUNE_AT: nat := 64

  datatype Code = InvalidArgument | Closed | Limit | Unsupported | Panic

  // ----- The core's slots -----

  /** What the core knows of a slot when a call looks at it. */
  datatype CoreSlot = CoreSlot(leased: bool, poisoned: bool, sealed: bool, regionOpen: bool, limit: nat)

  /** The slots the core leased; a slot that is not among them is gone. */
  type Core = map<nat, CoreSlot>

  /** Why a slot's response cannot be written at all. */
  function Refusal(core: Core, slot: nat): Option<Code> {
    if slot !in core || !core[slot].leased then Some(Closed)
    else if core[slot].poisoned then Some(Panic)
    else if core[slot].sealed then Some(Closed)
    else None
  }

  /** `access::writable`, and the refusals of `access::error` for the code this module gives it. */
  function Writable(core: Core, slot: nat): Option<Code> {
    if Refusal(core, slot).Some? then Refusal(core, slot)
    else if core[slot].regionOpen then Some(InvalidArgument)
    else None
  }

  /** `access::respond_external` for a status and field lines that were checked. */
  function Respond(core: Core, slot: nat, len: nat): Option<Code> {
    if Refusal(core, slot).Some? then Refusal(core, slot)
    else if len > core[slot].limit then Some(Limit)
    else if core[slot].regionOpen then Some(InvalidArgument)
    else None
  }

  // ----- The isolate's state -----

  /** A piece of memory an ArrayBuffer can be over. */
  datatype Block = Block(address: nat, len: nat)

  /** An ArrayBuffer: over a block, detached, or collected by the engine. */
  datatype Buffer = Attached(block: nat) | Detached | Collected

  datatype Staged = Staged(region: nat, address: nat, len: nat)

  /** The staging map by slot, the buffers and blocks in the order they were made, the regions
      installed as response bodies in order, and those the core still holds. */
  datatype State = State(
    staged: map<nat, Staged>,
    buffers: seq<Buffer>,
    blocks: seq<Block>,
    sent: seq<nat>,
    bodies: set<nat>
  )

  const Start: State := State(map[], [], [], [], {})

  /** Someone still owns the block, so its memory is not given out again. */
  ghost predicate Live(s: State, block: nat) {
    || (exists slot :: slot in s.staged && s.staged[slot].region == block)
    || Attached(block) in s.buffers
    || block in s.bodies
  }

  /** An allocator gives out no address of a block that is still owned. */
  ghost predicate Free(s: State, address: nat, len: nat) {
    len > 0 ==> forall b :: 0 <= b < |s.blocks| && Live(s, b) && s.blocks[b].len > 0 ==> s.blocks[b].address != address
  }

  // ----- What a call answers -----

  datatype External = NoMemory | NoBuffer | Copied | Shared(address: nat)

  datatype StageResult = Buffered(buffer: nat) | NotStaged(code: Code)

  datatype SendResult = Sent | AnsweredDetached | NotSent(code: Code)

  function Prune(staged: map<nat, Staged>, core: Core): map<nat, Staged> {
    if |staged| < PRUNE_AT then staged
    else map slot | slot in staged && Writable(core, slot).None? :: staged[slot]
  }

  function StageStep(s: State, core: Core, slot: nat, len: nat, external: External): (State, StageResult) {
    if len == 0 then (s, NotStaged(InvalidArgument))
    else if Writable(core, slot).Some? then (s, NotStaged(Writable(core, slot).value))
    else
      var pruned := s.(staged := Prune(s.staged, core));
      if slot in pruned.staged then (pruned, NotStaged(InvalidArgument))
      else match external
        case NoMemory => (pruned, NotStaged(Limit))
        case NoBuffer => (pruned, NotStaged(Limit))
        case Copied => (pruned, NotStaged(Unsupported))
        case Shared(address) =>
          var region := |s.blocks|;
          (pruned.(staged := pruned.staged[slot := Staged(region, address, len)],
                   buffers := s.buffers + [Attached(region)],
                   blocks := s.blocks + [Block(address, len)]),
           Buffered(|s.buffers|))
  }

  /** A call of `res_send_staged`: whether the status and the field lines are allowed, whether
      Node-API could tell if the buffer is detached, whether it detached it when asked to, and
      the core's slots as the check and the write that follows it found them. */
  datatype SendCall = SendCall(
    slot: nat, argumentsAllowed: bool, buffer: nat, detachedKnown: bool, detaches: bool, before: Core, after: Core)

  predicate SameBuffer(s: State, entry: Staged, buffer: nat) {
    && buffer < |s.buffers| && s.buffers[buffer].Attached?
    && s.buffers[buffer].block < |s.blocks|
    && s.blocks[s.buffers[buffer].block] == Block(entry.address, entry.len)
  }

  function AnswerDetached(s: State, call: SendCall): (State, SendResult) {
    (s, match Writable(call.after, call.slot) case None => AnsweredDetached case Some(code) => NotSent(code))
  }

  function SendStep(s: State, call: SendCall): (State, SendResult)
    requires call.buffer < |s.buffers|
  {
    if !call.argumentsAllowed || call.slot !in s.staged then (s, NotSent(InvalidArgument))
    else if !call.detachedKnown then (s, NotSent(Limit))
    else
      var entry := s.staged[call.slot];
      var removed := s.(staged := s.staged - {call.slot});
      if !s.buffers[call.buffer].Attached? then AnswerDetached(removed, call)
      else if !SameBuffer(s, entry, call.buffer) then (s, NotSent(InvalidArgument))
      else if Writable(call.before, call.slot).Some? then (s, NotSent(Writable(call.before, call.slot).value))
      else if !call.detaches then AnswerDetached(removed, call)
      else
        var detached := removed.(buffers := s.buffers[call.buffer := Detached]);
        match Respond(call.after, call.slot, entry.len)
        case Some(code) => (detached, NotSent(code))
        case None => (detached.(sent := s.sent + [entry.region], bodies := s.bodies + {entry.region}), Sent)
  }

  function ForgetStep(s: State, slots: seq<nat>): State {
    s.(staged := s.staged - set slot | slot in slots)
  }

  // ----- The binding's functions -----

  class Isolate {
    var staged: map<nat, Staged>
    var buffers: seq<Buffer>
    var blocks: seq<Block>
    var sent: seq<nat>
    var bodies: set<nat>

    constructor ()
      ensures View() == Start
    {
      staged, buffers, blocks, sent, bodies := map[], [], [], [], {};
    }

    function View(): State
      reads this
    {
      State(staged, buffers, blocks, sent, bodies)
    }

    method Stage(core: Core, slot: nat, len: nat, external: External) returns (r: StageResult)
      modifies this
      ensures (View(), r) == StageStep(old(View()), core, slot, len, external)
    {
      if len == 0 { return NotStaged(InvalidArgument); }
      var writable := Writable(core, slot);
      if writable.Some? { return NotStaged(writable.value); }
      if |staged| >= PRUNE_AT {
        staged := map slot | slot in staged && Writable(core, slot).None? :: staged[slot];
      }
      if slot in staged { return NotStaged(InvalidArgument); }
      match external {
        case NoMemory => return NotStaged(Limit);
        case NoBuffer => return NotStaged(Limit);
        case Copied => return NotStaged(Unsupported);
        case Shared(address) =>
          var region := |blocks|;
          blocks := blocks + [Block(address, len)];
          r := Buffered(|buffers|);
          buffers := buffers + [Attached(region)];
          staged := staged[slot := Staged(region, address, len)];
      }
    }

    method Send(call: SendCall) returns (r: SendResult)
      requires call.buffer < |buffers|
      modifies this
      ensures (View(), r) == SendStep(old(View()), call)
    {
      if !call.argumentsAllowed || call.slot !in staged { return NotSent(InvalidArgument); }
      var entry := staged[call.slot];
      if !call.detachedKnown { return NotSent(Limit); }
      if !buffers[call.buffer].Attached? {
        staged := staged - {call.slot};
        r := AnswerError(call);
        return;
      }
      if !SameBuffer(View(), entry, call.buffer) { return NotSent(InvalidArgument); }
      var writable := Writable(call.before, call.slot);
      if writable.Some? { return NotSent(writable.value); }
      if call.detaches { buffers := buffers[call.buffer := Detached]; }
      staged := staged - {call.slot};
      if !call.detaches {
        r := AnswerError(call);
        return;
      }
      var refused := Respond(call.after, call.slot, entry.len);
      if refused.Some? { return NotSent(refused.value); }
      sent := sent + [entry.region];
      bodies := bodies + {entry.region};
      return Sent;
    }

    method AnswerError(call: SendCall) returns (r: SendResult)
      ensures (View(), r) == AnswerDetached(View(), call)
    {
      var refused := Writable(call.after, call.slot);
      if refused.Some? { return NotSent(refused.value); }
      return AnsweredDetached;
    }

    method Forget(slots: seq<nat>)
      modifies this
      ensures View() == ForgetStep(old(View()), slots)
    {
      ghost var was := staged;
      if staged != map[] {
        for k := 0 to |slots|
          invariant staged == was - set slot | slot in slots[..k]
          invariant View() == old(View()).(staged := staged)
        {
          staged := staged - {slots[k]};
        }
        assert slots[..|slots|] == slots;
      }
    }
  }

  // ----- Runs -----

  /** What the binding, JavaScript and the core may do. A transfer detaches its source; the new
      buffer is over the same block when the engine moves it, and over a copy otherwise. */
  datatype Op =
    | Stage(core: Core, slot: nat, len: nat, external: External)
    | Send(call: SendCall)
    | Forget(slots: seq<nat>)
    | Make(address: nat, size: nat)
    | Transfer(buffer: nat, moved: bool, address: nat, size: nat)
    | Collect(buffer: nat)
    | Written(region: nat)

  ghost predicate Enabled(s: State, op: Op) {
    match op
    case Stage(_, _, len, external) => external.Shared? ==> Free(s, external.address, len)
    case Send(call) => call.buffer < |s.buffers| && s.buffers[call.buffer] != Collected
    case Forget(_) => true
    case Make(address, size) => Free(s, address, size)
    case Transfer(buffer, moved, address, size) =>
      buffer < |s.buffers| && s.buffers[buffer].Attached? && (!moved ==> Free(s, address, size))
    case Collect(buffer) => buffer < |s.buffers|
    case Written(region) => region in s.bodies
  }

  ghost function Apply(s: State, op: Op): State
    requires Enabled(s, op)
  {
    match op
    case Stage(core, slot, len, external) => StageStep(s, core, slot, len, external).0
    case Send(call) => SendStep(s, call).0
    case Forget(slots) => ForgetStep(s, slots)
    case Make(address, size) =>
      s.(buffers := s.buffers + [Attached(|s.blocks|)], blocks := s.blocks + [Block(address, size)])
    case Transfer(buffer, moved, address, size) =>
      if moved then s.(buffers := s.buffers[buffer := Detached] + [s.buffers[buffer]])
      else s.(buffers := s.buffers[buffer := Detached] + [Attached(|s.blocks|)], blocks := s.blocks + [Block(address, size)])
    case Collect(buffer) => s.(buffers := s.buffers[buffer := Collected])
    case Written(region) => s.(bodies := s.bodies - {region})
  }

  ghost predicate Run(states: seq<State>, ops: seq<Op>) {
    && |states| == |ops| + 1 && states[0] == Start
    && forall k :: 0 <= k < |ops| ==> Enabled(states[k], ops[k]) && states[k + 1] == Apply(states[k], ops[k])
  }

  // ----- The invariant -----

  /** Everything refers to blocks that were made. */
  ghost predicate Known(s: State) {
    && (forall slot :: slot in s.staged ==>
          && s.staged[slot].region < |s.blocks|
          && s.blocks[s.staged[slot].region] == Block(s.staged[slot].address, s.staged[slot].len)
          && s.staged[slot].len > 0)
    && (forall k :: 0 <= k < |s.buffers| && s.buffers[k].Attached? ==> s.buffers[k].block < |s.blocks|)
    && (forall k :: 0 <= k < |s.sent| ==> s.sent[k] < |s.blocks|)
    && (forall region :: region in s.bodies ==> region in s.sent)
  }

  /** Two owned blocks are not at one address. */
  ghost predicate Apart(s: State) {
    forall b, c :: 0 <= b < c < |s.blocks| && Live(s, b) && Live(s, c) && s.blocks[b].len > 0 && s.blocks[c].len > 0
      ==> s.blocks[b].address != s.blocks[c].address
  }

  /** A block has at most one attached buffer, a region at most one slot, and a sent region
      neither. */
  ghost predicate Exclusive(s: State) {
    && (forall i, j :: 0 <= i < j < |s.buffers| && s.buffers[i].Attached? ==> s.buffers[i] != s.buffers[j])
    && (forall a, b :: a in s.staged && b in s.staged && a != b ==> s.staged[a].region != s.staged[b].region)
    && (forall slot :: slot in s.staged ==> s.staged[slot].region !in s.sent)
    && (forall region :: region in s.sent ==> Attached(region) !in s.buffers)
    && (forall i, j :: 0 <= i < j < |s.sent| ==> s.sent[i] != s.sent[j])
  }

  ghost predicate Inv(s: State) { Known(s) && Apart(s) && Exclusive(s) }

  // ----- Every step keeps it -----

  /** Owning fewer blocks, the owned ones are still apart. */
  lemma ApartFewer(s: State, s': State)
    requires Apart(s) && s'.blocks == s.blocks
    requires forall b :: 0 <= b < |s.blocks| && Live(s', b) ==> Live(s, b)
    ensures Apart(s')
  {
    hide Live;
  }

  /** A block that is made where no owned block is keeps them apart. */
  lemma ApartMore(s: State, s': State, block: Block)
    requires Apart(s) && s'.blocks == s.blocks + [block]
    requires Free(s, block.address, block.len)
    requires forall b :: 0 <= b < |s.blocks| && Live(s', b) ==> Live(s, b)
    ensures Apart(s')
  {
    hide Live;
  }

  lemma StageKeepsInv(s: State, core: Core, slot: nat, len: nat, external: External)
    requires Inv(s) && (external.Shared? ==> Free(s, external.address, len))
    ensures Inv(StageStep(s, core, slot, len, external).0)
  {
    hide Known, Apart, Exclusive, Live, Free, Prune;
    var (s', r) := StageStep(s, core, slot, len, external);
    StageKnown(s, core, slot, len, external);
    if r.Buffered? {
      forall b | 0 <= b < |s.blocks| && Live(s', b) ensures Live(s, b) {
        LiveAfterStage(s, core, slot, len, external, b);
      }
      ApartMore(s, s', Block(external.address, len));
      StageExclusive(s, core, slot, len, external);
    } else {
      PruneKeeps(s, s', core);
    }
  }

  /** Dropping staged regions keeps what the others keep. */
  lemma PruneKeeps(s: State, s': State, core: Core)
    requires Apart(s) && Exclusive(s) && (s' == s || s' == s.(staged := Prune(s.staged, core)))
    ensures Apart(s') && Exclusive(s')
  {
    ApartFewer(s, s');
  }

  lemma StageKnown(s: State, core: Core, slot: nat, len: nat, external: External)
    requires Known(s)
    ensures Known(StageStep(s, core, slot, len, external).0)
  {
  }

  lemma LiveAfterStage(s: State, core: Core, slot: nat, len: nat, external: External, b: nat)
    requires StageStep(s, core, slot, len, external).1.Buffered? && b < |s.blocks|
    requires Live(StageStep(s, core, slot, len, external).0, b)
    ensures Live(s, b)
  {
    var s' := StageStep(s, core, slot, len, external).0;
    if other :| other in s'.staged && s'.staged[other].region == b {
      assert other in s.staged && s.staged[other].region == b;
    }
  }

  lemma StageExclusive(s: State, core: Core, slot: nat, len: nat, external: External)
    requires Known(s) && Exclusive(s) && StageStep(s, core, slot, len, external).1.Buffered?
    ensures Exclusive(StageStep(s, core, slot, len, external).0)
  {
    var s' := StageStep(s, core, slot, len, external).0;
    forall region | region in s'.sent ensures Attached(region) !in s'.buffers {
      var k :| 0 <= k < |s.sent| && s.sent[k] == region;
    }
  }

  /** The buffer that passes the check is over the staged region itself. */
  lemma SameBufferIsRegion(s: State, slot: nat, buffer: nat)
    requires Inv(s) && slot in s.staged && SameBuffer(s, s.staged[slot], buffer)
    ensures s.buffers[buffer] == Attached(s.staged[slot].region)
  {
    var block, region := s.buffers[buffer].block, s.staged[slot].region;
    assert Live(s, block) && Live(s, region);
  }

  lemma SendKeepsInv(s: State, call: SendCall)
    requires Inv(s) && call.buffer < |s.buffers|
    ensures Inv(SendStep(s, call).0)
  {
    hide Known, Apart, Exclusive, Live, SendStep;
    SendKnown(s, call);
    SendExclusive(s, call);
    SendLive(s, call);
    ApartFewer(s, SendStep(s, call).0);
  }

  lemma SendKnown(s: State, call: SendCall)
    requires Known(s) && call.buffer < |s.buffers|
    ensures Known(SendStep(s, call).0)
  {
  }

  lemma SendLive(s: State, call: SendCall)
    requires Inv(s) && call.buffer < |s.buffers|
    ensures var s' := SendStep(s, call).0;
            s'.blocks == s.blocks && forall b :: 0 <= b < |s.blocks| && Live(s', b) ==> Live(s, b)
  {
    hide Apart, Exclusive;
    var (s', r) := SendStep(s, call);
    if r == Sent { SameBufferIsRegion(s, call.slot, call.buffer); }
  }

  lemma SendExclusive(s: State, call: SendCall)
    requires Inv(s) && call.buffer < |s.buffers|
    ensures Exclusive(SendStep(s, call).0)
  {
    var (s', r) := SendStep(s, call);
    if r == Sent {
      SameBufferIsRegion(s, call.slot, call.buffer);
      assert Attached(s.staged[call.slot].region) !in s'.buffers;
    }
  }

  lemma TransferKeepsInv(s: State, op: Op)
    requires Inv(s) && op.Transfer? && Enabled(s, op)
    ensures Inv(Apply(s, op))
  {
    hide Known, Apart, Exclusive, Live, Free;
    var s' := Apply(s, op);
    TransferKnown(s, op);
    TransferLive(s, op);
    if op.moved { ApartFewer(s, s'); } else { ApartMore(s, s', Block(op.address, op.size)); }
    TransferExclusive(s, op);
  }

  lemma TransferKnown(s: State, op: Op)
    requires Known(s) && op.Transfer? && Enabled(s, op)
    ensures Known(Apply(s, op))
  {
    hide Free;
  }

  lemma TransferLive(s: State, op: Op)
    requires Known(s) && op.Transfer? && Enabled(s, op)
    ensures forall b :: 0 <= b < |s.blocks| && Live(Apply(s, op), b) ==> Live(s, b)
  {
    hide Free;
  }

  lemma TransferExclusive(s: State, op: Op)
    requires Known(s) && Exclusive(s) && op.Transfer? && Enabled(s, op)
    ensures Exclusive(Apply(s, op))
  {
    hide Free;
    var s' := Apply(s, op);
    forall region | region in s.sent ensures Attached(region) !in s'.buffers {
      var k :| 0 <= k < |s.sent| && s.sent[k] == region;
      assert s.buffers[op.buffer] in s.buffers;
    }
  }

  lemma MakeKeepsInv(s: State, op: Op)
    requires Inv(s) && op.Make? && Enabled(s, op)
    ensures Inv(Apply(s, op))
  {
    hide Known, Apart, Exclusive, Free, Live;
    MakeLive(s, op);
    ApartMore(s, Apply(s, op), Block(op.address, op.size));
    MakeExclusive(s, op);
  }

  lemma MakeLive(s: State, op: Op)
    requires Known(s) && op.Make? && Enabled(s, op)
    ensures Known(Apply(s, op)) && forall b :: 0 <= b < |s.blocks| && Live(Apply(s, op), b) ==> Live(s, b)
  {
    hide Free;
  }

  lemma MakeExclusive(s: State, op: Op)
    requires Known(s) && Exclusive(s) && op.Make? && Enabled(s, op)
    ensures Exclusive(Apply(s, op))
  {
    hide Free;
    forall region | region in s.sent ensures Attached(region) !in Apply(s, op).buffers {
      var k :| 0 <= k < |s.sent| && s.sent[k] == region;
    }
  }

  /** Every step keeps the invariant. */
  lemma StepKeepsInv(s: State, op: Op)
    requires Inv(s) && Enabled(s, op)
    ensures Inv(Apply(s, op))
  {
    var s' := Apply(s, op);
    match op
    case Stage(core, slot, len, external) => StageKeepsInv(s, core, slot, len, external);
    case Send(call) => SendKeepsInv(s, call);
    case Transfer(_, _, _, _) => TransferKeepsInv(s, op);
    case Make(_, _) => MakeKeepsInv(s, op);
    case _ =>
      assert forall b :: 0 <= b < |s.blocks| && Live(s', b) ==> Live(s, b);
      ApartFewer(s, s');
  }

  lemma {:induction false} RunKeepsInv(states: seq<State>, ops: seq<Op>, k: nat)
    requires Run(states, ops) && k < |states|
    ensures Inv(states[k])
  {
    if k > 0 {
      hide Inv, Apply, Enabled;
      RunKeepsInv(states, ops, k - 1);
      StepKeepsInv(states[k - 1], ops[k - 1]);
      assert states[k - 1 + 1] == Apply(states[k - 1], ops[k - 1]);
    } else {
      assert Inv(Start);
    }
  }

  // ----- What every run keeps -----

  /** A region becomes a response body at most once, and from then on no attached buffer is over
      it: the core never reads memory that JavaScript can still reach. */
  lemma CoreReadsUnreachableMemory(states: seq<State>, ops: seq<Op>, k: nat, region: nat)
    requires Run(states, ops) && k < |states| && region in states[k].sent
    ensures Attached(region) !in states[k].buffers
    ensures forall i, j :: 0 <= i < j < |states[k].sent| ==> states[k].sent[i] != states[k].sent[j]
    ensures forall body :: body in states[k].bodies ==> body in states[k].sent
  {
    RunKeepsInv(states, ops, k);
  }

  /** A send installs exactly the slot's staged region, whose one attached buffer was the
      argument, and that is the moment it loses both. */
  lemma SendInstallsTheStagedRegion(states: seq<State>, ops: seq<Op>, k: nat)
    requires Run(states, ops) && k < |ops| && ops[k].Send?
    requires states[k + 1].sent != states[k].sent
    ensures var s, s', call := states[k], states[k + 1], ops[k].call;
            && call.slot in s.staged && call.slot !in s'.staged
            && s'.sent == s.sent + [s.staged[call.slot].region]
            && s.buffers[call.buffer] == Attached(s.staged[call.slot].region)
            && s'.buffers == s.buffers[call.buffer := Detached]
  {
    RunKeepsInv(states, ops, k);
    SameBufferIsRegion(states[k], ops[k].call.slot, ops[k].call.buffer);
  }

  // ----- What a refused send leaves -----

  /** That a send goes past its checks: it then takes the region from the map. */
  predicate PassesChecks(s: State, call: SendCall)
    requires call.buffer < |s.buffers|
  {
    && call.argumentsAllowed && call.slot in s.staged && call.detachedKnown
    && (|| !s.buffers[call.buffer].Attached?
        || (SameBuffer(s, s.staged[call.slot], call.buffer) && Writable(call.before, call.slot).None?))
  }

  /** A send changes nothing if and only if one of its checks refuses it. */
  lemma SendUnchanged(s: State, call: SendCall)
    requires call.buffer < |s.buffers|
    ensures SendStep(s, call).0 == s <==> !PassesChecks(s, call)
  {
    if PassesChecks(s, call) {
      assert call.slot in s.staged && call.slot !in SendStep(s, call).0.staged;
    }
  }

  /** A send that is refused with an invalid argument changes neither the map nor any buffer, when
      no body region is open on the slot as the write finds it. */
  lemma InvalidArgumentChangesNothing(s: State, call: SendCall)
    requires call.buffer < |s.buffers| && SendStep(s, call).1 == NotSent(InvalidArgument)
    requires call.slot in call.after ==> !call.after[call.slot].regionOpen
    ensures SendStep(s, call).0 == s
  {
    SendUnchanged(s, call);
  }

  /** So in every run in which nobody opens a body region on a slot that is sent, an
      invalid-argument send leaves the state as it was. */
  lemma InvalidArgumentSendsChangeNothing(states: seq<State>, ops: seq<Op>, k: nat)
    requires Run(states, ops) && k < |ops| && ops[k].Send?
    requires ops[k].call.slot in ops[k].call.after ==> !ops[k].call.after[ops[k].call.slot].regionOpen
    ensures SendStep(states[k], ops[k].call).1 == NotSent(InvalidArgument) ==> states[k + 1] == states[k]
  {
    hide SendStep;
    assert Enabled(states[k], ops[k]);
    if SendStep(states[k], ops[k].call).1 == NotSent(InvalidArgument) {
      InvalidArgumentChangesNothing(states[k], ops[k].call);
    }
  }

  /** In general it leaves them as they were, unless it passed its checks and the write after them
      found a body region open. */
  lemma InvalidArgumentUnchanged(s: State, call: SendCall)
    requires call.buffer < |s.buffers| && SendStep(s, call).1 == NotSent(InvalidArgument)
    ensures SendStep(s, call).0 == s
       <==> !(PassesChecks(s, call) && Refusal(call.after, call.slot).None? && call.after[call.slot].regionOpen)
  {
    SendUnchanged(s, call);
  }

  /** When nothing else writes the slot during the call, the one send that is refused with an
      invalid argument and still drops the staged region is that of a buffer already detached,
      for a writable slot on which a body region is open. */
  lemma InvalidArgumentDropsTheRegionWhen(s: State, call: SendCall)
    requires call.buffer < |s.buffers| && call.before == call.after
    ensures SendStep(s, call).1 == NotSent(InvalidArgument) && SendStep(s, call).0 != s
       <==> && call.argumentsAllowed && call.slot in s.staged && call.detachedKnown
            && !s.buffers[call.buffer].Attached?
            && Refusal(call.before, call.slot).None? && call.before[call.slot].regionOpen
  {
    SendUnchanged(s, call);
  }

  const CLOSED_SLOT: Core := map[7 := CoreSlot(true, false, false, false, 100)]

  const OPEN_SLOT: Core := map[7 := CoreSlot(true, false, false, true, 100)]

  const STAGED_SLOT: State := State(map[7 := Staged(0, 4096, 16)], [Attached(0)], [Block(4096, 16)], [], {})

  const TRANSFERRED: State := STAGED_SLOT.(buffers := [Detached, Attached(0)])

  const DETACHED_SEND: SendCall := SendCall(7, true, 0, true, true, OPEN_SLOT, OPEN_SLOT)

  lemma SlotIsStaged()
    ensures var op := Stage(CLOSED_SLOT, 7, 16, Shared(4096)); Enabled(Start, op) && Apply(Start, op) == STAGED_SLOT
  {
    hide Live;
  }

  lemma BufferIsTransferred()
    ensures var op := Transfer(0, true, 0, 0); Enabled(STAGED_SLOT, op) && Apply(STAGED_SLOT, op) == TRANSFERRED
  {
    hide Live;
  }

  lemma RegionIsDropped()
    ensures Enabled(TRANSFERRED, Send(DETACHED_SEND))
    ensures SendStep(TRANSFERRED, DETACHED_SEND) == (TRANSFERRED.(staged := map[]), NotSent(InvalidArgument))
  {
    assert TRANSFERRED.staged - {7} == map[];
  }

  /** A run that ends with such a send: a region is staged, JavaScript transfers its buffer, someone
      other than this binding opens a body region on the slot, and the old buffer is sent. The
      answer is an invalid argument, and the staged region is gone. */
  lemma InvalidArgumentMayDropTheRegion() returns (states: seq<State>, ops: seq<Op>)
    ensures Run(states, ops) && |ops| == 3 && ops[0].Stage? && ops[1].Transfer? && ops[2].Send?
    ensures var call := ops[2].call;
            && call.before == call.after && call.slot in states[2].staged
            && SendStep(states[2], call).1 == NotSent(InvalidArgument) && states[3].staged == map[]
  {
    hide Enabled, SendStep, StageStep, Apply;
    ops := [Stage(CLOSED_SLOT, 7, 16, Shared(4096)), Transfer(0, true, 0, 0), Send(DETACHED_SEND)];
    states := [Start, STAGED_SLOT, TRANSFERRED, TRANSFERRED.(staged := map[])];
    SlotIsStaged();
    BufferIsTransferred();
    RegionIsDropped();
    ApplySend(TRANSFERRED, DETACHED_SEND);
  }

  lemma ApplySend(s: State, call: SendCall)
    requires Enabled(s, Send(call))
    ensures Apply(s, Send(call)) == SendStep(s, call).0
  {
  }
}
