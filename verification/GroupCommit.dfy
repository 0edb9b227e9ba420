/** Group commit (db_impl.cc Write, BuildBatchGroup): concurrent writers share a leader.

    The protocol is a state machine: one step per stretch of code that runs without releasing the mutex, or per
    I/O action of the leader while it is released.  Any writer that is awake may take any enabled step at any time; a
    writer behind another one waits for a signal.  Log appends, syncs and making room may fail. */
module GroupCommit {
  import opened Wrappers
  import opened DbFormat

  type WriterId = nat
  datatype Op = Op(kind: nat, key: UserKey, value: Bytes)
  datatype Batch = Batch(ops: seq<Op>, byteSize: nat)
  // A call of Write: a missing batch only asks for a memtable switch.
  datatype Writer = Writer(batch: Option<Batch>, sync: bool)
  type Calls = WriterId -> Writer

  const SMALL_BATCH: nat := 0x2_0000
  const MAX_GROUP: nat := 0x10_0000

  function OpsOf(calls: Calls, ids: seq<WriterId>): seq<Op> {
    if ids == [] then []
    else
      var w := calls(ids[|ids| - 1]);
      OpsOf(calls, ids[..|ids| - 1]) + if w.batch.Some? then w.batch.value.ops else []
  }

  function MaxSize(first: Batch): nat {
    if first.byteSize <= SMALL_BATCH then first.byteSize + SMALL_BATCH else MAX_GROUP
  }

  // How far a group whose first i writers have `size` bytes extends along the queue.
  function Extend(calls: Calls, queue: seq<WriterId>, i: nat, size: nat, max: nat): (n: nat)
    requires 0 < i <= |queue|
    ensures i <= n <= |queue|
    ensures forall k :: i <= k < n ==> calls(queue[k]).sync ==> calls(queue[0]).sync
    decreases |queue| - i
  {
    if i == |queue| then i
    else
      var w := calls(queue[i]);
      if w.sync && !calls(queue[0]).sync then i
      else if w.batch.None? then Extend(calls, queue, i + 1, size, max)
      else if size + w.batch.value.byteSize > max then i
      else Extend(calls, queue, i + 1, size + w.batch.value.byteSize, max)
  }

  function GroupLength(calls: Calls, queue: seq<WriterId>): (n: nat)
    requires queue != [] && calls(queue[0]).batch.Some?
    ensures 0 < n <= |queue|
    ensures forall k :: 0 <= k < n ==> calls(queue[k]).sync ==> calls(queue[0]).sync
  {
    var first := calls(queue[0]).batch.value;
    Extend(calls, queue, 1, first.byteSize, MaxSize(first))
  }

  // The bytes of the first k batches of the queue.
  function Bytes(calls: Calls, queue: seq<WriterId>, k: nat): nat
    requires k <= |queue|
  {
    if k == 0 then 0
    else
      var w := calls(queue[k - 1]);
      Bytes(calls, queue, k - 1) + if w.batch.Some? then w.batch.value.byteSize else 0
  }

  // Writer k may join the writers in front of it: it does not ask a leader that syncs nothing for a sync, and its batch
  // leaves the group within 1 MB, or within 128 kB more than a first batch of up to 128 kB.
  ghost predicate Joins(calls: Calls, queue: seq<WriterId>, k: nat)
    requires 0 < k < |queue| && calls(queue[0]).batch.Some?
  {
    var first := calls(queue[0]).batch.value.byteSize;
    && (calls(queue[k]).sync ==> calls(queue[0]).sync)
    && (calls(queue[k]).batch.Some? ==>
          Bytes(calls, queue, k + 1) <= if first <= 128 * 1024 then first + 128 * 1024 else 1024 * 1024)
  }

  lemma {:induction false} ExtendIsLongest(calls: Calls, queue: seq<WriterId>, i: nat)
    requires 0 < i <= |queue| && calls(queue[0]).batch.Some?
    ensures var n := Extend(calls, queue, i, Bytes(calls, queue, i), MaxSize(calls(queue[0]).batch.value));
            && (forall k :: i <= k < n ==> Joins(calls, queue, k))
            && (n < |queue| ==> !Joins(calls, queue, n))
    decreases |queue| - i
  {
    if i < |queue| {
      ExtendIsLongest(calls, queue, i + 1);
    }
  }

  /** The group ends in front of the first writer that may not join, or takes in the whole queue. */
  lemma GroupIsLongest(calls: Calls, queue: seq<WriterId>)
    requires queue != [] && calls(queue[0]).batch.Some?
    ensures var n := GroupLength(calls, queue);
            && (forall k :: 1 <= k < n ==> Joins(calls, queue, k))
            && (n < |queue| ==> !Joins(calls, queue, n))
  {
    assert Bytes(calls, queue, 1) == Bytes(calls, queue, 0) + calls(queue[0]).batch.value.byteSize;
    ExtendIsLongest(calls, queue, 1);
  }

  method BuildBatchGroup(calls: Calls, queue: seq<WriterId>) returns (result: seq<Op>, n: nat)
    requires queue != [] && calls(queue[0]).batch.Some?
    ensures n == GroupLength(calls, queue)
    ensures result == OpsOf(calls, queue[..n])
  {
    var first := calls(queue[0]);
    result := first.batch.value.ops;
    var size: nat := first.batch.value.byteSize;
    var maxSize := MAX_GROUP;
    if size <= SMALL_BATCH {
      maxSize := size + SMALL_BATCH;
    }
    n := 1;
    assert queue[..1][..0] == [];
    while n < |queue|
      invariant 0 < n <= |queue|
      invariant GroupLength(calls, queue) == Extend(calls, queue, n, size, maxSize)
      invariant result == OpsOf(calls, queue[..n])
    {
      var w := calls(queue[n]);
      if w.sync && !first.sync {
        break;
      }
      if w.batch.Some? {
        size := size + w.batch.value.byteSize;
        if size > maxSize {
          break;
        }
        result := result + w.batch.value.ops;
      }
      assert queue[..n + 1][..n] == queue[..n];
      n := n + 1;
    }
  }

  // What one leader did for the writers it popped.
  datatype Group = Group(members: seq<WriterId>, start: nat, ops: seq<Op>, logged: bool, synced: bool,
                         applied: bool, ok: bool)

  datatype Record = Record(start: nat, ops: seq<Op>, synced: bool)
  datatype NumberedOp = NumberedOp(sn: nat, op: Op)

  datatype Stage = MakingRoom | Appending | Syncing | Applying | Finishing
  datatype Lead = NoLeader | Lead(stage: Stage, group: Group)
  datatype Phase = Waiting | Flagged(ok: bool) | Returned(ok: bool)

  datatype State = State(
    queue: seq<WriterId>,
    phase: map<WriterId, Phase>,
    // The writers that wait on their condition variable.
    asleep: set<WriterId>,
    lead: Lead,
    log: seq<Record>,
    mem: seq<NumberedOp>,
    lastSequence: nat,
    bgError: bool,
    // History: the order in which calls joined the queue, and the finished groups.
    arrivals: seq<WriterId>,
    finished: seq<Group>)

  predicate Init(s: State) {
    s == State([], map[], {}, NoLeader, [], [], 0, false, [], [])
  }

  datatype Step =
    | Call(w: WriterId)
    | StartLead
    | RoomMade
    | RoomFailed
    | AppendDone(ok: bool)
    | SyncDone(ok: bool)
    | Apply
    | Finish
    | Return(w: WriterId)
    // A writer whose wait has ended for no reason looks at the queue again.
    | Wake(w: WriterId)
    | Sleep(w: WriterId)

  predicate Enabled(calls: Calls, s: State, step: Step) {
    match step
    case Call(w) => w !in s.phase
    case StartLead => s.queue != [] && s.lead.NoLeader? && s.queue[0] !in s.asleep
    case RoomMade => s.lead.Lead? && s.lead.stage == MakingRoom && s.queue != [] && !s.bgError
    case RoomFailed => s.lead.Lead? && s.lead.stage == MakingRoom && s.queue != []
    case AppendDone(_) => s.lead.Lead? && s.lead.stage == Appending && s.lead.group.members != []
    case SyncDone(_) => s.lead.Lead? && s.lead.stage == Syncing
    case Apply => s.lead.Lead? && s.lead.stage == Applying
    case Finish => s.lead.Lead? && s.lead.stage == Finishing && |s.lead.group.members| <= |s.queue|
    case Return(w) => w in s.phase && s.phase[w].Flagged? && w !in s.asleep
    case Wake(w) => w in s.asleep
    case Sleep(w) => w in s.queue && w != s.queue[0] && w in s.phase && s.phase[w].Waiting?
  }

  function Number(start: nat, ops: seq<Op>): seq<NumberedOp> {
    seq(|ops|, i requires 0 <= i < |ops| => NumberedOp(start + i, ops[i]))
  }

  function MarkDone(phase: map<WriterId, Phase>, members: seq<WriterId>, ok: bool): map<WriterId, Phase> {
    map w | w in phase.Keys + (set m | m in members) ::
      if w in members then (if w == members[0] then Returned(ok) else Flagged(ok)) else phase[w]
  }

  // The leader signals every other member of its group, and then the new front writer.
  function Signalled(asleep: set<WriterId>, members: seq<WriterId>, rest: seq<WriterId>): set<WriterId> {
    asleep - (set i | 0 < i < |members| :: members[i]) - if rest == [] then {} else {rest[0]}
  }

  function After(calls: Calls, s: State, step: Step): State
    requires Enabled(calls, s, step)
  {
    match step
    case Call(w) =>
      s.(queue := s.queue + [w], phase := s.phase[w := Waiting], arrivals := s.arrivals + [w],
         asleep := if s.queue == [] then s.asleep else s.asleep + {w})
    case StartLead =>
      s.(lead := Lead(MakingRoom, Group([], 0, [], false, false, false, false)))
    case RoomMade =>
      if calls(s.queue[0]).batch.None? then
        s.(lead := Lead(Finishing, Group(s.queue[..1], s.lastSequence + 1, [], false, false, false, true)))
      else
        var n := GroupLength(calls, s.queue);
        s.(lead := Lead(Appending, Group(s.queue[..n], s.lastSequence + 1, OpsOf(calls, s.queue[..n]),
                                         false, false, false, true)))
    case RoomFailed =>
      s.(lead := Lead(Finishing, Group(s.queue[..1], s.lastSequence + 1, [], false, false, false, false)))
    case AppendDone(ok) =>
      var g := s.lead.group;
      if ok then
        s.(log := s.log + [Record(g.start, g.ops, false)],
           lead := Lead(if calls(g.members[0]).sync then Syncing else Applying, g.(logged := true)))
      else s.(lead := Lead(Finishing, g.(ok := false)))
    case SyncDone(ok) =>
      var g := s.lead.group;
      if ok then
        s.(log := if s.log == [] then [] else s.log[|s.log| - 1 := s.log[|s.log| - 1].(synced := true)],
           lead := Lead(Applying, g.(synced := true)))
      else s.(lead := Lead(Finishing, g.(ok := false)), bgError := true)
    case Apply =>
      var g := s.lead.group;
      s.(mem := s.mem + Number(g.start, g.ops), lead := Lead(Finishing, g.(applied := true)))
    case Finish =>
      var g := s.lead.group;
      s.(queue := s.queue[|g.members|..], phase := MarkDone(s.phase, g.members, g.ok), lead := NoLeader,
         asleep := Signalled(s.asleep, g.members, s.queue[|g.members|..]),
         lastSequence := s.lastSequence + |g.ops|, finished := s.finished + [g])
    case Return(w) =>
      s.(phase := s.phase[w := Returned(s.phase[w].ok)])
    case Wake(w) =>
      s.(asleep := s.asleep - {w})
    case Sleep(w) =>
      s.(asleep := s.asleep + {w})
  }

  ghost predicate Next(calls: Calls, s: State, s': State) {
    exists step :: Enabled(calls, s, step) && s' == After(calls, s, step)
  }

  ghost predicate Run(calls: Calls, states: seq<State>) {
    && |states| > 0 && Init(states[0])
    && forall i :: 0 <= i < |states| - 1 ==> Next(calls, states[i], states[i + 1])
  }

  // ----- What the histories add up to

  function MembersOf(groups: seq<Group>): seq<WriterId> {
    if groups == [] then [] else MembersOf(groups[..|groups| - 1]) + groups[|groups| - 1].members
  }

  function OpCount(groups: seq<Group>): nat {
    if groups == [] then 0 else OpCount(groups[..|groups| - 1]) + |groups[|groups| - 1].ops|
  }

  function LogOf(groups: seq<Group>): seq<Record> {
    if groups == [] then []
    else
      var g := groups[|groups| - 1];
      LogOf(groups[..|groups| - 1]) + if g.logged then [Record(g.start, g.ops, g.synced)] else []
  }

  function MemOf(groups: seq<Group>): seq<NumberedOp> {
    if groups == [] then []
    else
      var g := groups[|groups| - 1];
      MemOf(groups[..|groups| - 1]) + if g.applied then Number(g.start, g.ops) else []
  }

  // What may be said of a group at any stage.
  ghost predicate GroupOk(calls: Calls, g: Group) {
    && g.members != []
    && (g.synced ==> g.logged)
    && (g.applied ==> g.ok && g.logged)
    && (g.ok || g.logged ==> g.ops == OpsOf(calls, g.members))
    && (forall i :: 0 <= i < |g.members| && calls(g.members[i]).sync && calls(g.members[0]).batch.Some? ==>
          calls(g.members[0]).sync)
    && (calls(g.members[0]).batch.None? ==> g.members == [g.members[0]])
  }

  // What a leader that reports success has done.
  ghost predicate Complete(calls: Calls, g: Group)
    requires g.members != []
  {
    g.ok && calls(g.members[0]).batch.Some? ==> g.applied && (calls(g.members[0]).sync ==> g.synced)
  }

  ghost predicate LeadOk(calls: Calls, s: State) {
    s.lead.Lead? && s.lead.stage != MakingRoom ==>
      var g := s.lead.group;
      && GroupOk(calls, g)
      && g.members <= s.queue
      && g.start == s.lastSequence + 1
      && (s.lead.stage == Appending ==> g.ok && !g.logged && !g.applied && calls(g.members[0]).batch.Some?)
      && (s.lead.stage == Syncing ==> g.ok && g.logged && !g.synced && !g.applied && calls(g.members[0]).sync)
      && (s.lead.stage == Applying ==> g.ok && g.logged && !g.applied && g.synced == calls(g.members[0]).sync)
      && (s.lead.stage == Finishing ==> Complete(calls, g))
  }

  // The finished groups together with the one in flight, as far as it got.
  function Groups(s: State): seq<Group> {
    s.finished + if s.lead.Lead? && s.lead.stage != MakingRoom then [s.lead.group] else []
  }

  // Each group starts numbering where the groups before it stopped.
  ghost predicate Chained(groups: seq<Group>) {
    groups == [] || (var n := |groups| - 1; Chained(groups[..n]) && groups[n].start == OpCount(groups[..n]) + 1)
  }

  ghost predicate FinishedOk(calls: Calls, finished: seq<Group>, phase: map<WriterId, Phase>) {
    && Chained(finished)
    && forall i :: 0 <= i < |finished| ==>
      && GroupOk(calls, finished[i]) && Complete(calls, finished[i])
      && forall m :: m in finished[i].members ==> m in phase && phase[m] in {Flagged(finished[i].ok), Returned(finished[i].ok)}
  }

  ghost predicate Distinct(ids: seq<WriterId>) {
    forall i, j :: 0 <= i < j < |ids| ==> ids[i] != ids[j]
  }

  // The queue holds exactly the calls that have arrived and not been popped, all of them waiting.
  ghost predicate QueueOk(queue: seq<WriterId>, phase: map<WriterId, Phase>, arrivals: seq<WriterId>,
                          popped: seq<WriterId>)
  {
    && arrivals == popped + queue
    && Distinct(arrivals)
    && (forall w :: w in phase <==> w in arrivals)
    && (forall i :: 0 <= i < |queue| ==> queue[i] in phase && phase[queue[i]] == Waiting)
  }

  // Only writers behind the front one wait.
  ghost predicate AwakeOk(queue: seq<WriterId>, asleep: set<WriterId>) {
    forall w :: w in asleep ==> w in queue && w != queue[0]
  }

  // Log, memtable and sequence number are what the groups say.
  ghost predicate DataOk(calls: Calls, s: State) {
    && s.lastSequence == OpCount(s.finished)
    && LeadOk(calls, s)
    && (s.lead.Lead? ==> s.queue != [])
    && s.log == LogOf(Groups(s))
    && s.mem == MemOf(Groups(s))
  }

  ghost predicate Inv(calls: Calls, s: State) {
    && QueueOk(s.queue, s.phase, s.arrivals, MembersOf(s.finished))
    && FinishedOk(calls, s.finished, s.phase)
    && DataOk(calls, s)
    && AwakeOk(s.queue, s.asleep)
  }

  lemma Snoc(groups: seq<Group>, g: Group)
    ensures MembersOf(groups + [g]) == MembersOf(groups) + g.members
    ensures OpCount(groups + [g]) == OpCount(groups) + |g.ops|
    ensures LogOf(groups + [g]) == LogOf(groups) + if g.logged then [Record(g.start, g.ops, g.synced)] else []
    ensures MemOf(groups + [g]) == MemOf(groups) + if g.applied then Number(g.start, g.ops) else []
  {
    assert (groups + [g])[..|groups|] == groups;
  }

  lemma InitInv(calls: Calls, s: State)
    requires Init(s)
    ensures Inv(calls, s)
  {
  }

  lemma {:induction false} MembersAreArrivals(groups: seq<Group>, i: nat, m: WriterId)
    requires i < |groups| && m in groups[i].members
    ensures m in MembersOf(groups)
  {
    var n := |groups| - 1;
    if i < n {
      MembersAreArrivals(groups[..n], i, m);
    }
  }

  lemma CallKeepsInv(calls: Calls, s: State, w: WriterId)
    requires Inv(calls, s) && Enabled(calls, s, Call(w))
    ensures Inv(calls, After(calls, s, Call(w)))
  {
    var s' := After(calls, s, Call(w));
    assert Groups(s') == Groups(s);
    assert s'.arrivals == MembersOf(s.finished) + s'.queue;
    assert w !in s.arrivals;
    forall i, m | 0 <= i < |s.finished| && m in s.finished[i].members
      ensures m != w
    {
      MembersAreArrivals(s.finished, i, m);
    }
    assert FinishedOk(calls, s'.finished, s'.phase);
    assert w !in s.queue && s'.queue[|s.queue|] == w;
  }

  lemma RoomKeepsData(calls: Calls, s: State, step: Step)
    requires DataOk(calls, s) && Enabled(calls, s, step) && (step.StartLead? || step.RoomMade? || step.RoomFailed?)
    ensures DataOk(calls, After(calls, s, step))
  {
    var s' := After(calls, s, step);
    if step.StartLead? {
      assert Groups(s') == Groups(s);
    } else {
      assert Groups(s) == s.finished;
      var g := s'.lead.group;
      assert g.members == s.queue[..|g.members|];
      Snoc(s.finished, g);
      if calls(s.queue[0]).batch.None? {
        assert OpsOf(calls, s.queue[..1][..0]) == [];
      }
    }
  }

  lemma AppendKeepsData(calls: Calls, s: State, ok: bool)
    requires DataOk(calls, s) && Enabled(calls, s, AppendDone(ok))
    ensures DataOk(calls, After(calls, s, AppendDone(ok)))
  {
    var s' := After(calls, s, AppendDone(ok));
    Snoc(s.finished, s.lead.group);
    Snoc(s.finished, s'.lead.group);
  }

  lemma SyncKeepsData(calls: Calls, s: State, ok: bool)
    requires DataOk(calls, s) && Enabled(calls, s, SyncDone(ok))
    ensures DataOk(calls, After(calls, s, SyncDone(ok)))
  {
    var s' := After(calls, s, SyncDone(ok));
    var g := s.lead.group;
    Snoc(s.finished, g);
    Snoc(s.finished, s'.lead.group);
    assert s.log == LogOf(s.finished) + [Record(g.start, g.ops, false)];
  }

  lemma ApplyKeepsData(calls: Calls, s: State)
    requires DataOk(calls, s) && Enabled(calls, s, Apply)
    ensures DataOk(calls, After(calls, s, Apply))
  {
    var s' := After(calls, s, Apply);
    Snoc(s.finished, s.lead.group);
    Snoc(s.finished, s'.lead.group);
    assert s.mem == MemOf(s.finished);
  }

  lemma FinishKeepsInv(calls: Calls, s: State)
    requires Inv(calls, s) && Enabled(calls, s, Finish)
    ensures Inv(calls, After(calls, s, Finish))
  {
    var s' := After(calls, s, Finish);
    var g := s.lead.group;
    Snoc(s.finished, g);
    assert Groups(s') == s'.finished == Groups(s);
    assert g.members == s.queue[..|g.members|];
    PopGroup(s.queue, s.phase, s.arrivals, MembersOf(s.finished), g.members, g.ok);
    FinishedGroups(calls, s.finished, s.phase, g, s.queue, s.arrivals);
    SignalsSuffice(s.queue, s.asleep, g.members);
  }

  // Whoever still waits after the signals is behind the new front writer.
  lemma SignalsSuffice(queue: seq<WriterId>, asleep: set<WriterId>, members: seq<WriterId>)
    requires AwakeOk(queue, asleep)
    requires members != [] && |members| <= |queue| && members == queue[..|members|]
    ensures AwakeOk(queue[|members|..], Signalled(asleep, members, queue[|members|..]))
  {
    var rest := queue[|members|..];
    assert queue == members + rest;
    forall i | 0 <= i < |members|
      ensures members[i] !in Signalled(asleep, members, rest)
    {
      assert queue[0] == members[0];
    }
  }

  // Popping the writers of a group off the queue and waking them.
  lemma PopGroup(queue: seq<WriterId>, phase: map<WriterId, Phase>, arrivals: seq<WriterId>, popped: seq<WriterId>,
                 members: seq<WriterId>, ok: bool)
    requires QueueOk(queue, phase, arrivals, popped)
    requires members != [] && |members| <= |queue| && members == queue[..|members|]
    ensures QueueOk(queue[|members|..], MarkDone(phase, members, ok), arrivals, popped + members)
  {
    var n := |members|;
    var rest := queue[n..];
    assert queue == members + rest;
    assert forall j :: 0 <= j < n ==> members[j] == arrivals[|popped| + j];
    forall i | 0 <= i < |rest|
      ensures rest[i] !in members
    {
      assert rest[i] == arrivals[|popped| + n + i];
    }
    forall m | m in members
      ensures m in arrivals
    {
      assert m in queue;
    }
  }

  lemma FinishedGroups(calls: Calls, finished: seq<Group>, phase: map<WriterId, Phase>, g: Group,
                       queue: seq<WriterId>, arrivals: seq<WriterId>)
    requires FinishedOk(calls, finished, phase)
    requires QueueOk(queue, phase, arrivals, MembersOf(finished))
    requires GroupOk(calls, g) && Complete(calls, g) && g.start == OpCount(finished) + 1
    requires |g.members| <= |queue| && g.members == queue[..|g.members|]
    ensures FinishedOk(calls, finished + [g], MarkDone(phase, g.members, g.ok))
  {
    var phase' := MarkDone(phase, g.members, g.ok);
    var all := finished + [g];
    forall i, m | 0 <= i < |finished| && m in finished[i].members
      ensures m !in g.members
    {
      MembersAreArrivals(finished, i, m);
      var a :| 0 <= a < |MembersOf(finished)| && MembersOf(finished)[a] == m;
      assert arrivals[a] == m;
      assert forall j :: 0 <= j < |g.members| ==> g.members[j] == arrivals[|MembersOf(finished)| + j];
    }
    assert all[..|finished|] == finished;
  }

  lemma ReturnKeepsInv(calls: Calls, s: State, w: WriterId)
    requires Inv(calls, s) && Enabled(calls, s, Return(w))
    ensures Inv(calls, After(calls, s, Return(w)))
  {
    var s' := After(calls, s, Return(w));
    assert Groups(s') == Groups(s);
  }

  lemma WaitKeepsInv(calls: Calls, s: State, step: Step)
    requires Inv(calls, s) && Enabled(calls, s, step) && (step.Wake? || step.Sleep?)
    ensures Inv(calls, After(calls, s, step))
  {
    var s' := After(calls, s, step);
    assert Groups(s') == Groups(s);
  }

  lemma StepKeepsInv(calls: Calls, s: State, step: Step)
    requires Inv(calls, s) && Enabled(calls, s, step)
    ensures Inv(calls, After(calls, s, step))
  {
    match step
    case Call(w) => CallKeepsInv(calls, s, w);
    case Finish => FinishKeepsInv(calls, s);
    case Return(w) => ReturnKeepsInv(calls, s, w);
    case Wake(w) => WaitKeepsInv(calls, s, step);
    case Sleep(w) => WaitKeepsInv(calls, s, step);
    case StartLead => RoomKeepsData(calls, s, step);
    case RoomMade => RoomKeepsData(calls, s, step);
    case RoomFailed => RoomKeepsData(calls, s, step);
    case AppendDone(ok) => AppendKeepsData(calls, s, ok);
    case SyncDone(ok) => SyncKeepsData(calls, s, ok);
    case Apply => ApplyKeepsData(calls, s);
  }

  lemma {:induction false} RunKeepsInv(calls: Calls, states: seq<State>, i: nat)
    requires Run(calls, states) && i < |states|
    ensures Inv(calls, states[i])
  {
    if i == 0 {
      InitInv(calls, states[0]);
    } else {
      RunKeepsInv(calls, states, i - 1);
      assert Next(calls, states[i - 1], states[i]);
      var step :| Enabled(calls, states[i - 1], step) && states[i] == After(calls, states[i - 1], step);
      StepKeepsInv(calls, states[i - 1], step);
    }
  }

  // ----- What callers may rely on

  lemma {:induction false} OpsOfConcat(calls: Calls, xs: seq<WriterId>, ys: seq<WriterId>)
    ensures OpsOf(calls, xs + ys) == OpsOf(calls, xs) + OpsOf(calls, ys)
  {
    if ys == [] {
      assert xs + ys == xs;
    } else {
      var n := |ys| - 1;
      assert (xs + ys)[..|xs| + n] == xs + ys[..n];
      OpsOfConcat(calls, xs, ys[..n]);
    }
  }

  function LoggedOps(log: seq<Record>): seq<Op> {
    if log == [] then [] else LoggedOps(log[..|log| - 1]) + log[|log| - 1].ops
  }

  ghost predicate AllSucceeded(calls: Calls, groups: seq<Group>) {
    && Chained(groups)
    && forall i :: 0 <= i < |groups| ==> GroupOk(calls, groups[i]) && Complete(calls, groups[i]) && groups[i].ok
  }

  // Groups that all succeeded have logged the batches of their members in order,
  lemma {:induction false} SuccessfulLog(calls: Calls, groups: seq<Group>)
    requires AllSucceeded(calls, groups)
    ensures LoggedOps(LogOf(groups)) == OpsOf(calls, MembersOf(groups))
    ensures OpCount(groups) == |OpsOf(calls, MembersOf(groups))|
  {
    if groups != [] {
      var n := |groups| - 1;
      var g := groups[n];
      var before := groups[..n];
      SuccessfulLog(calls, before);
      OpsOfConcat(calls, MembersOf(before), g.members);
      SuccessfulGroup(calls, g);
      LoggedOpsConcat(LogOf(before), if g.logged then [Record(g.start, g.ops, g.synced)] else []);
    }
  }

  // and inserted them, numbered from 1.
  lemma {:induction false} SuccessfulMem(calls: Calls, groups: seq<Group>)
    requires AllSucceeded(calls, groups)
    ensures MemOf(groups) == Number(1, OpsOf(calls, MembersOf(groups)))
  {
    if groups != [] {
      var n := |groups| - 1;
      var g := groups[n];
      var before := groups[..n];
      SuccessfulMem(calls, before);
      SuccessfulLog(calls, before);
      OpsOfConcat(calls, MembersOf(before), g.members);
      SuccessfulGroup(calls, g);
      NumberConcat(1, OpsOf(calls, MembersOf(before)), g.ops);
      assert g.start == 1 + |OpsOf(calls, MembersOf(before))|;
    }
  }

  lemma NumberConcat(start: nat, xs: seq<Op>, ys: seq<Op>)
    ensures Number(start, xs + ys) == Number(start, xs) + Number(start + |xs|, ys)
  {
  }

  lemma LoggedOpsConcat(log: seq<Record>, more: seq<Record>)
    requires |more| <= 1
    ensures LoggedOps(log + more) == LoggedOps(log) + LoggedOps(more)
  {
    if more == [] {
      assert log + more == log;
    } else {
      assert (log + more)[..|log|] == log && more[..0] == [];
      assert LoggedOps(more) == more[0].ops;
    }
  }

  lemma SuccessfulGroup(calls: Calls, g: Group)
    requires GroupOk(calls, g) && Complete(calls, g) && g.ok
    ensures g.ops == OpsOf(calls, g.members)
    ensures g.applied || g.ops == []
    ensures g.logged || g.ops == []
  {
    if calls(g.members[0]).batch.None? {
      assert g.members[..0] == [];
    }
  }

  /** Whatever the interleaving, the popped calls followed by the queue are the calls in their order of arrival, each
      once; and while no I/O has failed, memtable and log hold the popped calls' batches, each exactly once, in
      that order, with consecutive sequence numbers from 1. */
  lemma CommittedOnceInOrder(calls: Calls, states: seq<State>, i: nat)
    requires Run(calls, states) && i < |states|
    ensures var s := states[i];
            var popped := MembersOf(s.finished);
            && s.arrivals == popped + s.queue && Distinct(s.arrivals)
            && (s.lead.NoLeader? && (forall k :: 0 <= k < |s.finished| ==> s.finished[k].ok) ==>
                  && s.mem == Number(1, OpsOf(calls, popped))
                  && LoggedOps(s.log) == OpsOf(calls, popped)
                  && s.lastSequence == |s.mem|)
  {
    RunKeepsInv(calls, states, i);
    var s := states[i];
    if s.lead.NoLeader? && forall k :: 0 <= k < |s.finished| ==> s.finished[k].ok {
      assert Groups(s) == s.finished;
      SuccessfulLog(calls, s.finished);
      SuccessfulMem(calls, s.finished);
    }
  }

  lemma {:induction false} PoppedInGroup(groups: seq<Group>, w: WriterId) returns (i: nat)
    requires w in MembersOf(groups)
    ensures i < |groups| && w in groups[i].members
  {
    var n := |groups| - 1;
    if w in groups[n].members {
      i := n;
    } else {
      i := PoppedInGroup(groups[..n], w);
    }
  }

  lemma NotWaitingIsPopped(queue: seq<WriterId>, phase: map<WriterId, Phase>, arrivals: seq<WriterId>,
                           popped: seq<WriterId>, w: WriterId)
    requires QueueOk(queue, phase, arrivals, popped) && w in phase && phase[w] != Waiting
    ensures w in popped
  {
    assert w in arrivals;
  }

  // The calls that were popped are those whose writer was told a result, and it was the group's.
  lemma ToldWriter(calls: Calls, s: State, w: WriterId) returns (i: nat)
    requires QueueOk(s.queue, s.phase, s.arrivals, MembersOf(s.finished)) && FinishedOk(calls, s.finished, s.phase)
    requires w in s.phase && s.phase[w] != Waiting
    ensures i < |s.finished| && w in s.finished[i].members && s.phase[w].ok == s.finished[i].ok
    ensures GroupOk(calls, s.finished[i]) && Complete(calls, s.finished[i])
  {
    NotWaitingIsPopped(s.queue, s.phase, s.arrivals, MembersOf(s.finished), w);
    i := PoppedInGroup(s.finished, w);
  }

  ghost predicate InMemtable(mem: seq<NumberedOp>, ops: seq<Op>, at: nat, sn: nat) {
    at + |ops| <= |mem| && forall k :: 0 <= k < |ops| ==> mem[at + k] == NumberedOp(sn + k, ops[k])
  }

  lemma {:induction false} GroupInMem(groups: seq<Group>, i: nat) returns (at: nat)
    requires i < |groups| && groups[i].applied
    ensures InMemtable(MemOf(groups), groups[i].ops, at, groups[i].start)
  {
    var n := |groups| - 1;
    if i < n {
      at := GroupInMem(groups[..n], i);
    } else {
      at := |MemOf(groups[..n])|;
    }
  }

  ghost predicate Occurs(whole: seq<Op>, part: seq<Op>, at: nat) {
    at + |part| <= |whole| && forall k :: 0 <= k < |part| ==> whole[at + k] == part[k]
  }

  lemma {:induction false} BatchInGroup(calls: Calls, members: seq<WriterId>, w: WriterId) returns (at: nat)
    requires w in members && calls(w).batch.Some?
    ensures Occurs(OpsOf(calls, members), calls(w).batch.value.ops, at)
  {
    var n := |members| - 1;
    if members[n] == w {
      at := |OpsOf(calls, members[..n])|;
    } else {
      at := BatchInGroup(calls, members[..n], w);
    }
  }

  ghost predicate InSyncedRecord(log: seq<Record>, ops: seq<Op>, r: nat, at: nat) {
    r < |log| && log[r].synced && Occurs(log[r].ops, ops, at)
  }

  /** A call that has been told success finds its whole batch in the memtable under consecutive sequence numbers,
      also when other groups failed. */
  lemma SuccessMeansApplied(calls: Calls, states: seq<State>, i: nat, w: WriterId)
    requires Run(calls, states) && i < |states|
    requires var phase := states[i].phase; w in phase && phase[w] != Waiting && phase[w].ok
    requires calls(w).batch.Some?
    ensures exists at, sn :: InMemtable(states[i].mem, calls(w).batch.value.ops, at, sn)
  {
    RunKeepsInv(calls, states, i);
    var s := states[i];
    var ops := calls(w).batch.value.ops;
    var g := ToldWriter(calls, s, w);
    var group := s.finished[g];
    assert group.applied;
    assert Groups(s)[g] == group;
    var a := GroupInMem(Groups(s), g);
    var b := BatchInGroup(calls, group.members, w);
    SliceOfNumbered(s.mem, group.ops, ops, a, group.start, b);
  }

  lemma SliceOfNumbered(mem: seq<NumberedOp>, whole: seq<Op>, ops: seq<Op>, a: nat, start: nat, b: nat)
    requires InMemtable(mem, whole, a, start) && Occurs(whole, ops, b)
    ensures InMemtable(mem, ops, a + b, start + b)
  {
    forall k | 0 <= k < |ops|
      ensures mem[a + b + k] == NumberedOp(start + b + k, ops[k])
    {
      assert mem[a + (b + k)] == NumberedOp(start + (b + k), whole[b + k]);
    }
  }

  lemma {:induction false} GroupInLog(groups: seq<Group>, i: nat) returns (r: nat)
    requires i < |groups| && groups[i].logged
    ensures r < |LogOf(groups)| && LogOf(groups)[r] == Record(groups[i].start, groups[i].ops, groups[i].synced)
  {
    var n := |groups| - 1;
    if i < n {
      r := GroupInLog(groups[..n], i);
    } else {
      r := |LogOf(groups[..n])|;
    }
  }

  /** The batch of a sync call that has been told success lies in a log record that its leader synced. */
  lemma SuccessMeansSynced(calls: Calls, states: seq<State>, i: nat, w: WriterId)
    requires Run(calls, states) && i < |states|
    requires var phase := states[i].phase; w in phase && phase[w] != Waiting && phase[w].ok
    requires calls(w).batch.Some? && calls(w).sync
    ensures exists r, at :: InSyncedRecord(states[i].log, calls(w).batch.value.ops, r, at)
  {
    RunKeepsInv(calls, states, i);
    var s := states[i];
    var g := ToldWriter(calls, s, w);
    var group := s.finished[g];
    var m :| 0 <= m < |group.members| && group.members[m] == w;
    assert calls(group.members[0]).sync;
    assert Groups(s)[g] == group;
    var r := GroupInLog(Groups(s), g);
    var b := BatchInGroup(calls, group.members, w);
    assert InSyncedRecord(s.log, calls(w).batch.value.ops, r, b);
  }

  /** A call that has been told failure was in no group that reached the memtable. */
  lemma FailureMeansNotApplied(calls: Calls, states: seq<State>, i: nat, w: WriterId, g: nat)
    requires Run(calls, states) && i < |states|
    requires var phase := states[i].phase; w in phase && phase[w] != Waiting && !phase[w].ok
    requires g < |states[i].finished| && w in states[i].finished[g].members
    ensures !states[i].finished[g].applied
  {
    RunKeepsInv(calls, states, i);
    var s := states[i];
    assert FinishedOk(calls, s.finished, s.phase) && GroupOk(calls, s.finished[g]);
  }

  /** Sequence numbers strictly increase in insertion order, also across groups that failed. */
  lemma {:induction false} MemIncreases(calls: Calls, groups: seq<Group>)
    requires Chained(groups)
    ensures forall i, j :: 0 <= i < j < |MemOf(groups)| ==> MemOf(groups)[i].sn < MemOf(groups)[j].sn
    ensures forall i :: 0 <= i < |MemOf(groups)| ==> MemOf(groups)[i].sn <= OpCount(groups)
  {
    if groups != [] {
      var n := |groups| - 1;
      var before := groups[..n];
      MemIncreases(calls, before);
    }
  }

  lemma SequencesIncrease(calls: Calls, states: seq<State>, i: nat)
    requires Run(calls, states) && i < |states|
    ensures var mem := states[i].mem; forall a, b :: 0 <= a < b < |mem| ==> mem[a].sn < mem[b].sn
  {
    RunKeepsInv(calls, states, i);
    var s := states[i];
    var groups := Groups(s);
    if |groups| == |s.finished| {
      assert groups == s.finished;
    } else {
      assert groups[..|s.finished|] == s.finished && groups[|s.finished|] == s.lead.group;
    }
    MemIncreases(calls, groups);
  }

  // ----- After a failed sync

  // Nobody is about to write.
  ghost predicate Halted(s: State) {
    s.bgError && s.lead.Lead? ==>
      s.lead.stage == MakingRoom || (s.lead.stage == Finishing && !s.lead.group.ok && !s.lead.group.applied)
  }

  lemma StepKeepsHalted(calls: Calls, s: State, step: Step)
    requires Halted(s) && Enabled(calls, s, step)
    requires s.lead.Lead? && s.lead.stage == Syncing ==> !s.lead.group.applied
    ensures var s' := After(calls, s, step);
            && Halted(s')
            && (step == SyncDone(false) ==> s'.bgError)
            && (s.bgError ==> s'.bgError && s'.mem == s.mem && s'.log == s.log)
            && (s'.finished == s.finished
                || (|s'.finished| == |s.finished| + 1 && s'.finished[..|s.finished|] == s.finished
                    && (s.bgError ==> !s'.finished[|s.finished|].ok)))
  {
  }

  lemma {:induction false} RunHalts(calls: Calls, states: seq<State>, i: nat)
    requires Run(calls, states) && i < |states|
    ensures Halted(states[i])
  {
    if i > 0 {
      RunHalts(calls, states, i - 1);
      RunKeepsInv(calls, states, i - 1);
      assert Next(calls, states[i - 1], states[i]);
      var step :| Enabled(calls, states[i - 1], step) && states[i] == After(calls, states[i - 1], step);
      StepKeepsHalted(calls, states[i - 1], step);
    }
  }

  /** Once a sync has failed, nothing is written any more: log and memtable stay as they are, and every group that
      finishes from then on is told failure. */
  lemma {:induction false} NothingAfterFailedSync(calls: Calls, states: seq<State>, i: nat, j: nat)
    requires Run(calls, states) && i <= j < |states| && states[i].bgError
    ensures states[j].bgError && states[j].log == states[i].log && states[j].mem == states[i].mem
    ensures states[i].finished <= states[j].finished
    ensures forall g :: |states[i].finished| <= g < |states[j].finished| ==> !states[j].finished[g].ok
    decreases j
  {
    hide After, Enabled, Inv, Halted;
    if i < j {
      NothingAfterFailedSync(calls, states, i, j - 1);
      RunHalts(calls, states, j - 1);
      var step := StepTaken(calls, states, j - 1);
      StepKeepsHalted(calls, states[j - 1], step);
      assert forall g :: 0 <= g < |states[j - 1].finished| ==> states[j].finished[g] == states[j - 1].finished[g];
    }
  }

  lemma StepTaken(calls: Calls, states: seq<State>, i: nat) returns (step: Step)
    requires Run(calls, states) && i + 1 < |states|
    ensures Enabled(calls, states[i], step) && states[i + 1] == After(calls, states[i], step)
    ensures states[i].lead.Lead? && states[i].lead.stage == Syncing ==> !states[i].lead.group.applied
  {
    RunKeepsInv(calls, states, i);
    assert Next(calls, states[i], states[i + 1]);
    step :| Enabled(calls, states[i], step) && states[i + 1] == After(calls, states[i], step);
  }

  // ----- Progress

  // A step of the leader, or of the front writer that becomes one.
  predicate LeaderStep(step: Step) {
    !step.Call? && !step.Return? && !step.Wake? && !step.Sleep?
  }

  ghost function Flags(phase: map<WriterId, Phase>): set<WriterId> {
    set w | w in phase && phase[w].Flagged?
  }

  // How many steps the calls made so far still take at most.
  ghost function Work(s: State): nat {
    6 * |s.queue| + |Flags(s.phase)| + if s.lead.NoLeader? then 5 else match s.lead.stage
                                                                       case MakingRoom => 4
                                                                       case Appending => 3
                                                                       case Syncing => 2
                                                                       case Applying => 1
                                                                       case Finishing => 0
  }

  /** No signal is lost: in every reachable state the front writer is awake, and so is every writer that has been told
      its result and not returned. */
  lemma NobodySleepsOn(calls: Calls, states: seq<State>, i: nat)
    requires Run(calls, states) && i < |states|
    ensures var s := states[i];
            && (s.queue != [] ==> s.queue[0] !in s.asleep)
            && forall w :: w in s.phase && s.phase[w].Flagged? ==> w !in s.asleep
  {
    RunKeepsInv(calls, states, i);
  }

  /** While a call has not returned, somebody awake can go on: the writer itself once it is told its result, and before
      that the front writer, which leads or can start to. */
  lemma WaitingCallGoesOn(calls: Calls, states: seq<State>, i: nat, w: WriterId) returns (step: Step)
    requires Run(calls, states) && i < |states|
    requires w in states[i].phase && !states[i].phase[w].Returned?
    ensures Enabled(calls, states[i], step)
    ensures if states[i].phase[w].Flagged? then step == Return(w) else LeaderStep(step)
  {
    RunKeepsInv(calls, states, i);
    var s := states[i];
    if s.phase[w].Flagged? {
      step := Return(w);
    } else {
      WaitingIsQueued(calls, s, w);
      step := FrontWriterGoesOn(calls, s);
    }
  }

  lemma WaitingIsQueued(calls: Calls, s: State, w: WriterId)
    requires Inv(calls, s) && w in s.phase && s.phase[w].Waiting?
    ensures w in s.queue
  {
    if w in MembersOf(s.finished) {
      PoppedIsTold(calls, s.finished, s.phase, w);
    }
  }

  lemma PoppedIsTold(calls: Calls, finished: seq<Group>, phase: map<WriterId, Phase>, w: WriterId)
    requires FinishedOk(calls, finished, phase) && w in MembersOf(finished)
    ensures w in phase && phase[w] != Waiting
  {
    var g := PoppedInGroup(finished, w);
    assert phase[w] in {Flagged(finished[g].ok), Returned(finished[g].ok)};
  }

  /** The front writer leads, or is awake and can start to. */
  lemma FrontWriterGoesOn(calls: Calls, s: State) returns (step: Step)
    requires Inv(calls, s) && s.queue != []
    ensures LeaderStep(step) && Enabled(calls, s, step)
  {
    step := if s.lead.NoLeader? then StartLead
            else match s.lead.stage
                 case MakingRoom => RoomFailed
                 case Appending => AppendDone(true)
                 case Syncing => SyncDone(true)
                 case Applying => Apply
                 case Finishing => Finish;
  }

  /** Every such step leaves less to do, and waking up for no reason leaves as much: without new calls all that have been
      made return. */
  lemma CallsReturn(calls: Calls, s: State, step: Step)
    requires Inv(calls, s) && !step.Call? && Enabled(calls, s, step)
    ensures var s' := After(calls, s, step);
            if LeaderStep(step) || step.Return? then Work(s') < Work(s) else Work(s') == Work(s)
  {
    hide QueueOk, FinishedOk, LogOf, MemOf, OpsOf, OpCount, MarkDone, Number, AwakeOk, Flags, Signalled;
    var s' := After(calls, s, step);
    if step.Finish? {
      FlagsAdded(s.phase, s.lead.group.members, s.lead.group.ok);
    } else if step.Return? {
      OneFlagLess(s.phase, step.w);
    }
  }

  lemma OneFlagLess(phase: map<WriterId, Phase>, w: WriterId)
    requires w in phase && phase[w].Flagged?
    ensures |Flags(phase[w := Returned(phase[w].ok)])| < |Flags(phase)|
  {
    assert Flags(phase[w := Returned(phase[w].ok)]) == Flags(phase) - {w};
  }

  ghost function Told(members: seq<WriterId>): set<WriterId> {
    set m | m in members
  }

  lemma FlagsAdded(phase: map<WriterId, Phase>, members: seq<WriterId>, ok: bool)
    requires members != []
    ensures |Flags(MarkDone(phase, members, ok))| < |Flags(phase)| + |members|
  {
    var told := Told(members[1..]);
    FewTold(members[1..]);
    assert members == [members[0]] + members[1..];
    Subset(Flags(MarkDone(phase, members, ok)), Flags(phase) + told);
  }

  lemma {:induction false} FewTold(members: seq<WriterId>)
    ensures |Told(members)| <= |members|
  {
    if members == [] {
      assert Told(members) == {};
    } else {
      var n := |members| - 1;
      FewTold(members[..n]);
      assert Told(members) == Told(members[..n]) + {members[n]};
    }
  }

  lemma {:induction false} Subset(a: set<WriterId>, b: set<WriterId>)
    requires a <= b
    ensures |a| <= |b|
    decreases a
  {
    if w :| w in a {
      Subset(a - {w}, b - {w});
    }
  }
}
