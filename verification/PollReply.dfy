/** The Art-Net poll-reply scheduler: a four-slot queue, drained one port reply per Run call. */
module PollReply {
  import opened Words

  const QUEUE_SIZE: nat := 4
  const CLOCK_MODULUS: nat := 0x1_0000_0000

  datatype Entry = Entry(millis: word, ip: word, bottom: nat, top: nat)

  /** A poll that was queued: its serial number, what the entry recorded, and the true time of arrival. */
  datatype Poll = Poll(id: nat, ip: word, bottom: nat, top: nat, at: nat)

  datatype Sent = Sent(poll: Poll, port: nat)

  /** The scheduler state, together with what has happened: which poll each slot holds, all polls accepted,
      the polls answered in full, every reply sent, and when it was sent. Times are true milliseconds; the
      firmware sees them modulo 2^32. */
  datatype Node = Node(
    ports: nat, delay: word,
    queue: seq<Entry>, index: nat, running: bool, port: nat,
    holds: seq<Option<Poll>>, accepted: seq<Poll>, served: seq<Poll>, trace: seq<Sent>, times: seq<nat>, clock: nat)

  function Elapsed(now: nat, millis: word): (e: nat)
    ensures e < CLOCK_MODULUS
  {
    (now % CLOCK_MODULUS - millis) % CLOCK_MODULUS
  }

  ghost function Initial(ports: nat, delay: word): Node {
    Node(ports, delay, seq(QUEUE_SIZE, _ => Entry(0, 0, 0, 0)), 0, false, 0,
         seq(QUEUE_SIZE, _ => None), [], [], [], [], 0)
  }

  /** The poll a slot holds; a slot without one stands for an arbitrary fixed poll. */
  ghost function PollOf(o: Option<Poll>): Poll {
    if o.Some? then o.value else Poll(0, 0, 0, 0, 0)
  }

  /** One call of Run at true time now. */
  ghost function RunStep(s: Node, now: nat): Node
    requires s.index < |s.queue| == |s.holds| == QUEUE_SIZE
  {
    var s := s.(clock := now);
    var entry := s.queue[s.index];
    if entry.millis == 0 then
      s.(index := if s.index + 1 == QUEUE_SIZE then 0 else s.index + 1)
    else if !s.running then
      if Elapsed(now, entry.millis) > s.delay then s.(running := true, port := 0) else s
    else
      var poll := PollOf(s.holds[s.index]);
      var s := s.(port := s.port + 1, trace := s.trace + [Sent(poll, s.port)], times := s.times + [now]);
      if s.port < s.ports then s
      else s.(queue := s.queue[s.index := entry.(millis := 0)], running := false,
              holds := s.holds[s.index := None], served := s.served + [poll])
  }

  /** Where the scan of PollReplyQueueAdd stops: the first slot that is empty or already holds this address. */
  ghost function Stop(queue: seq<Entry>, ip: word): (i: nat)
    ensures i <= |queue|
    ensures i < |queue| ==> queue[i].millis == 0 || queue[i].ip == ip
    ensures forall j :: 0 <= j < i ==> queue[j].millis != 0 && queue[j].ip != ip
  {
    if queue == [] || queue[0].millis == 0 || queue[0].ip == ip then 0 else 1 + Stop(queue[1..], ip)
  }

  /** One call of PollReplyQueueAdd at true time now. */
  ghost function AddStep(s: Node, ip: word, bottom: nat, top: nat, now: nat): Node
    requires |s.queue| == |s.holds|
  {
    var s := s.(clock := now);
    var i := Stop(s.queue, ip);
    if i == |s.queue| || s.queue[i].millis != 0 then s
    else
      var s := s.(queue := s.queue[i := Entry(now % CLOCK_MODULUS, ip, bottom, top)]);
      if now % CLOCK_MODULUS == 0 then s
      else
        var poll := Poll(|s.accepted|, ip, bottom, top, now);
        s.(holds := s.holds[i := Some(poll)], accepted := s.accepted + [poll])
  }

  /** The first k replies of a poll. */
  ghost function Volley(poll: Poll, k: nat): (r: seq<Sent>)
    ensures |r| == k && forall j :: 0 <= j < k ==> r[j] == Sent(poll, j)
  {
    if k == 0 then [] else Volley(poll, k - 1) + [Sent(poll, k - 1)]
  }

  /** Full volleys, poll after poll. */
  ghost function Volleys(polls: seq<Poll>, ports: nat): seq<Sent> {
    if polls == [] then [] else Volleys(polls[..|polls| - 1], ports) + Volley(polls[|polls| - 1], ports)
  }

  ghost function Bag(o: Option<Poll>): multiset<Poll> {
    if o.Some? then multiset{o.value} else multiset{}
  }

  /** The polls waiting in the four slots. */
  ghost function Waiting(holds: seq<Option<Poll>>): multiset<Poll>
    requires |holds| == QUEUE_SIZE
  {
    Bag(holds[0]) + Bag(holds[1]) + Bag(holds[2]) + Bag(holds[3])
  }

  ghost predicate Shape(s: Node) {
    0 < s.ports && |s.queue| == |s.holds| == QUEUE_SIZE && s.index < QUEUE_SIZE
  }

  /** A slot is occupied exactly when it holds an accepted poll, whose address, targets and clock value it records. */
  ghost predicate SlotHolds(s: Node, i: nat)
    requires i < |s.queue| == |s.holds|
  {
    if s.queue[i].millis == 0 then s.holds[i] == None
    else
      && s.holds[i].Some? && s.holds[i].value.at <= s.clock
      && var p := s.holds[i].value;
         s.queue[i] == Entry(p.at % CLOCK_MODULUS, p.ip, p.bottom, p.top)
  }

  /** The running state implies that the current slot is occupied, its delay over and the port in range. */
  ghost predicate RunningOk(s: Node)
    requires Shape(s)
  {
    s.running ==> s.queue[s.index].millis != 0 && s.port < s.ports && s.clock > PollOf(s.holds[s.index]).at + s.delay
  }

  /** Everything sent: full volleys, then the unfinished one if there is one. */
  ghost predicate Traced(s: Node)
    requires Shape(s)
  {
    s.trace == Volleys(s.served, s.ports) + Volley(PollOf(s.holds[s.index]), if s.running then s.port else 0)
  }

  ghost predicate Late(s: Node, k: nat)
    requires k < |s.trace| == |s.times|
  {
    s.times[k] > s.trace[k].poll.at + s.delay
  }

  ghost predicate Timely(s: Node) {
    |s.times| == |s.trace| && forall k :: 0 <= k < |s.trace| ==> Late(s, k)
  }

  /** No accepted poll is lost, and none is answered twice. */
  ghost predicate Conserved(s: Node)
    requires Shape(s)
  {
    && multiset(s.accepted) == multiset(s.served) + Waiting(s.holds)
    && forall k :: 0 <= k < |s.accepted| ==> s.accepted[k].id == k
  }

  ghost predicate Inv(s: Node) {
    && Shape(s) && (forall i :: 0 <= i < QUEUE_SIZE ==> SlotHolds(s, i))
    && RunningOk(s) && Traced(s) && Timely(s) && Conserved(s)
  }

  lemma InvShape(s: Node)
    requires Inv(s)
    ensures Shape(s) && RunningOk(s) && SlotHolds(s, s.index)
  {
  }

  lemma ModularElapsed(now: nat, at: nat)
    requires at <= now
    ensures Elapsed(now, at % 0x1_0000_0000) == (now - at) % 0x1_0000_0000 <= now - at
  {
    var a, b, d := now % CLOCK_MODULUS, at % CLOCK_MODULUS, (now - at) % CLOCK_MODULUS;
    var x, y, z := now / CLOCK_MODULUS, at / CLOCK_MODULUS, (now - at) / CLOCK_MODULUS;
    assert a - b - d == CLOCK_MODULUS * (z + y - x);
    assert a - b == d || a - b == d - CLOCK_MODULUS;
  }

  lemma InitialInv(ports: nat, delay: word)
    requires 0 < ports
    ensures Inv(Initial(ports, delay))
  {
  }

  /** Run keeps the invariant; in particular the trace stays a run of full volleys and at most one partial one. */
  lemma RunKeeps(s: Node, now: nat)
    requires Inv(s) && s.clock <= now
    ensures Inv(RunStep(s, now))
  {
    var s' := RunStep(s, now);
    forall i | 0 <= i < QUEUE_SIZE
      ensures SlotHolds(s', i)
    {
      assert SlotHolds(s, i);
    }
    assert SlotHolds(s, s.index);
    ModularElapsed(now, PollOf(s.holds[s.index]).at);
    assert RunningOk(s');
    RunTraced(s, now);
    RunConserves(s, now);
  }

  lemma RunTraced(s: Node, now: nat)
    requires Inv(s) && s.clock <= now
    ensures Shape(RunStep(s, now)) && Traced(RunStep(s, now)) && Timely(RunStep(s, now))
  {
    hide Conserved, Elapsed, Volley;
    assert SlotHolds(s, s.index);
    var s' := RunStep(s, now);
    forall k | 0 <= k < |s'.trace|
      ensures Late(s', k)
    {
      if k < |s.trace| {
        assert Late(s, k);
      }
    }
    if s'.served != s.served {
      assert s'.served[..|s.served|] == s.served;
    }
  }

  lemma WaitingUpdate(holds: seq<Option<Poll>>, i: nat, v: Option<Poll>)
    requires i < |holds| == QUEUE_SIZE
    ensures Waiting(holds[i := v]) + Bag(holds[i]) == Waiting(holds) + Bag(v)
  {
    hide Bag;
    if i == 0 {
    } else if i == 1 {
    } else if i == 2 {
    } else {
    }
  }

  lemma RunConserves(s: Node, now: nat)
    requires Inv(s)
    ensures Shape(RunStep(s, now)) && Conserved(RunStep(s, now))
  {
    hide Elapsed, Traced, Timely, RunningOk, Waiting;
    var s' := RunStep(s, now);
    if s'.served != s.served {
      var p := PollOf(s.holds[s.index]);
      assert SlotHolds(s, s.index);
      assert s'.served == s.served + [p] && s'.holds == s.holds[s.index := None] && s'.accepted == s.accepted;
      WaitingUpdate(s.holds, s.index, None);
      assert Bag(s.holds[s.index]) == multiset{p};
      hide *;
      MoveOne(multiset(s.accepted), s.served, p, Waiting(s.holds), Waiting(s'.holds));
    }
  }

  lemma MoveOne(all: multiset<Poll>, served: seq<Poll>, p: Poll, waiting: multiset<Poll>, waiting': multiset<Poll>)
    requires all == multiset(served) + waiting && waiting == waiting' + multiset{p}
    ensures all == multiset(served + [p]) + waiting'
  {
  }

  lemma AddKeeps(s: Node, ip: word, bottom: nat, top: nat, now: nat)
    requires Inv(s) && s.clock <= now
    ensures Inv(AddStep(s, ip, bottom, top, now))
  {
    hide Volleys, Volley, Waiting, Conserved;
    var s' := AddStep(s, ip, bottom, top, now);
    forall i | 0 <= i < QUEUE_SIZE
      ensures SlotHolds(s', i)
    {
      assert SlotHolds(s, i);
    }
    forall k | 0 <= k < |s'.trace|
      ensures Late(s', k)
    {
      assert Late(s, k);
    }
    assert SlotHolds(s, s.index);
    AddConserves(s, ip, bottom, top, now);
  }

  lemma AddConserves(s: Node, ip: word, bottom: nat, top: nat, now: nat)
    requires Inv(s)
    ensures Shape(AddStep(s, ip, bottom, top, now)) && Conserved(AddStep(s, ip, bottom, top, now))
  {
    hide Traced, Timely, RunningOk, Waiting;
    var s' := AddStep(s, ip, bottom, top, now);
    var i := Stop(s.queue, ip);
    if s'.accepted != s.accepted {
      var p := s'.accepted[|s.accepted|];
      assert SlotHolds(s, i);
      assert s'.accepted == s.accepted + [p] && s'.holds == s.holds[i := Some(p)] && s'.served == s.served;
      ConservedAppend(s, s', p, i);
    }
  }

  lemma ConservedAppend(s: Node, s': Node, p: Poll, i: nat)
    requires Shape(s) && Shape(s') && Conserved(s) && p.id == |s.accepted|
    requires i < QUEUE_SIZE && s.holds[i] == None
    requires s'.accepted == s.accepted + [p] && s'.holds == s.holds[i := Some(p)] && s'.served == s.served
    ensures Conserved(s')
  {
    hide Waiting;
    WaitingUpdate(s.holds, i, Some(p));
    assert Waiting(s'.holds) == Waiting(s.holds) + multiset{p};
  }

  // ---------- whole runs ----------

  datatype Step = Run(now: nat) | Add(ip: word, bottom: nat, top: nat, now: nat)

  /** The clock never runs backwards. */
  ghost predicate Ordered(clock: nat, steps: seq<Step>)
    decreases |steps|
  {
    steps == [] || (clock <= steps[0].now && Ordered(steps[0].now, steps[1..]))
  }

  ghost function StepOf(s: Node, step: Step): (s': Node)
    requires Shape(s)
    ensures Shape(s') && s'.ports == s.ports && s'.delay == s.delay && s'.clock == step.now
  {
    match step
    case Run(now) => RunStep(s, now)
    case Add(ip, bottom, top, now) => AddStep(s, ip, bottom, top, now)
  }

  ghost function Exec(s: Node, steps: seq<Step>): (s': Node)
    requires Shape(s)
    ensures Shape(s') && s'.ports == s.ports && s'.delay == s.delay
    decreases steps
  {
    if steps == [] then s else Exec(StepOf(s, steps[0]), steps[1..])
  }

  lemma {:induction false} ExecKeeps(s: Node, steps: seq<Step>)
    requires Inv(s) && Ordered(s.clock, steps)
    ensures Inv(Exec(s, steps))
    decreases steps
  {
    if steps != [] {
      match steps[0] {
        case Run(now) => RunKeeps(s, now);
        case Add(ip, bottom, top, now) => AddKeeps(s, ip, bottom, top, now);
      }
      hide Inv, Shape;
      ExecKeeps(StepOf(s, steps[0]), steps[1..]);
    }
  }

  lemma IndexBound(i: nat, j: nat, n: nat, ports: nat)
    requires i < n && j < ports
    ensures i * ports + j < n * ports
  {
    var k := n - i - 1;
    assert k * ports >= 0;
    assert n == k + i + 1;
  }

  lemma {:induction false} VolleysLength(polls: seq<Poll>, ports: nat)
    ensures |Volleys(polls, ports)| == |polls| * ports
  {
    if polls != [] {
      var n := |polls| - 1;
      VolleysLength(polls[..n], ports);
      assert |polls| * ports == n * ports + ports;
    }
  }

  lemma {:induction false} VolleysIndex(polls: seq<Poll>, ports: nat, i: nat, j: nat)
    requires i < |polls| && j < ports
    ensures i * ports + j < |polls| * ports == |Volleys(polls, ports)|
    ensures Volleys(polls, ports)[i * ports + j] == Sent(polls[i], j)
  {
    var n := |polls| - 1;
    VolleysLength(polls, ports);
    VolleysLength(polls[..n], ports);
    IndexBound(i, j, |polls|, ports);
    if i < n {
      VolleysIndex(polls[..n], ports, i, j);
    }
  }

  /** In every run: the reply number i * ports + j goes to the i-th answered poll and is that of port j; every
      reply leaves more than the delay after its poll arrived; each accepted poll is answered once or still held. */
  lemma RepliesOfEveryRun(ports: nat, delay: word, steps: seq<Step>)
    requires 0 < ports && Ordered(0, steps)
    ensures var s := Exec(Initial(ports, delay), steps);
            && (forall i, j | 0 <= i < |s.served| && 0 <= j < ports ::
                  i * ports + j < |s.trace| && s.trace[i * ports + j] == Sent(s.served[i], j))
            && |s.served| * ports <= |s.trace| < |s.served| * ports + ports
            && |s.times| == |s.trace| && (forall k :: 0 <= k < |s.trace| ==> s.times[k] > s.trace[k].poll.at + delay)
            && multiset(s.accepted) == multiset(s.served) + Waiting(s.holds)
            && (forall i, j :: 0 <= i < j < |s.served| ==> s.served[i] != s.served[j])
  {
    hide Initial, Exec, Inv, Ordered, Waiting;
    InitialInv(ports, delay);
    AtStart(ports, delay);
    ExecKeeps(Initial(ports, delay), steps);
    var s := Exec(Initial(ports, delay), steps);
    RepliesInOrder(s);
    RepliesLate(s);
    AllServedOnce(s);
  }

  lemma AtStart(ports: nat, delay: word)
    requires 0 < ports
    ensures var s := Initial(ports, delay); Shape(s) && s.ports == ports && s.delay == delay && s.clock == 0
  {
  }

  lemma RepliesInOrder(s: Node)
    requires Inv(s)
    ensures forall i, j | 0 <= i < |s.served| && 0 <= j < s.ports ::
              i * s.ports + j < |s.trace| && s.trace[i * s.ports + j] == Sent(s.served[i], j)
    ensures |s.served| * s.ports <= |s.trace| < |s.served| * s.ports + s.ports
  {
    hide Volleys, Waiting, Conserved, Timely, SlotHolds;
    forall i, j | 0 <= i < |s.served| && 0 <= j < s.ports
      ensures i * s.ports + j < |s.trace| && s.trace[i * s.ports + j] == Sent(s.served[i], j)
    {
      VolleysIndex(s.served, s.ports, i, j);
    }
    VolleysLength(s.served, s.ports);
  }

  lemma RepliesLate(s: Node)
    requires Inv(s)
    ensures |s.times| == |s.trace| && forall k :: 0 <= k < |s.trace| ==> s.times[k] > s.trace[k].poll.at + s.delay
  {
    hide Volleys, Waiting, Conserved, Traced, SlotHolds;
    forall k | 0 <= k < |s.trace|
      ensures s.times[k] > s.trace[k].poll.at + s.delay
    {
      assert Late(s, k);
    }
  }

  lemma AllServedOnce(s: Node)
    requires Inv(s)
    ensures multiset(s.accepted) == multiset(s.served) + Waiting(s.holds)
    ensures forall i, j :: 0 <= i < j < |s.served| ==> s.served[i] != s.served[j]
  {
    hide Volleys, Waiting, Timely, Traced, SlotHolds;
    forall i, j | 0 <= i < j < |s.served|
      ensures s.served[i] != s.served[j]
    {
      ServedOnce(s, i, j);
    }
  }

  lemma ServedOnce(s: Node, i: nat, j: nat)
    requires Inv(s) && i < j < |s.served|
    ensures s.served[i] != s.served[j]
  {
    var p := s.served[i];
    if p == s.served[j] {
      TwiceIn(s.served, i, j);
      assert multiset(s.accepted)[p] >= 2;
      var k :| 0 <= k < |s.accepted| && s.accepted[k] == p;
      OnceIn(s.accepted, k);
    }
  }

  lemma TwiceIn(polls: seq<Poll>, i: nat, j: nat)
    requires i < j < |polls| && polls[i] == polls[j]
    ensures multiset(polls)[polls[i]] >= 2
  {
    assert polls == polls[..j] + [polls[j]] + polls[j + 1..];
    assert polls[i] in polls[..j];
  }

  lemma OnceIn(polls: seq<Poll>, k: nat)
    requires k < |polls| && forall i :: 0 <= i < |polls| ==> polls[i].id == i
    ensures multiset(polls)[polls[k]] == 1
  {
    assert polls == polls[..k] + [polls[k]] + polls[k + 1..];
    assert polls[k] !in polls[..k] && polls[k] !in polls[k + 1..];
  }

  // ---------- draining ----------

  /** Every waiting poll's delay is over at time now. */
  ghost predicate Due(s: Node, now: nat)
    requires Shape(s)
  {
    forall i :: 0 <= i < QUEUE_SIZE && s.queue[i].millis != 0 ==> Elapsed(now, s.queue[i].millis) > s.delay
  }

  ghost predicate Empty(s: Node)
    requires Shape(s)
  {
    forall i :: 0 <= i < QUEUE_SIZE ==> s.queue[i].millis == 0
  }

  /** 1 when the slot d places ahead of the current one is occupied, else 0. */
  ghost function Ahead(s: Node, d: nat): nat
    requires Shape(s) && d < QUEUE_SIZE
  {
    var i := if s.index + d < QUEUE_SIZE then s.index + d else s.index + d - QUEUE_SIZE;
    if s.queue[i].millis != 0 then 1 else 0
  }

  ghost function Occupied(s: Node): nat
    requires Shape(s)
  {
    Ahead(s, 0) + Ahead(s, 1) + Ahead(s, 2) + Ahead(s, 3)
  }

  /** The ring distance to the farthest occupied slot. */
  ghost function Farthest(s: Node): nat
    requires Shape(s)
  {
    if Ahead(s, 3) == 1 then 3 else if Ahead(s, 2) == 1 then 2 else if Ahead(s, 1) == 1 then 1 else 0
  }

  /** Run calls until the queue is empty: ports + 1 for each waiting poll and one for each slot passed over,
      less what the poll under way has already had. */
  ghost function Remaining(s: Node): int
    requires Shape(s)
  {
    Occupied(s) * (s.ports + 1) + Farthest(s) - if s.running then 1 + s.port else 0
  }

  lemma RemainingBounds(s: Node)
    requires Inv(s)
    ensures 0 <= Remaining(s) <= 4 * (s.ports + 1) + 3
    ensures Remaining(s) == 0 <==> Empty(s)
  {
    hide Inv;
    InvShape(s);
    OccupiedZero(s);
    var n := Occupied(s);
    assert n == 0 || n == 1 || n == 2 || n == 3 || n == 4;
    assert Ahead(s, 0) == 1 || !s.running;
  }

  lemma SkipSpendsOne(s: Node, now: nat)
    requires Shape(s) && s.queue[s.index].millis == 0 && !s.running
    ensures Remaining(RunStep(s, now)) == if Occupied(s) == 0 then 0 else Remaining(s) - 1
  {
    var s' := RunStep(s, now);
    assert Ahead(s', 0) == Ahead(s, 1) && Ahead(s', 1) == Ahead(s, 2) && Ahead(s', 2) == Ahead(s, 3)
        && Ahead(s', 3) == Ahead(s, 0);
    assert Occupied(s') == Occupied(s);
  }

  lemma FinishSpendsOne(s: Node, now: nat)
    requires Shape(s) && s.queue[s.index].millis != 0 && s.running && s.port + 1 == s.ports
    ensures Remaining(RunStep(s, now)) == Remaining(s) - 1
  {
    var s' := RunStep(s, now);
    assert Ahead(s', 1) == Ahead(s, 1) && Ahead(s', 2) == Ahead(s, 2) && Ahead(s', 3) == Ahead(s, 3);
    assert Ahead(s, 0) == 1 && Ahead(s', 0) == 0 && Occupied(s) == Occupied(s') + 1;
    assert Occupied(s) * (s.ports + 1) == Occupied(s') * (s.ports + 1) + (s.ports + 1);
  }

  /** Starting a volley, or sending a reply that is not its last, leaves the queue as it is. */
  lemma SendSpendsOne(s: Node, now: nat)
    requires Shape(s) && s.queue[s.index].millis != 0
    requires if s.running then s.port + 1 < s.ports else Elapsed(now, s.queue[s.index].millis) > s.delay
    ensures Remaining(RunStep(s, now)) == Remaining(s) - 1
  {
    hide Elapsed;
    var s' := RunStep(s, now);
    assert s'.queue == s.queue && s'.index == s.index;
    assert Occupied(s') == Occupied(s) && Farthest(s') == Farthest(s);
  }

  /** Each Run call does exactly one unit of the remaining work. */
  lemma RunSpendsOne(s: Node, now: nat)
    requires Inv(s) && s.clock <= now && Due(s, now)
    ensures Remaining(RunStep(s, now)) == if Remaining(s) == 0 then 0 else Remaining(s) - 1
  {
    hide Inv, RunStep, Remaining, Elapsed, Ahead;
    RemainingBounds(s);
    InvShape(s);
    if s.queue[s.index].millis == 0 {
      SkipSpendsOne(s, now);
      OccupiedZero(s);
    } else if s.running && s.port + 1 == s.ports {
      FinishSpendsOne(s, now);
    } else {
      SendSpendsOne(s, now);
    }
  }

  lemma OccupiedZero(s: Node)
    requires Shape(s)
    ensures Occupied(s) == 0 <==> Empty(s)
  {
    if Occupied(s) == 0 {
      assert Ahead(s, 0) == 0 && Ahead(s, 1) == 0 && Ahead(s, 2) == 0 && Ahead(s, 3) == 0;
      assert s.queue[0].millis == 0 && s.queue[1].millis == 0 && s.queue[2].millis == 0 && s.queue[3].millis == 0;
    }
  }

  lemma RunKeepsDue(s: Node, now: nat, t: nat)
    requires Shape(s) && Due(s, t)
    ensures Due(RunStep(s, now), t)
  {
    hide Elapsed;
  }

  /** With no new polls and every delay over, the queue is empty after exactly Remaining(s) calls, at most
      4 * (ports + 1) + 3, and then every accepted poll has been answered in full, once. */
  lemma {:induction false} DrainsExactly(s: Node, steps: seq<Step>)
    requires Inv(s) && Ordered(s.clock, steps)
    requires forall k :: 0 <= k < |steps| ==> steps[k].Run? && Due(s, steps[k].now)
    ensures Inv(Exec(s, steps))
    ensures Empty(Exec(s, steps)) <==> Remaining(s) <= |steps|
    ensures Remaining(s) <= |steps| ==> multiset(Exec(s, steps).accepted) == multiset(Exec(s, steps).served)
    decreases steps
  {
    hide Inv, Remaining, Empty, Due, RunStep;
    InvShape(s);
    if steps == [] {
      RemainingBounds(s);
      if Remaining(s) <= 0 {
        EmptyIsServed(s);
      }
    } else {
      var now := steps[0].now;
      RunKeeps(s, now);
      RunSpendsOne(s, now);
      RemainingBounds(s);
      assert StepOf(s, steps[0]) == RunStep(s, now);
      forall k | 1 <= k < |steps|
        ensures Due(RunStep(s, now), steps[k].now)
      {
        RunKeepsDue(s, now, steps[k].now);
      }
      DrainsExactly(RunStep(s, now), steps[1..]);
    }
  }

  lemma EmptyIsServed(s: Node)
    requires Inv(s) && Empty(s)
    ensures multiset(s.accepted) == multiset(s.served)
  {
    assert SlotHolds(s, 0) && SlotHolds(s, 1) && SlotHolds(s, 2) && SlotHolds(s, 3);
    assert Waiting(s.holds) == multiset{};
  }

  // ---------- queueing ----------

  /** A poll is recorded exactly when a slot is empty with no earlier slot on the same address, and the
      millisecond clock does not read 0, the value that marks an empty slot. */
  lemma AddRecordsIff(s: Node, ip: word, bottom: nat, top: nat, now: nat)
    requires Inv(s)
    ensures |AddStep(s, ip, bottom, top, now).accepted| == |s.accepted| + 1
       <==> now % CLOCK_MODULUS != 0
            && exists i :: 0 <= i < QUEUE_SIZE && s.queue[i].millis == 0
                           && forall j :: 0 <= j < i ==> s.queue[j].millis != 0 ==> s.queue[j].ip != ip
  {
    hide Traced, Timely, Conserved, Volleys;
    var i := Stop(s.queue, ip);
    if i < QUEUE_SIZE && s.queue[i].millis == 0 {
      assert forall j :: 0 <= j < i ==> s.queue[j].ip != ip;
    }
  }

  /** Slot i was the first empty one, with no slot of the same address before it, and now holds exactly this; the other
      slots are as they were. */
  ghost predicate RecordedAt(
    queue: seq<Entry>, queue': seq<Entry>, i: nat, ip: word, bottom: nat, top: nat, now: nat)
    requires |queue| == |queue'| == QUEUE_SIZE && i < QUEUE_SIZE
  {
    && queue[i].millis == 0 && (forall j :: 0 <= j < i ==> queue[j].millis != 0 && queue[j].ip != ip)
    && queue'[i].millis == now % CLOCK_MODULUS && queue'[i].ip == ip
    && queue'[i].bottom == bottom && queue'[i].top == top
    && forall j :: 0 <= j < QUEUE_SIZE && j != i ==> queue'[j] == queue[j]
  }

  /** A recorded poll is the poll of this call: its address, its targets and its time, in one slot that was empty, with
      nothing else changed. One that is not recorded leaves the queue alone; only when the clock reads 0 an empty slot
      may get other fields, and stays empty. */
  ghost predicate Recording(
    queue: seq<Entry>, queue': seq<Entry>, holds: seq<Option<Poll>>, holds': seq<Option<Poll>>,
    accepted: seq<Poll>, accepted': seq<Poll>, ip: word, bottom: nat, top: nat, now: nat)
  {
    && |queue| == |queue'| == |holds| == |holds'| == QUEUE_SIZE
    && if |accepted'| == |accepted| then
         && accepted' == accepted && holds' == holds
         && forall j :: 0 <= j < QUEUE_SIZE ==>
              queue'[j] == queue[j] || (now % CLOCK_MODULUS == 0 && queue[j].millis == queue'[j].millis == 0)
       else
         && |accepted'| == |accepted| + 1 && accepted'[..|accepted|] == accepted
         && var p := accepted'[|accepted|];
            && p.ip == ip && p.bottom == bottom && p.top == top && p.at == now
            && exists i :: && 0 <= i < QUEUE_SIZE && RecordedAt(queue, queue', i, ip, bottom, top, now)
                           && holds[i] == None && holds' == holds[i := Some(p)]
  }

  lemma AddRecordsThisPoll(s: Node, ip: word, bottom: nat, top: nat, now: nat)
    requires Inv(s)
    ensures var s' := AddStep(s, ip, bottom, top, now);
            && Recording(s.queue, s'.queue, s.holds, s'.holds, s.accepted, s'.accepted, ip, bottom, top, now)
            && s'.served == s.served && s'.trace == s.trace && s'.times == s.times
            && s'.index == s.index && s'.running == s.running && s'.port == s.port
  {
    hide Traced, Timely, Conserved, Volleys, RunningOk;
    var i := Stop(s.queue, ip);
    var s' := AddStep(s, ip, bottom, top, now);
    if |s'.accepted| != |s.accepted| {
      assert SlotHolds(s, i);
      assert RecordedAt(s.queue, s'.queue, i, ip, bottom, top, now);
    }
  }

  /** No two waiting polls come from the same address. */
  ghost predicate OnePerAddress(s: Node)
    requires Shape(s)
  {
    forall i, j :: 0 <= i < j < QUEUE_SIZE && s.queue[i].millis != 0 && s.queue[j].millis != 0 ==>
                     s.queue[i].ip != s.queue[j].ip
  }

  /** The poll will be recorded in a slot below one that already holds its address. */
  ghost predicate LaterDuplicate(s: Node, ip: word, now: nat)
    requires Shape(s)
  {
    var i := Stop(s.queue, ip);
    && i < QUEUE_SIZE && s.queue[i].millis == 0 && now % CLOCK_MODULUS != 0
    && exists j :: i < j < QUEUE_SIZE && s.queue[j].millis != 0 && s.queue[j].ip == ip
  }

  /** The duplicate check only looks at slots before the first empty one: it keeps one poll per address exactly
      when no later slot already holds the address of the poll being recorded. */
  lemma AddKeepsOnePerAddressIff(s: Node, ip: word, bottom: nat, top: nat, now: nat)
    requires Inv(s) && OnePerAddress(s)
    ensures OnePerAddress(AddStep(s, ip, bottom, top, now)) <==> !LaterDuplicate(s, ip, now)
  {
    hide Traced, Timely, Conserved, Volleys;
    var i := Stop(s.queue, ip);
    var s' := AddStep(s, ip, bottom, top, now);
    if i < QUEUE_SIZE && s.queue[i].millis == 0 && now % CLOCK_MODULUS != 0 {
      assert s'.queue[i].ip == ip && s'.queue[i].millis != 0;
      if j :| i < j < QUEUE_SIZE && s.queue[j].millis != 0 && s.queue[j].ip == ip {
        assert s'.queue[j] == s.queue[j];
      }
    }
  }

  /** A run that reaches two waiting polls from address 2: the slot of address 1 empties first. */
  lemma DuplicateIsReachable()
    ensures var s := Exec(Initial(1, 0), [Add(1, 0, 0, 1), Add(2, 0, 0, 1), Run(2), Run(2), Add(2, 0, 0, 2)]);
            s.queue[0].millis != 0 && s.queue[1].millis != 0 && s.queue[0].ip == 2 == s.queue[1].ip
  {
    hide Exec, AddStep, RunStep, Stop;
    var s0 := Initial(1, 0);
    ExecFive(s0, Add(1, 0, 0, 1), Add(2, 0, 0, 1), Run(2), Run(2), Add(2, 0, 0, 2));
    TwoWait(s0);
    var s2 := AddStep(AddStep(s0, 1, 0, 0, 1), 2, 0, 0, 1);
    FirstAnswered(s2);
    var s4 := RunStep(RunStep(s2, 2), 2);
    TakenAtFront(s4);
  }

  lemma ExecFive(s: Node, a: Step, b: Step, c: Step, d: Step, e: Step)
    requires Shape(s)
    ensures Exec(s, [a, b, c, d, e]) == StepOf(StepOf(StepOf(StepOf(StepOf(s, a), b), c), d), e)
  {
    hide StepOf, Exec;
    var s1 := StepOf(s, a);
    var s2 := StepOf(s1, b);
    var s3 := StepOf(s2, c);
    ExecCons(s, a, [b, c, d, e]);
    ExecCons(s1, b, [c, d, e]);
    ExecCons(s2, c, [d, e]);
    ExecCons(s3, d, [e]);
    ExecCons(StepOf(s3, d), e, []);
    Listed(a, b, c, d, e);
  }

  lemma Listed<T>(a: T, b: T, c: T, d: T, e: T)
    ensures [a] + [b, c, d, e] == [a, b, c, d, e] && [b] + [c, d, e] == [b, c, d, e] && [c] + [d, e] == [c, d, e]
    ensures [d] + [e] == [d, e] && [e] + [] == [e]
  {
  }

  lemma ExecCons(s: Node, step: Step, rest: seq<Step>)
    requires Shape(s)
    ensures Exec(s, [step] + rest) == Exec(StepOf(s, step), rest) && forall t :: Shape(t) ==> Exec(t, []) == t
  {
    assert ([step] + rest)[1..] == rest;
  }

  lemma TwoWait(s0: Node)
    requires s0 == Initial(1, 0)
    ensures var s := AddStep(AddStep(s0, 1, 0, 0, 1), 2, 0, 0, 1);
            && s.queue == [Entry(1, 1, 0, 0), Entry(1, 2, 0, 0), Entry(0, 0, 0, 0), Entry(0, 0, 0, 0)]
            && |s.holds| == QUEUE_SIZE && s.ports == 1 && s.delay == 0 && s.index == 0 && !s.running
  {
    var s1 := AddStep(s0, 1, 0, 0, 1);
    assert s1.queue == [Entry(1, 1, 0, 0), Entry(0, 0, 0, 0), Entry(0, 0, 0, 0), Entry(0, 0, 0, 0)];
    assert Stop(s1.queue, 2) == 1;
  }

  lemma FirstAnswered(s: Node)
    requires s.queue == [Entry(1, 1, 0, 0), Entry(1, 2, 0, 0), Entry(0, 0, 0, 0), Entry(0, 0, 0, 0)]
    requires |s.holds| == QUEUE_SIZE && s.ports == 1 && s.delay == 0 && s.index == 0 && !s.running
    ensures var s' := RunStep(RunStep(s, 2), 2);
            s'.queue == [Entry(0, 1, 0, 0), Entry(1, 2, 0, 0), Entry(0, 0, 0, 0), Entry(0, 0, 0, 0)]
                && |s'.holds| == QUEUE_SIZE
  {
    assert RunStep(s, 2).running && RunStep(s, 2).port == 0;
  }

  lemma TakenAtFront(s: Node)
    requires s.queue == [Entry(0, 1, 0, 0), Entry(1, 2, 0, 0), Entry(0, 0, 0, 0), Entry(0, 0, 0, 0)]
            && |s.holds| == QUEUE_SIZE
    ensures AddStep(s, 2, 0, 0, 2).queue == [Entry(2, 2, 0, 0), Entry(1, 2, 0, 0), Entry(0, 0, 0, 0), Entry(0, 0, 0, 0)]
  {
    assert Stop(s.queue, 2) == 0;
  }

  // ---------- the node ----------

  class ArtNetNode {
    const ports: nat
    const delay: word
    const queue: array<Entry>
    var queueIndex: nat
    var running: bool
    var portIndex: nat
    ghost var holds: seq<Option<Poll>>
    ghost var accepted: seq<Poll>
    ghost var served: seq<Poll>
    ghost var trace: seq<Sent>
    ghost var times: seq<nat>
    ghost var clock: nat

    ghost function View(): Node
      reads this, queue
    {
      Node(ports, delay, queue[..], queueIndex, running, portIndex, holds, accepted, served, trace, times, clock)
    }

    ghost predicate Valid()
      reads this, queue
    {
      Inv(View())
    }

    /** The port index is a byte in the source, so there are at most 255 ports. */
    constructor (ports: nat, delay: word)
      requires 0 < ports <= 0xFF
      ensures Valid() && fresh(queue) && View() == Initial(ports, delay)
      ensures queueIndex == 0 && !running && portIndex == 0 && queue.Length == 4
      ensures forall i :: 0 <= i < 4 ==> queue[i] == Entry(0, 0, 0, 0)
    {
      this.ports, this.delay := ports, delay;
      queue := new Entry[QUEUE_SIZE](_ => Entry(0, 0, 0, 0));
      queueIndex, running, portIndex := 0, false, 0;
      holds, accepted, served, trace, times, clock := seq(QUEUE_SIZE, _ => None), [], [], [], [], 0;
      new;
      InitialInv(ports, delay);
      assert queue[..] == seq(QUEUE_SIZE, _ => Entry(0, 0, 0, 0));
    }

    /** A reply is one more event. Which ports are enabled and targeted is decided after this point. */
    ghost method SendPollReply(now: nat)
      requires queueIndex < |holds|
      modifies `trace, `times
      ensures trace == old(trace) + [Sent(PollOf(holds[queueIndex]), portIndex)] && times == old(times) + [now]
    {
      trace, times := trace + [Sent(PollOf(holds[queueIndex]), portIndex)], times + [now];
    }

    method Run(currentMillis: word, ghost now: nat)
      requires Valid() && clock <= now && currentMillis == now % CLOCK_MODULUS
      modifies this, queue
      ensures Valid() && View() == RunStep(old(View()), now)
    {
      hide Inv;
      RunKeeps(View(), now);
      InvShape(View());
      clock := now;
      var entry := queue[queueIndex];
      if entry.millis != 0 {
        if !running {
          if (currentMillis - entry.millis) % CLOCK_MODULUS > delay {
            running := true;
            portIndex := 0;
          }
        } else {
          SendPollReply(now);
          portIndex := portIndex + 1;
          if portIndex >= ports {
            queue[queueIndex] := entry.(millis := 0);
            running := false;
            served, holds := served + [PollOf(holds[queueIndex])], holds[queueIndex := None];
          }
        }
      } else {
        queueIndex := queueIndex + 1;
        if queueIndex == QUEUE_SIZE {
          queueIndex := 0;
        }
      }
      assert View() == RunStep(old(View()), now);
    }

    method PollReplyQueueAdd(ip: word, bottom: nat, top: nat, millis: word, ghost now: nat)
      requires Valid() && clock <= now && millis == now % CLOCK_MODULUS
      modifies this, queue
      ensures Valid() && View() == AddStep(old(View()), ip, bottom, top, now)
      ensures Recording(old(queue[..]), queue[..], old(holds), holds, old(accepted), accepted, ip, bottom, top, now)
      ensures served == old(served) && trace == old(trace) && times == old(times)
      ensures queueIndex == old(queueIndex) && running == old(running) && portIndex == old(portIndex)
    {
      hide Inv, Recording;
      AddRecordsThisPoll(View(), ip, bottom, top, now);
      AddKeeps(View(), ip, bottom, top, now);
      InvShape(View());
      clock := now;
      ghost var before := queue[..];
      var i := 0;
      while i < queue.Length
        invariant i <= queue.Length && Stop(before, ip) == i + Stop(before[i..], ip)
        invariant View() == old(View()).(clock := now)
      {
        var entry := queue[i];
        if entry.ip == ip && entry.millis != 0 {
          assert View() == AddStep(old(View()), ip, bottom, top, now);
          return;
        }
        if entry.millis == 0 {
          queue[i] := Entry(millis, ip, bottom, top);
          if millis != 0 {
            ghost var poll := Poll(|accepted|, ip, bottom, top, now);
            holds, accepted := holds[i := Some(poll)], accepted + [poll];
          }
          assert queue[..] == before[i := Entry(millis, ip, bottom, top)];
          assert View() == AddStep(old(View()), ip, bottom, top, now);
          return;
        }
        i := i + 1;
      }
    }
  }
}
