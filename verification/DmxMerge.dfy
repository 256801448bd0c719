/** The DMX data store: two sources for each port, merged into one output frame. */
module DmxMerge {
  import opened Words

  const UNIVERSE_SIZE := 512

  datatype MergeMode = Htp | Ltp

  datatype Source = A | B

  function Max(a: byte, b: byte): (r: byte)
    ensures a <= r && b <= r && (r == a || r == b)
  {
    if a < b then b else a
  }

  /** A universe of slots with the first ones replaced. */
  function Over(front: seq<byte>, back: seq<byte>): (r: seq<byte>)
    requires |front| <= |back|
    ensures |r| == |back|
    ensures forall i :: 0 <= i < |r| ==> r[i] == if i < |front| then front[i] else back[i]
  {
    front + back[|front|..]
  }

  /** One port as a value. */
  datatype Port = Port(a: seq<byte>, b: seq<byte>, data: seq<byte>, length: nat) {
    predicate Valid() {
      |a| == |b| == |data| == UNIVERSE_SIZE && length <= UNIVERSE_SIZE
    }
  }

  datatype Op =
    | Merge(source: Source, frame: seq<byte>, mode: MergeMode)
    | Clear
    | ClearLength
    | Restore(data: seq<byte>)

  /** Frames have at most 512 slots; a restored universe has exactly that many. */
  predicate Legal(op: Op) {
    match op
    case Merge(_, frame, _) => |frame| <= UNIVERSE_SIZE
    case Restore(data) => |data| == UNIVERSE_SIZE
    case _ => true
  }

  // ---------- what a history of calls means ----------

  /** The latest value that a source sent for a slot; zero, as in the zeroed object, if it sent none. */
  function Latest(history: seq<Op>, source: Source, slot: nat): byte {
    if history == [] then 0
    else
      var last := history[|history| - 1];
      if last.Merge? && last.source == source && slot < |last.frame| then last.frame[slot]
      else Latest(history[..|history| - 1], source, slot)
  }

  function LatestOfBoth(history: seq<Op>, slot: nat): byte {
    Max(Latest(history, A, slot), Latest(history, B, slot))
  }

  /** The frame length after a history: that of the last frame, unless the output was cleared later. */
  function LengthAfter(history: seq<Op>): (r: nat) {
    if history == [] then 0
    else
      match history[|history| - 1]
      case Merge(_, frame, _) => |frame|
      case Clear => UNIVERSE_SIZE
      case ClearLength => 0
      case Restore(_) => LengthAfter(history[..|history| - 1])
  }

  /** The output for one slot after a history: set by the last call that reached the slot. */
  function Output(history: seq<Op>, slot: nat): byte {
    if history == [] then 0
    else
      match history[|history| - 1]
      case Merge(_, frame, mode) =>
        if slot >= |frame| then Output(history[..|history| - 1], slot)
        else if mode == Htp then LatestOfBoth(history, slot)
        else frame[slot]
      case Clear => 0
      case ClearLength => Output(history[..|history| - 1], slot)
      case Restore(data) =>
        if slot < |data| then data[slot] else Output(history[..|history| - 1], slot)
  }

  ghost predicate AllLegal(history: seq<Op>) {
    forall i :: 0 <= i < |history| ==> Legal(history[i])
  }

  /** The port holds what the history says: both sources, the output, and the length. */
  ghost predicate Agrees(port: Port, history: seq<Op>) {
    && port.Valid()
    && port.length == LengthAfter(history)
    && (forall i :: 0 <= i < UNIVERSE_SIZE ==> port.a[i] == Latest(history, A, i))
    && (forall i :: 0 <= i < UNIVERSE_SIZE ==> port.b[i] == Latest(history, B, i))
    && (forall i :: 0 <= i < UNIVERSE_SIZE ==> port.data[i] == Output(history, i))
  }

  predicate Sends(op: Op, source: Source, slot: nat) {
    op.Merge? && op.source == source && slot < |op.frame|
  }

  /** The latest value is that of the last merge of the source that has the slot, and zero if there is none. */
  lemma {:induction false} LatestIs(history: seq<Op>, source: Source, slot: nat, j: int)
    requires -1 <= j < |history| && (j >= 0 ==> Sends(history[j], source, slot))
    requires forall k :: j < k < |history| ==> !Sends(history[k], source, slot)
    ensures Latest(history, source, slot) == if j >= 0 then history[j].frame[slot] else 0
  {
    if j < |history| - 1 {
      LatestIs(history[..|history| - 1], source, slot, j);
    }
  }

  predicate Sets(op: Op, slot: nat) {
    match op
    case Merge(_, frame, _) => slot < |frame|
    case Clear => true
    case ClearLength => false
    case Restore(data) => slot < |data|
  }

  /** The output is what the last call left there that has the slot: the frame's byte, zero, the restored byte, or for
      an HTP merge the larger of the values that the sources sent last up to then. */
  lemma {:induction false} OutputIs(history: seq<Op>, slot: nat, j: int)
    requires -1 <= j < |history| && (j >= 0 ==> Sets(history[j], slot))
    requires forall k :: j < k < |history| ==> !Sets(history[k], slot)
    ensures j < 0 ==> Output(history, slot) == 0
    ensures j >= 0 && history[j].Clear? ==> Output(history, slot) == 0
    ensures j >= 0 && history[j].Restore? ==> Output(history, slot) == history[j].data[slot]
    ensures j >= 0 && history[j].Merge? && history[j].mode == Ltp ==> Output(history, slot) == history[j].frame[slot]
    ensures j >= 0 && history[j].Merge? && history[j].mode == Htp ==>
              var a, b := Latest(history[..j + 1], A, slot), Latest(history[..j + 1], B, slot);
              && a <= Output(history, slot) && b <= Output(history, slot)
              && (Output(history, slot) == a || Output(history, slot) == b)
  {
    if j < |history| - 1 {
      OutputIs(history[..|history| - 1], slot, j);
      assert j >= 0 ==> history[..|history| - 1][..j + 1] == history[..j + 1];
    } else {
      assert history[..|history|] == history;
    }
  }

  ghost predicate HtpOnly(history: seq<Op>) {
    forall i :: 0 <= i < |history| ==> history[i].Merge? && history[i].mode == Htp
  }

  /** In a history of HTP merges the output of every slot is the larger of the latest values, however the lengths
      vary. */
  lemma {:induction false} HtpOutput(history: seq<Op>, slot: nat)
    requires HtpOnly(history)
    ensures Output(history, slot) == LatestOfBoth(history, slot)
  {
    if history != [] {
      HtpOutput(history[..|history| - 1], slot);
    }
  }

  lemma HtpOnlyIsPointwiseMax(history: seq<Op>, port: Port)
    requires HtpOnly(history) && Agrees(port, history)
    ensures forall i :: 0 <= i < UNIVERSE_SIZE ==> port.a[i] <= port.data[i] && port.b[i] <= port.data[i]
    ensures forall i :: 0 <= i < UNIVERSE_SIZE ==> port.data[i] == port.a[i] || port.data[i] == port.b[i]
  {
    forall i | 0 <= i < UNIVERSE_SIZE
      ensures port.data[i] == Max(port.a[i], port.b[i])
    {
      HtpOutput(history, i);
    }
  }

  /** The calls of one source alone. */
  function From(history: seq<Op>, source: Source): seq<Op> {
    if history == [] then []
    else
      var last := history[|history| - 1];
      From(history[..|history| - 1], source) + if last.Merge? && last.source == source then [last] else []
  }

  /** The latest value of a source depends on nothing but its own calls. */
  lemma {:induction false} LatestFrom(history: seq<Op>, source: Source, slot: nat)
    ensures Latest(history, source, slot) == Latest(From(history, source), source, slot)
  {
    if history != [] {
      var before, last := history[..|history| - 1], history[|history| - 1];
      LatestFrom(before, source, slot);
      if last.Merge? && last.source == source {
        assert From(history, source)[..|From(before, source)|] == From(before, source);
      } else {
        assert From(history, source) == From(before, source);
      }
    }
  }

  ghost predicate EndsWithHtp(history: seq<Op>) {
    history != [] && history[|history| - 1].Merge? && history[|history| - 1].mode == Htp
  }

  /** Arrival order does not matter to an HTP merge: after histories that interleave the same merges of the two sources
      in any two ways, with anything else between, each ending with an HTP merge, the outputs agree on every slot that
      both last frames have. */
  lemma HtpIgnoresInterleaving(first: seq<Op>, second: seq<Op>, slot: nat)
    requires EndsWithHtp(first) && EndsWithHtp(second)
    requires From(first, A) == From(second, A) && From(first, B) == From(second, B)
    requires slot < LengthAfter(first) && slot < LengthAfter(second)
    ensures Output(first, slot) == Output(second, slot)
  {
    hide Latest, From;
    LatestFrom(first, A, slot);
    LatestFrom(second, A, slot);
    LatestFrom(first, B, slot);
    LatestFrom(second, B, slot);
  }

  /** Order does matter after an LTP merge. */
  lemma LtpDependsOnOrder() returns (first: seq<Op>, second: seq<Op>)
    ensures AllLegal(first) && AllLegal(second) && LengthAfter(first) == LengthAfter(second) == 1
    ensures From(first, A) == From(second, A) && From(first, B) == From(second, B)
    ensures Output(first, 0) != Output(second, 0)
  {
    var x, y := Merge(A, [1], Ltp), Merge(B, [2], Ltp);
    first, second := [x, y], [y, x];
    FromTwo(x, y, A);
    FromTwo(x, y, B);
    FromTwo(y, x, A);
    FromTwo(y, x, B);
    assert first[1] == y && y.frame[0] == 2 && second[1] == x && x.frame[0] == 1;
  }

  lemma FromTwo(x: Op, y: Op, source: Source)
    requires x.Merge? && y.Merge?
    ensures From([x, y], source) == (if x.source == source then [x] else []) + (if y.source == source then [y] else [])
  {
    assert [x][..0] == [] && [x, y][..1] == [x];
    assert From([x], source) == From([], source) + if x.source == source then [x] else [];
  }

  ghost predicate Reached(merges: seq<Op>, slot: nat)
    requires HtpOnly(merges)
  {
    exists i :: 0 <= i < |merges| && slot < |merges[i].frame|
  }

  /** HTP merges after any history, a cleared or restored output among them: each slot they reach becomes the larger of
      the latest values, those sent before included; the others keep the output they had. */
  lemma {:induction false} HtpAfter(history: seq<Op>, merges: seq<Op>, slot: nat)
    requires HtpOnly(merges)
    ensures Output(history + merges, slot)
         == if Reached(merges, slot) then LatestOfBoth(history + merges, slot) else Output(history, slot)
    ensures Reached(merges, slot) ==>
              var a, b := Latest(history + merges, A, slot), Latest(history + merges, B, slot);
              && a <= Output(history + merges, slot) && b <= Output(history + merges, slot)
              && (Output(history + merges, slot) == a || Output(history + merges, slot) == b)
  {
    if merges == [] {
      assert history + merges == history;
    } else {
      var before, last := merges[..|merges| - 1], merges[|merges| - 1];
      HtpAfter(history, before, slot);
      assert (history + merges)[..|history + merges| - 1] == history + before;
      assert slot < |last.frame| ==> Reached(merges, slot);
      assert Reached(before, slot) ==> Reached(merges, slot) by {
        if Reached(before, slot) {
          var i :| 0 <= i < |before| && slot < |before[i].frame|;
          assert slot < |merges[i].frame|;
        }
      }
      assert slot >= |last.frame| && Reached(merges, slot) ==> Reached(before, slot) by {
        if slot >= |last.frame| && Reached(merges, slot) {
          var i :| 0 <= i < |merges| && slot < |merges[i].frame|;
          assert slot < |before[i].frame|;
        }
      }
    }
  }

  // ---------- one merge ----------

  /** The port that a merge makes of another. */
  ghost predicate Merged(port: Port, next: Port, source: Source, frame: seq<byte>, mode: MergeMode)
    requires port.Valid() && next.Valid() && |frame| <= UNIVERSE_SIZE
  {
    && next.length == |frame|
    && next.a == (if source == A then Over(frame, port.a) else port.a)
    && next.b == (if source == B then Over(frame, port.b) else port.b)
    && (forall i :: 0 <= i < |frame| ==> next.data[i] == if mode == Htp then Max(next.a[i], next.b[i]) else frame[i])
    && (forall i :: |frame| <= i < UNIVERSE_SIZE ==> next.data[i] == port.data[i])
  }

  lemma MergeAgrees(port: Port, next: Port, history: seq<Op>, source: Source, frame: seq<byte>, mode: MergeMode)
    requires Agrees(port, history) && next.Valid() && |frame| <= UNIVERSE_SIZE
            && Merged(port, next, source, frame, mode)
    ensures Agrees(next, history + [Merge(source, frame, mode)])
  {
    var op := Merge(source, frame, mode);
    var after := history + [op];
    assert after[..|after| - 1] == history;
    forall i | 0 <= i < UNIVERSE_SIZE
      ensures next.a[i] == Latest(after, A, i) && next.b[i] == Latest(after, B, i) && next.data[i] == Output(after, i)
    {
    }
  }

  lemma AgreesSources(port: Port, history: seq<Op>)
    requires Agrees(port, history)
    ensures |port.a| == |port.b| == UNIVERSE_SIZE
    ensures forall i :: 0 <= i < UNIVERSE_SIZE ==> port.a[i] == Latest(history, A, i)
    ensures forall i :: 0 <= i < UNIVERSE_SIZE ==> port.b[i] == Latest(history, B, i)
  {
  }

  lemma AgreesValid(port: Port, history: seq<Op>)
    requires Agrees(port, history)
    ensures port.Valid()
  {
  }

  lemma LegalStep(history: seq<Op>, op: Op)
    requires AllLegal(history) && Legal(op)
    ensures AllLegal(history + [op])
  {
  }

  // ---------- the store ----------

  class OutputPort {
    const sourceA: array<byte>
    const sourceB: array<byte>
    const data: array<byte>
    var length: nat
    ghost var history: seq<Op>

    ghost function Repr(): set<object> {
      {this, sourceA, sourceB, data}
    }

    ghost predicate Valid()
      reads Repr()
    {
      && sourceA != sourceB && sourceA != data && sourceB != data
      && sourceA.Length == sourceB.Length == data.Length == UNIVERSE_SIZE
      && AllLegal(history)
      && Agrees(Port(sourceA[..], sourceB[..], data[..], length), history)
    }

    /** A port in zeroed static memory. */
    constructor ()
      ensures Valid() && history == [] && fresh(Repr())
    {
      sourceA := new byte[UNIVERSE_SIZE](_ => 0);
      sourceB := new byte[UNIVERSE_SIZE](_ => 0);
      data := new byte[UNIVERSE_SIZE](_ => 0);
      length := 0;
      history := [];
    }

    /** IMergeSourceA; the frame is the first `length` bytes behind the data pointer. */
    method MergeSourceA(frame: seq<byte>, mode: MergeMode)
      requires Valid() && |frame| <= UNIVERSE_SIZE
      modifies this, sourceA, data
      ensures Valid() && history == old(history) + [Merge(A, frame, mode)]
      // Byte by byte: the source takes the frame; the output takes it too, or the larger of the two sources.
      ensures length == |frame| <= sourceA.Length == data.Length
      ensures forall i :: 0 <= i < |frame| ==> sourceA[i] == frame[i]
      ensures forall i :: |frame| <= i < data.Length ==> sourceA[i] == old(sourceA[i]) && data[i] == old(data[i])
      ensures mode == Ltp ==> forall i :: 0 <= i < |frame| ==> data[i] == frame[i]
      ensures mode == Htp ==> forall i :: 0 <= i < |frame| ==> sourceA[i] <= data[i] && sourceB[i] <= data[i]
      ensures mode == Htp ==> forall i :: 0 <= i < |frame| ==> data[i] == sourceA[i] || data[i] == sourceB[i]
      // And so it is the larger of the latest values of the two sources.
      ensures mode == Htp ==>
                forall i :: 0 <= i < |frame| ==> Latest(history, A, i) <= data[i] && Latest(history, B, i) <= data[i]
      ensures mode == Htp ==>
                forall i :: 0 <= i < |frame| ==> data[i] == Latest(history, A, i) || data[i] == Latest(history, B, i)
    {
      hide Agrees, AllLegal, Max;
      ghost var before := Port(sourceA[..], sourceB[..], data[..], length);
      assert before.Valid() by {
        AgreesValid(before, history);
      }
      Copy(sourceA, frame);
      length := |frame|;
      if mode == Htp {
        MergeHtp(sourceA, sourceB, data, |frame|);
      } else {
        Copy(data, frame);
      }
      MergeAgrees(before, Port(sourceA[..], sourceB[..], data[..], length), history, A, frame, mode);
      LegalStep(history, Merge(A, frame, mode));
      history := history + [Merge(A, frame, mode)];
      AgreesSources(Port(sourceA[..], sourceB[..], data[..], length), history);
    }

    /** IMergeSourceB; the frame is the first `length` bytes behind the data pointer. */
    method MergeSourceB(frame: seq<byte>, mode: MergeMode)
      requires Valid() && |frame| <= UNIVERSE_SIZE
      modifies this, sourceB, data
      ensures Valid() && history == old(history) + [Merge(B, frame, mode)]
      // Byte by byte: the source takes the frame; the output takes it too, or the larger of the two sources.
      ensures length == |frame| <= sourceB.Length == data.Length
      ensures forall i :: 0 <= i < |frame| ==> sourceB[i] == frame[i]
      ensures forall i :: |frame| <= i < data.Length ==> sourceB[i] == old(sourceB[i]) && data[i] == old(data[i])
      ensures mode == Ltp ==> forall i :: 0 <= i < |frame| ==> data[i] == frame[i]
      ensures mode == Htp ==> forall i :: 0 <= i < |frame| ==> sourceA[i] <= data[i] && sourceB[i] <= data[i]
      ensures mode == Htp ==> forall i :: 0 <= i < |frame| ==> data[i] == sourceA[i] || data[i] == sourceB[i]
      // And so it is the larger of the latest values of the two sources.
      ensures mode == Htp ==>
                forall i :: 0 <= i < |frame| ==> Latest(history, A, i) <= data[i] && Latest(history, B, i) <= data[i]
      ensures mode == Htp ==>
                forall i :: 0 <= i < |frame| ==> data[i] == Latest(history, A, i) || data[i] == Latest(history, B, i)
    {
      hide Agrees, AllLegal, Max;
      ghost var before := Port(sourceA[..], sourceB[..], data[..], length);
      assert before.Valid() by {
        AgreesValid(before, history);
      }
      Copy(sourceB, frame);
      length := |frame|;
      if mode == Htp {
        MergeHtp(sourceA, sourceB, data, |frame|);
      } else {
        Copy(data, frame);
      }
      MergeAgrees(before, Port(sourceA[..], sourceB[..], data[..], length), history, B, frame, mode);
      LegalStep(history, Merge(B, frame, mode));
      history := history + [Merge(B, frame, mode)];
      AgreesSources(Port(sourceA[..], sourceB[..], data[..], length), history);
    }

    /** The output goes to zero and to full length; the sources keep what they hold. */
    method ClearData()
      requires Valid()
      modifies this, data
      ensures Valid() && history == old(history) + [Clear]
      ensures length == data.Length == 512 && forall i :: 0 <= i < data.Length ==> data[i] == 0
    {
      for i := 0 to UNIVERSE_SIZE
        invariant forall k :: 0 <= k < i ==> data[k] == 0
        modifies data
      {
        data[i] := 0;
      }
      length := UNIVERSE_SIZE;
      history := history + [Clear];
    }

    method RestoreData(universe: seq<byte>)
      requires Valid() && |universe| == UNIVERSE_SIZE
      modifies this, data
      ensures Valid() && history == old(history) + [Restore(universe)]
      ensures length == old(length) && data[..] == universe
    {
      Copy(data, universe);
      history := history + [Restore(universe)];
    }

    method ZeroLength()
      requires Valid()
      modifies this
      ensures Valid() && history == old(history) + [ClearLength] && length == 0
    {
      length := 0;
      history := history + [ClearLength];
    }
  }

  /** The data store: all ports, none sharing memory with another. Each call adds itself to the history of one port
      and keeps every port in agreement with its own history. */
  class Data {
    const ports: seq<OutputPort>

    constructor (ports: seq<OutputPort>)
      requires forall i :: 0 <= i < |ports| ==> ports[i].Valid()
      requires forall i, j :: 0 <= i < j < |ports| ==> ports[i].Repr() !! ports[j].Repr()
      ensures this.ports == ports && Valid()
    {
      this.ports := ports;
    }

    ghost predicate Valid()
      reads this, set i, o | 0 <= i < |ports| && o in ports[i].Repr() :: o
    {
      && (forall i :: 0 <= i < |ports| ==> ports[i].Valid())
      && (forall i, j :: 0 <= i < j < |ports| ==> ports[i].Repr() !! ports[j].Repr())
    }

    /** Every port other than this one has the history it had. */
    twostate predicate OthersKept(portIndex: nat)
      reads ports
    {
      forall i :: 0 <= i < |ports| && i != portIndex ==> ports[i].history == old(ports[i].history)
    }

    method MergeSourceA(portIndex: nat, frame: seq<byte>, mode: MergeMode)
      requires Valid() && portIndex < |ports| && |frame| <= UNIVERSE_SIZE
      modifies ports[portIndex].Repr()
      ensures Valid() && OthersKept(portIndex)
      ensures ports[portIndex].history == old(ports[portIndex].history) + [Merge(A, frame, mode)]
      ensures mode == Htp ==>
                var data, history := ports[portIndex].data, ports[portIndex].history;
                && data.Length == UNIVERSE_SIZE
                && (forall i :: 0 <= i < |frame| ==>
                      Latest(history, A, i) <= data[i] && Latest(history, B, i) <= data[i])
                && forall i :: 0 <= i < |frame| ==>
                     data[i] == Latest(history, A, i) || data[i] == Latest(history, B, i)
    {
      hide Agrees, AllLegal;
      ports[portIndex].MergeSourceA(frame, mode);
    }

    method MergeSourceB(portIndex: nat, frame: seq<byte>, mode: MergeMode)
      requires Valid() && portIndex < |ports| && |frame| <= UNIVERSE_SIZE
      modifies ports[portIndex].Repr()
      ensures Valid() && OthersKept(portIndex)
      ensures ports[portIndex].history == old(ports[portIndex].history) + [Merge(B, frame, mode)]
      ensures mode == Htp ==>
                var data, history := ports[portIndex].data, ports[portIndex].history;
                && data.Length == UNIVERSE_SIZE
                && (forall i :: 0 <= i < |frame| ==>
                      Latest(history, A, i) <= data[i] && Latest(history, B, i) <= data[i])
                && forall i :: 0 <= i < |frame| ==>
                     data[i] == Latest(history, A, i) || data[i] == Latest(history, B, i)
    {
      hide Agrees, AllLegal;
      ports[portIndex].MergeSourceB(frame, mode);
    }

    method SetSourceA(portIndex: nat, frame: seq<byte>)
      requires Valid() && portIndex < |ports| && |frame| <= UNIVERSE_SIZE
      modifies ports[portIndex].Repr()
      ensures Valid() && OthersKept(portIndex)
      ensures ports[portIndex].history == old(ports[portIndex].history) + [Merge(A, frame, Ltp)]
    {
      hide Agrees, AllLegal;
      ports[portIndex].MergeSourceA(frame, Ltp);
    }

    method SetSourceB(portIndex: nat, frame: seq<byte>)
      requires Valid() && portIndex < |ports| && |frame| <= UNIVERSE_SIZE
      modifies ports[portIndex].Repr()
      ensures Valid() && OthersKept(portIndex)
      ensures ports[portIndex].history == old(ports[portIndex].history) + [Merge(B, frame, Ltp)]
    {
      hide Agrees, AllLegal;
      ports[portIndex].MergeSourceB(frame, Ltp);
    }

    method ClearOutput(portIndex: nat)
      requires Valid() && portIndex < |ports|
      modifies ports[portIndex].Repr()
      ensures Valid() && OthersKept(portIndex)
      ensures ports[portIndex].history == old(ports[portIndex].history) + [Clear]
    {
      hide Agrees, AllLegal;
      ports[portIndex].ClearData();
    }

    method ClearOutputLength(portIndex: nat)
      requires Valid() && portIndex < |ports|
      modifies ports[portIndex].Repr()
      ensures Valid() && OthersKept(portIndex)
      ensures ports[portIndex].history == old(ports[portIndex].history) + [ClearLength]
    {
      hide Agrees, AllLegal;
      ports[portIndex].ZeroLength();
    }

    method RestoreOutput(portIndex: nat, universe: seq<byte>)
      requires Valid() && portIndex < |ports| && |universe| == UNIVERSE_SIZE
      modifies ports[portIndex].Repr()
      ensures Valid() && OthersKept(portIndex)
      ensures ports[portIndex].history == old(ports[portIndex].history) + [Restore(universe)]
    {
      hide Agrees, AllLegal;
      ports[portIndex].RestoreData(universe);
    }

    method GetLength(portIndex: nat) returns (length: nat)
      requires Valid() && portIndex < |ports|
      ensures length == LengthAfter(ports[portIndex].history)
    {
      length := ports[portIndex].length;
    }
  }

  /** memcpy to the start of a buffer. */
  method Copy(target: array<byte>, frame: seq<byte>)
    requires |frame| <= target.Length
    modifies target
    ensures target[..] == Over(frame, old(target[..]))
  {
    for i := 0 to |frame|
      invariant target[..i] == frame[..i] && target[i..] == old(target[i..])
    {
      target[i] := frame[i];
    }
  }

  /** The HTP loop over the first n slots. */
  method MergeHtp(a: array<byte>, b: array<byte>, data: array<byte>, n: nat)
    requires n <= a.Length && a.Length == b.Length == data.Length && data != a && data != b
    modifies data
    ensures forall i :: 0 <= i < n ==> a[i] <= data[i] && b[i] <= data[i] && (data[i] == a[i] || data[i] == b[i])
    ensures forall i :: 0 <= i < n ==> data[i] == Max(a[i], b[i])
    ensures data[n..] == old(data[n..])
  {
    for i := 0 to n
      invariant forall k :: 0 <= k < i ==> data[k] == Max(a[k], b[k])
      invariant data[i..] == old(data[i..])
    {
      data[i] := Max(a[i], b[i]);
    }
  }
}
