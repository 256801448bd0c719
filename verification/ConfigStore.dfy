/** The configuration store: a RAM image written back to flash by a state machine that any update restarts. */
module ConfigStore {
  import opened Words

  const STORE_SIZE: nat := 4096
  const FIELDS_START: nat := 16
  const HEADER: seq<bv8> := [0x41, 0x76, 0x56, 0x00, 0x00, 0x01]

  datatype State = Idle | Changed | ChangedWaiting | Erasing | ErasedWaiting | Erased | Writing

  type Image = s: seq<bv8> | |s| == STORE_SIZE witness Repeat(0, STORE_SIZE)

  /** `used` is the size of the ConfigurationStore structure. `flash` is the store's region of the device,
      `erasedWith` the RAM image at the last completed erase unless it has changed since, and `committed` the
      region as it was at the last completed write, or at start-up. */
  datatype Config = Config(
    used: nat, haveDevice: bool, store: Image, state: State,
    flash: Image, erasedWith: seq<Image>, committed: Image)

  const BLANK: Image := Repeat(0xFF, STORE_SIZE)
  const ZEROS: Image := Repeat(0, STORE_SIZE)

  function Default(): (r: Image) {
    HEADER + ZEROS[|HEADER|..]
  }

  predicate IsValid(store: Image) {
    store[..|HEADER|] == HEADER
  }

  // ---------- the device contract ----------

  /** An Erase call that has finished leaves the region blank; one that has not may leave anything there. */
  ghost predicate EraseResult(image: Image, done: bool) {
    done ==> image == BLANK
  }

  /** Programming only clears bits, and only bits that are clear in the data. */
  ghost predicate Programmed(before: bv8, after: bv8, data: bv8, done: bool) {
    && after & before == after && after & data == before & data
    && (done ==> after == before & data)
  }

  ghost predicate WriteResult(before: Image, image: Image, data: seq<bv8>, done: bool) {
    && |data| <= STORE_SIZE
    && (forall i :: 0 <= i < |data| ==> Programmed(before[i], image[i], data[i], done))
    && (forall i :: |data| <= i < STORE_SIZE ==> image[i] == before[i])
  }

  // ---------- the machine ----------

  datatype Event =
    | Update(store: Image)
    | Reset
    | Flash(image: Image, done: bool)

  ghost predicate Allowed(c: Config, e: Event)
    requires c.used <= STORE_SIZE
  {
    match e
    case Update(store) => store[..FIELDS_START] == c.store[..FIELDS_START]
    case Reset => true
    case Flash(image, done) =>
      c.haveDevice ==>
        && (c.state == Erasing ==> EraseResult(image, done))
        && (c.state == Writing ==> WriteResult(c.flash, image, c.store[..c.used], done))
  }

  ghost function SetChanged(c: Config, store: Image): Config {
    c.(store := store, state := Changed, erasedWith := [])
  }

  ghost function FlashStep(c: Config, image: Image, done: bool): Config {
    if !c.haveDevice then c
    else
      match c.state
      case Idle => c
      case Changed => c.(state := ChangedWaiting)
      case ChangedWaiting => c.(state := Erasing)
      case Erasing =>
        if done then c.(flash := image, state := ErasedWaiting, erasedWith := [c.store]) else c.(flash := image)
      case ErasedWaiting => c.(state := Erased)
      case Erased => c.(state := Writing)
      case Writing =>
        if done then c.(flash := image, state := Idle, committed := image) else c.(flash := image)
  }

  ghost function StepOf(c: Config, e: Event): Config {
    match e
    case Update(store) => if store == c.store then c else SetChanged(c, store)
    case Reset => SetChanged(c, ZEROS)
    case Flash(image, done) => FlashStep(c, image, done)
  }

  /** Start-up from what is in the flash. */
  ghost function Boot(used: nat, flash: Image): Config {
    var c := Config(used, true, flash, Idle, flash, [], flash);
    if IsValid(flash) then c else SetChanged(c, Default())
  }

  /** The bits still to be programmed are still set in the flash, and nothing lies beyond the structure. */
  ghost predicate Programmable(c: Config)
    requires c.used <= STORE_SIZE
  {
    && (forall i :: 0 <= i < c.used ==> c.flash[i] & c.store[i] == c.store[i])
    && (forall i :: c.used <= i < STORE_SIZE ==> c.flash[i] == 0xFF)
  }

  ghost predicate Inv(c: Config) {
    && |HEADER| <= c.used <= STORE_SIZE && c.haveDevice
    && (c.state == Idle ==> c.flash[..c.used] == c.store[..c.used] && c.flash == c.committed)
    && (c.state in {ErasedWaiting, Erased} ==> c.flash == BLANK)
    && (c.state == Writing ==> Programmable(c))
    && (c.state in {ErasedWaiting, Erased, Writing} ==> c.erasedWith == [c.store])
  }

  lemma BootInv(used: nat, flash: Image)
    requires |HEADER| <= used <= STORE_SIZE
    ensures Inv(Boot(used, flash)) && IsValid(Boot(used, flash).store)
  {
    assert Default()[..|HEADER|] == HEADER;
  }

  lemma BlankIsProgrammable(c: Config)
    requires c.used <= STORE_SIZE && c.flash == BLANK
    ensures Programmable(c)
  {
    forall i | 0 <= i < c.used
      ensures c.flash[i] & c.store[i] == c.store[i]
    {
      assert c.flash[i] == 0xFF;
    }
  }

  /** A finished write of a programmable image makes the flash agree with the RAM image. */
  lemma WriteCompletes(c: Config, image: Image, done: bool)
    requires c.used <= STORE_SIZE && Programmable(c) && WriteResult(c.flash, image, c.store[..c.used], done)
    ensures Programmable(c.(flash := image))
    ensures done ==> image[..c.used] == c.store[..c.used]
  {
    forall i | 0 <= i < c.used
      ensures image[i] & c.store[i] == c.store[i]
      ensures done ==> image[i] == c.store[i]
    {
      assert Programmed(c.flash[i], image[i], c.store[..c.used][i], done);
    }
  }

  lemma StepKeeps(c: Config, e: Event)
    requires Inv(c) && Allowed(c, e)
    ensures Inv(StepOf(c, e))
  {
    if e.Flash? {
      if c.state == Erased {
        BlankIsProgrammable(c.(state := Writing));
      } else if c.state == Writing {
        WriteCompletes(c, e.image, e.done);
      }
    }
  }

  /** A write completes only over an erase that completed with this very RAM image, and then the flash holds it. */
  lemma CompletedWriteFollowsErase(c: Config, e: Event)
    requires Inv(c) && Allowed(c, e) && e.Flash? && c.state == Writing && StepOf(c, e).state == Idle
    ensures c.erasedWith == [c.store] && StepOf(c, e).store == c.store
    ensures StepOf(c, e).flash[..c.used] == c.store[..c.used] && StepOf(c, e).flash[c.used..] == BLANK[c.used..]
  {
    WriteCompletes(c, e.image, e.done);
  }

  /** The way from a change to the flash, call by call, on a device that completes each operation at once. */
  lemma CommitPath(c: Config, any: Image, written: Image)
    requires Inv(c) && c.state == Changed && WriteResult(BLANK, written, c.store[..c.used], true)
    ensures var tick, erase, write := Flash(any, false), Flash(BLANK, true), Flash(written, true);
            var run := [tick, tick, erase, tick, tick, write];
            && Trace(c, run)
            && After(c, run, 1).state == ChangedWaiting && After(c, run, 2).state == Erasing
            && After(c, run, 3).state == ErasedWaiting && After(c, run, 4).state == Erased
            && After(c, run, 5).state == Writing
            && End(c, run).state == Idle && End(c, run).flash == written && End(c, run).store == c.store
  {
    hide After, WriteResult, EraseResult, StepOf, Allowed, Inv;
    var tick, erase, write := Flash(any, false), Flash(BLANK, true), Flash(written, true);
    var run := [tick, tick, erase, tick, tick, write];
    SixSteps(c, any, written);
    AfterNext(c, run, 0);
    AfterNext(c, run, 1);
    AfterNext(c, run, 2);
    AfterNext(c, run, 3);
    AfterNext(c, run, 4);
    AfterNext(c, run, 5);
    assert Happens(c, run, 0) && Happens(c, run, 1) && Happens(c, run, 2);
    assert Happens(c, run, 3) && Happens(c, run, 4) && Happens(c, run, 5);
  }

  lemma SixSteps(c: Config, any: Image, written: Image)
    requires Inv(c) && c.state == Changed && WriteResult(BLANK, written, c.store[..c.used], true)
    ensures var tick, erase, write := Flash(any, false), Flash(BLANK, true), Flash(written, true);
            var c1 := StepOf(c, tick);
            var c2 := StepOf(c1, tick);
            var c3 := StepOf(c2, erase);
            var c4 := StepOf(c3, tick);
            var c5 := StepOf(c4, tick);
            var c6 := StepOf(c5, write);
            && c.used <= STORE_SIZE && c1.used == c2.used == c3.used == c4.used == c5.used == c.used
            && Allowed(c, tick) && Allowed(c1, tick) && Allowed(c2, erase)
            && Allowed(c3, tick) && Allowed(c4, tick) && Allowed(c5, write)
            && c1.state == ChangedWaiting && c2.state == Erasing && c3.state == ErasedWaiting
            && c4.state == Erased && c5.state == Writing
            && c6.state == Idle && c6.flash == written && c6.store == c.store
  {
    hide WriteResult;
    BlankIsErased();
  }

  lemma BlankIsErased()
    ensures EraseResult(BLANK, true)
  {
  }

  lemma AfterNext(c: Config, run: seq<Event>, k: nat)
    requires k < |run|
    ensures After(c, run, 0) == c && After(c, run, k + 1) == StepOf(After(c, run, k), run[k])
  {
  }

  /** Nothing but an operation still under way keeps a Flash call from taking the next of the six steps. */
  lemma OneStepPerCall(c: Config, image: Image, done: bool)
    requires Inv(c) && Allowed(c, Flash(image, done)) && c.state != Idle
    ensures var c' := StepOf(c, Flash(image, done));
            if c.state in {Erasing, Writing} && !done then c' == c.(flash := image)
            else Rank(c'.state) == Rank(c.state) - 1 && c'.store == c.store
  {
  }

  // ---------- whole runs ----------

  /** The configuration after the first k events of a run. */
  ghost function After(c: Config, run: seq<Event>, k: nat): Config
    requires k <= |run|
  {
    if k == 0 then c else StepOf(After(c, run, k - 1), run[k - 1])
  }

  ghost function End(c: Config, run: seq<Event>): Config {
    After(c, run, |run|)
  }

  ghost predicate Happens(c: Config, run: seq<Event>, k: nat)
    requires k < |run|
  {
    var now := After(c, run, k);
    now.used <= STORE_SIZE && Allowed(now, run[k])
  }

  /** Every event is one that is allowed when it happens. */
  ghost predicate Trace(c: Config, run: seq<Event>) {
    forall k {:trigger Happens(c, run, k)} :: 0 <= k < |run| ==> Happens(c, run, k)
  }

  lemma {:induction false} TraceKeeps(c: Config, run: seq<Event>, k: nat)
    requires Inv(c) && Trace(c, run) && k <= |run|
    ensures Inv(After(c, run, k)) && After(c, run, k).used == c.used
  {
    hide Inv;
    if k > 0 {
      TraceKeeps(c, run, k - 1);
      assert Happens(c, run, k - 1);
      StepKeeps(After(c, run, k - 1), run[k - 1]);
    }
  }

  /** In every interleaving from start-up, the idle state means that the flash holds the structure as it is in RAM. */
  lemma IdleMeansCommitted(used: nat, flash: Image, run: seq<Event>)
    requires |HEADER| <= used <= STORE_SIZE && Trace(Boot(used, flash), run)
    ensures var c := End(Boot(used, flash), run);
            c.state == Idle ==> c.flash[..used] == c.store[..used]
  {
    BootInv(used, flash);
    TraceKeeps(Boot(used, flash), run, |run|);
  }

  /** Event number k is a Flash call in which the device reports that the operation of this state is complete. */
  ghost predicate Completes(c: Config, run: seq<Event>, k: nat, state: State)
    requires k < |run|
  {
    run[k].Flash? && run[k].done && After(c, run, k).haveDevice && After(c, run, k).state == state
  }

  /** The store is the same after every number of events from i to j. */
  ghost predicate StoreFixed(c: Config, run: seq<Event>, i: nat, j: nat)
    requires i <= j <= |run|
  {
    forall k :: i <= k <= j ==> After(c, run, k).store == After(c, run, j).store
  }

  /** Wherever a run is erased or writing, it has completed an erase before, and the store has not changed since. */
  lemma {:induction false} ErasedSince(c: Config, run: seq<Event>, j: nat) returns (i: nat)
    requires j <= |run| && c.state in {Idle, Changed}
    requires After(c, run, j).state in {ErasedWaiting, Erased, Writing}
    ensures i < j && Completes(c, run, i, Erasing) && StoreFixed(c, run, i + 1, j)
  {
    var before := After(c, run, j - 1);
    if before.state == Erasing {
      i := j - 1;
    } else {
      i := ErasedSince(c, run, j - 1);
      assert After(c, run, j).store == before.store;
    }
  }

  /** In every interleaving from start-up, each completed write comes after a completed erase, with the store unchanged
      from that erase to the end of the write, and leaves the flash holding it. */
  lemma WriteFollowsErase(used: nat, flash: Image, run: seq<Event>, j: nat) returns (i: nat)
    requires |HEADER| <= used <= STORE_SIZE
    requires var c := Boot(used, flash); Trace(c, run) && j < |run| && Completes(c, run, j, Writing)
    ensures var c := Boot(used, flash);
            && i < j && Completes(c, run, i, Erasing) && StoreFixed(c, run, i + 1, j + 1)
            && After(c, run, j + 1).flash[..used] == After(c, run, j + 1).store[..used]
  {
    var c := Boot(used, flash);
    i := ErasedSince(c, run, j);
    BootInv(used, flash);
    TraceKeeps(c, run, j);
    hide Inv, StepOf, Boot;
    assert Happens(c, run, j);
    CompletedStep(After(c, run, j), run[j]);
    StoreStays(c, run, i + 1, j);
  }

  lemma CompletedStep(c: Config, e: Event)
    requires Inv(c) && Allowed(c, e) && e.Flash? && e.done && c.state == Writing && c.haveDevice
    ensures StepOf(c, e).store == c.store && StepOf(c, e).flash[..c.used] == c.store[..c.used]
  {
    CompletedWriteFollowsErase(c, e);
  }

  lemma StoreStays(c: Config, run: seq<Event>, i: nat, j: nat)
    requires i <= j < |run| && StoreFixed(c, run, i, j) && After(c, run, j + 1).store == After(c, run, j).store
    ensures StoreFixed(c, run, i, j + 1)
  {
    hide After;
    forall k | i <= k <= j + 1
      ensures After(c, run, k).store == After(c, run, j + 1).store
    {
      assert k <= j ==> After(c, run, k).store == After(c, run, j).store;
    }
  }

  // ---------- restart ----------

  /** Erase and write as atomic operations: an unfinished call changes nothing. */
  ghost predicate Atomic(c: Config, e: Event) {
    e.Flash? && c.state in {Erasing, Writing} && !e.done ==> e.image == c.flash
  }

  ghost predicate AtomicTrace(c: Config, run: seq<Event>) {
    forall k {:trigger Happens(c, run, k)} :: 0 <= k < |run| ==> Happens(c, run, k) && Atomic(After(c, run, k), run[k])
  }

  ghost predicate WholeOrBlank(c: Config) {
    (c.flash == c.committed || c.flash == BLANK) && (c.state == Writing ==> c.flash == BLANK)
  }

  lemma {:induction false} AtomicTraceKeepsWhole(c: Config, run: seq<Event>, k: nat)
    requires Inv(c) && AtomicTrace(c, run) && WholeOrBlank(c) && k <= |run|
    ensures WholeOrBlank(After(c, run, k))
  {
    if k > 0 {
      AtomicTraceKeepsWhole(c, run, k - 1);
      TraceKeeps(c, run, k - 1);
      assert Happens(c, run, k - 1);
    }
  }

  /** With atomic operations, a restart at any point of any run starts from the image last written in full, if
      that is a valid one, or else from the default store, which it then commits anew. */
  lemma RestartLoadsCommittedOrDefault(used: nat, flash: Image, run: seq<Event>)
    requires |HEADER| <= used <= STORE_SIZE && AtomicTrace(Boot(used, flash), run)
    ensures var c := End(Boot(used, flash), run);
            var b := Boot(used, c.flash);
            || (b.store == c.committed && IsValid(c.committed) && b.state == Idle)
            || (b.store == Default() && b.state == Changed)
  {
    BootInv(used, flash);
    AtomicTraceKeepsWhole(Boot(used, flash), run, |run|);
    assert BLANK[0] != HEADER[0];
    assert !IsValid(BLANK) by {
      assert BLANK[..|HEADER|][0] == BLANK[0];
    }
  }

  /** The header stays cleared after a Reset, whatever is updated later: no update touches it. */
  lemma {:induction false} NoHeaderAfterReset(c: Config, run: seq<Event>, k: nat)
    requires Trace(c, run) && !IsValid(c.store) && k <= |run|
    ensures !IsValid(After(c, run, k).store)
  {
    if k > 0 {
      NoHeaderAfterReset(c, run, k - 1);
      assert Happens(c, run, k - 1);
      var now, next, e := After(c, run, k - 1), After(c, run, k), run[k - 1];
      if e.Update? {
        assert next.store[..|HEADER|] == next.store[..FIELDS_START][..|HEADER|];
        assert now.store[..|HEADER|] == now.store[..FIELDS_START][..|HEADER|];
      } else if e.Reset? {
        assert ZEROS[..|HEADER|][0] == 0 && HEADER[0] == 0x41;
      }
    }
  }

  /** A restart after a committed Reset loads the default store, even if fields were updated, and committed, between
      the Reset and the restart. */
  lemma CommittedResetLoadsDefault(c: Config, run: seq<Event>)
    requires Inv(c) && Trace(StepOf(c, Reset), run) && End(StepOf(c, Reset), run).state == Idle
    ensures Boot(c.used, End(StepOf(c, Reset), run).flash).store == Default()
  {
    var r := StepOf(c, Reset);
    assert ZEROS[..|HEADER|][0] == 0 && HEADER[0] == 0x41;
    NoHeaderAfterReset(r, run, |run|);
    TraceKeeps(r, run, |run|);
    var c' := End(r, run);
    assert c'.flash[..|HEADER|] == c'.flash[..c'.used][..|HEADER|];
    assert c'.store[..|HEADER|] == c'.store[..c'.used][..|HEADER|];
  }

  // ---------- field updates ----------

  /** The store with the bytes from offset replaced. */
  function Spliced(store: Image, offset: nat, bytes: seq<bv8>): (r: Image)
    requires offset + |bytes| <= STORE_SIZE
  {
    store[..offset] + bytes + store[offset + |bytes|..]
  }

  /** The number of source bytes that an array field of n bytes takes. */
  function Cut(src: seq<bv8>, n: nat): nat {
    if |src| > n then n else |src|
  }

  /** An array field of n bytes given src: the source cut to n, the rest zero. */
  function Padded(src: seq<bv8>, n: nat): (r: seq<bv8>)
    ensures |r| == n && forall i :: 0 <= i < n ==> r[i] == if i < |src| then src[i] else 0
  {
    if n <= |src| then src[..n] else src + Repeat(0, n - |src|)
  }

  /** UpdateArray compares the source bytes only, so a source that is a prefix of what is stored changes nothing. */
  function ArrayUpdated(store: Image, offset: nat, n: nat, src: seq<bv8>): (r: Image)
    requires offset + n <= STORE_SIZE
  {
    var length := Cut(src, n);
    if store[offset..offset + length] == src[..length] then store else Spliced(store, offset, Padded(src, n))
  }

  /** The array field holds the padded source afterwards exactly when the source differs from the stored bytes it
      is compared with, or the field was already zero behind them. */
  lemma UpdateArrayStoresIff(store: Image, offset: nat, n: nat, src: seq<bv8>)
    requires offset + n <= STORE_SIZE
    ensures ArrayUpdated(store, offset, n, src)[offset..offset + n] == Padded(src, n) <==>
              (store[offset..offset + Cut(src, n)] != src[..Cut(src, n)]
               || store[offset + Cut(src, n)..offset + n] == Repeat(0, n - Cut(src, n)))
  {
    var length := Cut(src, n);
    var field := store[offset..offset + n];
    assert field[..length] == store[offset..offset + length] && field[length..] == store[offset + length..offset + n];
    assert Padded(src, n)[..length] == src[..length] && Padded(src, n)[length..] == Repeat(0, n - length);
    assert field == field[..length] + field[length..];
    assert Spliced(store, offset, Padded(src, n))[offset..offset + n] == Padded(src, n);
  }

  lemma SplicedByIndex(before: Image, after: Image, offset: nat, bytes: seq<bv8>)
    requires offset + |bytes| <= STORE_SIZE
    requires forall i :: 0 <= i < STORE_SIZE ==>
               after[i] == if offset <= i < offset + |bytes| then bytes[i - offset] else before[i]
    ensures after == Spliced(before, offset, bytes)
  {
  }

  /** Byte by byte: the value in its place, every other byte as it was. */
  ghost predicate FieldWritten(before: Image, after: Image, offset: nat, value: seq<bv8>) {
    forall i :: 0 <= i < STORE_SIZE ==>
      after[i] == if offset <= i < offset + |value| then value[i - offset] else before[i]
  }

  lemma SplicedBytes(store: Image, offset: nat, bytes: seq<bv8>)
    requires offset + |bytes| <= STORE_SIZE
    ensures FieldWritten(store, Spliced(store, offset, bytes), offset, bytes)
  {
  }

  /** Byte by byte: nothing outside the field changes, and nothing at all when the field starts with the source, as far
      as it goes; otherwise the field holds what fits of the source, and zeros behind it. */
  ghost predicate ArrayWritten(before: Image, after: Image, offset: nat, n: nat, src: seq<bv8>) {
    && (forall i :: 0 <= i < STORE_SIZE && !(offset <= i < offset + n) ==> after[i] == before[i])
    && if forall k :: offset <= k < offset + n && k < offset + |src| && k < STORE_SIZE
                      ==> before[k] == src[k - offset] then
         after == before
       else
         && after != before
         && forall i :: offset <= i < offset + n && i < STORE_SIZE ==>
              after[i] == if i < offset + |src| then src[i - offset] else 0
  }

  lemma ArrayUpdatedBytes(store: Image, offset: nat, n: nat, src: seq<bv8>)
    requires offset + n <= STORE_SIZE
    ensures ArrayWritten(store, ArrayUpdated(store, offset, n, src), offset, n, src)
  {
    hide Spliced;
    var length := Cut(src, n);
    SplicedBytes(store, offset, Padded(src, n));
    var field, front := store[offset..offset + length], src[..length];
    if field == front {
      forall k | offset <= k < offset + length
        ensures store[k] == src[k - offset]
      {
        assert field[k - offset] == front[k - offset];
      }
    } else {
      var j :| 0 <= j < length && field[j] != front[j];
      assert store[offset + j] != src[offset + j - offset];
      assert Spliced(store, offset, Padded(src, n))[offset + j] == src[j];
    }
  }

  lemma SplicedPrefix(before: Image, offset: nat, bytes: seq<bv8>, length: nat)
    requires FIELDS_START <= offset && offset + |bytes| <= STORE_SIZE && length <= |bytes|
    ensures Spliced(before, offset, bytes)[offset..offset + length] == bytes[..length]
    ensures Spliced(before, offset, bytes)[..FIELDS_START] == before[..FIELDS_START]
  {
  }

  // ---------- the classes ----------

  /** A device that answers within its contract, each operation after finitely many unfinished calls. */
  class Device {
    var flash: Image
    var busy: nat

    constructor (flash: Image)
      ensures this.flash == flash
    {
      this.flash, busy := flash, 0;
    }

    method Erase() returns (done: bool)
      modifies this
      ensures EraseResult(flash, done) && (!done ==> busy < old(busy))
    {
      done := *;
      if busy == 0 || done {
        flash, busy, done := BLANK, *, true;
      } else {
        flash := *;
        busy := busy - 1;
      }
    }

    method Write(data: seq<bv8>) returns (done: bool)
      requires |data| <= STORE_SIZE
      modifies this
      ensures WriteResult(old(flash), flash, data, done) && (!done ==> busy < old(busy))
    {
      hide Programming, WriteResult, Programmed;
      done := *;
      var pending: seq<bv8> := *;
      if busy == 0 || done {
        pending, busy, done := Repeat(0, |data|), *, true;
      } else {
        pending := if |pending| == |data| then pending else data;
        busy := busy - 1;
      }
      ProgramResult(flash, data, pending, done);
      flash := Programming(flash, data, pending);
    }
  }

  /** The image with the bits cleared that are clear in the data and not pending. */
  function Programming(before: Image, data: seq<bv8>, pending: seq<bv8>): (r: Image)
    requires |data| == |pending| <= STORE_SIZE
  {
    seq(STORE_SIZE, i requires 0 <= i < STORE_SIZE =>
          if i < |data| then before[i] & (data[i] | pending[i]) else before[i])
  }

  lemma ProgramResult(before: Image, data: seq<bv8>, pending: seq<bv8>, done: bool)
    requires |data| == |pending| <= STORE_SIZE && (done ==> pending == Repeat(0, |data|))
    ensures WriteResult(before, Programming(before, data, pending), data, done)
  {
    hide Programmed;
    forall i | 0 <= i < |data|
      ensures Programmed(before[i], Programming(before, data, pending)[i], data[i], done)
    {
      ProgramMask(before[i], data[i], pending[i], done);
    }
  }

  lemma ProgramMask(before: bv8, data: bv8, pending: bv8, done: bool)
    requires done ==> pending == 0
    ensures Programmed(before, before & (data | pending), data, done)
  {
  }

  /** The letters AvV, a NUL, and the version 0, 1. */
  predicate BeginsWithHeader(store: Image) {
    && store[0] == 0x41 && store[1] == 0x76 && store[2] == 0x56 && store[3] == 0x00
    && store[4] == 0x00 && store[5] == 0x01
  }

  lemma ValidBegins(store: Image)
    requires IsValid(store)
    ensures BeginsWithHeader(store)
  {
    var header := store[..|HEADER|];
    assert header[0] == store[0] && header[1] == store[1] && header[2] == store[2];
    assert header[3] == store[3] && header[4] == store[4] && header[5] == store[5];
  }

  class ConfigStore {
    const used: nat
    const device: Device
    const haveDevice: bool
    const store: array<bv8>
    var state: State
    ghost var erasedWith: seq<Image>
    ghost var committed: Image

    ghost predicate Valid()
      reads this, store, device
    {
      && |HEADER| <= used <= STORE_SIZE && store.Length == STORE_SIZE
      && (haveDevice ==> Inv(View()))
    }

    ghost function View(): Config
      reads this, store, device
      requires store.Length == STORE_SIZE
    {
      Config(used, haveDevice, store[..], state, device.flash, erasedWith, committed)
    }

    constructor (used: nat, device: Device, haveDevice: bool)
      requires |HEADER| <= used <= STORE_SIZE
      ensures Valid() && fresh(store) && this.device == device && this.haveDevice == haveDevice && this.used == used
      ensures haveDevice ==> View() == Boot(used, device.flash)
      ensures !haveDevice ==> View() == Config(used, false, ZEROS, Idle, device.flash, [], device.flash)
      // Byte by byte: the flash if its header is right, else the header over zeros.
      ensures haveDevice ==>
                if forall i :: 0 <= i < 6 ==> device.flash[i] == HEADER[i] then
                  state == Idle && forall i :: 0 <= i < STORE_SIZE ==> store[i] == device.flash[i]
                else
                  state == Changed && forall i :: 0 <= i < STORE_SIZE ==> store[i] == if i < 6 then HEADER[i] else 0
      ensures store.Length == 4096
      ensures haveDevice ==> BeginsWithHeader(store[..])
    {
      hide Inv, BeginsWithHeader;
      this.used, this.device, this.haveDevice := used, device, haveDevice;
      store := new bv8[STORE_SIZE](_ => 0);
      state, erasedWith, committed := Idle, [], device.flash;
      new;
      if haveDevice {
        forall i | 0 <= i < STORE_SIZE {
          store[i] := device.flash[i];
        }
        assert store[..] == device.flash;
        if store[..|HEADER|] != HEADER {
          forall i | 0 <= i < STORE_SIZE {
            store[i] := if i < |HEADER| then HEADER[i] else 0;
          }
          assert store[..] == Default();
          SetStatusChanged();
        }
        BootInv(used, device.flash);
        ValidBegins(store[..]);
      } else {
        assert store[..] == ZEROS;
      }
    }

    method SetStatusChanged()
      modifies `state, `erasedWith
      ensures state == Changed && erasedWith == []
    {
      state, erasedWith := Changed, [];
    }

    method Reset()
      requires Valid()
      modifies this, store
      ensures Valid() && View() == StepOf(old(View()), Event.Reset)
      ensures state == Changed && forall i :: 0 <= i < store.Length ==> store[i] == 0
    {
      forall i | 0 <= i < STORE_SIZE {
        store[i] := 0;
      }
      SetStatusChanged();
      assert store[..] == ZEROS;
    }

    /** Update and Store: replace a field by a value of the same size, if it differs. */
    method UpdateField(offset: nat, value: seq<bv8>)
      requires Valid() && FIELDS_START <= offset && offset + |value| <= used
      modifies this, store
      ensures Valid() && store[..] == Spliced(old(store[..]), offset, value)
      ensures FieldWritten(old(store[..]), store[..], offset, value)
      ensures state == if store[..] == old(store[..]) then old(state) else Changed
      ensures View() == StepOf(old(View()), Event.Update(store[..]))
    {
      hide Inv;
      ghost var before := store[..];
      if store[offset..offset + |value|] != value {
        forall i | 0 <= i < |value| {
          store[offset + i] := value[i];
        }
        SetStatusChanged();
        SplicedByIndex(before, store[..], offset, value);
        SplicedPrefix(before, offset, value, |value|);
      } else {
        SplicedByIndex(before, before, offset, value);
      }
      SplicedBytes(before, offset, value);
      if haveDevice {
        StepKeeps(old(View()), Event.Update(store[..]));
      }
    }

    /** Clear the n bytes of an array field, then copy what fits of the source. */
    method FillArray(offset: nat, n: nat, src: seq<bv8>)
      requires store.Length == STORE_SIZE && offset + n <= STORE_SIZE
      modifies store
      ensures store[..] == Spliced(old(store[..]), offset, Padded(src, n))
    {
      ghost var before := store[..];
      forall i | 0 <= i < n {
        store[offset + i] := 0;
      }
      forall i | 0 <= i < Cut(src, n) {
        store[offset + i] := src[i];
      }
      SplicedByIndex(before, store[..], offset, Padded(src, n));
    }

    method UpdateArray(offset: nat, n: nat, src: seq<bv8>)
      requires Valid() && FIELDS_START <= offset && offset + n <= used
      modifies this, store
      ensures Valid() && store[..] == ArrayUpdated(old(store[..]), offset, n, src)
      ensures ArrayWritten(old(store[..]), store[..], offset, n, src)
      ensures state == if store[..] == old(store[..]) then old(state) else Changed
      ensures View() == StepOf(old(View()), Event.Update(store[..]))
    {
      hide Inv, Padded, Spliced, ArrayWritten;
      ghost var before := store[..];
      ArrayUpdatedBytes(before, offset, n, src);
      var length := Cut(src, n);
      if store[offset..offset + length] != src[..length] {
        FillArray(offset, n, src);
        SetStatusChanged();
        SplicedPrefix(before, offset, Padded(src, n), length);
      }
      if haveDevice {
        StepKeeps(old(View()), Event.Update(store[..]));
      }
    }

    /** One call of Flash. The ghost result is the device's part in it. */
    method Commit() returns (more: bool, ghost e: Event)
      requires Valid()
      modifies this, device
      ensures e.Flash? && Allowed(old(View()), e) && View() == StepOf(old(View()), e)
      ensures Valid() && more == (haveDevice && state != Idle)
      ensures more ==> Rank(state) < Rank(old(state)) || (state == old(state) && device.busy < old(device.busy))
    {
      hide Inv, EraseResult, WriteResult;
      e := Event.Flash(device.flash, false);
      if state == Idle {
        return false, e;
      }
      if !haveDevice {
        return false, e;
      }
      StepKeepsAll(View());
      match state {
        case Changed =>
          state := ChangedWaiting;
          more := true;
        case ChangedWaiting =>
          state := Erasing;
          more := true;
        case Erasing =>
          var done := device.Erase();
          if done {
            state, erasedWith := ErasedWaiting, [store[..]];
          }
          e := Event.Flash(device.flash, done);
          more := true;
        case ErasedWaiting =>
          state := Erased;
          more := true;
        case Erased =>
          state := Writing;
          more := true;
        case Writing =>
          var done := device.Write(store[..used]);
          e := Event.Flash(device.flash, done);
          if done {
            state, committed := Idle, device.flash;
          }
          more := !done;
        case Idle =>
          more := false;
      }
    }
  }

  function Rank(state: State): nat {
    match state
    case Idle => 0
    case Writing => 1
    case Erased => 2
    case ErasedWaiting => 3
    case Erasing => 4
    case ChangedWaiting => 5
    case Changed => 6
  }

  lemma StepKeepsAll(c: Config)
    requires Inv(c)
    ensures forall e :: Allowed(c, e) ==> Inv(StepOf(c, e))
  {
    forall e | Allowed(c, e)
      ensures Inv(StepOf(c, e))
    {
      StepKeeps(c, e);
    }
  }

  /** Committing ends, and with a device it ends idle with the RAM image in the flash. */
  method ConfigstoreCommit(cs: ConfigStore)
    requires cs.Valid()
    modifies cs, cs.device
    ensures cs.Valid() && cs.store[..] == old(cs.store[..])
    ensures if cs.haveDevice then cs.state == Idle && cs.device.flash[..cs.used] == cs.store[..cs.used]
            else cs.View() == old(cs.View())
  {
    ghost var e: Event;
    var more;
    more, e := cs.Commit();
    while more
      invariant cs.Valid() && cs.store[..] == old(cs.store[..])
      invariant more == (cs.haveDevice && cs.state != Idle)
      invariant !cs.haveDevice ==> cs.View() == old(cs.View())
      decreases Rank(cs.state), cs.device.busy
    {
      more, e := cs.Commit();
    }
  }
}
