/** What a restart of the configuration store loads when the device may be caught in the middle of an operation. */
module ConfigRestart {
  import opened ConfigStore
  import opened Words

  // ---------- interrupted operations ----------

  /** The device call that last touched the region: a completed one, an erase still under way, or a write of this data
      still under way. */
  datatype Tear = Intact | TornErase | TornWrite(data: Image)

  ghost function TearAfter(c: Config, run: seq<Event>, k: nat): Tear
    requires k <= |run|
  {
    if k == 0 then Intact
    else
      var now, e := After(c, run, k - 1), run[k - 1];
      if e.Flash? && now.haveDevice && now.state == Erasing then if e.done then Intact else TornErase
      else if e.Flash? && now.haveDevice && now.state == Writing then if e.done then Intact else TornWrite(now.store)
      else TearAfter(c, run, k - 1)
  }

  ghost predicate SameEvent(e: Event, e': Event) {
    e == e' || (e.Flash? && e'.Flash? && e.done == e'.done)
  }

  /** The same events up to what the device leaves in the region. */
  ghost predicate SameCalls(run: seq<Event>, run': seq<Event>) {
    |run| == |run'| && forall k :: 0 <= k < |run| ==> SameEvent(run[k], run'[k])
  }

  /** A restart loads the store last written in full (or found at start-up), or the default one. */
  ghost predicate LoadsWhole(c: Config)
  {
    var s := Boot(c.used, c.flash).store;
    s == c.committed || s == Default()
  }

  /** A valid header over blank fields. */
  function BlankFields(): (r: Image)
    ensures r[..|HEADER|] == HEADER && forall i :: |HEADER| <= i < STORE_SIZE ==> r[i] == 0xFF
  {
    HEADER + BLANK[|HEADER|..]
  }

  /** What an unfinished write of the data may leave of a blank region. */
  ghost predicate Writable(data: Image, used: nat, image: Image) {
    && (forall i :: 0 <= i < STORE_SIZE && i < used ==> image[i] & data[i] == data[i])
    && (forall i :: used <= i < STORE_SIZE ==> image[i] == 0xFF)
  }

  /** The region as the last call that touched it may have left it. */
  ghost predicate CanLeave(c: Config, tear: Tear, image: Image) {
    match tear
    case Intact => image == c.flash
    case TornErase => true
    case TornWrite(data) => Writable(data, c.used, image)
  }

  ghost predicate TearInv(c: Config, tear: Tear) {
    && CanLeave(c, tear, c.flash)
    && (c.store[..|HEADER|] == HEADER || c.store[..|HEADER|] == ZEROS[..|HEADER|])
    && match tear
       case Intact =>
         && (c.flash == c.committed || c.flash == BLANK)
         && (c.state in {ErasedWaiting, Erased, Writing} ==> c.flash == BLANK)
       case TornErase => c.state !in {ErasedWaiting, Erased, Writing}
       case TornWrite(data) =>
         && c.state !in {ErasedWaiting, Erased} && (c.state == Writing ==> data == c.store)
         && (data[..|HEADER|] == HEADER || data[..|HEADER|] == ZEROS[..|HEADER|])
  }

  ghost predicate Touches(c: Config, e: Event) {
    e.Flash? && c.haveDevice && c.state in {Erasing, Writing}
  }

  lemma HeaderStays(c: Config, e: Event)
    requires c.used <= STORE_SIZE && Allowed(c, e)
    requires c.store[..|HEADER|] == HEADER || c.store[..|HEADER|] == ZEROS[..|HEADER|]
    ensures var s := StepOf(c, e).store; s[..|HEADER|] == HEADER || s[..|HEADER|] == ZEROS[..|HEADER|]
  {
    if e.Update? {
      assert e.store[..|HEADER|] == e.store[..FIELDS_START][..|HEADER|];
      assert c.store[..|HEADER|] == c.store[..FIELDS_START][..|HEADER|];
    }
  }

  lemma WriteStaysWritable(c: Config, data: Image, image: Image)
    requires c.used <= STORE_SIZE && Writable(data, c.used, c.flash)
    requires WriteResult(c.flash, image, data[..c.used], false)
    ensures Writable(data, c.used, image)
  {
    forall i | 0 <= i < c.used
      ensures image[i] & data[i] == data[i]
    {
      assert Programmed(c.flash[i], image[i], data[..c.used][i], false);
    }
  }

  lemma BlankIsWritable(data: Image, used: nat)
    ensures Writable(data, used, BLANK)
  {
    forall i | 0 <= i < STORE_SIZE
      ensures BLANK[i] & data[i] == data[i] && BLANK[i] == 0xFF
    {
      assert BLANK[i] == 0xFF;
    }
  }

  lemma TearStep(c: Config, run: seq<Event>, k: nat)
    requires 0 < k <= |run|
    requires var now := After(c, run, k - 1);
             Inv(now) && Allowed(now, run[k - 1]) && TearInv(now, TearAfter(c, run, k - 1))
    ensures TearInv(After(c, run, k), TearAfter(c, run, k))
  {
    hide Writable, WriteResult, Programmable;
    var now, e := After(c, run, k - 1), run[k - 1];
    HeaderStays(now, e);
    if Touches(now, e) && now.state == Writing && !e.done {
      if TearAfter(c, run, k - 1) == Intact {
        BlankIsWritable(now.store, now.used);
      }
      WriteStaysWritable(now, now.store, e.image);
    }
  }

  lemma {:induction false} TearKept(used: nat, flash: Image, run: seq<Event>, k: nat)
    requires |HEADER| <= used <= STORE_SIZE && Trace(Boot(used, flash), run) && k <= |run|
    ensures var c := Boot(used, flash);
            Inv(After(c, run, k)) && After(c, run, k).used == used && TearInv(After(c, run, k), TearAfter(c, run, k))
  {
    var c := Boot(used, flash);
    BootInv(used, flash);
    TraceKeeps(c, run, k);
    if k == 0 {
      assert Default()[..|HEADER|] == HEADER;
    } else {
      TearKept(used, flash, run, k - 1);
      hide Inv, TearInv, After, TearAfter, Boot;
      assert Happens(c, run, k - 1);
      TearStep(c, run, k);
    }
  }

  // ---------- when a restart is safe ----------

  /** After a completed operation; or during a write that can only leave the one image that is committed already. */
  ghost predicate Safe(used: nat, tear: Tear, committed: Image) {
    match tear
    case Intact => true
    case TornErase => false
    case TornWrite(data) =>
      (forall i :: |HEADER| <= i < used && i < STORE_SIZE ==> data[i] == 0xFF) && committed == BlankFields()
  }

  lemma SafeLoadsWhole(c: Config, tear: Tear)
    requires Inv(c) && TearInv(c, tear) && Safe(c.used, tear, c.committed)
    ensures LoadsWhole(c)
  {
    if tear.TornWrite? && IsValid(c.flash) {
      forall i | 0 <= i < STORE_SIZE
        ensures c.flash[i] == BlankFields()[i]
      {
        if i < |HEADER| {
          assert c.flash[i] == c.flash[..|HEADER|][i] == BlankFields()[..|HEADER|][i];
        } else if i < c.used {
          assert c.flash[i] & tear.data[i] == tear.data[i] == 0xFF;
        }
      }
      assert c.flash == BlankFields();
    }
    assert BLANK[..|HEADER|][0] == 0xFF && HEADER[0] == 0x41;
  }

  /** A valid image that is neither the committed nor the default store: blank fields, or with another byte in place. */
  function OtherImage(committed: Image, at: nat, value: bv8): (image: Image)
    requires |HEADER| <= at < STORE_SIZE && value != 0xFF
    ensures image[..|HEADER|] == HEADER && image != committed && image != Default()
    ensures forall i :: |HEADER| <= i < STORE_SIZE && i != at ==> image[i] == 0xFF
    ensures image == BlankFields() || (committed == BlankFields() && image[at] == value)
  {
    var image := if committed == BlankFields() then BlankFields()[at := value] else BlankFields();
    assert image[at] != committed[at] || image != committed;
    var j: nat := if at == |HEADER| then |HEADER| + 1 else |HEADER|;
    assert image[j] == 0xFF && Default()[j] == 0;
    image
  }

  lemma OtherIsNotWhole(c: Config, image: Image)
    requires |HEADER| <= c.used <= STORE_SIZE
    requires image[..|HEADER|] == HEADER && image != c.committed && image != Default()
    ensures !LoadsWhole(c.(flash := image))
  {
  }

  /** Another image that the last call may have left, and that is neither the committed nor the default store. */
  lemma UnsafeImage(c: Config, tear: Tear) returns (image: Image)
    requires Inv(c) && TearInv(c, tear) && !Safe(c.used, tear, c.committed)
    ensures CanLeave(c, tear, image) && !LoadsWhole(c.(flash := image))
  {
    hide LoadsWhole, OtherImage, BlankFields, Default;
    var at: nat := |HEADER|;
    var value: bv8 := 0xFE;
    if tear.TornWrite? && c.committed == BlankFields() {
      var i :| |HEADER| <= i < c.used && i < STORE_SIZE && tear.data[i] != 0xFF;
      at, value := i, tear.data[i];
    }
    image := OtherImage(c.committed, at, value);
    OtherIsNotWhole(c, image);
    if tear.TornWrite? {
      HeaderIsWritable(tear.data, c.used);
      OtherIsWritable(tear.data, c.used, image, at);
    }
  }

  lemma OtherIsWritable(data: Image, used: nat, image: Image, at: nat)
    requires Writable(data, used, BlankFields()) && |HEADER| <= at < STORE_SIZE
    requires image[..|HEADER|] == HEADER && forall i :: |HEADER| <= i < STORE_SIZE && i != at ==> image[i] == 0xFF
    requires image == BlankFields() || (at < used && image[at] == data[at])
    ensures Writable(data, used, image)
  {
    forall i | 0 <= i < STORE_SIZE && i < used
      ensures image[i] & data[i] == data[i]
    {
      if i < |HEADER| {
        assert image[i] == image[..|HEADER|][i] == BlankFields()[..|HEADER|][i] == BlankFields()[i];
      } else if i == at {
        assert data[i] & data[i] == data[i];
      }
    }
    if image != BlankFields() {
      assert at < used;
    }
  }

  lemma HeaderIsWritable(data: Image, used: nat)
    requires |HEADER| <= used && (data[..|HEADER|] == HEADER || data[..|HEADER|] == ZEROS[..|HEADER|])
    ensures Writable(data, used, BlankFields())
  {
    forall i | 0 <= i < STORE_SIZE
      ensures BlankFields()[i] & data[i] == data[i]
    {
      if i < |HEADER| {
        assert BlankFields()[i] == BlankFields()[..|HEADER|][i] == HEADER[i];
        assert data[i] == data[..|HEADER|][i];
        assert ZEROS[..|HEADER|][i] == 0;
      }
    }
  }

  lemma {:induction false} AfterExtended(c: Config, run: seq<Event>, e: Event, k: nat)
    requires k <= |run|
    ensures After(c, run + [e], k) == After(c, run, k)
  {
    if k > 0 {
      AfterExtended(c, run, e, k - 1);
    }
  }

  lemma TraceExtended(c: Config, run: seq<Event>, e: Event)
    requires Trace(c, run) && End(c, run).used <= STORE_SIZE && Allowed(End(c, run), e)
    ensures Trace(c, run + [e]) && End(c, run + [e]) == StepOf(End(c, run), e)
  {
    hide StepOf, Allowed, After;
    forall k {:trigger Happens(c, run + [e], k)} | 0 <= k < |run + [e]|
      ensures Happens(c, run + [e], k)
    {
      AfterExtended(c, run, e, k);
      if k < |run| {
        assert Happens(c, run, k);
      }
    }
    AfterExtended(c, run, e, |run|);
    AfterLast(c, run + [e]);
  }

  lemma AfterLast(c: Config, run: seq<Event>)
    requires run != []
    ensures End(c, run) == StepOf(After(c, run, |run| - 1), run[|run| - 1])
  {
  }

  /** Whatever the last call may have left in the region, the device can leave it there in the same calls. */
  lemma {:induction false} Reach(used: nat, flash: Image, run: seq<Event>, k: nat, image: Image)
    returns (run': seq<Event>)
    requires |HEADER| <= used <= STORE_SIZE && Trace(Boot(used, flash), run) && k <= |run|
    requires var c := Boot(used, flash); CanLeave(After(c, run, k), TearAfter(c, run, k), image)
    ensures |run'| == k && (forall i :: 0 <= i < k ==> SameEvent(run[i], run'[i]))
    ensures var c := Boot(used, flash);
            Trace(c, run') && End(c, run') == After(c, run, k).(flash := image)
  {
    hide Boot, Writable, WriteResult, Programmable, After, TearAfter, Trace, Happens, CanLeave, Inv, TearInv;
    var c := Boot(used, flash);
    AtStart(c, run);
    if k == 0 {
      run' := [];
    } else {
      JustBefore(used, flash, run, k);
      var before, e' := BeforeIt(c, run, k, image);
      var prefix := Reach(used, flash, run, k - 1, before);
      TraceExtended(c, prefix, e');
      run' := prefix + [e'];
    }
  }

  lemma AtStart(c: Config, run: seq<Event>)
    ensures After(c, run, 0) == c && TearAfter(c, run, 0) == Intact && Trace(c, []) && End(c, []) == c
    ensures forall image :: CanLeave(c, Intact, image) ==> c.(flash := image) == c
  {
  }

  lemma JustBefore(used: nat, flash: Image, run: seq<Event>, k: nat)
    requires |HEADER| <= used <= STORE_SIZE && Trace(Boot(used, flash), run) && 0 < k <= |run|
    ensures var c := Boot(used, flash);
            var now := After(c, run, k - 1);
            && Inv(now) && now.used == used && Allowed(now, run[k - 1]) && TearInv(now, TearAfter(c, run, k - 1))
            && After(c, run, k) == StepOf(now, run[k - 1])
  {
    hide Boot, Inv, TearInv;
    TearKept(used, flash, run, k - 1);
    assert Happens(Boot(used, flash), run, k - 1);
  }

  /** The image before the last event, and that event, that leave this image. */
  lemma BeforeIt(c: Config, run: seq<Event>, k: nat, image: Image) returns (before: Image, e': Event)
    requires 0 < k <= |run| && CanLeave(After(c, run, k), TearAfter(c, run, k), image)
    requires var now := After(c, run, k - 1);
             Inv(now) && Allowed(now, run[k - 1]) && TearInv(now, TearAfter(c, run, k - 1))
    ensures var now := After(c, run, k - 1);
            && CanLeave(now, TearAfter(c, run, k - 1), before)
            && SameEvent(run[k - 1], e') && Allowed(now.(flash := before), e')
            && StepOf(now.(flash := before), e') == After(c, run, k).(flash := image)
  {
    hide Writable, WriteResult, Programmable;
    var now, e := After(c, run, k - 1), run[k - 1];
    if !Touches(now, e) {
      before, e' := image, e;
    } else if e.done {
      before, e' := now.flash, e;
    } else if now.state == Erasing {
      before, e' := now.flash, Flash(image, false);
    } else {
      before, e' := BLANK, Flash(image, false);
      if TearAfter(c, run, k - 1).TornWrite? {
        BlankIsWritable(TearAfter(c, run, k - 1).data, now.used);
      }
      WritableIsResult(now.store, now.used, image);
    }
  }

  lemma WritableIsResult(data: Image, used: nat, image: Image)
    requires used <= STORE_SIZE && Writable(data, used, image)
    ensures WriteResult(BLANK, image, data[..used], false)
  {
    forall i | 0 <= i < used
      ensures Programmed(BLANK[i], image[i], data[..used][i], false)
    {
      assert BLANK[i] == 0xFF && image[i] & data[i] == data[i];
    }
  }

  /** The same calls lead to the same configuration, up to the region while an operation is under way. */
  lemma {:induction false} SameCallsAgree(used: nat, flash: Image, run: seq<Event>, run': seq<Event>, k: nat)
    requires |HEADER| <= used <= STORE_SIZE && Trace(Boot(used, flash), run) && Trace(Boot(used, flash), run')
    requires SameCalls(run, run') && k <= |run|
    ensures var c := Boot(used, flash);
            && After(c, run', k) == After(c, run, k).(flash := After(c, run', k).flash)
            && TearAfter(c, run', k) == TearAfter(c, run, k)
  {
    hide Boot, Writable, WriteResult, Programmable, Trace, Happens, Inv, TearInv;
    if k > 0 {
      SameCallsAgree(used, flash, run, run', k - 1);
      JustBefore(used, flash, run, k);
      JustBefore(used, flash, run', k);
      SameStep(Boot(used, flash), run, run', k);
    }
  }

  lemma SameStep(c: Config, run: seq<Event>, run': seq<Event>, k: nat)
    requires 0 < k <= |run| == |run'| && SameEvent(run[k - 1], run'[k - 1])
    requires var now, now' := After(c, run, k - 1), After(c, run', k - 1);
             && Inv(now) && Allowed(now, run[k - 1]) && Inv(now') && Allowed(now', run'[k - 1])
             && now' == now.(flash := now'.flash)
    requires TearAfter(c, run', k - 1) == TearAfter(c, run, k - 1)
    ensures After(c, run', k) == After(c, run, k).(flash := After(c, run', k).flash)
    ensures TearAfter(c, run', k) == TearAfter(c, run, k)
  {
    hide Writable, WriteResult, Programmable, Inv;
    var now, now' := After(c, run, k - 1), After(c, run', k - 1);
    var e, e' := run[k - 1], run'[k - 1];
    if Touches(now, e) && now.state == Writing && e.done {
      SameWritten(now, now', e, e');
    }
  }

  lemma SameWritten(c: Config, c': Config, e: Event, e': Event)
    requires Inv(c) && Inv(c') && c' == c.(flash := c'.flash) && c.state == Writing
    requires Allowed(c, e) && Allowed(c', e') && e.Flash? && e'.Flash? && e.done && e'.done
    ensures e.image == e'.image
  {
    CompletedWriteFollowsErase(c, e);
    CompletedWriteFollowsErase(c', e');
    assert e.image == e.image[..c.used] + e.image[c.used..];
    assert e'.image == e'.image[..c.used] + e'.image[c.used..];
  }

  /** Over every run from start-up, atomic or not: whatever the device leaves in the region within its contract, a
      restart loads the store last written in full or the default one, exactly when no device call has been left
      unfinished since the last one that completed, or the unfinished one is a write that can leave no valid image but
      the committed one. */
  lemma RestartIsWholeIff(used: nat, flash: Image, run: seq<Event>)
    requires |HEADER| <= used <= STORE_SIZE && Trace(Boot(used, flash), run)
    ensures var c := Boot(used, flash);
            (forall run' {:trigger SameCalls(run, run')} ::
               SameCalls(run, run') && Trace(c, run') ==> LoadsWhole(End(c, run')))
            <==> Safe(used, TearAfter(c, run, |run|), End(c, run).committed)
  {
    hide Boot, Inv, TearInv, Safe, LoadsWhole, CanLeave, After, TearAfter, Trace;
    var c := Boot(used, flash);
    var tear := TearAfter(c, run, |run|);
    if Safe(used, tear, End(c, run).committed) {
      forall run' {:trigger SameCalls(run, run')} | SameCalls(run, run') && Trace(c, run')
        ensures LoadsWhole(End(c, run'))
      {
        SameCallsAgree(used, flash, run, run', |run|);
        TearKept(used, flash, run', |run|);
        SafeLoadsWhole(End(c, run'), tear);
      }
    } else {
      TearKept(used, flash, run, |run|);
      var image := UnsafeImage(End(c, run), tear);
      var run' := Reach(used, flash, run, |run|, image);
      assert SameCalls(run, run');
    }
  }

  ghost function Tick(): Event {
    Flash(BLANK, false)
  }

  /** A run that loads blank fields: an erase under way that has only blanked what is behind the header, also after
      another update. */
  lemma TornEraseIsLoaded(used: nat, a: Image, b: Image)
    requires |HEADER| <= used <= STORE_SIZE && a != Default() && b != a
    requires a[..FIELDS_START] == b[..FIELDS_START] == Default()[..FIELDS_START]
    ensures var c := Boot(used, Default());
            var run := [Update(a), Tick(), Tick(), Flash(BlankFields(), false), Update(b)];
            && Trace(c, run) && End(c, run).state == Changed
            && Boot(used, End(c, run).flash).store == BlankFields() && !LoadsWhole(End(c, run))
  {
    hide After, Trace, WriteResult;
    var c := Boot(used, Default());
    var torn := Flash(BlankFields(), false);
    StartsValid(used);
    AtStart(c, []);
    var r1 := [] + [Update(a)];
    TraceExtended(c, [], Update(a));
    var r2 := r1 + [Tick()];
    TraceExtended(c, r1, Tick());
    var r3 := r2 + [Tick()];
    TraceExtended(c, r2, Tick());
    var r4 := r3 + [torn];
    TraceExtended(c, r3, torn);
    TraceExtended(c, r4, Update(b));
    assert r4 + [Update(b)] == [Update(a), Tick(), Tick(), torn, Update(b)];
    assert BlankFields()[|HEADER|] == 0xFF && Default()[|HEADER|] == 0;
  }

  lemma StartsValid(used: nat)
    requires |HEADER| <= used <= STORE_SIZE
    ensures var d := Default(); Boot(used, d) == Config(used, true, d, Idle, d, [], d)
  {
    assert Default()[..|HEADER|] == HEADER;
  }

  /** Another: a write under way that has programmed nothing but the header yet, after a completed erase, also after
      another update. */
  lemma TornWriteIsLoaded(used: nat, a: Image, b: Image)
    requires |HEADER| <= used <= STORE_SIZE && a != Default() && b != a
    requires a[..FIELDS_START] == b[..FIELDS_START] == Default()[..FIELDS_START]
    ensures var c := Boot(used, Default());
            var run := [Update(a), Tick(), Tick(), Flash(BLANK, true), Tick(), Tick(), Flash(BlankFields(), false),
                Update(b)];
            && Trace(c, run) && End(c, run).state == Changed
            && Boot(used, End(c, run).flash).store == BlankFields() && !LoadsWhole(End(c, run))
  {
    hide After, Trace, WriteResult;
    var c := Boot(used, Default());
    var erased, torn := Flash(BLANK, true), Flash(BlankFields(), false);
    StartsValid(used);
    AtStart(c, []);
    var r1 := [] + [Update(a)];
    TraceExtended(c, [], Update(a));
    var r2 := r1 + [Tick()];
    TraceExtended(c, r1, Tick());
    var r3 := r2 + [Tick()];
    TraceExtended(c, r2, Tick());
    var r4 := r3 + [erased];
    TraceExtended(c, r3, erased);
    var r5 := r4 + [Tick()];
    TraceExtended(c, r4, Tick());
    var r6 := r5 + [Tick()];
    TraceExtended(c, r5, Tick());
    HeaderOf(a);
    HeaderIsWritable(a, used);
    WritableIsResult(a, used, BlankFields());
    var r7 := r6 + [torn];
    TraceExtended(c, r6, torn);
    TraceExtended(c, r7, Update(b));
    assert r7 + [Update(b)] == [Update(a), Tick(), Tick(), erased, Tick(), Tick(), torn, Update(b)];
    assert BlankFields()[|HEADER|] == 0xFF && Default()[|HEADER|] == 0;
  }

  lemma HeaderOf(a: Image)
    requires a[..FIELDS_START] == Default()[..FIELDS_START]
    ensures a[..|HEADER|] == HEADER
  {
    assert a[..|HEADER|] == a[..FIELDS_START][..|HEADER|] == Default()[..|HEADER|];
  }
}
