/**
 * The statistics store of the `konsone` crate: it keeps the last three key
 * presses in a `TriBuf.Buffer` and counts single keystrokes, and the pairs
 * and triples typed with less than `MAX_KEY_DELAY` whole seconds between
 * consecutive presses. The trigram gate is chained: a trigram is counted only
 * together with its embedded bigram.
 */
module Store {
  import opened Wrappers
  import opened Events
  import opened Tally
  import opened TriBuf
  import opened Corpus

  /** Whole seconds allowed between two presses of one n-gram. */
  const MAX_KEY_DELAY: nat := 2
  /** Whole seconds after which the store is written out again. */
  const SAVE_INTERVAL: nat := 600

  /**
   * `event_to_keystroke`: the key of a key press or release (`Unknown(0)`
   * for any other event) with the event's OS text, `""` when it has none.
   */
  function EventToKeystroke(e: Event): (ks: Keystroke)
    ensures (e.eventType.KeyPress? || e.eventType.KeyRelease?) ==> ks.key == e.eventType.key
    ensures !(e.eventType.KeyPress? || e.eventType.KeyRelease?) ==> ks.key == Unknown(0)
    ensures e.name.Some? ==> ks.interpreted == e.name.value
    ensures e.name.None? ==> ks.interpreted == ""
  {
    var key := match e.eventType
      case KeyPress(k) => k
      case KeyRelease(k) => k
      case _ => Unknown(0);
    Keystroke(key, e.name.UnwrapOr(""))
  }

  /** The unit test of `event_to_keystroke`: `KeyA` pressed with no text. */
  lemma EventToKeystrokeTest()
    ensures EventToKeystroke(Event(0, KeyPress(Named("KeyA")), None)) == Keystroke(Named("KeyA"), "")
  {
  }

  /** `EventWrapper::default`: the filler of unwritten buffer slots, a key press of `Unknown(0)` at the epoch. */
  function Placeholder(): Event {
    Event(0, KeyPress(Unknown(0)), None)
  }

  /**
   * `is_within_delay(e1, e2)`: `e1` is not earlier than `e2` and less than
   * `MAX_KEY_DELAY` whole seconds after it. A negative gap is read as
   * `MAX_KEY_DELAY + 1` seconds, so it never passes.
   */
  function IsWithinDelay(e1: Event, e2: Event): (r: bool)
    ensures r <==> e2.time <= e1.time && e1.time - e2.time < MAX_KEY_DELAY * NANOS
  {
    var secs := match DurationSince(e1.time, e2.time)
      case Some(d) => (WholeSecondsBelow(d, MAX_KEY_DELAY); WholeSeconds(d))
      case None => MAX_KEY_DELAY + 1;
    secs < MAX_KEY_DELAY
  }

  /** With a real clock, no event is within the delay of the placeholder: warm-up slots never form n-grams. */
  lemma PlaceholderTooOld(e: Event)
    requires e.time >= MAX_KEY_DELAY * NANOS
    ensures !IsWithinDelay(e, Placeholder())
  {
  }

  /**
   * The save trigger of `update`: more than `interval` whole seconds since
   * the last save, or a clock that reads earlier than the last save (the
   * `Err` branch of `elapsed`). The statistics store uses `SAVE_INTERVAL`.
   */
  predicate SaveDue(lastSave: int, now: int, interval: nat) {
    match DurationSince(now, lastSave)
    case Some(elapsed) => WholeSeconds(elapsed) > interval
    case None => true
  }

  /** A save is due exactly when the clock went back, or at least `interval + 1` seconds went by. */
  lemma SaveDueWhen(lastSave: int, now: int, interval: nat)
    ensures SaveDue(lastSave, now, interval) <==> now < lastSave || now >= lastSave + (interval + 1) * NANOS
  {
    if now >= lastSave {
      WholeSecondsBelow(now - lastSave, interval + 1);
    }
  }

  /**
   * What one accepted key press does to the tables, given the buffer's
   * snapshot `w` (newest first) after the press was pushed.
   */
  function Record(t: Tables, w: seq<Event>): Tables
    requires |w| == 3
  {
    var k0, k1, k2 := EventToKeystroke(w[0]), EventToKeystroke(w[1]), EventToKeystroke(w[2]);
    var heatmap := Bump(t.heatmap, k0);
    if IsWithinDelay(w[0], w[1]) then
      var bigram := Bump(t.bigram, (k1, k0));
      if IsWithinDelay(w[1], w[2]) then Tables(heatmap, bigram, Bump(t.trigram, (k2, k1, k0)))
      else Tables(heatmap, bigram, t.trigram)
    else Tables(heatmap, t.bigram, t.trigram)
  }

  /** The tables after a fresh store processed the key presses `h`, oldest first. */
  function Replay(h: seq<Event>): Tables {
    if h == [] then EmptyTables
    else Record(Replay(h[..|h| - 1]), Window(Placeholder(), h))
  }

  /** One more press extends the replay of a history by one `Record` step. */
  lemma ReplayStep(h: seq<Event>, e: Event)
    ensures Replay(h + [e]) == Record(Replay(h), Window(Placeholder(), h + [e]))
  {
    assert (h + [e])[..|h|] == h;
  }

  /**
   * Every press adds one to the unigram count of its keystroke and leaves
   * the other unigram counts alone.
   */
  lemma RecordUnigram(t: Tables, w: seq<Event>)
    requires |w| == 3
    ensures Record(t, w).heatmap == Bump(t.heatmap, EventToKeystroke(w[0]))
    ensures Total(Record(t, w).heatmap) == Total(t.heatmap) + 1
  {
    TotalBump(t.heatmap, EventToKeystroke(w[0]));
  }

  /**
   * The bigram of the two newest presses is counted exactly when they are
   * within the delay, and no other bigram changes.
   */
  lemma RecordBigram(t: Tables, w: seq<Event>)
    requires |w| == 3
    ensures Record(t, w).bigram != t.bigram <==> IsWithinDelay(w[0], w[1])
    ensures IsWithinDelay(w[0], w[1]) ==>
      Record(t, w).bigram == Bump(t.bigram, (EventToKeystroke(w[1]), EventToKeystroke(w[0])))
  {
    var p := (EventToKeystroke(w[1]), EventToKeystroke(w[0]));
    if IsWithinDelay(w[0], w[1]) {
      assert Record(t, w).bigram[p] == Count(t.bigram, p) + 1;
    }
  }

  /**
   * The trigram of the three newest presses is counted exactly when both
   * consecutive gaps are within the delay, so never without its embedded bigram.
   */
  lemma RecordTrigram(t: Tables, w: seq<Event>)
    requires |w| == 3
    ensures Record(t, w).trigram != t.trigram <==> IsWithinDelay(w[0], w[1]) && IsWithinDelay(w[1], w[2])
    ensures Record(t, w).trigram != t.trigram ==> Record(t, w).bigram != t.bigram
    ensures Record(t, w).trigram != t.trigram ==>
      Record(t, w).trigram
      == Bump(t.trigram, (EventToKeystroke(w[2]), EventToKeystroke(w[1]), EventToKeystroke(w[0])))
  {
    var k := (EventToKeystroke(w[2]), EventToKeystroke(w[1]), EventToKeystroke(w[0]));
    if IsWithinDelay(w[0], w[1]) && IsWithinDelay(w[1], w[2]) {
      assert Record(t, w).trigram[k] == Count(t.trigram, k) + 1;
    }
    RecordBigram(t, w);
  }

  /** Every trigram's embedded (middle, newest) bigram was counted at least as often. */
  ghost predicate Embedded(t: Tables) {
    forall k {:trigger k in t.trigram} :: k in t.trigram ==> (k.1, k.2) in t.bigram && t.trigram[k] <= t.bigram[(k.1, k.2)]
  }

  lemma RecordEmbedded(t: Tables, w: seq<Event>)
    requires |w| == 3 && Embedded(t)
    ensures Embedded(Record(t, w))
  {
  }

  /**
   * After any key-press history: the unigram counts sum to the number of
   * presses and are all positive, neither the bigram nor the trigram counts
   * sum to more than that, and every trigram sits on its bigram.
   */
  lemma {:induction false} ReplayCounts(h: seq<Event>)
    ensures Total(Replay(h).heatmap) == |h|
    ensures forall k :: k in Replay(h).heatmap ==> Replay(h).heatmap[k] > 0
    ensures Total(Replay(h).bigram) <= |h|
    ensures Total(Replay(h).trigram) <= |h|
    ensures Embedded(Replay(h))
  {
    if h != [] {
      var prev := Replay(h[..|h| - 1]);
      var w := Window(Placeholder(), h);
      ReplayCounts(h[..|h| - 1]);
      RecordUnigram(prev, w);
      RecordBigram(prev, w);
      RecordTrigram(prev, w);
      if IsWithinDelay(w[0], w[1]) {
        TotalBump(prev.bigram, (EventToKeystroke(w[1]), EventToKeystroke(w[0])));
        if IsWithinDelay(w[1], w[2]) {
          TotalBump(prev.trigram, (EventToKeystroke(w[2]), EventToKeystroke(w[1]), EventToKeystroke(w[0])));
        }
      }
      RecordEmbedded(prev, w);
    }
  }

  /** No keystroke, bigram or trigram is counted more often than there were presses. */
  lemma ReplayCountBound(h: seq<Event>, k: Keystroke, p: (Keystroke, Keystroke), q: (Keystroke, Keystroke, Keystroke))
    ensures Count(Replay(h).heatmap, k) <= |h|
    ensures Count(Replay(h).bigram, p) <= |h|
    ensures Count(Replay(h).trigram, q) <= |h|
  {
    ReplayCounts(h);
    CountBelowTotal(Replay(h).heatmap, k);
    CountBelowTotal(Replay(h).bigram, p);
    CountBelowTotal(Replay(h).trigram, q);
  }

  /** Every press of `h` is at least `MAX_KEY_DELAY` seconds after the epoch, as with any real clock. */
  ghost predicate AfterEpoch(h: seq<Event>) {
    forall i :: 0 <= i < |h| ==> h[i].time >= MAX_KEY_DELAY * NANOS
  }

  /**
   * With a real clock, every keystroke pressed is a unigram, and every
   * bigram and trigram participant is a unigram: the placeholder never takes
   * part. So the store's tables meet what `Generator::new` demands of its inputs.
   */
  lemma {:induction false} ReplayParticipants(h: seq<Event>)
    requires AfterEpoch(h)
    ensures forall i :: 0 <= i < |h| ==> EventToKeystroke(h[i]) in Replay(h).heatmap
    ensures forall p :: p in Replay(h).bigram ==> p.0 in Replay(h).heatmap && p.1 in Replay(h).heatmap
    ensures forall k :: k in Replay(h).trigram ==>
      k.0 in Replay(h).heatmap && k.1 in Replay(h).heatmap && k.2 in Replay(h).heatmap
  {
    if h != [] {
      var n := |h|;
      var prev := h[..n - 1];
      var w := Window(Placeholder(), h);
      assert AfterEpoch(prev);
      ReplayParticipants(prev);
      PlaceholderTooOld(w[0]);
      if n >= 2 {
        PlaceholderTooOld(w[1]);
        assert w[1] == prev[n - 2];
      }
      if n >= 3 {
        assert w[2] == prev[n - 3];
      }
      forall i | 0 <= i < n ensures EventToKeystroke(h[i]) in Replay(h).heatmap {
        if i < n - 1 {
          assert h[i] == prev[i];
        }
      }
    }
  }

  /**
   * Without that assumption the placeholder can take part: a first press
   * less than `MAX_KEY_DELAY` seconds after the epoch records a bigram whose
   * first keystroke, `Unknown(0)` with no text, was never pressed.
   */
  lemma PlaceholderBigram(e: Event)
    requires 0 <= e.time < MAX_KEY_DELAY * NANOS
    ensures (EventToKeystroke(Placeholder()), EventToKeystroke(e)) in Replay([e]).bigram
    ensures EventToKeystroke(Placeholder()) !in Replay([e]).heatmap || EventToKeystroke(e) == EventToKeystroke(Placeholder())
  {
    assert [e][..0] == [];
    assert Window(Placeholder(), [e]) == [e, Placeholder(), Placeholder()];
  }

  /** `Store`: the three tables, the buffer of recent presses, and the save bookkeeping. */
  class Store {
    var heatmap: KeystrokeHeatmap
    var bigram: BigramHeatmap
    var trigram: TrigramHeatmap
    var ngrams: Buffer<Event>
    /** When the store was last written out (nanoseconds since the epoch). */
    var lastSave: int
    var filename: string
    /** The key presses processed so far, oldest first. */
    ghost var presses: seq<Event>

    function Stats(): Tables
      reads this
    {
      Tables(heatmap, bigram, trigram)
    }

    /** The buffer holds the presses, and the tables are those the presses produce. */
    ghost predicate Valid()
      reads this, ngrams, ngrams.data
    {
      && ngrams.Valid()
      && ngrams.placeholder == Placeholder()
      && ngrams.pushed == presses
      && Stats() == Replay(presses)
    }

    /** `Store::new`: empty tables, a buffer of placeholders, and the save clock started at `now`. */
    constructor (filename: string, now: int)
      ensures Valid() && fresh(ngrams) && fresh(ngrams.data)
      ensures Stats() == EmptyTables && presses == []
      ensures ngrams.Snapshot() == [Placeholder(), Placeholder(), Placeholder()]
      ensures lastSave == now && this.filename == filename
    {
      heatmap, bigram, trigram := map[], map[], map[];
      ngrams := new Buffer<Event>(Placeholder());
      lastSave := now;
      this.filename := filename;
      presses := [];
    }

    /**
     * `Store::process_event`: a key press is recorded; any other event is
     * ignored. `now` is the clock reading and `writeOk` the outcome of the
     * file write should a save be due.
     */
    method ProcessEvent(e: Event, now: int, writeOk: bool)
      requires Valid()
      modifies this, ngrams, ngrams.data
      ensures Valid() && ngrams == old(ngrams) && ngrams.data == old(ngrams.data) && filename == old(filename)
      ensures !e.eventType.KeyPress? ==>
        Stats() == old(Stats()) && presses == old(presses) && lastSave == old(lastSave)
      ensures e.eventType.KeyPress? ==>
        && presses == old(presses) + [e]
        && Stats() == Record(old(Stats()), ngrams.Snapshot())
        && lastSave == (if SaveDue(old(lastSave), now, SAVE_INTERVAL) && writeOk then now else old(lastSave))
    {
      match e.eventType {
        case KeyPress(_) => Update(e, now, writeOk);
        case _ => return;
      }
    }

    /**
     * `Store::save`, reduced to its effect on the store: the save time moves
     * to `now` only when the write (`writeOk`) succeeds.
     */
    method Save(writeOk: bool, now: int) returns (saved: bool)
      modifies this`lastSave
      ensures saved == writeOk
      ensures lastSave == if writeOk then now else old(lastSave)
    {
      saved := writeOk;
      if writeOk {
        lastSave := now;
      }
    }

    /** `Store::update`: push the press, count its n-grams, and save if due. */
    method Update(ew: Event, now: int, writeOk: bool)
      requires Valid()
      modifies this, ngrams, ngrams.data
      ensures Valid() && ngrams == old(ngrams) && ngrams.data == old(ngrams.data) && filename == old(filename)
      ensures presses == old(presses) + [ew]
      ensures ngrams.Snapshot()[0] == ew
      ensures Stats() == Record(old(Stats()), ngrams.Snapshot())
      ensures lastSave == (if SaveDue(old(lastSave), now, SAVE_INTERVAL) && writeOk then now else old(lastSave))
    {
      ngrams.Push(ew);
      presses := presses + [ew];
      var events := ngrams.ToVec();
      ReplayStep(old(presses), ew);
      CountNGrams(events);
      if SaveDue(lastSave, now, SAVE_INTERVAL) {
        var _ := Save(writeOk, now);
      }
      assert ngrams.Valid();
    }

    /** The counting half of `Store::update`, on the snapshot `events` taken after the push. */
    method CountNGrams(events: seq<Event>)
      requires |events| == 3
      modifies this`heatmap, this`bigram, this`trigram
      ensures Stats() == Record(old(Stats()), events)
    {
      UpdateHeatmap(events[0]);
      if IsWithinDelay(events[0], events[1]) {
        UpdateBigram(events[1], events[0]);
        if IsWithinDelay(events[1], events[2]) {
          UpdateTrigram(events[2], events[1], events[0]);
        }
      }
    }

    /** `Store::update_heatmap`: one more press of `e`'s keystroke. */
    method UpdateHeatmap(e: Event)
      modifies this`heatmap
      ensures heatmap == Bump(old(heatmap), EventToKeystroke(e))
    {
      heatmap := Bump(heatmap, EventToKeystroke(e));
    }

    /** `Store::update_bigram`: one more `e1` followed by `e2`. */
    method UpdateBigram(e1: Event, e2: Event)
      modifies this`bigram
      ensures bigram == Bump(old(bigram), (EventToKeystroke(e1), EventToKeystroke(e2)))
    {
      bigram := Bump(bigram, (EventToKeystroke(e1), EventToKeystroke(e2)));
    }

    /** `Store::update_trigram`: one more `e1`, `e2`, `e3` in a row. */
    method UpdateTrigram(e1: Event, e2: Event, e3: Event)
      modifies this`trigram
      ensures trigram == Bump(old(trigram), (EventToKeystroke(e1), EventToKeystroke(e2), EventToKeystroke(e3)))
    {
      trigram := Bump(trigram, (EventToKeystroke(e1), EventToKeystroke(e2), EventToKeystroke(e3)));
    }
  }

  /**
   * `test_store_process_events`: A, A, B typed within one second of each
   * other (and long after the epoch), then B three seconds later. The late B
   * forms no n-gram, so the store ends with two of each key, the bigrams AA
   * and AB, and the trigram AAB.
   */
  method ProcessEventsTest(t1: int, t2: int, t3: int, t4: int, now: int) returns (tables: Tables)
    requires MAX_KEY_DELAY * NANOS <= t1 <= t2 <= t3 < t1 + NANOS
    requires t4 >= t3 + 3 * NANOS
    ensures var ka, kb := Keystroke(Named("KeyA"), "a"), Keystroke(Named("KeyB"), "b");
      && tables.heatmap == map[ka := 2, kb := 2]
      && tables.bigram == map[(ka, ka) := 1, (ka, kb) := 1]
      && tables.trigram == map[(ka, ka, kb) := 1]
  {
    var a1, a2 := Event(t1, KeyPress(Named("KeyA")), Some("a")), Event(t2, KeyPress(Named("KeyA")), Some("a"));
    var b3, b4 := Event(t3, KeyPress(Named("KeyB")), Some("b")), Event(t4, KeyPress(Named("KeyB")), Some("b"));
    ProcessEventsFirst(a1);
    ProcessEventsSecond(a1, a2);
    ProcessEventsThird(a1, a2, b3);
    ProcessEventsFourth(a2, b3, b4);
    var store := new Store("", now);
    store.ProcessEvent(a1, now, true);
    assert store.ngrams.Snapshot() == [a1, Placeholder(), Placeholder()];
    store.ProcessEvent(a2, now, true);
    assert store.ngrams.Snapshot() == [a2, a1, Placeholder()];
    store.ProcessEvent(b3, now, true);
    assert store.ngrams.Snapshot() == [b3, a2, a1];
    store.ProcessEvent(b4, now, true);
    assert store.ngrams.Snapshot() == [b4, b3, a2];
    tables := store.Stats();
  }

  /** First press of `test_store_process_events`: A alone, long after the epoch, counts only itself. */
  lemma ProcessEventsFirst(a1: Event)
    requires a1.time >= MAX_KEY_DELAY * NANOS
    requires a1.eventType == KeyPress(Named("KeyA")) && a1.name == Some("a")
    ensures var ka := Keystroke(Named("KeyA"), "a");
      Record(EmptyTables, [a1, Placeholder(), Placeholder()]) == Tables(map[ka := 1], map[], map[])
  {
    assert !IsWithinDelay(a1, Placeholder());
  }

  /** Second press: A again within the delay forms the bigram AA; the placeholder blocks a trigram. */
  lemma ProcessEventsSecond(a1: Event, a2: Event)
    requires a1.time >= MAX_KEY_DELAY * NANOS && a1.time <= a2.time < a1.time + NANOS
    requires a1.eventType == a2.eventType == KeyPress(Named("KeyA")) && a1.name == a2.name == Some("a")
    ensures var ka := Keystroke(Named("KeyA"), "a");
      Record(Tables(map[ka := 1], map[], map[]), [a2, a1, Placeholder()])
      == Tables(map[ka := 2], map[(ka, ka) := 1], map[])
  {
    assert IsWithinDelay(a2, a1) && !IsWithinDelay(a1, Placeholder());
  }

  /** Third press: B right after A, A forms the bigram AB and the trigram AAB. */
  lemma ProcessEventsThird(a1: Event, a2: Event, b3: Event)
    requires a1.time <= a2.time <= b3.time < a1.time + NANOS
    requires a1.eventType == a2.eventType == KeyPress(Named("KeyA")) && a1.name == a2.name == Some("a")
    requires b3.eventType == KeyPress(Named("KeyB")) && b3.name == Some("b")
    ensures var ka, kb := Keystroke(Named("KeyA"), "a"), Keystroke(Named("KeyB"), "b");
      Record(Tables(map[ka := 2], map[(ka, ka) := 1], map[]), [b3, a2, a1])
      == Tables(map[ka := 2, kb := 1], map[(ka, ka) := 1, (ka, kb) := 1], map[(ka, ka, kb) := 1])
  {
    assert IsWithinDelay(b3, a2) && IsWithinDelay(a2, a1);
  }

  /** Fourth press: B three seconds late counts only itself. */
  lemma ProcessEventsFourth(a2: Event, b3: Event, b4: Event)
    requires b4.time >= b3.time + 3 * NANOS
    requires a2.eventType == KeyPress(Named("KeyA")) && a2.name == Some("a")
    requires b3.eventType == b4.eventType == KeyPress(Named("KeyB")) && b3.name == b4.name == Some("b")
    ensures var ka, kb := Keystroke(Named("KeyA"), "a"), Keystroke(Named("KeyB"), "b");
      Record(Tables(map[ka := 2, kb := 1], map[(ka, ka) := 1, (ka, kb) := 1], map[(ka, ka, kb) := 1]),
             [b4, b3, a2])
      == Tables(map[ka := 2, kb := 2], map[(ka, ka) := 1, (ka, kb) := 1], map[(ka, ka, kb) := 1])
  {
    assert !IsWithinDelay(b4, b3);
  }
}
