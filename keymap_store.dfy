/**
 * The statistics store of the `keymap` crate. It shares the buffer, the
 * keystroke conversion and the placeholder event with `Store`, but its two
 * n-gram gates are independent: a bigram needs less than two whole seconds
 * between the two newest presses, a trigram less than four between the newest
 * and the oldest of three, whatever happened in between. Both gates unwrap
 * the clock difference, so a press earlier than one of the two before it stops
 * the program; the model makes that a precondition.
 */
module KeymapStore {
  import opened Wrappers
  import opened Events
  import opened Tally
  import opened TriBuf
  import opened Corpus
  import S = Store

  /** Whole seconds allowed between the two presses of a bigram. */
  const BIGRAM_WINDOW: nat := 2
  /** Whole seconds allowed between the first and last press of a trigram. */
  const TRIGRAM_WINDOW: nat := 4
  /** Whole seconds after which the store is written out again. */
  const SAVE_INTERVAL: nat := 10

  /** The newest press `e0` is not earlier than the one before it, `e1`, nor than the one before that, `e2`. */
  predicate InOrder(w: seq<Event>)
    requires |w| == 3
  {
    w[1].time <= w[0].time && w[2].time <= w[0].time
  }

  /** The bigram gate of `update`: `e0` came less than `BIGRAM_WINDOW` whole seconds after `e1`. */
  function BigramGate(e0: Event, e1: Event): (r: bool)
    requires e1.time <= e0.time
    ensures r <==> e0.time - e1.time < BIGRAM_WINDOW * NANOS
  {
    var d := DurationSince(e0.time, e1.time).value;
    WholeSecondsBelow(d, BIGRAM_WINDOW);
    WholeSeconds(d) < BIGRAM_WINDOW
  }

  /** The trigram gate of `update`: `e0` came less than `TRIGRAM_WINDOW` whole seconds after `e2`. */
  function TrigramGate(e0: Event, e2: Event): (r: bool)
    requires e2.time <= e0.time
    ensures r <==> e0.time - e2.time < TRIGRAM_WINDOW * NANOS
  {
    var d := DurationSince(e0.time, e2.time).value;
    WholeSecondsBelow(d, TRIGRAM_WINDOW);
    WholeSeconds(d) < TRIGRAM_WINDOW
  }

  /** What one accepted key press does to the tables, given the snapshot `w` (newest first) after the push. */
  function Record(t: Tables, w: seq<Event>): Tables
    requires |w| == 3 && InOrder(w)
  {
    var k0, k1, k2 := S.EventToKeystroke(w[0]), S.EventToKeystroke(w[1]), S.EventToKeystroke(w[2]);
    var bigram := if BigramGate(w[0], w[1]) then Bump(t.bigram, (k1, k0)) else t.bigram;
    var trigram := if TrigramGate(w[0], w[2]) then Bump(t.trigram, (k2, k1, k0)) else t.trigram;
    Tables(Bump(t.heatmap, k0), bigram, trigram)
  }

  /** Every press of `h` comes no earlier than the two before it (the placeholder, at the epoch, during warm-up). */
  ghost predicate Replayable(h: seq<Event>) {
    h == [] || (Replayable(h[..|h| - 1]) && InOrder(Window(S.Placeholder(), h)))
  }

  /** The tables after a fresh store processed the key presses `h`, oldest first. */
  function Replay(h: seq<Event>): Tables
    requires Replayable(h)
  {
    if h == [] then EmptyTables
    else Record(Replay(h[..|h| - 1]), Window(S.Placeholder(), h))
  }

  /** One more press, no earlier than the two before it, extends a replayable history by one `Record` step. */
  lemma ReplayStep(h: seq<Event>, e: Event)
    requires Replayable(h) && InOrder(Window(S.Placeholder(), h + [e]))
    ensures Replayable(h + [e])
    ensures Replay(h + [e]) == Record(Replay(h), Window(S.Placeholder(), h + [e]))
  {
    assert (h + [e])[..|h|] == h;
  }

  /**
   * Every press counts its keystroke once; the bigram (middle, newest) is
   * counted once exactly when its gate passes, the trigram (oldest, middle,
   * newest) once exactly when its own gate passes, and nothing else changes.
   */
  lemma RecordCounts(t: Tables, w: seq<Event>)
    requires |w| == 3 && InOrder(w)
    ensures Record(t, w).heatmap == Bump(t.heatmap, S.EventToKeystroke(w[0]))
    ensures Record(t, w).bigram != t.bigram <==> BigramGate(w[0], w[1])
    ensures BigramGate(w[0], w[1]) ==>
      Record(t, w).bigram == Bump(t.bigram, (S.EventToKeystroke(w[1]), S.EventToKeystroke(w[0])))
    ensures Record(t, w).trigram != t.trigram <==> TrigramGate(w[0], w[2])
    ensures TrigramGate(w[0], w[2]) ==>
      Record(t, w).trigram
      == Bump(t.trigram, (S.EventToKeystroke(w[2]), S.EventToKeystroke(w[1]), S.EventToKeystroke(w[0])))
    ensures Total(Record(t, w).heatmap) == Total(t.heatmap) + 1
    ensures Total(Record(t, w).bigram) == Total(t.bigram) + (if BigramGate(w[0], w[1]) then 1 else 0)
    ensures Total(Record(t, w).trigram) == Total(t.trigram) + (if TrigramGate(w[0], w[2]) then 1 else 0)
  {
    var k0, k1, k2 := S.EventToKeystroke(w[0]), S.EventToKeystroke(w[1]), S.EventToKeystroke(w[2]);
    TotalBump(t.heatmap, k0);
    if BigramGate(w[0], w[1]) {
      TotalBump(t.bigram, (k1, k0));
      assert Record(t, w).bigram[(k1, k0)] == Count(t.bigram, (k1, k0)) + 1;
    }
    if TrigramGate(w[0], w[2]) {
      TotalBump(t.trigram, (k2, k1, k0));
      assert Record(t, w).trigram[(k2, k1, k0)] == Count(t.trigram, (k2, k1, k0)) + 1;
    }
  }

  /**
   * After any key-press history: the unigram counts sum to the number of
   * presses and are all positive, and neither the bigram nor the trigram
   * counts sum to more than that.
   */
  lemma {:induction false} ReplayCounts(h: seq<Event>)
    requires Replayable(h)
    ensures Total(Replay(h).heatmap) == |h|
    ensures forall k :: k in Replay(h).heatmap ==> Replay(h).heatmap[k] > 0
    ensures Total(Replay(h).bigram) <= |h|
    ensures Total(Replay(h).trigram) <= |h|
  {
    if h != [] {
      ReplayCounts(h[..|h| - 1]);
      RecordCounts(Replay(h[..|h| - 1]), Window(S.Placeholder(), h));
    }
  }

  /** No keystroke, bigram or trigram is counted more often than there were presses. */
  lemma ReplayCountBound(h: seq<Event>, k: Keystroke, p: (Keystroke, Keystroke), q: (Keystroke, Keystroke, Keystroke))
    requires Replayable(h)
    ensures Count(Replay(h).heatmap, k) <= |h|
    ensures Count(Replay(h).bigram, p) <= |h|
    ensures Count(Replay(h).trigram, q) <= |h|
  {
    ReplayCounts(h);
    CountBelowTotal(Replay(h).heatmap, k);
    CountBelowTotal(Replay(h).bigram, p);
    CountBelowTotal(Replay(h).trigram, q);
  }

  /** Every press of `h` is at least `TRIGRAM_WINDOW` seconds after the epoch, as with any real clock. */
  ghost predicate AfterEpoch(h: seq<Event>) {
    forall i :: 0 <= i < |h| ==> h[i].time >= TRIGRAM_WINDOW * NANOS
  }

  /**
   * With a real clock, every keystroke pressed is a unigram, and every
   * bigram and trigram participant is a unigram, so the tables meet what
   * `Generator::new` demands of its inputs.
   */
  lemma {:induction false} ReplayParticipants(h: seq<Event>)
    requires Replayable(h) && AfterEpoch(h)
    ensures forall i :: 0 <= i < |h| ==> S.EventToKeystroke(h[i]) in Replay(h).heatmap
    ensures forall p :: p in Replay(h).bigram ==> p.0 in Replay(h).heatmap && p.1 in Replay(h).heatmap
    ensures forall k :: k in Replay(h).trigram ==>
      k.0 in Replay(h).heatmap && k.1 in Replay(h).heatmap && k.2 in Replay(h).heatmap
  {
    if h != [] {
      var n := |h|;
      var prev := h[..n - 1];
      var w := Window(S.Placeholder(), h);
      assert AfterEpoch(prev);
      ReplayParticipants(prev);
      if n >= 2 {
        assert w[1] == prev[n - 2];
      }
      if n >= 3 {
        assert w[2] == prev[n - 3];
      }
      forall i | 0 <= i < n ensures S.EventToKeystroke(h[i]) in Replay(h).heatmap {
        if i < n - 1 {
          assert h[i] == prev[i];
        }
      }
    }
  }

  /**
   * The gates are independent: A and B at `t`, then C three seconds later,
   * records the trigram ABC although C adds no bigram (the chained gate of
   * `Store` records no trigram for C).
   */
  lemma TrigramWithoutBigram(a: Event, b: Event, c: Event)
    requires a.time >= TRIGRAM_WINDOW * NANOS
    requires b.time == a.time && c.time == a.time + 3 * NANOS
    ensures Replayable([a, b]) && Replayable([a, b, c])
    ensures var t, ka, kb, kc := Replay([a, b, c]), S.EventToKeystroke(a), S.EventToKeystroke(b), S.EventToKeystroke(c);
      && t.bigram == Replay([a, b]).bigram
      && t.trigram == map[(ka, kb, kc) := 1]
    ensures S.Replay([a, b, c]).trigram == S.Replay([a, b]).trigram
  {
    var ka, kb, kc := S.EventToKeystroke(a), S.EventToKeystroke(b), S.EventToKeystroke(c);
    var p := S.Placeholder();
    assert [a, b, c][..2] == [a, b] && [a, b][..1] == [a] && [a][..0] == [];
    assert Window(p, [a]) == [a, p, p];
    assert Window(p, [a, b]) == [b, a, p];
    assert Window(p, [a, b, c]) == [c, b, a];
    assert Replayable([]);
    assert InOrder(Window(p, [a]));
    assert Replayable([a][..0]);
    assert Replayable([a]);
    assert Replayable([a, b]);
    assert Replay([a][..0]) == EmptyTables;
    assert !BigramGate(a, p) && !TrigramGate(a, p);
    var t1 := Replay([a]);
    assert t1.bigram == map[] && t1.trigram == map[];
    var t2 := Replay([a, b]);
    assert t2.bigram == map[(ka, kb) := 1] && t2.trigram == map[];
    var t3 := Replay([a, b, c]);
    assert t3.bigram == t2.bigram;
    assert t3.trigram == map[(ka, kb, kc) := 1];
  }

  /** The `keymap` crate's `Store` with the same fields as the statistics store. */
  class Store {
    var heatmap: KeystrokeHeatmap
    var bigram: BigramHeatmap
    var trigram: TrigramHeatmap
    var ngrams: Buffer<Event>
    /** When the store was last written out (nanoseconds since the epoch). */
    var lastSave: int
    var filename: string
    /** The key presses processed so far, oldest first. */
    ghost var presses: seq<Event>

    function Stats(): Tables
      reads this
    {
      Tables(heatmap, bigram, trigram)
    }

    /** The buffer holds the presses, and the tables are those the presses produce. */
    ghost predicate Valid()
      reads this, ngrams, ngrams.data
    {
      && ngrams.Valid()
      && ngrams.placeholder == S.Placeholder()
      && ngrams.pushed == presses
      && Replayable(presses)
      && Stats() == Replay(presses)
    }

    /** `Store::new`: empty tables, a buffer of placeholders, and the save clock started at `now`. */
    constructor (filename: string, now: int)
      ensures Valid() && fresh(ngrams) && fresh(ngrams.data)
      ensures Stats() == EmptyTables && presses == []
      ensures lastSave == now && this.filename == filename
    {
      heatmap, bigram, trigram := map[], map[], map[];
      ngrams := new Buffer<Event>(S.Placeholder());
      lastSave := now;
      this.filename := filename;
      presses := [];
    }

    /**
     * `Store::process_event`: a key press is recorded, any other event is
     * ignored. A key press must not be earlier than the two newest buffered
     * presses, the case in which `update` panics.
     */
    method ProcessEvent(e: Event, now: int, writeOk: bool)
      requires Valid()
      requires e.eventType.KeyPress? ==> ngrams.Snapshot()[0].time <= e.time && ngrams.Snapshot()[1].time <= e.time
      modifies this, ngrams, ngrams.data
      ensures Valid() && ngrams == old(ngrams) && ngrams.data == old(ngrams.data) && filename == old(filename)
      ensures !e.eventType.KeyPress? ==>
        Stats() == old(Stats()) && presses == old(presses) && lastSave == old(lastSave)
      ensures e.eventType.KeyPress? ==>
        && presses == old(presses) + [e]
        && InOrder(ngrams.Snapshot())
        && Stats() == Record(old(Stats()), ngrams.Snapshot())
        && lastSave == (if S.SaveDue(old(lastSave), now, SAVE_INTERVAL) && writeOk then now else old(lastSave))
    {
      match e.eventType {
        case KeyPress(_) => Update(e, now, writeOk);
        case _ => return;
      }
    }

    /** `Store::save`, reduced to its effect on the store: the save time moves to `now` only when the write succeeds. */
    method Save(writeOk: bool, now: int) returns (saved: bool)
      modifies this`lastSave
      ensures saved == writeOk
      ensures lastSave == if writeOk then now else old(lastSave)
    {
      saved := writeOk;
      if writeOk {
        lastSave := now;
      }
    }

    /** `Store::update`: push the press, count its n-grams through the two gates, and save if due. */
    method Update(ew: Event, now: int, writeOk: bool)
      requires Valid()
      requires ngrams.Snapshot()[0].time <= ew.time && ngrams.Snapshot()[1].time <= ew.time
      modifies this, ngrams, ngrams.data
      ensures Valid() && ngrams == old(ngrams) && ngrams.data == old(ngrams.data) && filename == old(filename)
      ensures presses == old(presses) + [ew]
      ensures ngrams.Snapshot()[0] == ew && InOrder(ngrams.Snapshot())
      ensures Stats() == Record(old(Stats()), ngrams.Snapshot())
      ensures lastSave == (if S.SaveDue(old(lastSave), now, SAVE_INTERVAL) && writeOk then now else old(lastSave))
    {
      var events := Shift(ew);
      CountNGrams(events);
      if S.SaveDue(lastSave, now, SAVE_INTERVAL) {
        var _ := Save(writeOk, now);
      }
      assert ngrams.Valid();
    }

    /** The buffer half of `Store::update`: push the press and take the snapshot. */
    method Shift(ew: Event) returns (events: seq<Event>)
      requires ngrams.Valid() && ngrams.placeholder == S.Placeholder() && ngrams.pushed == presses
      requires Replayable(presses)
      requires ngrams.Snapshot()[0].time <= ew.time && ngrams.Snapshot()[1].time <= ew.time
      modifies this`presses, ngrams, ngrams.data
      ensures ngrams.Valid() && ngrams.placeholder == S.Placeholder() && ngrams.pushed == presses
      ensures ngrams.data == old(ngrams.data)
      ensures presses == old(presses) + [ew] && Replayable(presses)
      ensures events == ngrams.Snapshot() && events[0] == ew && InOrder(events)
      ensures Replay(presses) == Record(Replay(old(presses)), events)
    {
      ghost var before := ngrams.Snapshot();
      ngrams.Push(ew);
      presses := presses + [ew];
      events := ngrams.ToVec();
      WindowPush(S.Placeholder(), old(presses), ew);
      assert events == [ew, before[0], before[1]];
      ReplayStep(old(presses), ew);
    }

    /** The counting half of `Store::update`, on the snapshot `events` taken after the push. */
    method CountNGrams(events: seq<Event>)
      requires |events| == 3 && InOrder(events)
      modifies this`heatmap, this`bigram, this`trigram
      ensures Stats() == Record(old(Stats()), events)
    {
      UpdateHeatmap(events[0]);
      if BigramGate(events[0], events[1]) {
        UpdateBigram(events[1], events[0]);
      }
      if TrigramGate(events[0], events[2]) {
        UpdateTrigram(events[2], events[1], events[0]);
      }
    }

    /** `Store::update_heatmap`: one more press of `e`'s keystroke. */
    method UpdateHeatmap(e: Event)
      modifies this`heatmap
      ensures heatmap == Bump(old(heatmap), S.EventToKeystroke(e))
    {
      heatmap := Bump(heatmap, S.EventToKeystroke(e));
    }

    /** `Store::update_bigram`: one more `e1` followed by `e2`. */
    method UpdateBigram(e1: Event, e2: Event)
      modifies this`bigram
      ensures bigram == Bump(old(bigram), (S.EventToKeystroke(e1), S.EventToKeystroke(e2)))
    {
      bigram := Bump(bigram, (S.EventToKeystroke(e1), S.EventToKeystroke(e2)));
    }

    /** `Store::update_trigram`: one more `e1`, `e2`, `e3` in a row. */
    method UpdateTrigram(e1: Event, e2: Event, e3: Event)
      modifies this`trigram
      ensures trigram
        == Bump(old(trigram), (S.EventToKeystroke(e1), S.EventToKeystroke(e2), S.EventToKeystroke(e3)))
    {
      trigram := Bump(trigram, (S.EventToKeystroke(e1), S.EventToKeystroke(e2), S.EventToKeystroke(e3)));
    }
  }
}
