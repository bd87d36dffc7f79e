/**
 * A circular buffer of three slots with a single write cursor. `Push`
 * overwrites the slot under the cursor and advances it; `ToVec` reads the
 * three slots from newest to oldest.
 */
module TriBuf {

  /**
   * The `i`-th most recent value of a push history (0 is the newest), or
   * the placeholder when fewer than `i + 1` values were pushed.
   */
  function Recent<T>(placeholder: T, pushed: seq<T>, i: nat): T {
    if i < |pushed| then pushed[|pushed| - 1 - i] else placeholder
  }

  /** The three most recent values of a history, newest first, padded with the placeholder. */
  function Window<T>(placeholder: T, pushed: seq<T>): seq<T> {
    [Recent(placeholder, pushed, 0), Recent(placeholder, pushed, 1), Recent(placeholder, pushed, 2)]
  }

  /** One push shifts the window by one place: the new value in front, the oldest dropped. */
  lemma WindowPush<T>(placeholder: T, pushed: seq<T>, value: T)
    ensures Window(placeholder, pushed + [value])
         == [value] + Window(placeholder, pushed)[..2]
  {
  }

  /** With at least three pushes the placeholder is gone: the window is the last three values. */
  lemma WindowFull<T>(placeholder: T, pushed: seq<T>)
    requires |pushed| >= 3
    ensures Window(placeholder, pushed)
         == [pushed[|pushed| - 1], pushed[|pushed| - 2], pushed[|pushed| - 3]]
  {
  }

  /** Before three pushes the values pushed so far come first, and placeholders fill the oldest slots. */
  lemma WindowWarmUp<T>(placeholder: T, pushed: seq<T>)
    requires |pushed| < 3
    ensures forall i :: 0 <= i < |pushed| ==> Window(placeholder, pushed)[i] == pushed[|pushed| - 1 - i]
    ensures forall i :: |pushed| <= i < 3 ==> Window(placeholder, pushed)[i] == placeholder
  {
  }

  class Buffer<T> {
    var data: array<T>
    var cursor: nat
    /** The value every slot holds before it is first written (`Default::default()`). */
    ghost const placeholder: T
    /** Every value pushed so far, oldest first. */
    ghost var pushed: seq<T>

    /**
     * The cursor stays below 3 and points at the oldest slot; the slot
     * before it holds the newest value, the one before that the middle value.
     */
    ghost predicate Valid()
      reads this, data
    {
      && data.Length == 3
      && cursor < 3
      && cursor == |pushed| % 3
      && data[(cursor + 2) % 3] == Recent(placeholder, pushed, 0)
      && data[(cursor + 1) % 3] == Recent(placeholder, pushed, 1)
      && data[cursor] == Recent(placeholder, pushed, 2)
    }

    /** What `ToVec` returns: the three retained values, newest first. */
    ghost function Snapshot(): seq<T>
      reads this
    {
      Window(placeholder, pushed)
    }

    /** `Buffer::new`: three placeholder slots and the cursor at 0. */
    constructor (dflt: T)
      ensures Valid() && fresh(data)
      ensures cursor == 0 && data[..] == [dflt, dflt, dflt]
      ensures placeholder == dflt && pushed == []
    {
      data := new T[3] [dflt, dflt, dflt];
      cursor := 0;
      placeholder := dflt;
      pushed := [];
    }

    /** `Buffer::push`: write `value` under the cursor and advance the cursor modulo 3. */
    method Push(value: T)
      requires Valid()
      modifies this, data
      ensures Valid() && data == old(data)
      ensures data[old(cursor)] == value
      ensures forall j :: 0 <= j < 3 && j != old(cursor) ==> data[j] == old(data[j])
      ensures cursor == (old(cursor) + 1) % 3
      ensures pushed == old(pushed) + [value]
    {
      data[cursor] := value;
      cursor := (cursor + 1) % 3;
      pushed := pushed + [value];
    }

    /**
     * `Buffer::to_vec`: the three slots from newest to oldest, without
     * changing the buffer. Element 0 is the last value pushed.
     */
    method ToVec() returns (result: seq<T>)
      requires Valid()
      ensures result == Window(placeholder, pushed)
    {
      result := [];
      for i := cursor + 3 downto cursor
        invariant |result| == cursor + 3 - i
        invariant forall k :: 0 <= k < |result| ==> result[k] == data[(cursor + 2 - k) % 3]
      {
        result := result + [data[i % 3]];
      }
    }
  }

  /** The unit test of `Buffer`: snapshots after one, two and six pushes of 1, 2, ..., 6. */
  method BufferTest() returns (first: seq<int>, second: seq<int>, last: seq<int>)
    ensures first == [1, 0, 0]
    ensures second == [2, 1, 0]
    ensures last == [6, 5, 4]
  {
    var buf := new Buffer<int>(0);
    buf.Push(1);
    first := buf.ToVec();
    buf.Push(2);
    second := buf.ToVec();
    buf.Push(3);
    buf.Push(4);
    buf.Push(5);
    buf.Push(6);
    last := buf.ToVec();
  }
}
