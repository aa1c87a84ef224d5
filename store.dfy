/** The cue store of srtsync: the `Subtitles` record with its growable
    array of `Line {on, off, text}`, the append step of `load_subs`, and the
    shift case of `transform`. */
module Store {
  import opened Clock

  /** One subtitle cue: its on and off times in milliseconds and its text. */
  datatype Cue = Cue(on: u32, off: u32, text: string)

  /** The capacity `load_subs` starts with. */
  const InitialBulk: nat := 256

  // ---------------------------------------------------------------------------
  // Shifting cue times (transform with factor 1)

  /** Every on and off time stays a `uint32_t` once `delta` is added. */
  predicate CanShift(cues: seq<Cue>, delta: int) {
    forall k :: 0 <= k < |cues| ==>
      0 <= cues[k].on + delta < TwoTo32 && 0 <= cues[k].off + delta < TwoTo32
  }

  function ShiftCue(c: Cue, delta: int): Cue
    requires 0 <= c.on + delta < TwoTo32 && 0 <= c.off + delta < TwoTo32
  {
    c.(on := c.on + delta, off := c.off + delta)
  }

  /** The cues after `transform(subs, 1, sign, offset)` with `delta` standing
      for `sign * offset`. */
  function Shifted(cues: seq<Cue>, delta: int): seq<Cue>
    requires CanShift(cues, delta)
  {
    seq(|cues|, k requires 0 <= k < |cues| => ShiftCue(cues[k], delta))
  }

  /** A shift keeps the number of cues, every text and every cue's length
      on screen, and moves every on and off time by the same amount. */
  lemma ShiftedKeeps(cues: seq<Cue>, delta: int)
    requires CanShift(cues, delta)
    ensures |Shifted(cues, delta)| == |cues|
    ensures forall k :: 0 <= k < |cues| ==>
      var c, d := cues[k], Shifted(cues, delta)[k];
      d.text == c.text && d.off - d.on == c.off - c.on && d.on - c.on == delta
  {
  }

  /** `transform(subs, 1, 0, offset)` changes nothing. */
  lemma ShiftedIdentity(cues: seq<Cue>)
    ensures CanShift(cues, 0) && Shifted(cues, 0) == cues
  {
    assert forall k :: 0 <= k < |cues| ==> Shifted(cues, 0)[k] == cues[k];
  }

  /** Two shifts are one shift by the sum of the two amounts. */
  lemma ShiftedCompose(cues: seq<Cue>, a: int, b: int)
    requires CanShift(cues, a) && CanShift(Shifted(cues, a), b)
    ensures CanShift(cues, a + b)
    ensures Shifted(Shifted(cues, a), b) == Shifted(cues, a + b)
  {
    var once := Shifted(cues, a);
    forall k | 0 <= k < |cues|
      ensures 0 <= cues[k].on + (a + b) < TwoTo32 && 0 <= cues[k].off + (a + b) < TwoTo32
    {
      assert once[k].on == cues[k].on + a && once[k].off == cues[k].off + a;
    }
    assert forall k :: 0 <= k < |cues| ==> Shifted(once, b)[k] == Shifted(cues, a + b)[k];
  }

  /** Shifting by `+k` and then by `-k` restores every on and off time. */
  lemma ShiftedInverse(cues: seq<Cue>, delta: int)
    requires CanShift(cues, delta)
    ensures CanShift(Shifted(cues, delta), -delta)
    ensures Shifted(Shifted(cues, delta), -delta) == cues
  {
    var once := Shifted(cues, delta);
    assert forall k :: 0 <= k < |cues| ==> once[k].on - delta == cues[k].on && once[k].off - delta == cues[k].off;
    ShiftedCompose(cues, delta, -delta);
    ShiftedIdentity(cues);
  }

  /** Cues ordered by on time stay ordered after a shift. */
  lemma ShiftedKeepsOrder(cues: seq<Cue>, delta: int)
    requires CanShift(cues, delta)
    requires forall j, k :: 0 <= j < k < |cues| ==> cues[j].on <= cues[k].on
    ensures forall j, k :: 0 <= j < k < |cues| ==> Shifted(cues, delta)[j].on <= Shifted(cues, delta)[k].on
  {
  }

  // ---------------------------------------------------------------------------
  // The store

  class Subtitles {
    var bulk: int
    var count: int
    var lines: array<Cue>

    /** `lines` holds `bulk` slots of which the first `count` are cues;
        `bulk` never drops below its initial value, so growing by half
        always makes room. */
    ghost predicate Valid()
      reads this
    {
      lines.Length == bulk && 0 <= count <= bulk && InitialBulk <= bulk
    }

    /** The cues loaded so far, in order. */
    function Cues(): seq<Cue>
      reads this, lines
      requires Valid()
    {
      lines[..count]
    }

    /** The empty store `load_subs` starts from. */
    constructor ()
      ensures Valid() && fresh(lines)
      ensures bulk == InitialBulk && count == 0 && Cues() == []
    {
      bulk := InitialBulk;
      count := 0;
      lines := new Cue[InitialBulk];
    }

    /** The append step of `load_subs`: when the array is full its capacity
        grows by half (realloc keeps the cues already stored), then the new
        cue goes after the last one. */
    method Append(line: Cue)
      requires Valid()
      modifies this, lines
      ensures Valid()
      ensures old(count) == old(bulk) ==> bulk == old(bulk) + old(bulk) / 2 && fresh(lines)
      ensures old(count) < old(bulk) ==> bulk == old(bulk) && lines == old(lines)
      ensures count == old(count) + 1 && count <= bulk
      ensures Cues() == old(Cues()) + [line]
    {
      if count == bulk {
        bulk := bulk + bulk / 2;
        var grown := new Cue[bulk];
        forall k | 0 <= k < count {
          grown[k] := lines[k];
        }
        lines := grown;
      }
      lines[count] := line;
      count := count + 1;
    }

    /** `transform(subs, 1, sign, offset)`: every cue's on and off time moves
        by `sign * offset` in place; the count, the texts and the unused
        slots stay as they are. */
    method Transform(sign: int, offset: u32)
      requires Valid() && CanShift(Cues(), sign * offset)
      modifies lines
      ensures Valid()
      ensures Cues() == Shifted(old(Cues()), sign * offset)
      ensures lines[count..] == old(lines[count..])
    {
      var delta := sign * offset;
      var i := 0;
      while i < count
        invariant 0 <= i <= count
        invariant forall k :: 0 <= k < i ==> lines[k] == ShiftCue(old(lines[k]), delta)
        invariant forall k :: i <= k < lines.Length ==> lines[k] == old(lines[k])
      {
        var c := lines[i];
        lines[i] := c.(on := c.on + delta, off := c.off + delta);
        i := i + 1;
      }
      assert forall k :: 0 <= k < count ==> Cues()[k] == Shifted(old(Cues()), delta)[k];
    }
  }
}
