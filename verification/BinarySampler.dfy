/**
 The bit-packed sliding window of events behind the rate breaker. A 64-bit word is a natural number
 below 2^64, with the shift's overflow and Go's treatment of over-wide shifts written out.
 */
module BinarySampler {

  const WORD := 0x1_0000_0000_0000_0000

  type Frame = x: nat | x < WORD

  // ---------- Bits of a word ----------

  // Whether bit k is set, that is, whether x & (1 << k) is not 0. No bit of a word is set past 63,
  // as 1 << k is 0 there.
  predicate Bit(x: nat, k: nat)
    decreases k
  {
    if k == 0 then x % 2 == 1 else Bit(x / 2, k - 1)
  }

  // x << 1.
  function ShiftLeft(x: Frame): Frame {
    (2 * x) % WORD
  }

  // x | 1.
  function SetLowest(x: Frame): Frame {
    if x % 2 == 0 then x + 1 else x
  }

  function Pow2(n: nat): nat {
    if n == 0 then 1 else 2 * Pow2(n - 1)
  }

  lemma Pow2By8(n: nat)
    ensures Pow2(n + 8) == 256 * Pow2(n)
  {
    assert Pow2(n + 2) == 4 * Pow2(n);
    assert Pow2(n + 4) == 4 * Pow2(n + 2);
    assert Pow2(n + 6) == 4 * Pow2(n + 4);
  }

  lemma WordSize()
    ensures Pow2(64) == WORD && Pow2(63) == WORD / 2
  {
    Pow2By8(0);
    Pow2By8(8);
    Pow2By8(16);
    Pow2By8(24);
    Pow2By8(32);
    Pow2By8(40);
    Pow2By8(48);
    Pow2By8(56);
    assert Pow2(64) == 2 * Pow2(63);
  }

  // Adding a higher power of two does not change the lower bits.
  lemma {:induction false} AddHighBit(x: nat, n: nat, k: nat)
    requires k < n
    ensures Bit(x + Pow2(n), k) == Bit(x, k)
    decreases k
  {
    if k > 0 {
      AddHighBit(x / 2, n - 1, k - 1);
      assert (x + Pow2(n)) / 2 == x / 2 + Pow2(n - 1);
    }
  }

  lemma {:induction false} NoBitBeyond(x: nat, n: nat, k: nat)
    requires x < Pow2(n) && k >= n
    ensures !Bit(x, k)
    decreases k
  {
    if n == 0 {
      if k > 0 { NoBitBeyond(x / 2, 0, k - 1); }
    } else {
      NoBitBeyond(x / 2, n - 1, k - 1);
    }
  }

  // A shift moves every bit up by one and clears the lowest.
  lemma ShiftMovesBits(x: Frame, k: nat)
    requires k < 64
    ensures Bit(ShiftLeft(x), k) == (k > 0 && Bit(x, k - 1))
    ensures Bit(SetLowest(ShiftLeft(x)), k) == (k == 0 || Bit(x, k - 1))
  {
    WordSize();
    if x >= WORD / 2 {
      var r := x - WORD / 2;
      assert ShiftLeft(x) == 2 * r;
      if k > 0 { AddHighBit(r, 63, k - 1); }
    } else {
      assert ShiftLeft(x) == 2 * x;
    }
  }

  // ---------- Frames ----------

  // highestSet: the bit at 63 - pad, where the subtraction wraps around for pad 64.
  predicate HighestSet(frame: Frame, pad: nat)
    requires pad <= 64
  {
    Bit(frame, if pad == 64 then WORD - 1 else 63 - pad)
  }

  // Bit j of the frames taken as one long word.
  predicate Packed(frames: seq<Frame>, j: nat)
    requires j < 64 * |frames|
  {
    Bit(frames[j / 64], j % 64)
  }

  // All frames shifted by one, with the carry.
  function Shifted(frames: seq<Frame>): (r: seq<Frame>)
    ensures |r| == |frames|
  {
    seq(|frames|, i requires 0 <= i < |frames| =>
      if i > 0 && HighestSet(frames[i - 1], 0) then SetLowest(ShiftLeft(frames[i])) else ShiftLeft(frames[i]))
  }

  lemma ShiftedMovesBits(frames: seq<Frame>, j: nat)
    requires j < 64 * |frames|
    ensures Packed(Shifted(frames), j) == (j > 0 && Packed(frames, j - 1))
  {
    ShiftMovesBits(frames[j / 64], j % 64);
    if j > 0 && j % 64 == 0 {
      assert (j - 1) / 64 == j / 64 - 1 && (j - 1) % 64 == 63;
    } else if j > 0 {
      assert (j - 1) / 64 == j / 64 && (j - 1) % 64 == j % 64 - 1;
    }
  }

  // ---------- Counting events ----------

  function CountSet(events: seq<bool>): nat {
    if events == [] then 0 else CountSet(events[..|events| - 1]) + if events[|events| - 1] then 1 else 0
  }

  lemma {:induction false} CountConcat(a: seq<bool>, b: seq<bool>)
    ensures CountSet(a + b) == CountSet(a) + CountSet(b)
    decreases |b|
  {
    if b == [] {
      assert a + b == a;
    } else {
      assert (a + b)[..|a + b| - 1] == a + b[..|b| - 1];
      CountConcat(a, b[..|b| - 1]);
    }
  }

  // The latest events, as many as the window holds.
  function Window(size: nat, events: seq<bool>): seq<bool> {
    if |events| <= size then events else events[|events| - size..]
  }

  // What the sampler counts: the window, or everything when the size is a multiple of 64.
  function Counted(size: nat, events: seq<bool>): nat {
    if size % 64 == 0 then CountSet(events) else CountSet(Window(size, events))
  }

  lemma {:induction false} CountTick(size: nat, events: seq<bool>, isSet: bool)
    requires size > 0
    ensures CountSet(events + [isSet]) == CountSet(events) + if isSet then 1 else 0
    ensures CountSet(Window(size, events + [isSet]))
         == CountSet(Window(size, events)) + (if isSet then 1 else 0)
            - if |events| >= size && events[|events| - size] then 1 else 0
  {
    CountConcat(events, [isSet]);
    if |events| >= size {
      var w := Window(size, events);
      var first := events[|events| - size];
      assert w == [first] + w[1..];
      CountConcat([first], w[1..]);
      assert Window(size, events + [isSet]) == w[1..] + [isSet];
      CountConcat(w[1..], [isSet]);
    }
  }

  // The next tick uncounts a set event.
  predicate Leaves(size: nat, events: seq<bool>) {
    size % 64 != 0 && |events| >= size && events[|events| - size]
  }

  lemma {:induction false} CountedTick(size: nat, events: seq<bool>, isSet: bool)
    requires size > 0
    ensures Counted(size, events + [isSet])
         == Counted(size, events) + (if isSet then 1 else 0) - if Leaves(size, events) then 1 else 0
  {
    CountTick(size, events, isSet);
  }

  // The count is the number of set events in the window exactly when the size is not a multiple of
  // 64 or no set event has left the window.
  lemma CountIsWindowCount(size: nat, events: seq<bool>)
    ensures Counted(size, events) == CountSet(Window(size, events))
       <==> size % 64 != 0 || |events| <= size || CountSet(events[..|events| - size]) == 0
  {
    if |events| > size {
      assert events == events[..|events| - size] + Window(size, events);
      CountConcat(events[..|events| - size], Window(size, events));
    }
  }

  lemma {:induction false} CountClear(n: nat)
    ensures CountSet(seq(n, _ => false)) == 0
  {
    if n > 0 {
      CountClear(n - 1);
      assert seq(n, _ => false)[..n - 1] == seq(n - 1, _ => false);
    }
  }

  // For every size that is a multiple of 64, a failure is still counted after it left the window.
  lemma MultipleOf64NeverForgets(size: nat)
    requires size > 0 && size % 64 == 0
    ensures
      var events := [true] + seq(size, _ => false);
      Counted(size, events) == 1 && CountSet(Window(size, events)) == 0
  {
    var clear := seq(size, _ => false);
    CountClear(size);
    CountConcat([true], clear);
    assert Window(size, [true] + clear) == clear;
  }

  // ---------- Events in frames ----------

  // Bit j of the frames is the event j ticks ago.
  ghost predicate Holds(frames: seq<Frame>, events: seq<bool>) {
    forall j :: 0 <= j < 64 * |frames| ==> Packed(frames, j) == (j < |events| && events[|events| - 1 - j])
  }

  lemma AppendEmpty(frames: seq<Frame>, events: seq<bool>)
    requires Holds(frames, events) && |events| <= 64 * |frames|
    ensures Holds(frames + [0], events)
  {
    forall j | 0 <= j < 64 * |frames| + 64
      ensures Packed(frames + [0], j) == (j < |events| && events[|events| - 1 - j])
    {
      if j >= 64 * |frames| {
        assert j / 64 == |frames|;
        NoBitBeyond(0, 0, j % 64);
      } else {
        assert Packed(frames + [0], j) == Packed(frames, j);
      }
    }
  }

  // The frames after one more event.
  function Next(frames: seq<Frame>, isSet: bool): (r: seq<Frame>)
    requires frames != []
    ensures |r| == |frames|
  {
    var s := Shifted(frames);
    if isSet then s[0 := SetLowest(s[0])] else s
  }

  lemma NextBit(frames: seq<Frame>, isSet: bool, j: nat)
    requires frames != [] && j < 64 * |frames|
    ensures Packed(Next(frames, isSet), j) == if j == 0 then isSet else Packed(frames, j - 1)
  {
    ShiftedMovesBits(frames, j);
    LowestAlone(Shifted(frames), j, isSet);
  }

  // Shifting and setting the lowest bit takes in one more event.
  lemma ShiftIn(frames: seq<Frame>, events: seq<bool>, isSet: bool)
    requires frames != [] && Holds(frames, events)
    ensures Holds(Next(frames, isSet), events + [isSet])
  {
    var all := events + [isSet];
    forall j | 0 <= j < 64 * |frames| ensures Packed(Next(frames, isSet), j) == (j < |all| && all[|all| - 1 - j]) {
      NextBit(frames, isSet, j);
    }
  }

  lemma LowestAlone(s: seq<Frame>, j: nat, isSet: bool)
    requires s != [] && j < 64 * |s|
    ensures Packed(if isSet then s[0 := SetLowest(s[0])] else s, j) == (Packed(s, j) || (isSet && j == 0))
  {
    if j < 64 {
      assert j / 64 == 0 && j % 64 == j;
      assert SetLowest(s[0]) / 2 == s[0] / 2;
    }
  }

  // ---------- The sampler ----------

  class Sampler {
    var size: nat
    var filled: nat
    var frames: seq<Frame>
    var pad: nat
    var count: int
    ghost var events: seq<bool>  // every event so far, the latest last

    ghost predicate Valid()
      reads this
    {
      && size > 0 && pad == 64 - size % 64
      && filled == (if |events| < size then |events| else size)
      && |frames| == (filled + 63) / 64
      && Holds(frames, events)
      && count == Counted(size, events)
    }

    constructor (size: int)
      ensures Valid() && events == [] && this.size == if size <= 0 then 1 else size
    {
      var n := if size <= 0 then 1 else size;
      this.size, filled, frames, pad, count, events := n, 0, [], 64 - n % 64, 0, [];
    }

    // From the highest frame down, so that each carry meets a frame already shifted.
    method Shift()
      modifies this`frames
      ensures frames == Shifted(old(frames))
    {
      var highestFrame := |frames| - 1;
      var i := |frames|;
      while i > 0
        invariant 0 <= i <= |frames| == |old(frames)|
        invariant forall k :: 0 <= k < i ==> frames[k] == old(frames)[k]
        invariant i < |frames| ==> frames[i] == ShiftLeft(old(frames)[i])
        invariant forall k :: i < k < |frames| ==> frames[k] == Shifted(old(frames))[k]
      {
        i := i - 1;
        var h := HighestSet(frames[i], 0);
        frames := frames[i := ShiftLeft(frames[i])];
        if h && i < highestFrame {
          frames := frames[i + 1 := SetLowest(frames[i + 1])];
        }
      }
    }

    // Adds an event. The count stays the number of set events in the window, or of all set events
    // when the size is a multiple of 64.
    method Tick(isSet: bool)
      requires Valid()
      modifies this
      ensures Valid() && size == old(size) && events == old(events) + [isSet]
    {
      CountedTick(size, events, isSet);
      MakeRoom();
      ShiftIn(frames, events, isSet);
      Shift();
      if isSet {
        count := count + 1;
        frames := frames[0 := SetLowest(frames[0])];
      }
      events := events + [isSet];
    }

    // Uncounts the event that leaves a full window, or adds a frame when the present ones are used up.
    method MakeRoom()
      requires Valid()
      modifies this`count, this`frames, this`filled
      ensures filled == (if |events| + 1 < size then |events| + 1 else size) && |frames| == (filled + 63) / 64
      ensures Holds(frames, events)
      ensures count == Counted(size, events) - if Leaves(size, events) then 1 else 0
    {
      if filled == size {
        EvictionBit();
        if HighestSet(frames[|frames| - 1], pad) {
          count := count - 1;
        }
      } else {
        if |frames| <= filled / 64 {
          AppendEmpty(frames, events);
          frames := frames + [0];
        }
        filled := filled + 1;
      }
    }

    // A full window tests the event that leaves it, except that for a size that is a multiple of
    // 64 it tests nothing.
    lemma EvictionBit()
      requires Valid() && filled == size
      ensures HighestSet(frames[|frames| - 1], pad) == Leaves(size, events)
    {
      if size % 64 == 0 {
        WordSize();
        NoBitBeyond(frames[|frames| - 1], 64, WORD - 1);
      } else {
        assert (size - 1) / 64 == |frames| - 1 && (size - 1) % 64 == 63 - pad;
        assert Packed(frames, size - 1) == events[|events| - size];
      }
    }
  }

}
