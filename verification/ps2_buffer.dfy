/**
 * The PS/2 keyboard driver's scancode buffer: a circular FIFO of
 * KEYBOARD_BUFFER_MAX_COUNT bytes with a start position (the oldest byte),
 * an end position (the newest byte) and a count.
 *
 * `Contents` reads the ring as the queue it stands for; every operation is
 * stated against that queue.
 */
module Ps2Buffer {
  import opened Efi
  import Bits

  const KEYBOARD_BUFFER_MAX_COUNT: nat := 32

  /** Status register bits: output buffer full, and a transmit time-out. */
  const KEYBOARD_STATUS_REGISTER_HAS_OUTPUT_DATA: nat := 0x01
  const KEYBOARD_STATUS_REGISTER_TRANSMIT_TIMEOUT: nat := 0x20

  const SCANCODE_CTRL_MAKE: nat := 0x1D
  const SCANCODE_CTRL_BREAK: nat := 0x9D
  const SCANCODE_ALT_MAKE: nat := 0x38
  const SCANCODE_ALT_BREAK: nat := 0xB8
  /** The Delete key of Ctrl+Alt+Del. */
  const SCANCODE_DELETE_MAKE: nat := 0x53

  datatype Ring = Ring(data: seq<nat>, start: nat, end: nat, count: nat)

  /** Positions are in range, and the newest byte sits count - 1 places after the oldest. */
  predicate Valid(r: Ring)
  {
    && |r.data| == KEYBOARD_BUFFER_MAX_COUNT
    && r.start < KEYBOARD_BUFFER_MAX_COUNT
    && r.end < KEYBOARD_BUFFER_MAX_COUNT
    && r.count <= KEYBOARD_BUFFER_MAX_COUNT
    && (r.start + r.count) % KEYBOARD_BUFFER_MAX_COUNT == (r.end + 1) % KEYBOARD_BUFFER_MAX_COUNT
  }

  /** The position after p, wrapping to 0. */
  function Next(p: nat): (q: nat)
    requires p < KEYBOARD_BUFFER_MAX_COUNT
    ensures q < KEYBOARD_BUFFER_MAX_COUNT && q == (p + 1) % KEYBOARD_BUFFER_MAX_COUNT
  {
    if p + 1 >= KEYBOARD_BUFFER_MAX_COUNT then 0 else p + 1
  }

  /** The queue the ring holds, oldest byte first. */
  function Contents(r: Ring): (q: seq<nat>)
    requires Valid(r)
    ensures |q| == r.count
  {
    seq(r.count, k requires 0 <= k < r.count => r.data[(r.start + k) % KEYBOARD_BUFFER_MAX_COUNT])
  }

  /** The buffer as the driver starts it: start 0, end one before it, nothing held. */
  function Reset(data: seq<nat>): (r: Ring)
    requires |data| == KEYBOARD_BUFFER_MAX_COUNT
    ensures Valid(r) && Contents(r) == []
  {
    Ring(data, 0, KEYBOARD_BUFFER_MAX_COUNT - 1, 0)
  }

  // ---------------------------------------------------------------------
  // Enqueue

  /** Store one byte read from the controller: only while the ring is not full. */
  function Enqueue(r: Ring, b: nat): (r': Ring)
    requires Valid(r)
    ensures Valid(r')
    ensures r.count < KEYBOARD_BUFFER_MAX_COUNT ==> r'.count == r.count + 1 && r'.end == Next(r.end) && r'.data[r'.end] == b
    ensures r.count >= KEYBOARD_BUFFER_MAX_COUNT ==> r' == r
  {
    if r.count < KEYBOARD_BUFFER_MAX_COUNT then
      var e := Next(r.end);
      Ring(r.data[e := b], r.start, e, r.count + 1)
    else r
  }

  /** Enqueueing into a ring that is not full appends the byte to the queue. */
  lemma EnqueueAppends(r: Ring, b: nat)
    requires Valid(r) && r.count < KEYBOARD_BUFFER_MAX_COUNT
    ensures Contents(Enqueue(r, b)) == Contents(r) + [b]
  {
    var r' := Enqueue(r, b);
    var q, q' := Contents(r), Contents(r');
    assert r'.end == (r.start + r.count) % KEYBOARD_BUFFER_MAX_COUNT;
    forall k | 0 <= k < r.count
      ensures q'[k] == q[k]
    {
      DistinctPositions(r.start, k, r.count);
    }
  }

  /** Two offsets below the buffer size from the same start land on different slots. */
  lemma DistinctPositions(s: nat, j: nat, k: nat)
    requires j < k < KEYBOARD_BUFFER_MAX_COUNT
    ensures (s + j) % KEYBOARD_BUFFER_MAX_COUNT != (s + k) % KEYBOARD_BUFFER_MAX_COUNT
  {
    var m := KEYBOARD_BUFFER_MAX_COUNT;
    var q, t := (s + j) / m, (s + j) % m;
    if t + (k - j) < m {
      Bits.DivModUnique(s + k, m, q, t + (k - j));
    } else {
      Bits.DivModUnique(s + k, m, q + 1, t + (k - j) - m);
    }
  }

  /** Reducing the start first does not change the slot. */
  lemma ModAddMod(a: nat, k: nat)
    ensures (a % KEYBOARD_BUFFER_MAX_COUNT + k) % KEYBOARD_BUFFER_MAX_COUNT == (a + k) % KEYBOARD_BUFFER_MAX_COUNT
  {
    var m := KEYBOARD_BUFFER_MAX_COUNT;
    var u := a % m + k;
    Bits.DivModUnique(a + k, m, a / m + u / m, u % m);
  }

  // ---------------------------------------------------------------------
  // Peek and pop

  /** The slot after the one at offset a is the one at offset a + 1. */
  lemma NextSlot(a: nat)
    ensures Next(a % KEYBOARD_BUFFER_MAX_COUNT) == (a + 1) % KEYBOARD_BUFFER_MAX_COUNT
  {
    ModAddMod(a, 1);
  }

  /** The first index + 1 queued bytes extend the first index by the byte at that offset. */
  lemma PrefixStep(r: Ring, index: nat, pos: nat)
    requires Valid(r) && index < r.count && pos == (r.start + index) % KEYBOARD_BUFFER_MAX_COUNT
    ensures Contents(r)[..index + 1] == Contents(r)[..index] + [r.data[pos]]
  {
    var q := Contents(r);
    assert q[index] == r.data[pos];
    assert q[..index + 1] == q[..index] + [q[index]];
  }

  /**
   * GetScancodeBufHead: copy the `count` oldest bytes without removing
   * them; NOT_READY when count is 0 or more than the ring holds.
   */
  method GetScancodeBufHead(r: Ring, count: nat) returns (status: Status, buf: seq<nat>)
    requires Valid(r)
    ensures status == Success || status == NotReady
    ensures status == NotReady <==> count == 0 || r.count < count
    ensures status == Success ==> buf == Contents(r)[..count]
    ensures status == NotReady ==> buf == []
  {
    if count == 0 || r.count < count {
      return NotReady, [];
    }
    buf := [];
    var pos := 0;
    var index := 0;
    while index < count
      invariant index <= count && |buf| == index
      invariant pos < KEYBOARD_BUFFER_MAX_COUNT
      invariant index > 0 ==> pos == (r.start + index - 1) % KEYBOARD_BUFFER_MAX_COUNT
      invariant buf == Contents(r)[..index]
    {
      if index == 0 {
        pos := r.start;
        Bits.DivModUnique(r.start, KEYBOARD_BUFFER_MAX_COUNT, 0, r.start);
      } else {
        NextSlot(r.start + index - 1);
        pos := Next(pos);
      }
      PrefixStep(r, index, pos);
      buf := buf + [r.data[pos]];
      index := index + 1;
    }
    status := Success;
  }

  /** The ring after its `n` oldest bytes are removed. */
  function Advance(r: Ring, n: nat): (r': Ring)
    requires Valid(r) && n <= r.count
    ensures Valid(r') && r'.data == r.data && r'.end == r.end && r'.count == r.count - n
  {
    ModAddMod(r.start + n, r.count - n);
    Ring(r.data, (r.start + n) % KEYBOARD_BUFFER_MAX_COUNT, r.end, r.count - n)
  }

  /** Advancing drops exactly the oldest n bytes of the queue. */
  lemma AdvanceDrops(r: Ring, n: nat)
    requires Valid(r) && n <= r.count
    ensures Contents(Advance(r, n)) == Contents(r)[n..]
  {
    var r' := Advance(r, n);
    forall k | 0 <= k < r'.count
      ensures Contents(r')[k] == Contents(r)[n + k]
    {
      ModAddMod(r.start + n, k);
    }
  }

  /**
   * PopScancodeBufHead: the bytes a peek would return, and the ring with
   * them removed; NOT_READY (and no change) when count is 0 or more than
   * the ring holds.
   */
  method PopScancodeBufHead(r: Ring, count: nat) returns (status: Status, buf: seq<nat>, r': Ring)
    requires Valid(r)
    ensures status == Success || status == NotReady
    ensures status == NotReady <==> count == 0 || r.count < count
    ensures status == NotReady ==> buf == [] && r' == r
    ensures status == Success ==> buf == Contents(r)[..count] && r' == Advance(r, count)
    ensures Valid(r') && Contents(r') == Contents(r)[|buf|..]
  {
    if count == 0 || r.count < count {
      return NotReady, [], r;
    }
    buf := [];
    var start := r.start;
    var held := r.count;
    var index := 0;
    while index < count
      invariant index <= count && |buf| == index && held == r.count - index
      invariant start < KEYBOARD_BUFFER_MAX_COUNT
      invariant start == (r.start + (if index == 0 then 0 else index - 1)) % KEYBOARD_BUFFER_MAX_COUNT
      invariant buf == Contents(r)[..index]
    {
      if index != 0 {
        NextSlot(r.start + index - 1);
        start := Next(start);
      } else {
        Bits.DivModUnique(r.start, KEYBOARD_BUFFER_MAX_COUNT, 0, r.start);
      }
      PrefixStep(r, index, start);
      buf := buf + [r.data[start]];
      held := held - 1;
      index := index + 1;
    }
    NextSlot(r.start + count - 1);
    start := Next(start);
    r' := Ring(r.data, start, r.end, held);
    assert r' == Advance(r, count);
    AdvanceDrops(r, count);
    status := Success;
  }

  /**
   * Bytes come out in the order they went in: after a reset, enqueueing
   * `bs` (no more than the ring holds) leaves exactly `bs` queued.
   */
  lemma {:induction false} FifoOrder(data: seq<nat>, bs: seq<nat>)
    requires |data| == KEYBOARD_BUFFER_MAX_COUNT && |bs| <= KEYBOARD_BUFFER_MAX_COUNT
    ensures Valid(EnqueueAll(Reset(data), bs)) && Contents(EnqueueAll(Reset(data), bs)) == bs
  {
    EnqueueAllAppends(Reset(data), bs);
  }

  /** Enqueue every byte of bs in order. */
  function EnqueueAll(r: Ring, bs: seq<nat>): (r': Ring)
    requires Valid(r)
    ensures Valid(r')
    decreases |bs|
  {
    if |bs| == 0 then r else EnqueueAll(Enqueue(r, bs[0]), bs[1..])
  }

  lemma {:induction false} EnqueueAllAppends(r: Ring, bs: seq<nat>)
    requires Valid(r) && r.count + |bs| <= KEYBOARD_BUFFER_MAX_COUNT
    ensures Contents(EnqueueAll(r, bs)) == Contents(r) + bs
    decreases |bs|
  {
    if |bs| > 0 {
      EnqueueAppends(r, bs[0]);
      EnqueueAllAppends(Enqueue(r, bs[0]), bs[1..]);
      assert Contents(r) + [bs[0]] + bs[1..] == Contents(r) + bs;
    }
  }

  // ---------------------------------------------------------------------
  // Reading the controller

  /** The Ctrl/Alt tracking of the receive path and whether Ctrl+Alt+Del asks for a warm reset. */
  datatype Receiver = Receiver(ring: Ring, ctrled: bool, alted: bool, warmReset: bool)

  /**
   * One byte read from the data register (when the status register says
   * output is waiting and no time-out happened, and the ring has room):
   * queue it and follow the Ctrl and Alt make/break codes.
   */
  function ReceiveByte(s: Receiver, statusRegister: nat, data: nat): (s': Receiver)
    requires Valid(s.ring)
    ensures Valid(s'.ring)
    ensures var ready := Bits.And(statusRegister, KEYBOARD_STATUS_REGISTER_TRANSMIT_TIMEOUT + KEYBOARD_STATUS_REGISTER_HAS_OUTPUT_DATA)
                           == KEYBOARD_STATUS_REGISTER_HAS_OUTPUT_DATA;
      if ready && s.ring.count < KEYBOARD_BUFFER_MAX_COUNT then
        && Contents(s'.ring) == Contents(s.ring) + [data]
        && s'.ctrled == (if data == SCANCODE_CTRL_MAKE then true else if data == SCANCODE_CTRL_BREAK then false else s.ctrled)
        && s'.alted == (if data == SCANCODE_ALT_MAKE then true else if data == SCANCODE_ALT_BREAK then false else s.alted)
        && (s'.warmReset <==> s.warmReset || (s'.ctrled && s'.alted && data == SCANCODE_DELETE_MAKE))
      else s' == s
  {
    var ready := Bits.And(statusRegister, KEYBOARD_STATUS_REGISTER_TRANSMIT_TIMEOUT + KEYBOARD_STATUS_REGISTER_HAS_OUTPUT_DATA)
                   == KEYBOARD_STATUS_REGISTER_HAS_OUTPUT_DATA;
    if ready && s.ring.count < KEYBOARD_BUFFER_MAX_COUNT then
      EnqueueAppends(s.ring, data);
      var ctrled := if data == SCANCODE_CTRL_MAKE then true else if data == SCANCODE_CTRL_BREAK then false else s.ctrled;
      var alted := if data == SCANCODE_ALT_MAKE then true else if data == SCANCODE_ALT_BREAK then false else s.alted;
      Receiver(Enqueue(s.ring, data), ctrled, alted, s.warmReset || (ctrled && alted && data == SCANCODE_DELETE_MAKE))
    else s
  }

  /** KeyboardTimerHandler: nothing happens once a keyboard error was recorded. */
  function TimerTick(s: Receiver, keyboardErr: bool, statusRegister: nat, data: nat): (s': Receiver)
    requires Valid(s.ring)
    ensures Valid(s'.ring)
    ensures keyboardErr ==> s' == s
    ensures !keyboardErr ==> s' == ReceiveByte(s, statusRegister, data)
  {
    if keyboardErr then s else ReceiveByte(s, statusRegister, data)
  }

  /** Ctrl+Alt+Del: holding Ctrl and Alt, the Delete make code asks for a warm reset. */
  lemma CtrlAltDelResets(s: Receiver, statusRegister: nat)
    requires Valid(s.ring) && s.ring.count + 3 <= KEYBOARD_BUFFER_MAX_COUNT
    requires Bits.And(statusRegister, 0x21) == 0x01
    ensures var s1 := ReceiveByte(s, statusRegister, SCANCODE_CTRL_MAKE);
      var s2 := ReceiveByte(s1, statusRegister, SCANCODE_ALT_MAKE);
      var s3 := ReceiveByte(s2, statusRegister, SCANCODE_DELETE_MAKE);
      s3.warmReset && Contents(s3.ring) == Contents(s.ring) + [SCANCODE_CTRL_MAKE, SCANCODE_ALT_MAKE, SCANCODE_DELETE_MAKE]
  {
  }

  /** Without Ctrl held (or released before), Delete does not reset. */
  lemma DeleteAloneDoesNotReset(s: Receiver, statusRegister: nat)
    requires Valid(s.ring) && !s.ctrled && !s.warmReset
    ensures !ReceiveByte(s, statusRegister, SCANCODE_DELETE_MAKE).warmReset
  {
  }
}
