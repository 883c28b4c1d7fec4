/** The keyboard input device: a 16-byte ring buffer behind memory-mapped registers, and its interrupt line. */
module InputQueue {
  import opened Bits

  const QUEUE_SIZE := 16

  const STATUS := 0x00
  const CONTROL := 0x01
  const DATA := 0x02
  const PEEK := 0x03
  const COUNT := 0x04
  const KEY_STATE := 0x05

  // ---------------------------------------------------------------- the queue as a list

  /** The device seen from outside, with the bytes accepted and handed out since power-on. */
  datatype Fifo = Fifo(queued: seq<byte>, irqEnabled: bool, keyState: byte, irqLine: bool,
                       accepted: seq<byte>, popped: seq<byte>)

  datatype Event =
    | InjectKey(key: byte)
    | ReadRegister(offset: word)
    | WriteRegister(offset: word, value: byte)
    | KeyDown(mask: byte)
    | KeyUp(mask: byte)
    | ControlTick

  /** A 16-place queue that drops input when full. */
  function Step(f: Fifo, e: Event): Fifo {
    match e
    case InjectKey(key) =>
      if |f.queued| == QUEUE_SIZE then f else f.(queued := f.queued + [key], accepted := f.accepted + [key])
    case ReadRegister(offset) =>
      if offset == DATA && f.queued != [] then f.(queued := f.queued[1..], popped := f.popped + [f.queued[0]]) else f
    case WriteRegister(offset, value) =>
      if offset == CONTROL then f.(irqEnabled := value % 2 == 1) else f
    case KeyDown(mask) => f.(keyState := Held(f.keyState, mask))
    case KeyUp(mask) => f.(keyState := Released(f.keyState, mask))
    case ControlTick => f.(irqLine := f.irqEnabled && f.queued != [])
  }

  /** What a register read returns. */
  function Output(f: Fifo, offset: word): byte {
    if offset == STATUS then
      (if f.queued != [] then 0x01 else 0) + (if |f.queued| == QUEUE_SIZE then 0x02 else 0)
      + (if f.irqEnabled && f.queued != [] then 0x80 else 0)
    else if offset == DATA || offset == PEEK then (if f.queued == [] then 0x00 else f.queued[0])
    else if offset == COUNT then |f.queued| % 0x100
    else if offset == KEY_STATE then f.keyState
    else 0
  }

  function Held(state: byte, mask: byte): byte {
    assert Or(state, mask) < 0x100 by {
      Pow2Of8();
      OrFits(state, mask, 8);
    }
    Or(state, mask)
  }

  function Released(state: byte, mask: byte): byte {
    assert And(state, 0xFF - mask) < 0x100 by {
      Pow2Of8();
      AndFits(state, 0xFF - mask, 8);
    }
    And(state, 0xFF - mask)
  }

  const POWER_ON := Fifo([], false, 0, false, [], [])

  function Run(f: Fifo, events: seq<Event>): Fifo {
    if events == [] then f else Step(Run(f, events[..|events| - 1]), events[|events| - 1])
  }

  /** Nothing is lost, repeated or reordered: what was accepted is what was handed out and then what is
      still queued, and the queue never holds more than 16. */
  ghost predicate Conserves(f: Fifo) {
    f.accepted == f.popped + f.queued && |f.queued| <= QUEUE_SIZE
  }

  lemma StepConserves(f: Fifo, e: Event)
    requires Conserves(f)
    ensures Conserves(Step(f, e))
  {
    if e.ReadRegister? && f.queued != [] {
      assert f.queued == [f.queued[0]] + f.queued[1..];
    }
  }

  /** Under every interleaving of events, the bytes handed out are a prefix of the bytes accepted. */
  lemma {:induction false} RunsConserve(events: seq<Event>)
    ensures Conserves(Run(POWER_ON, events))
    ensures Run(POWER_ON, events).popped <= Run(POWER_ON, events).accepted
  {
    if events != [] {
      var n := |events| - 1;
      RunsConserve(events[..n]);
      StepConserves(Run(POWER_ON, events[..n]), events[n]);
    }
  }

  /** How many events had happened right after the last control tick; 0 if there was none. */
  function LastTick(events: seq<Event>): (n: nat)
    ensures n <= |events| && (n > 0 ==> events[n - 1] == ControlTick)
    ensures forall k | n <= k < |events| :: events[k] != ControlTick
  {
    if events == [] then 0
    else if events[|events| - 1] == ControlTick then |events|
    else LastTick(events[..|events| - 1])
  }

  /** The line is latched: over every run it shows whether, at the last control tick, interrupts were enabled
      with input waiting. Nothing between two ticks moves it, and before the first it is low. */
  lemma {:induction false} LineShowsLastTick(events: seq<Event>)
    ensures var n := LastTick(events);
            var atTick := Run(POWER_ON, events[..n]);
            Run(POWER_ON, events).irqLine <==> n > 0 && atTick.irqEnabled && atTick.queued != []
  {
    if events != [] {
      var before := events[..|events| - 1];
      if events[|events| - 1] == ControlTick {
        assert events[..|events|] == events;
      } else {
        LineShowsLastTick(before);
        assert events[..LastTick(events)] == before[..LastTick(before)];
      }
    }
  }

  /** The keys injected so far. */
  function Injected(events: seq<Event>): seq<byte> {
    if events == [] then []
    else
      var n := |events| - 1;
      if events[n].InjectKey? then Injected(events[..n]) + [events[n].key] else Injected(events[..n])
  }

  predicate FitsNow(events: seq<Event>) {
    |Injected(events)| <= |Run(POWER_ON, events).popped| + QUEUE_SIZE
  }

  /** At no time were there more than 16 keys injected and not handed out. */
  ghost predicate NeverTooMany(events: seq<Event>) {
    forall k | 0 <= k <= |events| :: FitsNow(events[..k])
  }

  lemma {:induction false} AcceptedAtMost(events: seq<Event>)
    ensures |Run(POWER_ON, events).accepted| <= |Injected(events)|
  {
    if events != [] { AcceptedAtMost(events[..|events| - 1]); }
  }

  lemma NeverTooManyBefore(events: seq<Event>, before: seq<Event>, fits: bool)
    requires events != [] && before == events[..|events| - 1] && fits == FitsNow(events)
    ensures NeverTooMany(events) <==> NeverTooMany(before) && fits
  {
    assert events[..|events|] == events;
    forall k | 0 <= k <= |before| ensures before[..k] == events[..k] {
    }
  }

  /** One more event after which everything is still accepted. */
  lemma StillAllAccepted(f: Fifo, e: Event, injected: seq<byte>, more: seq<byte>)
    requires Conserves(f) && |f.accepted| <= |injected|
    requires more == if e.InjectKey? then injected + [e.key] else injected
    ensures Step(f, e).accepted == more <==> f.accepted == injected && |more| <= |Step(f, e).popped| + QUEUE_SIZE
  {
    StepConserves(f, e);
    if e.InjectKey? && Step(f, e).accepted == more && |f.queued| != QUEUE_SIZE {
      assert (f.accepted + [e.key])[..|f.accepted|] == f.accepted;
      assert (injected + [e.key])[..|injected|] == injected;
    }
  }

  /** When input is lost: every injected key is accepted, in order, if and only if at no time more than 16 keys
      had been injected and not handed out. */
  lemma {:induction false} NothingDroppedExactly(events: seq<Event>)
    ensures Run(POWER_ON, events).accepted == Injected(events) <==> NeverTooMany(events)
  {
    if events == [] {
      assert events[..0] == events;
    } else {
      var n := |events| - 1;
      var before := events[..n];
      NothingDroppedExactly(before);
      RunsConserve(before);
      AcceptedAtMost(before);
      NeverTooManyBefore(events, before, FitsNow(events));
      StillAllAccepted(Run(POWER_ON, before), events[n], Injected(before), Injected(events));
    }
  }

  // ---------------------------------------------------------------- what the program sees

  /** The bytes that reads of the data register returned while a byte was waiting, in order. */
  function Delivered(events: seq<Event>): seq<byte> {
    if events == [] then []
    else
      var n := |events| - 1;
      var before, f := Delivered(events[..n]), Run(POWER_ON, events[..n]);
      if events[n] == ReadRegister(DATA) && f.queued != [] then before + [Output(f, DATA)] else before
  }

  /** The program receives the accepted keys, each once and in the order they were typed: what the data
      register returned is a prefix of what was accepted, the rest is waiting. With never more than 16 keys
      waiting that is a prefix of what was typed. */
  lemma {:induction false} KeysArriveInOrder(events: seq<Event>)
    ensures var f := Run(POWER_ON, events);
            && Delivered(events) == f.popped
            && f.accepted == Delivered(events) + f.queued
            && (NeverTooMany(events) ==> Injected(events) == Delivered(events) + f.queued)
  {
    RunsConserve(events);
    NothingDroppedExactly(events);
    if events != [] { KeysArriveInOrder(events[..|events| - 1]); }
  }

  /** The first key that the program has not received yet, 0 if it has received all. */
  function NextKey(events: seq<Event>): byte {
    var accepted, received := Run(POWER_ON, events).accepted, |Delivered(events)|;
    if received < |accepted| then accepted[received] else 0
  }

  lemma StatusBits(f: Fifo, waiting: nat)
    requires waiting == |f.queued|
    ensures var status := Output(f, STATUS);
            && (status % 2 == 1 <==> waiting > 0)
            && (status / 2 % 2 == 1 <==> waiting == 16)
            && (status / 0x80 == 1 <==> waiting > 0 && f.irqEnabled)
            && status / 4 % 0x20 == 0
  {
  }

  lemma QueueShows(f: Fifo, received: seq<byte>)
    requires f.accepted == received + f.queued && |f.queued| <= QUEUE_SIZE
    ensures var next := if |received| < |f.accepted| then f.accepted[|received|] else 0;
            Output(f, DATA) == next && Output(f, PEEK) == next
    ensures Output(f, COUNT) == |f.accepted| - |received|
  {
    if f.queued != [] { assert f.accepted[|received|] == f.queued[0]; }
  }

  /** What the registers show over every run, told from the keys accepted and received: data and peek both show
      the next key, count their number, and the status bits whether keys wait, the queue is full, and keys wait
      with interrupts enabled. Only the data register takes a key. */
  lemma RegistersShowQueue(events: seq<Event>) returns (f: Fifo, waiting: nat)
    ensures f == Run(POWER_ON, events) && waiting == |f.accepted| - |Delivered(events)| && waiting <= 16
    ensures Output(f, DATA) == NextKey(events) && Output(f, PEEK) == NextKey(events) && Output(f, COUNT) == waiting
    ensures Output(f, STATUS) % 2 == 1 <==> waiting > 0
    ensures Output(f, STATUS) / 2 % 2 == 1 <==> waiting == 16
    ensures Output(f, STATUS) / 0x80 == 1 <==> waiting > 0 && f.irqEnabled
    ensures Output(f, STATUS) / 4 % 0x20 == 0
    ensures forall offset: word | offset != DATA :: Step(f, ReadRegister(offset)) == f
  {
    KeysArriveInOrder(events);
    RunsConserve(events);
    f := Run(POWER_ON, events);
    waiting := |f.queued|;
    QueueShows(f, Delivered(events));
    StatusBits(f, waiting);
  }

  /** Interrupts are enabled if the last write to the control register had bit 0 set. */
  function EnabledBy(events: seq<Event>): bool {
    if events == [] then false
    else
      var n := |events| - 1;
      if events[n].WriteRegister? && events[n].offset == CONTROL then events[n].value % 2 == 1 else EnabledBy(events[..n])
  }

  /** A key is down if the last event that names its bit is a press. */
  function DownAt(events: seq<Event>, i: nat): bool {
    if events == [] then false
    else
      var n := |events| - 1;
      if events[n].KeyDown? && Bit(events[n].mask, i) then true
      else if events[n].KeyUp? && Bit(events[n].mask, i) then false
      else DownAt(events[..n], i)
  }

  lemma {:induction false} ComplementBits(mask: nat, n: nat, i: nat)
    requires mask < Pow2(n) && i < n
    ensures Bit(Pow2(n) - 1 - mask, i) <==> !Bit(mask, i)
  {
    if i > 0 {
      assert (Pow2(n) - 1 - mask) / 2 == Pow2(n - 1) - 1 - mask / 2;
      ComplementBits(mask / 2, n - 1, i - 1);
    }
  }

  lemma MaskBits(state: byte, mask: byte, i: nat)
    requires i < 8
    ensures Bit(Held(state, mask), i) <==> Bit(state, i) || Bit(mask, i)
    ensures Bit(Released(state, mask), i) <==> Bit(state, i) && !Bit(mask, i)
  {
    BitOfOr(state, mask, i);
    BitOfAnd(state, 0xFF - mask, i);
    Pow2Of8();
    ComplementBits(mask, 8, i);
  }

  /** Over every run the control and key-state registers hold what was last written to each of their bits. */
  lemma {:induction false} RegistersHold(events: seq<Event>, i: nat)
    requires i < 8
    ensures var f := Run(POWER_ON, events);
            f.irqEnabled == EnabledBy(events) && (Bit(Output(f, KEY_STATE), i) <==> DownAt(events, i))
  {
    if events == [] {
      ZeroHasNoBits(i);
    } else {
      var n := |events| - 1;
      RegistersHold(events[..n], i);
      if events[n].KeyDown? || events[n].KeyUp? {
        MaskBits(Run(POWER_ON, events[..n]).keyState, events[n].mask, i);
      }
    }
  }

  // ---------------------------------------------------------------- the ring buffer

  /** `n` places of the ring from `start`, in order. */
  function Window(ring: seq<byte>, start: nat, n: nat): (r: seq<byte>)
    requires |ring| == QUEUE_SIZE && start < QUEUE_SIZE && n <= QUEUE_SIZE
    ensures |r| == n
  {
    seq(n, i requires 0 <= i < n => ring[(start + i) % QUEUE_SIZE])
  }

  /** The window without its first place. */
  lemma WindowDrop(ring: seq<byte>, start: nat, n: nat)
    requires |ring| == QUEUE_SIZE && start < QUEUE_SIZE && 0 < n <= QUEUE_SIZE
    ensures Window(ring, (start + 1) % QUEUE_SIZE, n - 1) == Window(ring, start, n)[1..]
    ensures Window(ring, start, n)[0] == ring[start]
  {
    var whole, rest := Window(ring, start, n), Window(ring, (start + 1) % QUEUE_SIZE, n - 1);
    forall i | 0 <= i < n - 1 ensures rest[i] == whole[i + 1] {
    }
  }

  /** The window with a byte written behind it. */
  lemma WindowPut(ring: seq<byte>, start: nat, n: nat, at: nat, v: byte)
    requires |ring| == QUEUE_SIZE && start < QUEUE_SIZE && n < QUEUE_SIZE && at == (start + n) % QUEUE_SIZE
    ensures Window(ring[at := v], start, n + 1) == Window(ring, start, n) + [v]
  {
    var before, after := Window(ring, start, n), Window(ring[at := v], start, n + 1);
    forall i | 0 <= i < n ensures after[i] == before[i] {
    }
  }

  class InputDevice {
    const queue: array<byte>
    var readIdx: nat
    var writeIdx: nat
    var count: nat
    var irqEnabled: bool
    var keyState: byte
    var irqLine: bool
    ghost var accepted: seq<byte>
    ghost var popped: seq<byte>

    ghost predicate Valid()
      reads this, queue
    {
      && queue.Length == QUEUE_SIZE
      && readIdx < QUEUE_SIZE && writeIdx < QUEUE_SIZE && count <= QUEUE_SIZE
      && writeIdx == (readIdx + count) % QUEUE_SIZE
    }

    /** The ring buffer as a queue. */
    ghost function Abstract(): Fifo
      requires Valid()
      reads this, queue
    {
      Fifo(Window(queue[..], readIdx, count), irqEnabled, keyState, irqLine, accepted, popped)
    }

    constructor ()
      ensures Valid() && fresh(queue) && Abstract() == POWER_ON
    {
      queue := new byte[QUEUE_SIZE](_ => 0);
      readIdx, writeIdx, count := 0, 0, 0;
      irqEnabled, keyState, irqLine := false, 0, false;
      accepted, popped := [], [];
    }

    /** Register read; reading DATA removes the byte it returns. */
    method Read(offset: word) returns (value: byte)
      requires Valid()
      modifies this, queue
      ensures Valid() && Abstract() == Step(old(Abstract()), ReadRegister(offset))
      ensures value == Output(old(Abstract()), offset)
    {
      if offset == STATUS {
        value := 0;
        if count != 0 { value := value + 0x01; }
        if count == QUEUE_SIZE { value := value + 0x02; }
        if irqEnabled && count != 0 { value := value + 0x80; }
      } else if offset == DATA {
        value := Pop();
      } else if offset == PEEK {
        value := if count == 0 then 0x00 else queue[readIdx];
      } else if offset == COUNT {
        value := count % 0x100;
      } else if offset == KEY_STATE {
        value := keyState;
      } else {
        value := 0;
      }
    }

    method Write(offset: word, value: byte)
      requires Valid()
      modifies this`irqEnabled
      ensures Valid() && Abstract() == Step(old(Abstract()), WriteRegister(offset, value))
    {
      if offset == CONTROL {
        irqEnabled := value % 2 != 0;
      }
    }

    method Inject(key: byte)
      requires Valid()
      modifies this, queue
      ensures Valid() && Abstract() == Step(old(Abstract()), InjectKey(key))
      ensures old(count) == QUEUE_SIZE ==> Abstract() == old(Abstract()) && queue[..] == old(queue[..])
    {
      if count == QUEUE_SIZE {
        return;
      }
      WindowPut(queue[..], readIdx, count, writeIdx, key);
      queue[writeIdx] := key;
      writeIdx := (writeIdx + 1) % QUEUE_SIZE;
      count := count + 1;
      accepted := accepted + [key];
      assert queue[..] == old(queue[..])[old(writeIdx) := key];
    }

    method SetKeyDown(mask: byte)
      requires Valid()
      modifies this`keyState
      ensures Valid() && Abstract() == Step(old(Abstract()), KeyDown(mask))
    {
      keyState := Held(keyState, mask);
    }

    method SetKeyUp(mask: byte)
      requires Valid()
      modifies this`keyState
      ensures Valid() && Abstract() == Step(old(Abstract()), KeyUp(mask))
    {
      keyState := Released(keyState, mask);
    }

    /** The control phase drives the latched interrupt line. */
    method TickControl()
      requires Valid()
      modifies this`irqLine
      ensures Valid() && Abstract() == Step(old(Abstract()), ControlTick)
    {
      irqLine := irqEnabled && count != 0;
    }

    method Pop() returns (value: byte)
      requires Valid()
      modifies this
      ensures Valid() && Abstract() == Step(old(Abstract()), ReadRegister(DATA))
      ensures value == Output(old(Abstract()), DATA)
    {
      if count == 0 {
        return 0x00;
      }
      WindowDrop(queue[..], readIdx, count);
      value := queue[readIdx];
      readIdx := (readIdx + 1) % QUEUE_SIZE;
      count := count - 1;
      popped := popped + [value];
    }
  }
}
