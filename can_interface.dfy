/** The trace side of the CAN interface layer (CANIF/CANInterface.py):
    two bounded queues of transmitted and received frames that drop
    their oldest entry when full, the enqueued/dropped statistics of the
    file trace, the start/stop of logging, and the way stop_periodic
    reads a message id. The bus, the reader and writer threads, the file
    writer and the user callbacks are not part of this model; whether a
    reader thread and a transmit hook exist are plain flags. */
module CanInterface {
  import opened Base
  import opened Cast

  /** A CAN frame as the trace records it. */
  datatype CanMessage = CanMessage(arbitrationId: nat, data: seq<Byte>)

  datatype Direction = Tx | Rx

  /** The `(message, "tx")` / `(message, "rx")` pairs the queues hold. */
  datatype TraceItem = TraceItem(message: CanMessage, direction: Direction)

  /** Both trace queues are created with `maxsize=500`. */
  const TraceCapacity: nat := 500

  // ---------------------------------------------------------------------
  // The drop-oldest queue
  // ---------------------------------------------------------------------

  /** A queue after one bounded put: appended while there is room,
      otherwise the oldest entry makes way. */
  function Put(q: seq<TraceItem>, item: TraceItem): seq<TraceItem> {
    if |q| < TraceCapacity then q + [item] else q[1..] + [item]
  }

  /** A queue after bounded puts of `items`, in order. */
  function PutAll(q: seq<TraceItem>, items: seq<TraceItem>): seq<TraceItem> {
    if items == [] then q else Put(PutAll(q, items[..|items| - 1]), items[|items| - 1])
  }

  function Max(a: int, b: int): int {
    if a < b then b else a
  }

  /** One put never overflows the queue, always lands as the newest entry,
      and keeps the newest entries of the old queue: a full queue loses
      exactly its oldest one. */
  lemma PutNewest(q: seq<TraceItem>, item: TraceItem)
    requires |q| <= TraceCapacity
    ensures |Put(q, item)| == if |q| < TraceCapacity then |q| + 1 else TraceCapacity
    ensures Put(q, item)[|Put(q, item)| - 1] == item
    ensures Put(q, item) == (q + [item])[|q| + 1 - |Put(q, item)|..]
  {
    if |q| >= TraceCapacity {
      assert (q + [item])[1..] == q[1..] + [item];
    }
  }

  /** However many items are put, the queue holds exactly the newest 500
      of everything put into it, in arrival order. */
  lemma {:induction false} PutAllKeepsNewest(q: seq<TraceItem>, items: seq<TraceItem>)
    requires |q| <= TraceCapacity
    ensures PutAll(q, items) == (q + items)[Max(0, |q| + |items| - TraceCapacity)..]
  {
    if items == [] {
      assert q + items == q;
    } else {
      var init := items[..|items| - 1];
      var x := items[|items| - 1];
      var k := Max(0, |q| + |init| - TraceCapacity);
      PutAllKeepsNewest(q, init);
      var p := PutAll(q, init);
      assert p == (q + init)[k..];
      assert q + items == (q + init) + [x];
      PutNewest(p, x);
      if |p| < TraceCapacity {
        assert Put(p, x) == (q + init)[k..] + [x];
        assert (q + init)[k..] + [x] == ((q + init) + [x])[k..];
      } else {
        assert Put(p, x) == (q + init)[k + 1..] + [x];
        assert (q + init)[k + 1..] + [x] == ((q + init) + [x])[k + 1..];
      }
    }
  }

  /** Which of the two trace queues a put goes to. */
  datatype QueueId = TraceQueue | UiTraceQueue

  // ---------------------------------------------------------------------
  // stop_periodic
  // ---------------------------------------------------------------------

  /** What stop_periodic is called with: an int, a string, or anything
      else. */
  datatype IdArgument = IntId(i: int) | TextId(s: string) | OtherId

  /** `False` without a scheduler; the frame id whose periodic task is
      stopped; or the DBC lookup raising for an unknown name. */
  datatype StopOutcome = NoScheduler | StopId(id: int) | LookupFails

  /** The DBC lookup of a message by its exact name. */
  function Lookup(name: string, frameIds: map<string, int>): StopOutcome {
    if name in frameIds then StopId(frameIds[name]) else LookupFails
  }

  /** The text starts with "0x" in either case. */
  predicate HasHexPrefix(t: string) {
    |t| >= 2 && t[0] == '0' && (t[1] == 'x' || t[1] == 'X')
  }

  /** The id stop_periodic stops. Text is stripped; with a "0x" prefix it
      is read by `int(token, 16)`, otherwise by `int(token)`; text either
      refuses goes to the DBC with the name as given, unstripped. */
  function StopPeriodicId(hasScheduler: bool, arg: IdArgument, frameIds: map<string, int>): (r: StopOutcome)
    ensures !hasScheduler <==> r == NoScheduler
    ensures hasScheduler && arg.IntId? ==> r == StopId(arg.i)
    ensures hasScheduler && arg.OtherId? ==> r == LookupFails
    ensures r == LookupFails ==> arg.OtherId? || (arg.TextId? && arg.s !in frameIds)
  {
    if !hasScheduler then NoScheduler
    else
      match arg
      case IntId(i) => StopId(i)
      case TextId(s) =>
        var token := Strip(s);
        (match PyInt(token, if HasHexPrefix(token) then 16 else 10)
         case Some(n) => StopId(n)
         case None => Lookup(s, frameIds))
      // Message_attributes raises ValueError for other types, and the
      // handler's second lookup raises again
      case OtherId => LookupFails
  }

  /** The text `hex()` gives for a number stops that number, whatever the
      DBC holds. */
  lemma StopPeriodicHex(n: nat, frameIds: map<string, int>)
    ensures StopPeriodicId(true, TextId("0x" + HexLower(n)), frameIds) == StopId(n)
  {
    var h := HexLower(n);
    var t := "0x" + h;
    StripUnspaced(t);
    ParseHexLower(n);
    DigitsValueHex(h);
    assert t[2..] == h;
    PyIntPrefixed(t, 16);
  }

  /** Decimal digits stop their value. */
  lemma StopPeriodicDecimal(d: string, frameIds: map<string, int>)
    requires d != [] && AllDigitsIn(d, 10)
    ensures StopPeriodicId(true, TextId(d), frameIds) == StopId(DigitsValue(d, 10))
  {
    StripUnspaced(d);
    assert !HasHexPrefix(d) by {
      assert |d| >= 2 ==> IsDigitIn(d[1], 10);
    }
    PyIntOfDigits(d, 10);
  }

  /** Text that cannot start a number is a message name: the frame id the
      DBC gives it, and a failed lookup when it has none. */
  lemma StopPeriodicByName(s: string, frameIds: map<string, int>)
    requires Strip(s) != [] && !IsDigit(Strip(s)[0]) && Strip(s)[0] != '-' && Strip(s)[0] != '+'
    ensures StopPeriodicId(true, TextId(s), frameIds) == Lookup(s, frameIds)
  {
    StripIdempotent(s);
    IntStripStripped(Strip(s));
  }

  // ---------------------------------------------------------------------
  // The interface object
  // ---------------------------------------------------------------------

  class Interface {
    var trace: seq<TraceItem>
    var uiTrace: seq<TraceItem>
    var enqueued: int
    var dropped: int
    var logActive: bool
    var uiLogEnabled: bool
    var hasTxHook: bool
    var hasReader: bool

    /** Neither queue ever holds more than its capacity. */
    ghost predicate Valid()
      reads this
    {
      |trace| <= TraceCapacity && |uiTrace| <= TraceCapacity
    }

    /** Every put counted since the counters were last reset and not
        counted as dropped is still in the file trace (the file writer
        that consumes it is not part of this model). */
    ghost predicate Accounted()
      reads this
    {
      enqueued - dropped == |trace|
    }

    /** __init__: empty queues, zero counters, logging off, the UI trace
        on, no transmit hook. Whether initialize_bus has started a reader
        thread is given. */
    constructor(readerStarted: bool)
      ensures Valid() && Accounted()
      ensures trace == [] && uiTrace == [] && enqueued == 0 && dropped == 0
      ensures !logActive && uiLogEnabled && !hasTxHook && hasReader == readerStarted
    {
      trace, uiTrace := [], [];
      enqueued, dropped := 0, 0;
      logActive, uiLogEnabled, hasTxHook, hasReader := false, true, false, readerStarted;
    }

    /** set_tx_hook, with the callback reduced to whether there is one. */
    method SetTxHook(present: bool)
      modifies this`hasTxHook
      ensures hasTxHook == present
    {
      hasTxHook := present;
    }

    function Queue(target: QueueId): seq<TraceItem>
      reads this
    {
      if target == TraceQueue then trace else uiTrace
    }

    /** _bounded_put: put without blocking; on a full queue take the
        oldest entry out (counted as dropped) and put again. Only the
        file trace is counted. The second put cannot fail when nothing
        else touches the queue, so the put always succeeds. */
    method BoundedPut(target: QueueId, item: TraceItem, countStats: bool) returns (ok: bool)
      requires Valid()
      modifies this`trace, this`uiTrace, this`enqueued, this`dropped
      ensures Valid() && ok
      ensures Queue(target) == Put(old(Queue(target)), item)
      ensures target == TraceQueue ==> uiTrace == old(uiTrace)
      ensures target == UiTraceQueue ==> trace == old(trace)
      ensures countStats ==>
        enqueued == old(enqueued) + 1 &&
        dropped == old(dropped) + (if |old(Queue(target))| < TraceCapacity then 0 else 1)
      ensures !countStats ==> enqueued == old(enqueued) && dropped == old(dropped)
    {
      var q := if target == TraceQueue then trace else uiTrace;
      if |q| < TraceCapacity {
        q := q + [item];
        if countStats {
          enqueued := enqueued + 1;
        }
      } else {
        q := q[1..];
        if countStats {
          dropped := dropped + 1;
        }
        q := q + [item];
        if countStats {
          enqueued := enqueued + 1;
        }
      }
      if target == TraceQueue {
        trace := q;
      } else {
        uiTrace := q;
      }
      ok := true;
    }

    /** _trace_put: a counted put into the file trace. */
    method TracePut(item: TraceItem)
      requires Valid()
      modifies this`trace, this`uiTrace, this`enqueued, this`dropped
      ensures Valid()
      ensures trace == Put(old(trace), item) && uiTrace == old(uiTrace)
      ensures old(Accounted()) ==> Accounted()
      ensures enqueued == old(enqueued) + 1 && dropped == old(dropped) + (if |old(trace)| < TraceCapacity then 0 else 1)
    {
      var _ := BoundedPut(TraceQueue, item, true);
      PutNewest(old(trace), item);
    }

    /** _ui_trace_put: an uncounted put into the UI trace. */
    method UiTracePut(item: TraceItem)
      requires Valid()
      modifies this`trace, this`uiTrace, this`enqueued, this`dropped
      ensures Valid()
      ensures uiTrace == Put(old(uiTrace), item)
      ensures trace == old(trace) && enqueued == old(enqueued) && dropped == old(dropped)
    {
      var _ := BoundedPut(UiTraceQueue, item, false);
    }

    /** Log one frame in the given direction: always to the file trace,
        and to the UI trace when it is enabled. */
    method Record(message: CanMessage, direction: Direction)
      requires Valid() && logActive
      modifies this`trace, this`uiTrace, this`enqueued, this`dropped
      ensures Valid()
      ensures trace == Put(old(trace), TraceItem(message, direction))
      ensures uiTrace == if uiLogEnabled then Put(old(uiTrace), TraceItem(message, direction)) else old(uiTrace)
      ensures old(Accounted()) ==> Accounted()
    {
      TracePut(TraceItem(message, direction));
      if uiLogEnabled {
        UiTracePut(TraceItem(message, direction));
      }
    }

    /** _notify_tx: nothing without a hook and without logging; the hook
        (whose exceptions are swallowed) is outside this model; while
        logging the frame is traced as "tx". */
    method NotifyTx(message: CanMessage)
      requires Valid()
      modifies this`trace, this`uiTrace, this`enqueued, this`dropped
      ensures Valid()
      ensures old(Accounted()) ==> Accounted()
      ensures !logActive ==> unchanged(this)
      ensures logActive ==>
        trace == Put(old(trace), TraceItem(message, Tx)) &&
        uiTrace == if uiLogEnabled then Put(old(uiTrace), TraceItem(message, Tx)) else old(uiTrace)
    {
      if !hasTxHook && !logActive {
        return;
      }
      if logActive {
        Record(message, Tx);
      }
    }

    /** _on_trace_rx: nothing unless logging; otherwise the frame is
        traced as "rx" (the emit callback is outside this model). */
    method OnTraceRx(message: CanMessage)
      requires Valid()
      modifies this`trace, this`uiTrace, this`enqueued, this`dropped
      ensures Valid()
      ensures old(Accounted()) ==> Accounted()
      ensures !logActive ==> unchanged(this)
      ensures logActive ==>
        trace == Put(old(trace), TraceItem(message, Rx)) &&
        uiTrace == if uiLogEnabled then Put(old(uiTrace), TraceItem(message, Rx)) else old(uiTrace)
    {
      if !logActive {
        return;
      }
      Record(message, Rx);
    }

    /** _drain_trace_queue: take entries out of each queue until it is
        empty. */
    method Drain()
      modifies this`trace, this`uiTrace
      ensures trace == [] && uiTrace == []
    {
      while trace != []
        decreases |trace|
      {
        trace := trace[1..];
      }
      while uiTrace != []
        invariant trace == []
        decreases |uiTrace|
      {
        uiTrace := uiTrace[1..];
      }
    }

    /** stop_log: logging off and both queues drained; the counters keep
        their values for the closing report. */
    method StopLog()
      modifies this`logActive, this`trace, this`uiTrace
      ensures Valid() && !logActive && trace == [] && uiTrace == []
    {
      logActive := false;
      Drain();
    }

    /** start_log: refused without a reader thread; otherwise a running
        log is stopped first, the counters are reset, the queues drained
        and logging switched on with the requested UI setting. */
    method StartLog(enableUi: bool) returns (started: bool)
      modifies this`logActive, this`uiLogEnabled, this`trace, this`uiTrace, this`enqueued, this`dropped
      ensures started == old(hasReader)
      ensures !started ==> unchanged(this)
      ensures started ==>
        Valid() && Accounted() && logActive && uiLogEnabled == enableUi &&
        trace == [] && uiTrace == [] && enqueued == 0 && dropped == 0
    {
      if !hasReader {
        return false;
      }
      if logActive {
        StopLog();
      }
      enqueued, dropped := 0, 0;
      uiLogEnabled := enableUi;
      Drain();
      logActive := true;
      started := true;
    }
  }

  /** After start_log, a run of received frames leaves the newest 500 in
      the file trace, and the statistics count every one of them as
      enqueued and the rest as dropped. */
  lemma {:induction false} TraceAfterStart(items: seq<TraceItem>)
    ensures PutAll([], items) == items[Max(0, |items| - TraceCapacity)..]
    ensures |items| - |PutAll([], items)| == Max(0, |items| - TraceCapacity)
  {
    PutAllKeepsNewest([], items);
    assert [] + items == items;
  }
}
