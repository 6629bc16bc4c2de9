/** The DBC signal store of the E2E layer (E2E/DbcAdapter.py): per message
    the current and initial signal values, the limits every pushed value is
    clamped to, a one-slot queue of pending updates, the alive counter
    advanced when a payload is built, and the sender/receiver indices.
    The DBC database itself is given as a list of message records; the
    cantools encoding of a payload and the CRC signal are not part of this
    model. Signal scale and offset are taken as integers. */
module DbcAdapter {
  import opened Base
  import opened Cast

  datatype SignalDef = SignalDef(
    name: string, rawInitial: Option<int>, scale: int, offset: int,
    minimum: Option<int>, maximum: Option<int>)

  /** One message of the DBC database; `comment` is None when the DBC
      gives none, `cyclic` when its send type is "Cyclic". */
  datatype MessageDef = MessageDef(
    name: string, frameId: int, signals: seq<SignalDef>,
    senders: seq<string>, receivers: seq<string>,
    comment: Option<string>, cyclic: bool)

  /** A signal's entry in the trim table. */
  datatype Limits = Limits(minimum: Option<int>, maximum: Option<int>)

  datatype Attributes = Attributes(periodic: bool, onEvent: bool, group: bool, alvCnt: string, crc: string)

  type Signals = map<string, int>

  const AliveTag: string := "AlvCnt"
  const CrcTag: string := "Crc"
  const EventTag: string := "Event"

  // ---------------------------------------------------------------------
  // Per-message tables built by __init__
  // ---------------------------------------------------------------------

  /** `trim(int(raw_initial) * scale + offset, minimum, maximum)`, with 0
      when the raw initial value is missing. */
  function InitialValue(s: SignalDef): int {
    var raw := if s.rawInitial.Some? then s.rawInitial.value else 0;
    Trim(raw * s.scale + s.offset, s.minimum, s.maximum)
  }

  /** The initial values by signal name; a later signal of the same name
      overwrites an earlier one. */
  function InitialSignals(sigs: seq<SignalDef>): Signals {
    if sigs == [] then map[]
    else
      var s := sigs[|sigs| - 1];
      InitialSignals(sigs[..|sigs| - 1])[s.name := InitialValue(s)]
  }

  /** The trim table of one message. */
  function LimitTable(sigs: seq<SignalDef>): map<string, Limits> {
    if sigs == [] then map[]
    else
      var s := sigs[|sigs| - 1];
      LimitTable(sigs[..|sigs| - 1])[s.name := Limits(s.minimum, s.maximum)]
  }

  /** Which signals play the alive-counter and CRC roles. */
  datatype Roles = Roles(group: bool, alvCnt: string, crc: string)

  /** The last signal whose name contains "AlvCnt" is the alive counter;
      the last other one whose name contains "Crc" is the CRC. */
  function RolesOf(sigs: seq<SignalDef>): Roles {
    if sigs == [] then Roles(false, "", "")
    else
      var r := RolesOf(sigs[..|sigs| - 1]);
      var n := sigs[|sigs| - 1].name;
      if Contains(n, AliveTag) then Roles(true, n, r.crc)
      else if Contains(n, CrcTag) then Roles(r.group, r.alvCnt, n)
      else r
  }

  function AttributesOf(m: MessageDef): Attributes {
    var r := RolesOf(m.signals);
    var comment := if m.comment.Some? then m.comment.value else "";
    Attributes(m.cyclic, Contains(comment, EventTag), r.group, r.alvCnt, r.crc)
  }

  /** The values of one message's signals, with their limits. */
  method SignalTables(sigs: seq<SignalDef>) returns (values: Signals, limits: map<string, Limits>)
    ensures values == InitialSignals(sigs) && limits == LimitTable(sigs)
  {
    values, limits := map[], map[];
    for i := 0 to |sigs|
      invariant values == InitialSignals(sigs[..i]) && limits == LimitTable(sigs[..i])
    {
      assert sigs[..i + 1][..i] == sigs[..i];
      var s := sigs[i];
      var initialValue := InitialValue(s);
      values := values[s.name := initialValue];
      limits := limits[s.name := Limits(s.minimum, s.maximum)];
    }
    assert sigs[..|sigs|] == sigs;
  }

  /** The attribute record of one message, scanning its signals. */
  method ScanAttributes(m: MessageDef) returns (a: Attributes)
    ensures a == AttributesOf(m)
  {
    var group := false;
    var alvCnt := "";
    var crc := "";
    for i := 0 to |m.signals|
      invariant Roles(group, alvCnt, crc) == RolesOf(m.signals[..i])
    {
      assert m.signals[..i + 1][..i] == m.signals[..i];
      var n := m.signals[i].name;
      if Contains(n, AliveTag) {
        group := true;
        alvCnt := n;
      } else if Contains(n, CrcTag) {
        crc := n;
      }
    }
    assert m.signals[..|m.signals|] == m.signals;
    var comment := if m.comment.Some? then m.comment.value else "";
    a := Attributes(m.cyclic, Contains(comment, EventTag), group, alvCnt, crc);
  }

  lemma {:induction false} InitialSignalsKeys(sigs: seq<SignalDef>)
    ensures InitialSignals(sigs).Keys == LimitTable(sigs).Keys
    ensures forall n :: n in InitialSignals(sigs) <==> exists i :: 0 <= i < |sigs| && sigs[i].name == n
  {
    if sigs != [] {
      InitialSignalsKeys(sigs[..|sigs| - 1]);
      forall n | n in InitialSignals(sigs)
        ensures exists i :: 0 <= i < |sigs| && sigs[i].name == n
      {
        if n != sigs[|sigs| - 1].name {
          var i :| 0 <= i < |sigs| - 1 && sigs[..|sigs| - 1][i].name == n;
          assert sigs[i].name == n;
        }
      }
      forall n | exists i :: 0 <= i < |sigs| && sigs[i].name == n
        ensures n in InitialSignals(sigs)
      {
        var i :| 0 <= i < |sigs| && sigs[i].name == n;
        if i < |sigs| - 1 {
          assert sigs[..|sigs| - 1][i].name == n;
        }
      }
    }
  }

  /** Initial values already lie inside their limits: clamping them again
      changes nothing. */
  lemma {:induction false} InitialWithinLimits(sigs: seq<SignalDef>)
    ensures forall n | n in InitialSignals(sigs) ::
      n in LimitTable(sigs) &&
      Trim(InitialSignals(sigs)[n], LimitTable(sigs)[n].minimum, LimitTable(sigs)[n].maximum) == InitialSignals(sigs)[n]
  {
    if sigs != [] {
      InitialWithinLimits(sigs[..|sigs| - 1]);
      var s := sigs[|sigs| - 1];
      var raw := if s.rawInitial.Some? then s.rawInitial.value else 0;
      TrimProperties(raw * s.scale + s.offset, s.minimum, s.maximum);
    }
  }

  /** A message is grouped exactly when one of its signal names contains
      "AlvCnt", and then the alive counter is such a signal. */
  lemma {:induction false} GroupIffAliveSignal(sigs: seq<SignalDef>)
    ensures RolesOf(sigs).group <==> exists i :: 0 <= i < |sigs| && Contains(sigs[i].name, AliveTag)
    ensures RolesOf(sigs).group ==>
      exists i :: 0 <= i < |sigs| && sigs[i].name == RolesOf(sigs).alvCnt && Contains(sigs[i].name, AliveTag)
  {
    if sigs != [] {
      var init := sigs[..|sigs| - 1];
      GroupIffAliveSignal(init);
      assert forall i :: 0 <= i < |init| ==> init[i] == sigs[i];
    }
  }

  /** The alive counter of a grouped message is one of its initial values. */
  lemma AliveCounterHasValue(m: MessageDef)
    ensures AttributesOf(m).group ==> AttributesOf(m).alvCnt in InitialSignals(m.signals)
    ensures AttributesOf(m).group ==> AttributesOf(m).alvCnt != []
  {
    GroupIffAliveSignal(m.signals);
    InitialSignalsKeys(m.signals);
  }

  // ---------------------------------------------------------------------
  // Sender and receiver indices
  // ---------------------------------------------------------------------

  /** A message listed under a node. */
  datatype Entry = Entry(party: string, message: string)

  /** One entry per sender (or receiver) of a message, in order. */
  function EntriesOf(m: MessageDef, receiving: bool): seq<Entry> {
    var parties := if receiving then m.receivers else m.senders;
    seq(|parties|, j requires 0 <= j < |parties| => Entry(parties[j], m.name))
  }

  /** The entries of a whole database, in DBC order. */
  function Entries(db: seq<MessageDef>, receiving: bool): seq<Entry> {
    if db == [] then [] else Entries(db[..|db| - 1], receiving) + EntriesOf(db[|db| - 1], receiving)
  }

  /** An index after listing `entries`: a node seen for the first time
      gets a one-element list, a known node gets the name appended. */
  function Extend(index: map<string, seq<string>>, entries: seq<Entry>): map<string, seq<string>> {
    if entries == [] then index
    else
      var m := Extend(index, entries[..|entries| - 1]);
      var e := entries[|entries| - 1];
      m[e.party := (if e.party in m then m[e.party] else []) + [e.message]]
  }

  lemma {:induction false} ExtendAppend(index: map<string, seq<string>>, a: seq<Entry>, b: seq<Entry>)
    ensures Extend(index, a + b) == Extend(Extend(index, a), b)
  {
    if b == [] {
      assert a + b == a;
    } else {
      ExtendAppend(index, a, b[..|b| - 1]);
      assert (a + b)[..|a + b| - 1] == a + b[..|b| - 1];
    }
  }

  /** List message `m` under each of its senders (or receivers). */
  method AddMessage(index: map<string, seq<string>>, m: MessageDef, receiving: bool)
    returns (r: map<string, seq<string>>)
    ensures r == Extend(index, EntriesOf(m, receiving))
  {
    var parties := if receiving then m.receivers else m.senders;
    ghost var entries := EntriesOf(m, receiving);
    r := index;
    for j := 0 to |parties|
      invariant r == Extend(index, entries[..j])
    {
      assert entries[..j + 1][..j] == entries[..j];
      var p := parties[j];
      assert entries[..j + 1][j] == Entry(p, m.name);
      if p !in r {
        assert [] + [m.name] == [m.name];
        r := r[p := [m.name]];
      } else {
        r := r[p := r[p] + [m.name]];
      }
    }
    assert entries[..|parties|] == entries;
  }

  /** A node is indexed exactly when some entry names it, and a message
      is listed under it exactly when that entry exists. */
  lemma {:induction false} IndexContents(entries: seq<Entry>)
    ensures forall k :: k in Extend(map[], entries) <==> exists i :: 0 <= i < |entries| && entries[i].party == k
    ensures forall k, n | k in Extend(map[], entries) :: n in Extend(map[], entries)[k] <==> Entry(k, n) in entries
  {
    if entries != [] {
      var init := entries[..|entries| - 1];
      IndexContents(init);
      assert entries == init + [entries[|entries| - 1]];
      assert forall i :: 0 <= i < |init| ==> init[i] == entries[i];
    }
  }

  /** A DBC entry exists exactly when some message of that name has the
      node among its senders (or receivers). */
  lemma {:induction false} EntriesContents(db: seq<MessageDef>, receiving: bool, k: string, n: string)
    ensures Entry(k, n) in Entries(db, receiving) <==>
      exists i :: 0 <= i < |db| && db[i].name == n && k in (if receiving then db[i].receivers else db[i].senders)
  {
    if db != [] {
      var init := db[..|db| - 1];
      EntriesContents(init, receiving, k, n);
      assert forall i :: 0 <= i < |init| ==> init[i] == db[i];
      var last := db[|db| - 1];
      var parties := if receiving then last.receivers else last.senders;
      assert Entry(k, n) in EntriesOf(last, receiving) <==> n == last.name && k in parties by {
        if k in parties && n == last.name {
          var j :| 0 <= j < |parties| && parties[j] == k;
          assert EntriesOf(last, receiving)[j] == Entry(k, n);
        }
      }
    }
  }

  // ---------------------------------------------------------------------
  // Pushing values and building payloads
  // ---------------------------------------------------------------------

  /** The values of a push after clamping; a signal absent from the trim
      table is skipped. */
  function Trimmed(limits: map<string, Limits>, signals: Signals): Signals {
    map s | s in signals && s in limits :: Trim(signals[s], limits[s].minimum, limits[s].maximum)
  }

  /** Every kept value lies within its limits when both are present and
      ordered, and a value already inside is kept as pushed. */
  lemma TrimmedWithinLimits(limits: map<string, Limits>, signals: Signals)
    ensures forall s :: s in Trimmed(limits, signals) <==> s in signals && s in limits
    ensures forall s | s in Trimmed(limits, signals) ::
      var l := limits[s];
      (l.minimum.Some? && l.maximum.Some? && l.minimum.value <= l.maximum.value ==>
        l.minimum.value <= Trimmed(limits, signals)[s] <= l.maximum.value) &&
      ((l.minimum.None? || l.minimum.value <= signals[s]) && (l.maximum.None? || signals[s] <= l.maximum.value) ==>
        Trimmed(limits, signals)[s] == signals[s])
  {
    forall s | s in Trimmed(limits, signals) {
      TrimProperties(signals[s], limits[s].minimum, limits[s].maximum);
    }
  }

  /** The clamping loop of push_signals. */
  method TrimSignals(limits: map<string, Limits>, signals: Signals) returns (trimmed: Signals)
    ensures trimmed == Trimmed(limits, signals)
  {
    trimmed := map[];
    var rest := signals.Keys;
    while rest != {}
      invariant rest <= signals.Keys
      invariant trimmed.Keys == (signals.Keys - rest) * limits.Keys
      invariant forall s | s in trimmed :: trimmed[s] == Trim(signals[s], limits[s].minimum, limits[s].maximum)
      decreases |rest|
    {
      var s :| s in rest;
      if s in limits {
        trimmed := trimmed[s := Trim(signals[s], limits[s].minimum, limits[s].maximum)];
      }
      rest := rest - {s};
    }
  }

  /** The signal values a payload is built from: a pending update is
      merged in, and the alive counter of a grouped message advances by
      one modulo 256 when the message is not on-event or had an update. */
  function PayloadSignals(a: Attributes, signals: Signals, pending: seq<Signals>): Signals
    requires a.group ==> a.alvCnt in signals
  {
    var merged := if pending != [] then signals + pending[0] else signals;
    var advance := a.group && (!a.onEvent || pending != []);
    if advance && a.alvCnt != [] then merged[a.alvCnt := (merged[a.alvCnt] + 1) % 256] else merged
  }

  /** The pending update takes effect, no signal is lost, and the alive
      counter moves exactly when the message is grouped and is either
      periodic-only or had an update; it always lands in 0..255. */
  lemma PayloadSignalsEffect(a: Attributes, signals: Signals, pending: seq<Signals>)
    requires a.group ==> a.alvCnt in signals && a.alvCnt != []
    ensures var r := PayloadSignals(a, signals, pending);
      signals.Keys <= r.Keys &&
      (pending != [] ==> forall k | k in pending[0] && !(a.group && k == a.alvCnt) :: r[k] == pending[0][k]) &&
      (pending == [] ==> forall k | k in signals && !(a.group && k == a.alvCnt) :: r[k] == signals[k])
    ensures var r := PayloadSignals(a, signals, pending);
      var merged := if pending != [] then signals + pending[0] else signals;
      a.group ==>
        (r[a.alvCnt] == if !a.onEvent || pending != [] then (merged[a.alvCnt] + 1) % 256 else merged[a.alvCnt])
  {
  }

  /** The counter wraps at 256 whatever the signal's width: 255 goes to 0. */
  lemma AliveCounterWraps(a: Attributes, signals: Signals)
    requires a.group && !a.onEvent && a.alvCnt != [] && a.alvCnt in signals && signals[a.alvCnt] == 255
    ensures PayloadSignals(a, signals, [])[a.alvCnt] == 0
  {
  }

  /** How get_payload and isOnEvent name a message. */
  datatype MessageKey = ByName(name: string) | ByFrameId(id: int)

  // ---------------------------------------------------------------------
  // The store
  // ---------------------------------------------------------------------

  /** What the adapter keeps about one message: its entries in the
      current-signal, initial-signal, trim, queue and attribute
      dictionaries, which all have the message names as keys. */
  datatype MessageState = MessageState(
    current: Signals, initial: Signals, trim: map<string, Limits>,
    queue: seq<Signals>, attributes: Attributes)

  /** A queue never holds more than one update, and the alive counter of
      a grouped message has a current and an initial value. */
  ghost predicate ValidState(st: MessageState) {
    |st.queue| <= 1 &&
    (st.attributes.group ==>
      st.attributes.alvCnt != [] && st.attributes.alvCnt in st.current && st.attributes.alvCnt in st.initial)
  }

  ghost predicate ValidMessages(messages: map<string, MessageState>) {
    forall n | n in messages :: ValidState(messages[n])
  }

  lemma UpdateKeepsValid(messages: map<string, MessageState>, n: string, st: MessageState)
    requires ValidMessages(messages) && ValidState(st)
    ensures ValidMessages(messages[n := st])
  {
  }

  /** The state __init__ gives a message. */
  function Fresh(m: MessageDef): MessageState {
    var values := InitialSignals(m.signals);
    MessageState(values, values, LimitTable(m.signals), [], AttributesOf(m))
  }

  /** The state reset_message restores: the initial values, no pending
      update. */
  function Restored(st: MessageState): MessageState {
    st.(current := st.initial, queue := [])
  }

  /** The messages table after __init__: a later message of the same
      name replaces an earlier one. */
  function Messages(db: seq<MessageDef>): map<string, MessageState> {
    if db == [] then map[] else Messages(db[..|db| - 1])[db[|db| - 1].name := Fresh(db[|db| - 1])]
  }

  /** The frame-id cache after __init__. */
  function Cache(db: seq<MessageDef>): map<int, string> {
    if db == [] then map[] else Cache(db[..|db| - 1])[db[|db| - 1].frameId := db[|db| - 1].name]
  }

  /** A freshly loaded message is consistent, has its initial values as
      current values and nothing pending, and resetting it changes nothing. */
  lemma FreshValid(m: MessageDef)
    ensures ValidState(Fresh(m))
    ensures Fresh(m).current == Fresh(m).initial && Fresh(m).queue == []
    ensures Restored(Fresh(m)) == Fresh(m)
  {
    AliveCounterHasValue(m);
  }

  /** Restoring keeps a message consistent, touches only its current
      values and queue, and is idempotent. */
  lemma RestoredValid(st: MessageState)
    requires ValidState(st)
    ensures ValidState(Restored(st))
    ensures Restored(st).initial == st.initial && Restored(st).trim == st.trim && Restored(st).attributes == st.attributes
    ensures Restored(Restored(st)) == Restored(st)
  {
  }

  /** Every message of the database is known by name and by frame id,
      and the frame-id cache only names known messages. */
  lemma {:induction false} MessagesKnown(db: seq<MessageDef>)
    ensures forall i | 0 <= i < |db| :: db[i].name in Messages(db) && db[i].frameId in Cache(db)
    ensures forall id | id in Cache(db) :: Cache(db)[id] in Messages(db)
  {
    if db != [] {
      var init := db[..|db| - 1];
      MessagesKnown(init);
      assert forall i | 0 <= i < |init| :: init[i] == db[i];
    }
  }

  /** Each known message holds the fresh state of the last message of
      its name. */
  lemma {:induction false} MessagesLastWins(db: seq<MessageDef>, n: string)
    requires n in Messages(db)
    ensures exists i :: 0 <= i < |db| && db[i].name == n && Messages(db)[n] == Fresh(db[i]) &&
                        forall j | i < j < |db| :: db[j].name != n
  {
    var init := db[..|db| - 1];
    var last := db[|db| - 1];
    if n == last.name {
      assert db[|db| - 1].name == n && Messages(db)[n] == Fresh(db[|db| - 1]);
    } else {
      MessagesLastWins(init, n);
      var i :| 0 <= i < |init| && init[i].name == n && Messages(init)[n] == Fresh(init[i]) &&
               forall j | i < j < |init| :: init[j].name != n;
      assert forall j | i < j < |db| :: db[j].name != n by {
        forall j | i < j < |db| ensures db[j].name != n {
          if j < |db| - 1 {
            assert init[j] == db[j];
          }
        }
      }
      assert db[i] == init[i];
    }
  }

  /** Every message is consistent after __init__. */
  lemma {:induction false} MessagesValid(db: seq<MessageDef>)
    ensures ValidMessages(Messages(db))
  {
    if db != [] {
      MessagesValid(db[..|db| - 1]);
      FreshValid(db[|db| - 1]);
    }
  }

  /** The tables __init__ fills. */
  datatype Store = Store(
    messages: map<string, MessageState>, nodes: map<string, seq<string>>,
    receivers: map<string, seq<string>>, cache: map<int, string>)

  /** The loop of __init__ over the messages of a DBC database, in order. */
  method Load(db: seq<MessageDef>) returns (s: Store)
    ensures s.messages == Messages(db) && s.cache == Cache(db)
    ensures s.nodes == Extend(map[], Entries(db, false)) && s.receivers == Extend(map[], Entries(db, true))
  {
    var messages, nodes, receivers, cache := map[], map[], map[], map[];
    for i := 0 to |db|
      invariant messages == Messages(db[..i]) && cache == Cache(db[..i])
      invariant nodes == Extend(map[], Entries(db[..i], false)) && receivers == Extend(map[], Entries(db[..i], true))
    {
      var m := db[i];
      assert db[..i + 1][..i] == db[..i];
      var values, limits := SignalTables(m.signals);
      var a := ScanAttributes(m);
      messages := messages[m.name := MessageState(values, values, limits, [], a)];
      cache := cache[m.frameId := m.name];
      ExtendAppend(map[], Entries(db[..i], false), EntriesOf(m, false));
      ExtendAppend(map[], Entries(db[..i], true), EntriesOf(m, true));
      nodes := AddMessage(nodes, m, false);
      receivers := AddMessage(receivers, m, true);
    }
    assert db[..|db|] == db;
    s := Store(messages, nodes, receivers, cache);
  }

  /** The reset loop of reset_message over every message. */
  method RestoreAll(messages: map<string, MessageState>) returns (reset: map<string, MessageState>)
    ensures reset.Keys == messages.Keys
    ensures forall n | n in reset :: reset[n] == Restored(messages[n])
  {
    reset := map[];
    var rest := messages.Keys;
    while rest != {}
      invariant rest <= messages.Keys
      invariant reset.Keys == messages.Keys - rest
      invariant forall n | n in reset :: reset[n] == Restored(messages[n])
      decreases |rest|
    {
      var n :| n in rest;
      reset := reset[n := Restored(messages[n])];
      rest := rest - {n};
    }
  }

  class Adapter {
    var messages: map<string, MessageState>
    var nodes: map<string, seq<string>>
    var receivers: map<string, seq<string>>
    var messageCache: map<int, string>

    ghost predicate Valid()
      reads this
    {
      ValidMessages(messages)
    }

    /** __init__ over the messages of a DBC database, in order. */
    constructor(db: seq<MessageDef>)
      ensures Valid()
      ensures messages == Messages(db) && messageCache == Cache(db)
      ensures nodes == Extend(map[], Entries(db, false)) && receivers == Extend(map[], Entries(db, true))
    {
      var s := Load(db);
      MessagesValid(db);
      messages, nodes, receivers, messageCache := s.messages, s.nodes, s.receivers, s.cache;
    }

    /** The message a key names, if the database knows it. */
    function Resolve(key: MessageKey): (r: Option<string>)
      reads this
      ensures r.Some? ==> r.value in messages
      ensures key.ByName? ==> (r.Some? <==> key.name in messages) && (r.Some? ==> r.value == key.name)
      ensures key.ByFrameId? ==> (r.Some? <==> key.id in messageCache && messageCache[key.id] in messages)
    {
      match key
      case ByName(n) => if n in messages then Some(n) else None
      case ByFrameId(id) => if id in messageCache && messageCache[id] in messages then Some(messageCache[id]) else None
    }

    /** push_signals: an unknown message is a KeyError and changes
        nothing; otherwise the clamped values update the current ones and
        replace whatever update was pending. */
    method PushSignals(name: string, signals: Signals) returns (r: Result<Signals, string>)
      requires Valid()
      modifies this`messages
      ensures Valid()
      ensures name !in old(messages) ==> r.Err? && unchanged(this)
      ensures name in old(messages) ==>
        var st := old(messages)[name];
        r == Ok(Trimmed(st.trim, signals)) &&
        messages == old(messages)[name := st.(current := st.current + r.value, queue := [r.value])]
    {
      if name !in messages {
        return Err("Message not found in DBC");
      }
      var st := messages[name];
      var trimmed := TrimSignals(st.trim, signals);
      var pushed := st.(current := st.current + trimmed, queue := [trimmed]);
      UpdateKeepsValid(messages, name, pushed);
      messages := messages[name := pushed];
      r := Ok(trimmed);
    }

    /** The queue and counter part of get_payload: consume the pending
        update, advance the alive counter, and give the values the
        payload is encoded from. An unknown message is an error. */
    method GetPayload(key: MessageKey) returns (r: Result<Signals, string>)
      requires Valid()
      modifies this`messages
      ensures Valid()
      ensures old(Resolve(key)).None? ==> r.Err? && unchanged(this)
      ensures old(Resolve(key)).Some? ==>
        var st := old(messages)[old(Resolve(key)).value];
        r == Ok(PayloadSignals(st.attributes, st.current, st.queue)) &&
        messages == old(messages)[old(Resolve(key)).value := st.(current := r.value, queue := [])]
    {
      var resolved := Resolve(key);
      if resolved.None? {
        return Err("Message not found in DBC");
      }
      var n := resolved.value;
      var st := messages[n];
      var a := st.attributes;
      var alvCntName: Option<string> := if a.group then Some(a.alvCnt) else None;
      var advance := a.group && !a.onEvent;
      var values := st.current;
      var queue := st.queue;
      if queue != [] {
        var updates := queue[0];
        queue := queue[1..];
        values := values + updates;
        if a.group {
          advance := true;
        }
      }
      if advance && alvCntName.Some? && alvCntName.value != [] {
        values := values[alvCntName.value := (values[alvCntName.value] + 1) % 256];
      }
      assert values == PayloadSignals(a, st.current, st.queue);
      PayloadSignalsEffect(a, st.current, st.queue);
      var consumed := st.(current := values, queue := queue);
      UpdateKeepsValid(messages, n, consumed);
      messages := messages[n := consumed];
      r := Ok(values);
    }

    /** reset_message: one message (or, for no name or an empty one, every
        message) goes back to its initial values with its queue emptied;
        an unknown name changes nothing. */
    method ResetMessage(name: Option<string>)
      requires Valid()
      modifies this`messages
      ensures Valid()
      ensures name.Some? && name.value != [] ==>
        if name.value in old(messages) then messages == old(messages)[name.value := Restored(old(messages)[name.value])]
        else unchanged(this)
      ensures name.None? || name.value == [] ==>
        messages.Keys == old(messages).Keys && forall n | n in messages :: messages[n] == Restored(old(messages)[n])
    {
      if name.Some? && name.value != [] {
        if name.value in messages {
          RestoredValid(messages[name.value]);
          UpdateKeepsValid(messages, name.value, Restored(messages[name.value]));
          messages := messages[name.value := Restored(messages[name.value])];
        }
      } else {
        var reset := RestoreAll(messages);
        forall n | n in reset
          ensures ValidState(reset[n])
        {
          RestoredValid(messages[n]);
        }
        messages := reset;
      }
    }

    /** isOnEvent: whether the message's comment mentions "Event"; None
        for a message the database does not know. */
    function IsOnEvent(key: MessageKey): (r: Option<bool>)
      reads this
      ensures r.Some? <==> Resolve(key).Some?
      ensures r.Some? ==> r.value == messages[Resolve(key).value].attributes.onEvent
    {
      match Resolve(key)
      case None => None
      case Some(n) => Some(messages[n].attributes.onEvent)
    }
  }

  /** The on-event attribute is read from the message comment. */
  lemma OnEventFromComment(m: MessageDef)
    ensures AttributesOf(m).onEvent <==> m.comment.Some? && Contains(m.comment.value, EventTag)
  {
    if m.comment.None? {
      assert !Contains("", EventTag);
    }
  }
}
