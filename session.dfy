/**
 * The sequential core of a RELP session: the ACK bookkeeping that matches
 * acknowledgements to transaction numbers, the transaction counter of
 * `send`, and the dispatch of incoming frames. Sockets and threads are
 * replaced by three sequences: the send queue, the frames written directly
 * to the socket by the acknowledgement helpers, and the receive queue.
 */
module Session {
  import opened Wrappers
  import opened Errors
  import opened Text
  import opened Protocol

  /**
   * `AckManager`: `events` holds one entry per prepared key, `true` once
   * its event has been set; `values` holds the delivered values.
   */
  class AckManager<K(==), V> {
    var events: map<K, bool>
    var values: map<K, V>

    constructor ()
      ensures events == map[] && values == map[]
    {
      events := map[];
      values := map[];
    }

    /** `prepare(key)`: refuses a key that already has an event. */
    method Prepare(key: K) returns (r: Outcome<Error>)
      modifies this
      ensures key in old(events) ==> r == Fail(AlreadyWaiting) && events == old(events)
      ensures key !in old(events) ==> r == Pass && events == old(events)[key := false]
      ensures values == old(values)
    {
      if key in events {
        return Fail(AlreadyWaiting);
      }
      events := events[key := false];
      r := Pass;
    }

    /**
     * `get(key, timeout)`: prepares the key if it has none, waits for the
     * event, then pops the value. The wait returns only once the event is
     * set, or when `timedOut` says the optional timeout ran out. The event
     * itself is never removed.
     */
    method Get(key: K, timedOut: bool) returns (r: Result<V, Error>)
      requires timedOut || (key in events && events[key])
      modifies this
      ensures events == if key in old(events) then old(events) else old(events)[key := false]
      ensures key in old(values) ==> r == Ok(old(values)[key]) && values == old(values) - {key}
      ensures key !in old(values) ==> r == Err(KeyMissing) && values == old(values)
    {
      if key !in events {
        var _ := Prepare(key);
      }
      if key !in values {
        return Err(KeyMissing);
      }
      r := Ok(values[key]);
      values := values - {key};
    }

    /**
     * `put(key, value)`: stores the value first, then sets the event, and
     * fails when there is no event to set, with the value already stored.
     */
    method Put(key: K, value: V) returns (r: Outcome<Error>)
      modifies this
      ensures values == old(values)[key := value]
      ensures key !in old(events) ==> r == Fail(NoEvent) && events == old(events)
      ensures key in old(events) ==> r == Pass && events == old(events)[key := true]
    {
      values := values[key := value];
      if key !in events {
        return Fail(NoEvent);
      }
      events := events[key := true];
      r := Pass;
    }

    /** `size()`: the number of keys that have an event, set or not. */
    function Size(): nat
      reads this
    {
      |events|
    }
  }

  /**
   * A delivered value comes back from `get`, and afterwards only the event
   * is left: the manager still counts the key.
   */
  method DeliveredValueReturned<K(==), V>(key: K, value: V) returns (got: Result<V, Error>, size: nat, left: bool)
    ensures got == Ok(value)
    ensures size == 1
    ensures !left
  {
    var m := new AckManager<K, V>();
    var _ := m.Prepare(key);
    var _ := m.Put(key, value);
    got := m.Get(key, false);
    size := m.Size();
    left := key in m.values;
  }

  /** A key whose value was already taken still cannot be prepared again. */
  method ResolvedKeyStaysPrepared<K(==), V>(key: K, value: V) returns (again: Outcome<Error>, size: nat)
    ensures again == Fail(AlreadyWaiting)
    ensures size == 1
  {
    var m := new AckManager<K, V>();
    var _ := m.Prepare(key);
    var _ := m.Put(key, value);
    var _ := m.Get(key, false);
    again := m.Prepare(key);
    size := m.Size();
  }

  /**
   * A `put` without an event fails, yet leaves the value behind, where a
   * later `get` that times out finds it.
   */
  method PutWithoutEventKeepsValue<K(==), V>(key: K, value: V) returns (put: Outcome<Error>, got: Result<V, Error>, size: nat)
    ensures put == Fail(NoEvent)
    ensures got == Ok(value)
    ensures size == 1
  {
    var m := new AckManager<K, V>();
    put := m.Put(key, value);
    got := m.Get(key, true);
    size := m.Size();
  }

  /** A `get` that times out on an unknown key prepares it and finds nothing. */
  method GetPreparesUnknownKey<K(==), V>(key: K) returns (got: Result<V, Error>, again: Outcome<Error>)
    ensures got == Err(KeyMissing)
    ensures again == Fail(AlreadyWaiting)
  {
    var m := new AckManager<K, V>();
    got := m.Get(key, true);
    again := m.Prepare(key);
  }

  /** The role the session plays; it decides how `serverclose` is handled. */
  datatype Mode = Client | Server

  /** The frame a client sends when it stops. */
  function ServerCloseFrame(): Frame
  {
    Frame(0, "serverclose", "")
  }

  /** The ack `_ack_offer` writes: code 200 carrying the default offer. */
  function OfferAck(txnr: nat): Ack
  {
    Ack(txnr, ACK.Value(), OfferMessage(DefaultOffer))
  }

  /**
   * The ack that answers `open` is read back whole by `Ack.from_frame`, and
   * its message splits into the three offer lines.
   */
  lemma OfferAckReadable(txnr: nat)
    ensures AckFromFrame(AckToFrame(OfferAck(txnr))) == Ok(OfferAck(txnr))
    ensures Split(OfferAck(txnr).message, '\n') == OfferLines(DefaultOffer)
  {
    DefaultOfferFields();
    OfferMessageLines(DefaultOffer);
    DefaultOfferHasNoSpace();
    AckRoundTrip(OfferAck(txnr));
  }

  /** What `_handle_frame` does with a frame, decided by its command and the mode. */
  datatype Reaction = Deliver | AckAndQueue | OfferAndQueue | Stop | Refuse(error: Error)

  /**
   * The branch of `_handle_frame` a command takes. `close` is caught by the
   * second test, so the later branch that stops a server on `close` is never
   * reached.
   */
  function Dispatch(mode: Mode, command: string): (r: Reaction)
    ensures r == Deliver <==> command == "rsp"
    ensures r == AckAndQueue <==> command == "close" || command in COMMANDS
    ensures r == OfferAndQueue <==> command == "open"
    ensures r == Stop <==> command == "serverclose" && mode == Client
    ensures r.Refuse? && command == "serverclose" <==> command == "serverclose" && mode == Server
    ensures r.Refuse? && command != "serverclose" <==> command !in ["rsp", "close", "open", "serverclose"] + COMMANDS
    ensures r.Refuse? ==> r.error == if command == "serverclose" then WrongMode(command) else UnsupportedCommand(command)
  {
    if command == "rsp" then Deliver
    else if command in ["close"] + COMMANDS then AckAndQueue
    else if command == "open" then OfferAndQueue
    else if command == "serverclose" then
      match mode
      case Client => Stop
      case Server => Refuse(WrongMode(command))
    else Refuse(UnsupportedCommand(command))
  }

  /**
   * `RelpSession`. `sendQueue` is the queue behind `send_frame`, `written`
   * the frames `_ack` and `_ack_offer` write to the socket directly, and
   * `recvQueue` the queue behind `recv`. `stopped` stands for `stop()`.
   */
  class RelpSession {
    const mode: Mode
    const acks: AckManager<nat, Ack>
    var txnr: nat
    var sendQueue: seq<Frame>
    var written: seq<Frame>
    var recvQueue: seq<Frame>
    var stopped: bool

    /**
     * The transaction numbers handed out so far are exactly `1 .. txnr-1`,
     * and each of them has an event in the ACK manager.
     */
    ghost predicate Valid()
      reads this, acks
    {
      txnr >= 1 && forall k: nat :: k in acks.events <==> 1 <= k < txnr
    }

    /** `__init__`: the counter starts at 1 and every queue is empty. */
    constructor (mode: Mode)
      ensures Valid() && fresh(acks)
      ensures this.mode == mode && txnr == 1
      ensures sendQueue == [] && written == [] && recvQueue == [] && !stopped
      ensures acks.events == map[] && acks.values == map[]
    {
      this.mode := mode;
      acks := new AckManager<nat, Ack>();
      txnr := 1;
      sendQueue := [];
      written := [];
      recvQueue := [];
      stopped := false;
    }

    /**
     * The first half of `send`: take the current transaction number,
     * prepare its event before the frame is queued, queue the frame and
     * advance the counter by one.
     */
    method Issue(command: string, message: string) returns (t: nat)
      requires Valid()
      modifies this, acks
      ensures Valid()
      ensures t == old(txnr) && txnr == old(txnr) + 1
      ensures sendQueue == old(sendQueue) + [Frame(t, command, message)]
      ensures acks.events == old(acks.events)[t := false] && acks.values == old(acks.values)
      ensures written == old(written) && recvQueue == old(recvQueue) && stopped == old(stopped)
    {
      t := txnr;
      var _ := acks.Prepare(t);
      SendFrame(Frame(t, command, message));
      txnr := txnr + 1;
    }

    /**
     * The second half of `send`, once the ack for `t` has arrived: pop it
     * and check its code. 500 fails with the ack's message; any other code
     * passes.
     */
    method Complete(t: nat) returns (r: Outcome<Error>)
      requires Valid() && t in acks.events && acks.events[t]
      modifies acks
      ensures Valid()
      ensures acks.events == old(acks.events) && acks.values == old(acks.values) - {t}
      ensures t !in old(acks.values) ==> r == Fail(KeyMissing)
      ensures t in old(acks.values) ==> r == (if old(acks.values)[t].code == NACK.Value()
                                              then Fail(Nack(old(acks.values)[t].message)) else Pass)
    {
      var got := acks.Get(t, false);
      if got.Err? {
        return Fail(got.error);
      }
      if got.value.code == NACK.Value() {
        return Fail(Nack(got.value.message));
      }
      r := Pass;
    }

    /** `send_frame`: append to the send queue. */
    method SendFrame(f: Frame)
      modifies this
      ensures sendQueue == old(sendQueue) + [f]
      ensures txnr == old(txnr) && written == old(written) && recvQueue == old(recvQueue) && stopped == old(stopped)
    {
      sendQueue := sendQueue + [f];
    }

    /** `recv`: take the oldest received frame; the wait becomes the precondition. */
    method Recv() returns (f: Frame)
      requires recvQueue != []
      modifies this
      ensures f == old(recvQueue)[0] && recvQueue == old(recvQueue)[1..]
      ensures txnr == old(txnr) && sendQueue == old(sendQueue) && written == old(written) && stopped == old(stopped)
    {
      f := recvQueue[0];
      recvQueue := recvQueue[1..];
    }

    /** `_ack`: write the default ack for `t`. */
    method WriteAck(t: nat)
      modifies this
      ensures written == old(written) + [AckToFrame(DefaultAck(t))]
      ensures txnr == old(txnr) && sendQueue == old(sendQueue) && recvQueue == old(recvQueue) && stopped == old(stopped)
    {
      written := written + [AckToFrame(DefaultAck(t))];
    }

    /** `_ack_offer`: write an ack for `t` whose message is the offer. */
    method WriteOfferAck(t: nat)
      modifies this
      ensures written == old(written) + [AckToFrame(OfferAck(t))]
      ensures txnr == old(txnr) && sendQueue == old(sendQueue) && recvQueue == old(recvQueue) && stopped == old(stopped)
    {
      written := written + [AckToFrame(OfferAck(t))];
    }

    /** The `rsp` branch of `_handle_frame`: parse the ack and `put` it under its txnr. */
    method DeliverAck(f: Frame) returns (r: Outcome<Error>)
      requires Valid()
      modifies acks
      ensures Valid() && acks.events.Keys == old(acks.events.Keys)
      ensures match AckFromFrame(f)
        case Err(e) =>
          r == Fail(e) && unchanged(acks)
        case Ok(a) =>
          && acks.values == old(acks.values)[a.txnr := a]
          && (a.txnr in old(acks.events) ==> r == Pass && acks.events == old(acks.events)[a.txnr := true])
          && (a.txnr !in old(acks.events) ==> r == Fail(NoEvent) && acks.events == old(acks.events))
    {
      var parsed := AckFromFrame(f);
      if parsed.Err? {
        return Fail(parsed.error);
      }
      r := acks.Put(parsed.value.txnr, parsed.value);
    }

    /**
     * `_handle_frame`. An `rsp` frame is parsed and delivered to the ACK
     * manager under its own transaction number; `close` and `syslog` are
     * acknowledged and queued; `open` is answered with the offer and
     * queued; `serverclose` stops a client and is refused by a server;
     * anything else is a protocol error.
     */
    method HandleFrame(f: Frame) returns (r: Outcome<Error>)
      requires Valid()
      modifies this, acks
      ensures Valid()
      ensures txnr == old(txnr) && acks.events.Keys == old(acks.events.Keys)
      ensures Dispatch(mode, f.command) == Deliver ==> unchanged(this) && match AckFromFrame(f)
        case Err(e) =>
          r == Fail(e) && unchanged(acks)
        case Ok(a) =>
          && acks.values == old(acks.values)[a.txnr := a]
          && (a.txnr in old(acks.events) ==> r == Pass && acks.events == old(acks.events)[a.txnr := true])
          && (a.txnr !in old(acks.events) ==> r == Fail(NoEvent) && acks.events == old(acks.events))
      ensures Dispatch(mode, f.command) != Deliver ==> unchanged(acks)
      ensures Dispatch(mode, f.command) == AckAndQueue ==>
        && r == Pass
        && written == old(written) + [AckToFrame(DefaultAck(f.txnr))]
        && recvQueue == old(recvQueue) + [f]
        && sendQueue == old(sendQueue) && stopped == old(stopped)
      ensures Dispatch(mode, f.command) == OfferAndQueue ==>
        && r == Pass
        && written == old(written) + [AckToFrame(OfferAck(f.txnr))]
        && recvQueue == old(recvQueue) + [f]
        && sendQueue == old(sendQueue) && stopped == old(stopped)
      ensures Dispatch(mode, f.command) == Stop ==>
        && r == Pass
        && stopped
        && sendQueue == old(sendQueue) + [ServerCloseFrame()]
        && written == old(written) && recvQueue == old(recvQueue)
      ensures Dispatch(mode, f.command).Refuse? ==>
        r == Fail(Dispatch(mode, f.command).error) && unchanged(this)
    {
      var reaction := Dispatch(mode, f.command);
      match reaction
      case Deliver =>
        r := DeliverAck(f);
      case AckAndQueue =>
        WriteAck(f.txnr);
        recvQueue := recvQueue + [f];
        r := Pass;
      case OfferAndQueue =>
        WriteOfferAck(f.txnr);
        recvQueue := recvQueue + [f];
        r := Pass;
      case Stop =>
        SendFrame(ServerCloseFrame());
        stopped := true;
        r := Pass;
      case Refuse(e) =>
        r := Fail(e);
    }
  }

  /** A set of naturals that is exactly `1 .. n` has `n` elements. */
  lemma {:induction false} CardRange(s: set<nat>, n: nat)
    requires forall k: nat :: k in s <==> 1 <= k <= n
    ensures |s| == n
    decreases n
  {
    if n == 0 {
      assert s == {};
    } else {
      assert n in s;
      var t := s - {n};
      CardRange(t, n - 1);
      assert s == t + {n};
    }
  }

  /**
   * In a session, `size()` is the number of transaction numbers handed out
   * so far: every key ever prepared keeps its event.
   */
  lemma SizeIsIssued(s: RelpSession)
    requires s.Valid()
    ensures s.acks.Size() == s.txnr - 1
  {
    CardRange(s.acks.events.Keys, s.txnr - 1);
  }

  /** `n` sends on a new session use the transaction numbers `1 .. n`, in order. */
  method IssueAll(mode: Mode, command: string, messages: seq<string>) returns (queued: seq<Frame>, next: nat)
    ensures |queued| == |messages|
    ensures forall i :: 0 <= i < |messages| ==> queued[i] == Frame(i + 1, command, messages[i])
    ensures next == |messages| + 1
  {
    var s := new RelpSession(mode);
    var i := 0;
    while i < |messages|
      invariant 0 <= i <= |messages|
      invariant s.Valid() && s.txnr == i + 1
      invariant |s.sendQueue| == i
      invariant forall j :: 0 <= j < i ==> s.sendQueue[j] == Frame(j + 1, command, messages[j])
      modifies s, s.acks
    {
      var _ := s.Issue(command, messages[i]);
      i := i + 1;
    }
    queued := s.sendQueue;
    next := s.txnr;
  }

  /** A frame that is acknowledged lets its `send` complete. */
  method SendAcknowledged(mode: Mode, command: string, message: string) returns (handled: Outcome<Error>, sent: Outcome<Error>)
    ensures handled == Pass && sent == Pass
  {
    var s := new RelpSession(mode);
    var t := s.Issue(command, message);
    var ack := AckToFrame(DefaultAck(t));
    AckRoundTrip(DefaultAck(t));
    handled := s.HandleFrame(ack);
    sent := s.Complete(t);
  }

  /**
   * A NACK makes `send` fail with the NACK's message, but only when that
   * message has no space; otherwise the `rsp` frame itself cannot be parsed
   * and the ack never arrives.
   */
  method SendNacked(mode: Mode, command: string, message: string, reason: string)
    returns (handled: Outcome<Error>, sent: Option<Outcome<Error>>)
    ensures ' ' !in reason ==> handled == Pass && sent == Some(Fail(Nack(reason)))
    ensures ' ' in reason ==> handled == Fail(UnpackError) && sent == None
  {
    var s := new RelpSession(mode);
    var t := s.Issue(command, message);
    var nack := NackFrame(t, reason);
    handled := s.HandleFrame(nack);
    if handled.Pass? {
      var done := s.Complete(t);
      sent := Some(done);
    } else {
      sent := None;
    }
  }

  /** A received `syslog` frame is acknowledged and then handed out by `recv`. */
  method ReceiveSyslog(mode: Mode, txnr: nat, message: string) returns (handled: Outcome<Error>, got: Frame, acked: seq<Frame>)
    ensures handled == Pass
    ensures got == Frame(txnr, "syslog", message)
    ensures acked == [AckFrame(txnr)]
  {
    var s := new RelpSession(mode);
    handled := s.HandleFrame(Frame(txnr, "syslog", message));
    got := s.Recv();
    acked := s.written;
  }
}
