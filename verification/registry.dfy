/**
 * The session registry `activeSessions`: each registered session maps to the
 * set of its streams. Every accept-loop callback and the fan-out's clean-up
 * is one function from registry to registry; the `Server` class applies
 * them to its live map.
 */
module SessionRegistry {

  /** Opaque transport handles, compared by identity. */
  type Session = nat
  type Stream = nat

  type Registry = map<Session, set<Stream>>

  /** A newly accepted session gets a fresh, empty stream set (Map.set replaces any previous entry). */
  function Accept(reg: Registry, s: Session): (r: Registry)
    ensures r.Keys == reg.Keys + {s} && r[s] == {}
  {
    reg[s := {}]
  }

  /** Session closed, closed with an error, or failed to become ready: Map.delete. */
  function Drop(reg: Registry, s: Session): (r: Registry)
    ensures r.Keys == reg.Keys - {s}
    ensures forall t :: t in r ==> r[t] == reg[t]
  {
    reg - {s}
  }

  /** A created stream joins its session's set only while the session is registered. */
  function AddStream(reg: Registry, s: Session, st: Stream): (r: Registry)
    ensures r.Keys == reg.Keys
    ensures s in reg ==> st in r[s]
  {
    if s in reg then reg[s := reg[s] + {st}] else reg
  }

  /** A stream whose reader or writer closes with an error leaves its session's set; the session stays. */
  function RemoveStream(reg: Registry, s: Session, st: Stream): (r: Registry)
    ensures r.Keys == reg.Keys
    ensures s in reg ==> st !in r[s]
  {
    if s in reg then reg[s := reg[s] - {st}] else reg
  }

  /** The streams registered under `s`; none when `s` is absent. */
  function Streams(reg: Registry, s: Session): set<Stream>
  {
    if s in reg then reg[s] else {}
  }

  /** Every (session, stream) pair the registry holds. */
  function Pairs(reg: Registry): set<(Session, Stream)>
  {
    set s, st | s in reg && st in reg[s] :: (s, st)
  }

  /** The (session, stream) pairs a fan-out offers the packet to: all streams of sessions not observed closed. */
  function Targets(reg: Registry, closed: set<Session>): set<(Session, Stream)>
  {
    set s, st | s in reg && s !in closed && st in reg[s] :: (s, st)
  }

  /** Streams a fan-out removes from one open session: the failed writes, or all when no packet could be built. */
  function FailedStreams(streams: set<Stream>, failing: set<Stream>, packetOk: bool): set<Stream>
  {
    if packetOk then streams * failing else streams
  }

  /** The registry after broadcastChunk: closed sessions deleted, failed streams deleted from open ones. */
  function FanOut(reg: Registry, closed: set<Session>, failing: set<Stream>, packetOk: bool): (r: Registry)
    ensures r.Keys == reg.Keys - closed
    ensures forall s :: s in r ==> r[s] <= reg[s]
  {
    map s | s in reg && s !in closed :: reg[s] - FailedStreams(reg[s], failing, packetOk)
  }

  /** Accepting maps the session to an empty set, even if it was registered with streams, and touches nothing else. */
  lemma AcceptResets(reg: Registry, s: Session)
    ensures Accept(reg, s).Keys == reg.Keys + {s}
    ensures Accept(reg, s)[s] == {}
    ensures forall t :: t in reg && t != s ==> Accept(reg, s)[t] == reg[t]
    ensures Pairs(Accept(reg, s)) == Pairs(reg) - (set st | st in Streams(reg, s) :: (s, st))
  {
  }

  /** Dropping a session removes it with all of its streams and leaves every other session as it was. */
  lemma DropCascades(reg: Registry, s: Session)
    ensures Drop(reg, s).Keys == reg.Keys - {s}
    ensures forall st :: (s, st) !in Pairs(Drop(reg, s))
    ensures forall t :: t in reg && t != s ==> Drop(reg, s)[t] == reg[t]
  {
  }

  /** Dropping is idempotent, and dropping an absent session changes nothing. */
  lemma DropIdempotent(reg: Registry, s: Session)
    ensures Drop(Drop(reg, s), s) == Drop(reg, s)
    ensures s !in reg ==> Drop(reg, s) == reg
  {
  }

  /** A created stream is stored exactly when its session is still registered; otherwise it is dropped. */
  lemma AddStreamGuarded(reg: Registry, s: Session, st: Stream)
    ensures AddStream(reg, s, st).Keys == reg.Keys
    ensures s in reg ==> AddStream(reg, s, st)[s] == reg[s] + {st}
    ensures s !in reg ==> AddStream(reg, s, st) == reg
    ensures Pairs(AddStream(reg, s, st)) == if s in reg then Pairs(reg) + {(s, st)} else Pairs(reg)
  {
  }

  /** Removing a stream removes only that pair; the session stays registered even with no streams left. */
  lemma RemoveStreamOnly(reg: Registry, s: Session, st: Stream)
    ensures RemoveStream(reg, s, st).Keys == reg.Keys
    ensures Pairs(RemoveStream(reg, s, st)) == Pairs(reg) - {(s, st)}
    ensures RemoveStream(RemoveStream(reg, s, st), s, st) == RemoveStream(reg, s, st)
  {
    var r := RemoveStream(reg, s, st);
    forall p | p in Pairs(reg) - {(s, st)} ensures p in Pairs(r) {
      var (a, b) := p;
      assert a in r && b in r[a];
    }
    if s in reg {
      assert r[s] - {st} == r[s];
    }
  }

  /**
   * The fan-out adds no session, deletes exactly the sessions observed
   * closed, never deletes a session for a failed write, and keeps exactly
   * the streams of open sessions whose write succeeded.
   */
  lemma FanOutEffect(reg: Registry, closed: set<Session>, failing: set<Stream>, packetOk: bool)
    ensures FanOut(reg, closed, failing, packetOk).Keys == reg.Keys - closed
    ensures Pairs(FanOut(reg, closed, failing, packetOk))
         == (set p | p in Targets(reg, closed) && packetOk && p.1 !in failing)
  {
  }

  /**
   * Three sessions with one stream each; the write to session 2's stream fails.
   * Afterwards sessions 1 and 3 keep their streams and session 2 stays registered with none.
   */
  lemma ScenarioOneStreamFails()
    ensures FanOut(map[1 := {11}, 2 := {22}, 3 := {33}], {}, {22}, true)
         == map[1 := {11}, 2 := {}, 3 := {33}]
  {
    var reg: Registry := map[1 := {11}, 2 := {22}, 3 := {33}];
    var r := FanOut(reg, {}, {22}, true);
    assert r.Keys == {1, 2, 3};
    assert r[1] == {11} && r[2] == {} && r[3] == {33};
  }

  /**
   * With `session.closed` read as a promise, every registered session is
   * observed closed: the first fan-out empties the registry and writes nothing.
   */
  lemma FanOutAllClosed(reg: Registry, failing: set<Stream>, packetOk: bool)
    ensures FanOut(reg, reg.Keys, failing, packetOk) == map[]
    ensures Targets(reg, reg.Keys) == {}
  {
  }

  /**
   * With the registration-time writer never released, every write fails:
   * the open sessions stay registered but lose every stream.
   */
  lemma FanOutAllWritesFail(reg: Registry, closed: set<Session>, failing: set<Stream>, packetOk: bool)
    requires forall s, st :: s in reg && st in reg[s] ==> st in failing
    ensures FanOut(reg, closed, failing, packetOk).Keys == reg.Keys - closed
    ensures Pairs(FanOut(reg, closed, failing, packetOk)) == {}
  {
    FanOutEffect(reg, closed, failing, packetOk);
  }
}
