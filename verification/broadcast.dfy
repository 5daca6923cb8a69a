/**
 * The broadcast server's mutable state and the code that changes it: the
 * accept-loop callbacks on `activeSessions`, the interval tick that reads the
 * audio file and fans a packet out, and the start/stop of the ticker.
 *
 * The transport is not modelled. Its observations enter as oracle inputs:
 * which sessions the fan-out sees as closed, which stream writes fail,
 * whether the file read throws, and the clock reading for the timestamp.
 * Each callback runs as one atomic step.
 */
module Broadcast {
  import opened Base
  import opened Packet
  import opened Cursor
  import opened SessionRegistry

  /** The handle setInterval returns. */
  type TimerId = nat

  /** One stream write attempted by the fan-out, and whether it succeeded. */
  datatype Write = Write(session: Session, stream: Stream, packet: seq<byte>, ok: bool)

  /** The (session, stream) pairs a write log has written to. */
  ghost function Written(log: seq<Write>): set<(Session, Stream)>
  {
    set i | 0 <= i < |log| :: (log[i].session, log[i].stream)
  }

  /** No stream is written twice. */
  ghost predicate Once(log: seq<Write>)
  {
    forall i, j :: 0 <= i < j < |log| ==> (log[i].session, log[i].stream) != (log[j].session, log[j].stream)
  }

  /** Every write carries the same framed packet and fails exactly when its stream fails. */
  ghost predicate SamePacket(log: seq<Write>, packet: Result<seq<byte>, FramerError>, failing: set<Stream>)
  {
    forall i :: 0 <= i < |log| ==>
      packet.Ok? && log[i].packet == packet.value && log[i].ok == (log[i].stream !in failing)
  }

  /** `log` writes `packet` once to every target of `reg` (nothing when the packet could not be framed). */
  ghost predicate Covers(log: seq<Write>, reg: Registry, closed: set<Session>, failing: set<Stream>,
                         packet: Result<seq<byte>, FramerError>)
  {
    && SamePacket(log, packet, failing)
    && Once(log)
    && Written(log) == (if packet.Ok? then Targets(reg, closed) else {})
  }

  /**
   * What one broadcastChunk writes: the packet framed from `chunk` and the
   * one timestamp, once to every stream of every session not observed closed
   * (nothing at all when the packet cannot be framed).
   */
  ghost predicate Delivered(log: seq<Write>, reg: Registry, closed: set<Session>, failing: set<Stream>,
                            chunk: seq<byte>, timestamp: int)
  {
    Covers(log, reg, closed, failing, CreateSyncPacket(chunk, timestamp))
  }

  lemma WrittenConcat(log: seq<Write>, more: seq<Write>)
    ensures Written(log + more) == Written(log) + Written(more)
  {
    var all := log + more;
    forall p | p in Written(all) ensures p in Written(log) + Written(more) {
      var i :| 0 <= i < |all| && p == (all[i].session, all[i].stream);
      if i < |log| {
        assert all[i] == log[i];
      } else {
        assert all[i] == more[i - |log|];
      }
    }
    forall p | p in Written(log) + Written(more) ensures p in Written(all) {
      if p in Written(log) {
        var i :| 0 <= i < |log| && p == (log[i].session, log[i].stream);
        assert all[i] == log[i];
      } else {
        var i :| 0 <= i < |more| && p == (more[i].session, more[i].stream);
        assert all[|log| + i] == more[i];
      }
    }
  }

  lemma OnceConcat(log: seq<Write>, more: seq<Write>)
    requires Once(log) && Once(more) && Written(log) !! Written(more)
    ensures Once(log + more)
  {
    var all := log + more;
    forall i, j | 0 <= i < j < |all|
      ensures (all[i].session, all[i].stream) != (all[j].session, all[j].stream)
    {
      if i < |log| && j >= |log| {
        assert (log[i].session, log[i].stream) in Written(log);
        assert (more[j - |log|].session, more[j - |log|].stream) in Written(more);
      } else if i >= |log| {
        assert all[i] == more[i - |log|] && all[j] == more[j - |log|];
      }
    }
  }

  lemma SamePacketConcat(log: seq<Write>, more: seq<Write>, packet: Result<seq<byte>, FramerError>, failing: set<Stream>)
    requires SamePacket(log, packet, failing) && SamePacket(more, packet, failing)
    ensures SamePacket(log + more, packet, failing)
  {
  }

  /**
   * The inner loop of broadcastChunk for one open session: frame the packet
   * and write it to each stream, collecting the streams whose write failed.
   */
  method WriteStreams(session: Session, streams: set<Stream>, chunk: seq<byte>, timestamp: int, failing: set<Stream>)
    returns (streamsToRemove: seq<Stream>, ghost writes: seq<Write>)
    ensures forall st :: st in streamsToRemove <==> st in FailedStreams(streams, failing, CreateSyncPacket(chunk, timestamp).Ok?)
    ensures SamePacket(writes, CreateSyncPacket(chunk, timestamp), failing) && Once(writes)
    ensures Written(writes)
         == if CreateSyncPacket(chunk, timestamp).Ok? then set st | st in streams :: (session, st) else {}
  {
    ghost var ok := CreateSyncPacket(chunk, timestamp).Ok?;
    streamsToRemove := [];
    writes := [];
    var todo := streams;
    while todo != {}
      invariant todo <= streams
      invariant forall st :: st in streamsToRemove <==> st in streams && st !in todo && (!ok || st in failing)
      invariant SamePacket(writes, CreateSyncPacket(chunk, timestamp), failing) && Once(writes)
      invariant Written(writes) == if ok then set st | st in streams && st !in todo :: (session, st) else {}
      decreases todo
    {
      var stream :| stream in todo;
      todo := todo - {stream};
      var packet := CreateSyncPacket(chunk, timestamp);
      if packet.Err? {
        streamsToRemove := streamsToRemove + [stream];
      } else {
        var w := Write(session, stream, packet.value, stream !in failing);
        assert Written([w]) == {(session, stream)} by {
          assert (session, stream) == ([w][0].session, [w][0].stream);
        }
        WrittenConcat(writes, [w]);
        OnceConcat(writes, [w]);
        SamePacketConcat(writes, [w], CreateSyncPacket(chunk, timestamp), failing);
        writes := writes + [w];
        if stream in failing {
          streamsToRemove := streamsToRemove + [stream];
        }
      }
    }
    assert forall st :: st in streams ==> st !in todo;
  }

  /** Moving one session from pending to done adds its streams to the targets, unless it is closed. */
  lemma TargetsGrow(start: Registry, pending: set<Session>, session: Session, closed: set<Session>)
    requires session in pending && session in start
    ensures Targets(start - (pending - {session}), closed)
         == Targets(start - pending, closed)
          + (if session in closed then {} else set st | st in start[session] :: (session, st))
  {
  }

  /** The fan-out's log after one more session of the walk: its writes are appended. */
  lemma CoversStep(log: seq<Write>, writes: seq<Write>, start: Registry, pending: set<Session>,
                   session: Session, closed: set<Session>, failing: set<Stream>,
                   packet: Result<seq<byte>, FramerError>)
    requires session in pending && session in start
    requires Covers(log, start - pending, closed, failing, packet)
    requires SamePacket(writes, packet, failing) && Once(writes)
    requires Written(writes)
          == if packet.Ok? && session !in closed then set st | st in start[session] :: (session, st) else {}
    ensures Covers(log + writes, start - (pending - {session}), closed, failing, packet)
  {
    TargetsGrow(start, pending, session, closed);
    WrittenConcat(log, writes);
    OnceConcat(log, writes);
    SamePacketConcat(log, writes, packet, failing);
  }

  /**
   * The live map part-way through the walk: the same sessions; pending
   * sessions and sessions observed closed keep their streams; every other
   * walked session has lost its failed streams.
   */
  ghost predicate WalkedSoFar(sessions: Registry, start: Registry, pending: set<Session>, closed: set<Session>,
                              failing: set<Stream>, packetOk: bool)
  {
    && pending <= start.Keys
    && sessions.Keys == start.Keys
    && (forall s :: s in pending ==> sessions[s] == start[s])
    && (forall s :: s in start && s !in pending ==>
          sessions[s] == if s in closed then start[s] else start[s] - FailedStreams(start[s], failing, packetOk))
  }

  /** One more session of the walk: a closed one is left alone, an open one loses its failed streams. */
  lemma WalkedStep(sessions: Registry, start: Registry, pending: set<Session>, closed: set<Session>,
                   failing: set<Stream>, packetOk: bool, session: Session)
    requires WalkedSoFar(sessions, start, pending, closed, failing, packetOk) && session in pending
    ensures session in closed ==> WalkedSoFar(sessions, start, pending - {session}, closed, failing, packetOk)
    ensures session !in closed ==>
      WalkedSoFar(sessions[session := start[session] - FailedStreams(start[session], failing, packetOk)],
                  start, pending - {session}, closed, failing, packetOk)
  {
  }

  /** Deleting the collected streams one by one leaves the set without its failed streams. */
  lemma RemovedAreFailed(streams: set<Stream>, streamsToRemove: seq<Stream>, failing: set<Stream>, packetOk: bool)
    requires forall st :: st in streamsToRemove <==> st in FailedStreams(streams, failing, packetOk)
    ensures streams - (set st | st in streamsToRemove) == streams - FailedStreams(streams, failing, packetOk)
  {
    assert (set st | st in streamsToRemove) == FailedStreams(streams, failing, packetOk);
  }

  class Server {
    /** The audio file's bytes (read through the file handle opened once at startup). */
    const audio: seq<byte>
    /** `fileHandle` is set. */
    var fileOpen: bool
    /** `isServerRunning`. */
    var running: bool
    /** `broadcastInterval`. */
    var interval: Option<TimerId>
    /** The tick's read offset into the audio file. */
    var position: nat
    /** `activeSessions`. */
    var sessions: Registry

    /** The read offset never passes the end of the file. */
    ghost predicate Valid()
      reads this
    {
      position <= |audio|
    }

    /** Module load: no sessions, not running, no timer, no file handle. */
    constructor (audio: seq<byte>)
      ensures Valid() && this.audio == audio
      ensures sessions == map[] && !running && interval == None && !fileOpen && position == 0
    {
      this.audio := audio;
      fileOpen := false;
      running := false;
      interval := None;
      position := 0;
      sessions := map[];
    }

    /** The server has started listening and the audio file is open. */
    method Open()
      requires Valid()
      modifies this
      ensures Valid() && running && fileOpen
      ensures sessions == old(sessions) && position == old(position) && interval == old(interval)
    {
      running := true;
      fileOpen := true;
    }

    /** startAudioBroadcast: a new read offset at 0 and a new interval timer. */
    method StartAudioBroadcast(handle: TimerId)
      requires Valid()
      modifies this
      ensures Valid() && position == 0 && interval == Some(handle)
      ensures sessions == old(sessions) && running == old(running) && fileOpen == old(fileOpen)
    {
      position := 0;
      interval := Some(handle);
    }

    /** The start-up check: start the broadcast only if some session is registered. */
    method StartIfSessions(handle: TimerId)
      requires Valid()
      modifies this
      ensures Valid()
      ensures sessions == old(sessions) && running == old(running) && fileOpen == old(fileOpen)
      ensures |old(sessions)| != 0 ==> position == 0 && interval == Some(handle)
      ensures |old(sessions)| == 0 ==> position == old(position) && interval == old(interval)
    {
      if |sessions| != 0 {
        StartAudioBroadcast(handle);
      }
    }

    /** A session arrives from the session stream and is registered with no streams. */
    method AcceptSession(s: Session)
      requires Valid()
      modifies this`sessions
      ensures Valid() && sessions == Accept(old(sessions), s)
      ensures running == old(running) && fileOpen == old(fileOpen)
      ensures position == old(position) && interval == old(interval)
    {
      sessions := sessions[s := {}];
    }

    /** The session closed (cleanly or with an error) or failed to become ready. */
    method DropSession(s: Session)
      requires Valid()
      modifies this`sessions
      ensures Valid() && sessions == Drop(old(sessions), s)
      ensures running == old(running) && fileOpen == old(fileOpen)
      ensures position == old(position) && interval == old(interval)
    {
      sessions := sessions - {s};
    }

    /** A bidirectional stream was created for the ready session `s`. */
    method StreamCreated(s: Session, st: Stream)
      requires Valid()
      modifies this`sessions
      ensures Valid() && sessions == AddStream(old(sessions), s, st)
      ensures running == old(running) && fileOpen == old(fileOpen)
      ensures position == old(position) && interval == old(interval)
    {
      if s in sessions {
        sessions := sessions[s := sessions[s] + {st}];
      }
    }

    /** The stream's reader or writer closed with an error. */
    method StreamClosed(s: Session, st: Stream)
      requires Valid()
      modifies this`sessions
      ensures Valid() && sessions == RemoveStream(old(sessions), s, st)
      ensures running == old(running) && fileOpen == old(fileOpen)
      ensures position == old(position) && interval == old(interval)
    {
      if s in sessions {
        sessions := sessions[s := sessions[s] - {st}];
      }
    }

    /** Delete the collected failed streams from the live set of a registered session. */
    method RemoveStreams(session: Session, streamsToRemove: seq<Stream>)
      requires session in sessions
      modifies this`sessions
      ensures sessions == old(sessions)[session := old(sessions)[session] - (set st | st in streamsToRemove)]
    {
      ghost var before := sessions;
      var i := 0;
      while i < |streamsToRemove|
        invariant 0 <= i <= |streamsToRemove|
        invariant session in sessions && sessions == before[session := sessions[session]]
        invariant forall st :: st in sessions[session] <==> st in before[session] && st !in streamsToRemove[..i]
      {
        sessions := sessions[session := sessions[session] - {streamsToRemove[i]}];
        i := i + 1;
      }
      assert streamsToRemove[..i] == streamsToRemove;
      assert sessions[session] == before[session] - (set st | st in streamsToRemove);
    }

    /** Delete the sessions marked as closed from the live map. */
    method RemoveSessions(sessionsToRemove: seq<Session>)
      modifies this`sessions
      ensures sessions == old(sessions) - (set s | s in sessionsToRemove)
    {
      ghost var before := sessions;
      var j := 0;
      while j < |sessionsToRemove|
        invariant 0 <= j <= |sessionsToRemove|
        invariant forall s :: s in sessions <==> s in before && s !in sessionsToRemove[..j]
        invariant forall s :: s in sessions ==> sessions[s] == before[s]
      {
        sessions := sessions - {sessionsToRemove[j]};
        j := j + 1;
      }
      assert sessionsToRemove[..j] == sessionsToRemove;
    }

    /**
     * The body of the walk for a session not observed closed: write the
     * packet to each of its streams, then delete the streams whose write failed.
     */
    method ServeSession(session: Session, chunk: seq<byte>, timestamp: int, failing: set<Stream>)
      returns (ghost writes: seq<Write>)
      requires session in sessions
      modifies this`sessions
      ensures sessions == old(sessions)[session := old(sessions)[session]
        - FailedStreams(old(sessions)[session], failing, CreateSyncPacket(chunk, timestamp).Ok?)]
      ensures SamePacket(writes, CreateSyncPacket(chunk, timestamp), failing) && Once(writes)
      ensures Written(writes)
           == if CreateSyncPacket(chunk, timestamp).Ok? then set st | st in old(sessions)[session] :: (session, st) else {}
    {
      var streams := sessions[session];
      var streamsToRemove;
      streamsToRemove, writes := WriteStreams(session, streams, chunk, timestamp, failing);
      RemoveStreams(session, streamsToRemove);
      RemovedAreFailed(streams, streamsToRemove, failing, CreateSyncPacket(chunk, timestamp).Ok?);
    }

    /**
     * The walk of broadcastChunk over the live map: mark the sessions
     * observed closed, and for each other session write the packet to its
     * streams and then delete the ones whose write failed.
     */
    method WalkSessions(chunk: seq<byte>, timestamp: int, closed: set<Session>, failing: set<Stream>)
      returns (sessionsToRemove: seq<Session>, ghost log: seq<Write>)
      modifies this`sessions
      ensures sessions.Keys == old(sessions).Keys
      ensures forall s :: s in sessions ==>
        sessions[s] == if s in closed then old(sessions)[s]
                       else old(sessions)[s] - FailedStreams(old(sessions)[s], failing, CreateSyncPacket(chunk, timestamp).Ok?)
      ensures forall s :: s in sessionsToRemove <==> s in old(sessions) && s in closed
      ensures Delivered(log, old(sessions), closed, failing, chunk, timestamp)
    {
      ghost var start := sessions;
      ghost var expected := CreateSyncPacket(chunk, timestamp);
      ghost var ok := expected.Ok?;
      sessionsToRemove := [];
      var pending := sessions.Keys;
      log := [];
      while pending != {}
        invariant WalkedSoFar(sessions, start, pending, closed, failing, ok)
        invariant forall s :: s in sessionsToRemove <==> s in start && s !in pending && s in closed
        invariant Covers(log, start - pending, closed, failing, expected)
        decreases pending
      {
        var session :| session in pending;
        WalkedStep(sessions, start, pending, closed, failing, ok, session);
        if session in closed {
          sessionsToRemove := sessionsToRemove + [session];
          CoversStep(log, [], start, pending, session, closed, failing, expected);
          assert log + [] == log;
        } else {
          ghost var writes := ServeSession(session, chunk, timestamp, failing);
          CoversStep(log, writes, start, pending, session, closed, failing, expected);
          log := log + writes;
        }
        pending := pending - {session};
      }
      assert start - pending == start;
    }

    /**
     * broadcastChunk: walk the sessions, then delete the sessions marked
     * as closed. Failed writes never delete a session.
     */
    method BroadcastChunk(chunk: seq<byte>, timestamp: int, closed: set<Session>, failing: set<Stream>)
      returns (ghost log: seq<Write>)
      requires Valid()
      modifies this`sessions
      ensures Valid()
      ensures sessions == FanOut(old(sessions), closed, failing, CreateSyncPacket(chunk, timestamp).Ok?)
      ensures Delivered(log, old(sessions), closed, failing, chunk, timestamp)
      ensures running == old(running) && fileOpen == old(fileOpen)
      ensures position == old(position) && interval == old(interval)
    {
      var sessionsToRemove;
      sessionsToRemove, log := WalkSessions(chunk, timestamp, closed, failing);
      RemoveSessions(sessionsToRemove);
    }

    /**
     * One interval tick. A no-op unless the server is running with the file
     * open; a read error changes nothing; an empty read wraps the offset to 0;
     * otherwise the offset advances by the bytes read and they are broadcast.
     */
    method Tick(readFails: bool, now: int, closed: set<Session>, failing: set<Stream>)
      returns (ghost log: seq<Write>)
      requires Valid()
      modifies this
      ensures Valid()
      ensures running == old(running) && fileOpen == old(fileOpen) && interval == old(interval)
      ensures !running || !fileOpen || readFails ==>
        position == old(position) && sessions == old(sessions) && log == []
      ensures running && fileOpen && !readFails && Read(audio, old(position), ChunkSize) == [] ==>
        position == 0 && sessions == old(sessions) && log == []
      ensures running && fileOpen && !readFails && Read(audio, old(position), ChunkSize) != [] ==>
        var chunk := Read(audio, old(position), ChunkSize);
        && position == old(position) + |chunk|
        && sessions == FanOut(old(sessions), closed, failing, CreateSyncPacket(chunk, now).Ok?)
        && Delivered(log, old(sessions), closed, failing, chunk, now)
    {
      log := [];
      if !running || !fileOpen {
        return;
      }
      if readFails {
        return;
      }
      var chunk := Read(audio, position, ChunkSize);
      if |chunk| == 0 {
        position := 0;
        return;
      }
      position := position + |chunk|;
      log := BroadcastChunk(chunk, now, closed, failing);
    }

    /** stopBroadcast: clear the running flag and the interval timer. */
    method StopBroadcast()
      requires Valid()
      modifies this
      ensures Valid() && !running && interval == None
      ensures sessions == old(sessions) && position == old(position) && fileOpen == old(fileOpen)
    {
      running := false;
      if interval.Some? {
        interval := None;
      }
    }
  }

  /**
   * The start-up sequence: module state, server started and file opened,
   * then the one check for registered sessions, which runs before any
   * session has been accepted, so the ticker is never started.
   */
  method Startup(audio: seq<byte>, handle: TimerId) returns (server: Server)
    ensures fresh(server) && server.Valid() && server.audio == audio
    ensures server.running && server.fileOpen && server.sessions == map[]
    ensures server.interval == None
  {
    server := new Server(audio);
    server.Open();
    server.StartIfSessions(handle);
  }

  /** Stopping twice leaves the same state as stopping once. */
  method StopTwice(server: Server)
    requires server.Valid()
    modifies server
    ensures server.Valid() && !server.running && server.interval == None
    ensures server.sessions == old(server.sessions) && server.position == old(server.position)
    ensures server.fileOpen == old(server.fileOpen)
  {
    server.StopBroadcast();
    server.StopBroadcast();
  }
}
