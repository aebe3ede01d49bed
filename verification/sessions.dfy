/**
 * The connection registry of plugins/WebSocket.kt: `sessions` maps a player
 * id to the connection that last registered under it. The `/connect` loop
 * decodes each incoming frame to a `Message` and, for a `RegisterWs(id)`,
 * stores the current connection under id; every other message is ignored.
 * `Message` is a sealed class, so its serializer knows all five serial
 * names. A frame that is not a serialised `Message` (malformed, or tagged
 * with an unknown name) makes the converter throw, which ends the loop:
 * later frames on that connection are never handled.
 */
module Sessions {
  import opened Wrappers
  import opened Messages

  /** An opaque handle for one live connection. */
  type Conn = nat

  type Registry = map<string, Conn>

  /**
   * An incoming frame is `None` when its text is not a serialised `Message`
   * (malformed, or under an unknown serial name), and `Some(m)` when it is
   * `m` under `m`'s serial name. It decodes exactly in the second case.
   */
  predicate Decodes(frame: Option<Message>) {
    frame.Some?
  }

  /** The effect of one decoded message, received on connection conn. */
  function HandleFrame(sessions: Registry, conn: Conn, msg: Message): (r: Registry)
    ensures msg.RegisterWs? ==>
      r.Keys == sessions.Keys + {msg.id} && r[msg.id] == conn &&
      forall p | p in sessions && p != msg.id :: r[p] == sessions[p]
    ensures !msg.RegisterWs? ==> r == sessions
  {
    match msg
    case RegisterWs(id) => sessions[id := conn]
    case _ => sessions
  }

  /**
   * The frames of one connection, handled one at a time in arrival order
   * until the first one that does not decode.
   */
  function ProcessFrames(sessions: Registry, conn: Conn, frames: seq<Option<Message>>): (r: Registry)
    ensures forall p | p in r :: r[p] == conn || (p in sessions && r[p] == sessions[p])
    decreases |frames|
  {
    if frames == [] || !Decodes(frames[0]) then sessions
    else ProcessFrames(HandleFrame(sessions, conn, frames[0].value), conn, frames[1..])
  }

  /** The ids that the frames register before the loop ends. */
  function RegisteredIds(frames: seq<Option<Message>>): (ids: set<string>)
    ensures forall id | id in ids :: exists k | 0 <= k < |frames| :: frames[k] == Some(RegisterWs(id))
    decreases |frames|
  {
    if frames == [] || !Decodes(frames[0]) then {}
    else
      var rest := RegisteredIds(frames[1..]);
      assert forall id | id in rest :: exists k | 0 <= k < |frames| :: frames[k] == Some(RegisterWs(id)) by {
        forall id | id in rest
          ensures exists k | 0 <= k < |frames| :: frames[k] == Some(RegisterWs(id))
        {
          var k :| 0 <= k < |frames| - 1 && frames[1..][k] == Some(RegisterWs(id));
          assert frames[k + 1] == frames[1..][k];
        }
      }
      (if frames[0].value.RegisterWs? then {frames[0].value.id} else {}) + rest
  }

  /**
   * Processing frames adds exactly the ids they register and removes none;
   * each registered id maps to this connection, every other entry is kept.
   */
  lemma {:induction false} ProcessFramesEffect(sessions: Registry, conn: Conn, frames: seq<Option<Message>>)
    ensures ProcessFrames(sessions, conn, frames).Keys == sessions.Keys + RegisteredIds(frames)
    ensures forall p | p in RegisteredIds(frames) :: ProcessFrames(sessions, conn, frames)[p] == conn
    ensures forall p | p in sessions && p !in RegisteredIds(frames) ::
      ProcessFrames(sessions, conn, frames)[p] == sessions[p]
    decreases |frames|
  {
    if frames != [] && Decodes(frames[0]) {
      ProcessFramesEffect(HandleFrame(sessions, conn, frames[0].value), conn, frames[1..]);
    }
  }

  /** Entries are never removed: the registered ids only grow. */
  lemma {:induction false} KeysOnlyGrow(sessions: Registry, conn: Conn, frames: seq<Option<Message>>)
    ensures sessions.Keys <= ProcessFrames(sessions, conn, frames).Keys
    decreases |frames|
  {
    if frames != [] && Decodes(frames[0]) {
      KeysOnlyGrow(HandleFrame(sessions, conn, frames[0].value), conn, frames[1..]);
    }
  }

  /** Decoded frames followed by more are handled as the decoded ones first, then the rest, in order. */
  lemma {:induction false} ProcessFramesAppend(sessions: Registry, conn: Conn, frames: seq<Option<Message>>, more: seq<Option<Message>>)
    requires forall k | 0 <= k < |frames| :: Decodes(frames[k])
    ensures ProcessFrames(sessions, conn, frames + more)
      == ProcessFrames(ProcessFrames(sessions, conn, frames), conn, more)
    decreases |frames|
  {
    if frames != [] {
      assert (frames + more)[0] == frames[0];
      assert (frames + more)[1..] == frames[1..] + more;
      ProcessFramesAppend(HandleFrame(sessions, conn, frames[0].value), conn, frames[1..], more);
    } else {
      assert frames + more == more;
    }
  }

  /** A frame that does not decode ends the loop: nothing after it is handled. */
  lemma {:induction false} StopsAtUndecodable(sessions: Registry, conn: Conn, frames: seq<Option<Message>>, frame: Option<Message>, more: seq<Option<Message>>)
    requires !Decodes(frame)
    ensures ProcessFrames(sessions, conn, frames + [frame] + more) == ProcessFrames(sessions, conn, frames)
    decreases |frames|
  {
    if frames == [] {
      assert frames + [frame] + more == [frame] + more;
    } else if Decodes(frames[0]) {
      assert (frames + [frame] + more)[1..] == frames[1..] + [frame] + more;
      StopsAtUndecodable(HandleFrame(sessions, conn, frames[0].value), conn, frames[1..], frame, more);
    }
  }

  /**
   * A malformed frame hides a registration behind it; a decoded message of
   * any other kind is ignored and the registration behind it is made.
   */
  lemma RegistrationAfterUndecodable(sessions: Registry, conn: Conn, id: string, m: Message)
    requires !m.RegisterWs?
    ensures ProcessFrames(sessions, conn, [None, Some(RegisterWs(id))]) == sessions
    ensures ProcessFrames(sessions, conn, [Some(m), Some(RegisterWs(id))]) == sessions[id := conn]
  {
    var frames := [Some(m), Some(RegisterWs(id))];
    assert Decodes(frames[0]) && frames[1..] == [Some(RegisterWs(id))];
    assert ProcessFrames(sessions, conn, frames) == ProcessFrames(sessions, conn, [Some(RegisterWs(id))]);
    assert Decodes(Some(RegisterWs(id))) && [Some(RegisterWs(id))][1..] == [];
    assert ProcessFrames(sessions, conn, [Some(RegisterWs(id))]) == ProcessFrames(sessions[id := conn], conn, []);
  }

  /** A later registration of the same id on another connection replaces the earlier one. */
  lemma LaterRegistrationWins(sessions: Registry, c1: Conn, c2: Conn, id: string)
    ensures HandleFrame(HandleFrame(sessions, c1, RegisterWs(id)), c2, RegisterWs(id))
      == sessions[id := c2]
  {
  }
}
