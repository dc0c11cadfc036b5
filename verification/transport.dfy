/** The delivery state machine of the client: the connection flag, the
    bounded backlog of frames kept while the daemon is unreachable, and the
    frames the daemon has received. The socket and the filesystem are an
    oracle: each attempt is told whether the endpoint exists, whether a
    socket opens, whether connect succeeds and whether the write succeeds. */
module Transport {
  import opened Wire

  /** MAX_BUFFER_LENGTH: capacity of the backlog, in frames. */
  const MAX_BUFFER_LENGTH: nat := 1024

  /** What the operating system answers to one delivery attempt. The
      daemon's endpoint is the path LOG_SOCKET, "/tmp/log_sock"; only whether
      it exists is modelled (fileExists). */
  datatype Outcomes = Outcomes(endpointExists: bool, socketOpens: bool, connects: bool, sendSucceeds: bool)
  {
    /** trySetupConnection reaches `ready = true` only along this path. */
    predicate Connects()
    {
      endpointExists && socketOpens && connects
    }
  }

  /** `ready`, the backlog `buffer` (front first), and the frames the daemon
      has received, in order. */
  datatype Link = Link(ready: bool, backlog: seq<Bytes>, wire: seq<Bytes>)

  /** sendMessage: reconnect if not ready; if ready, write, and on failure
      drop the frame and mark the link down; if still not ready, append the
      frame to the backlog when it has room, drop it otherwise. */
  function Deliver(l: Link, frame: Bytes, env: Outcomes): (r: Link)
    // nothing already queued is removed or reordered; at most the new frame joins, at the back
    ensures l.backlog <= r.backlog && |r.backlog| <= |l.backlog| + 1
    ensures |r.backlog| == |l.backlog| + 1 ==> r.backlog[|l.backlog|] == frame
    ensures |l.backlog| <= MAX_BUFFER_LENGTH ==> |r.backlog| <= MAX_BUFFER_LENGTH
    // the frame goes to the daemon, or to the backlog, or nowhere, never twice
    ensures r.wire == l.wire || r.wire == l.wire + [frame]
    ensures r.wire == l.wire + [frame] ==> r.backlog == l.backlog && r.ready
    ensures |r.backlog| > |l.backlog| <==> !l.ready && !env.Connects() && |l.backlog| < MAX_BUFFER_LENGTH
    // a link that is up after the reconnect attempt writes; a failed write is not re-queued
    ensures (l.ready || env.Connects()) ==>
              r == if env.sendSucceeds then Link(true, l.backlog, l.wire + [frame]) else Link(false, l.backlog, l.wire)
    ensures !(l.ready || env.Connects()) ==> !r.ready && r.wire == l.wire
  {
    var ready := l.ready || env.Connects();
    if ready then
      if env.sendSucceeds then Link(true, l.backlog, l.wire + [frame])
      else Link(false, l.backlog, l.wire)
    else if |l.backlog| < MAX_BUFFER_LENGTH then Link(false, l.backlog + [frame], l.wire)
    else Link(false, l.backlog, l.wire)
  }

  /** One sendMessage per frame, each facing the same endpoint conditions. */
  function DeliverAll(l: Link, frames: seq<Bytes>, env: Outcomes): Link
    decreases |frames|
  {
    if frames == [] then l else DeliverAll(Deliver(l, frames[0], env), frames[1..], env)
  }

  function Min(a: nat, b: nat): nat
  {
    if a <= b then a else b
  }

  /** While the daemon stays unreachable, frames fill the backlog in call
      order until it holds MAX_BUFFER_LENGTH of them; every later frame is
      dropped and the earlier ones are kept. */
  lemma {:induction false} BacklogFillsInOrder(l: Link, frames: seq<Bytes>, env: Outcomes)
    requires !l.ready && !env.Connects() && |l.backlog| <= MAX_BUFFER_LENGTH
    ensures DeliverAll(l, frames, env)
         == Link(false, l.backlog + frames[..Min(|frames|, MAX_BUFFER_LENGTH - |l.backlog|)], l.wire)
    decreases |frames|
  {
    if frames != [] {
      var next := Deliver(l, frames[0], env);
      BacklogFillsInOrder(next, frames[1..], env);
      if |l.backlog| < MAX_BUFFER_LENGTH {
        var k := Min(|frames|, MAX_BUFFER_LENGTH - |l.backlog|);
        assert frames[1..][..k - 1] == frames[1..k];
        assert l.backlog + [frames[0]] + frames[1..k] == l.backlog + frames[..k];
      }
    }
  }

  /** One turn of flushBuffer's loop: sendMessage(buffer.front()), then
      buffer.pop(). */
  function FlushStep(l: Link, env: Outcomes): (r: Link)
    requires l.backlog != []
    ensures |r.backlog| <= |l.backlog|
    ensures |l.backlog| <= MAX_BUFFER_LENGTH ==> |r.backlog| <= MAX_BUFFER_LENGTH
    // a write that fails during the flush loses the front frame
    ensures l.ready && !env.sendSucceeds ==> r == Link(false, l.backlog[1..], l.wire)
    // with the link still down the front frame is put back at the end, unless the backlog was full
    ensures !l.ready && !env.Connects() && |l.backlog| < MAX_BUFFER_LENGTH ==>
              r == Link(false, l.backlog[1..] + [l.backlog[0]], l.wire)
    // with the link down and the backlog full the front frame is not re-appended, so pop loses it
    ensures !l.ready && !env.Connects() && |l.backlog| >= MAX_BUFFER_LENGTH ==>
              r == Link(false, l.backlog[1..], l.wire)
  {
    var sent := Deliver(l, l.backlog[0], env);
    Link(sent.ready, sent.backlog[1..], sent.wire)
  }

  /** The `while (!buffer.empty())` loop, one oracle answer per turn; when
      the answers run out the model stops where the source would go on. */
  function FlushLoop(l: Link, envs: seq<Outcomes>): (r: Link)
    ensures |r.backlog| <= |l.backlog|
    ensures |l.backlog| <= MAX_BUFFER_LENGTH ==> |r.backlog| <= MAX_BUFFER_LENGTH
    decreases |envs|
  {
    if l.backlog == [] || envs == [] then l else FlushLoop(FlushStep(l, envs[0]), envs[1..])
  }

  /** flushBuffer: returns at once unless ready with something queued. */
  function Flush(l: Link, envs: seq<Outcomes>): (r: Link)
    ensures !l.ready || l.backlog == [] ==> r == l
    ensures |r.backlog| <= |l.backlog|
  {
    if !l.ready || l.backlog == [] then l else FlushLoop(l, envs)
  }

  /** With every write succeeding, the loop hands the whole backlog to the
      daemon in FIFO order and empties it. */
  lemma {:induction false} FlushDeliversInOrder(l: Link, envs: seq<Outcomes>)
    requires l.ready && |l.backlog| <= |envs|
    requires forall i :: 0 <= i < |envs| ==> envs[i].sendSucceeds
    ensures FlushLoop(l, envs) == Link(true, [], l.wire + l.backlog)
    decreases |envs|
  {
    if l.backlog != [] {
      var next := FlushStep(l, envs[0]);
      assert next == Link(true, l.backlog[1..], l.wire + [l.backlog[0]]);
      FlushDeliversInOrder(next, envs[1..]);
      assert l.wire + [l.backlog[0]] + l.backlog[1..] == l.wire + l.backlog;
    }
  }

  /** Once the link is down and the daemon stays unreachable, the loop never
      empties the backlog: it keeps rotating frames from front to back, so
      `while (!buffer.empty())` does not terminate. */
  lemma {:induction false} FlushCannotDrainOffline(l: Link, envs: seq<Outcomes>)
    requires !l.ready && l.backlog != [] && |l.backlog| <= MAX_BUFFER_LENGTH
    requires forall i :: 0 <= i < |envs| ==> !envs[i].Connects()
    ensures FlushLoop(l, envs).backlog != []
    ensures FlushLoop(l, envs).wire == l.wire
    decreases |envs|
  {
    if envs != [] {
      var next := FlushStep(l, envs[0]);
      assert |next.backlog| >= |l.backlog| - 1 && |next.backlog| >= 1 by {
        if |l.backlog| < MAX_BUFFER_LENGTH {
          assert |next.backlog| == |l.backlog|;
        }
      }
      FlushCannotDrainOffline(next, envs[1..]);
    }
  }
}
