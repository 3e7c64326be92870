/** The server's CONNECT-request queue: the listener validates each read of
    the server pipe and appends accepted requests; a session worker takes the
    oldest one and shifts the rest down (server.c). The semaphore and the
    mutex around the queue are not modelled. */
module ConnectQueue {
  import opened Bytes
  import opened Protocol

  /** Number of slots of connectbuf. */
  const QUEUE_SLOTS: nat := 512

  /** One read of the server pipe into the zeroed 81-byte temp_buf: the bytes
      delivered (none when the call returned 0), or a failure, interrupted by
      a signal (EINTR) or not. */
  datatype ListenerRead = Got(bytes: seq<byte>) | Failed(interrupted: bool)

  /** What the listener does with one read. */
  datatype ListenerAction = Enqueue(frame: seq<byte>) | Ignore | StopListening

  /** A read the pipe can deliver into the listener's buffer. */
  predicate Fits(r: ListenerRead)
  {
    r.Got? ==> |r.bytes| <= CONNECT_REQUEST_SIZE
  }

  /** The listener's decision: an interrupted read or an empty one goes round
      the loop again, any other failure ends the listener, and a read is
      queued when its first byte is the CONNECT opcode and it delivered
      exactly 81 bytes. Anything else is dropped. */
  function ListenerDecision(r: ListenerRead): ListenerAction
    requires Fits(r)
  {
    match r
    case Failed(interrupted) => if interrupted then Ignore else StopListening
    case Got(bytes) =>
      if |bytes| == 0 then Ignore
      else if bytes[0] == OP_CODE_CONNECT && |bytes| == CONNECT_REQUEST_SIZE then Enqueue(bytes)
      else Ignore
  }

  /** A read is queued exactly when it is a full-size CONNECT request, and
      then what is queued is the request itself. */
  lemma ListenerAcceptsExactly(r: ListenerRead)
    requires Fits(r)
    ensures ListenerDecision(r).Enqueue? <==>
      r.Got? && |r.bytes| == CONNECT_REQUEST_SIZE && r.bytes[0] == OP_CODE_CONNECT
    ensures ListenerDecision(r).Enqueue? ==> ListenerDecision(r).frame == r.bytes
    ensures ListenerDecision(r) == StopListening <==> r == Failed(false)
  {
  }

  /** An 81-byte request that starts with the CONNECT opcode. */
  predicate IsConnectRequest(frame: seq<byte>)
  {
    |frame| == CONNECT_REQUEST_SIZE && frame[0] == OP_CODE_CONNECT
  }

  /** The requests the listener queues from a run of reads, up to the first
      read that stops it. */
  function Accepted(rs: seq<ListenerRead>): (q: seq<seq<byte>>)
    requires forall i :: 0 <= i < |rs| ==> Fits(rs[i])
    ensures |q| <= |rs|
  {
    if rs == [] then []
    else match ListenerDecision(rs[0])
      case StopListening => []
      case Ignore => Accepted(rs[1..])
      case Enqueue(frame) => [frame] + Accepted(rs[1..])
  }

  /** Every request the listener queues is a full 81-byte CONNECT request. */
  lemma {:induction false} AcceptedAreRequests(rs: seq<ListenerRead>)
    requires forall i :: 0 <= i < |rs| ==> Fits(rs[i])
    ensures forall i :: 0 <= i < |Accepted(rs)| ==>
      |Accepted(rs)[i]| == CONNECT_REQUEST_SIZE && Accepted(rs)[i][0] == OP_CODE_CONNECT
  {
    if rs != [] {
      AcceptedAreRequests(rs[1..]);
    }
  }

  /** The bytes of the request path (1..40) and of the notification path
      (41..80) the worker copies out of a dequeued request. */
  function RequestPathField(request: seq<byte>): (f: seq<byte>)
    requires |request| == CONNECT_REQUEST_SIZE
    ensures |f| == MAX_PIPE_PATH_LENGTH
    ensures forall i :: 0 <= i < MAX_PIPE_PATH_LENGTH ==> f[i] == request[1 + i]
  {
    request[1..1 + MAX_PIPE_PATH_LENGTH]
  }

  function NotifPathField(request: seq<byte>): (f: seq<byte>)
    requires |request| == CONNECT_REQUEST_SIZE
    ensures |f| == MAX_PIPE_PATH_LENGTH
    ensures forall i :: 0 <= i < MAX_PIPE_PATH_LENGTH ==> f[i] == request[1 + MAX_PIPE_PATH_LENGTH + i]
  {
    request[1 + MAX_PIPE_PATH_LENGTH..CONNECT_REQUEST_SIZE]
  }

  /** The request bytes are the opcode followed by the two path fields. */
  lemma RequestSplits(request: seq<byte>)
    requires |request| == CONNECT_REQUEST_SIZE
    ensures request == [request[0]] + RequestPathField(request) + NotifPathField(request)
  {
  }

  /** The ack a worker writes once both client pipes are open: CONNECT, 0. */
  function ConnectAckFrame(): (f: seq<byte>)
    ensures |f| == 2 && f[0] == OP_CODE_CONNECT && f[1] == 0
  {
    [OP_CODE_CONNECT, 0]
  }

  /** connectbuf and users_queue_count. */
  class RequestQueue {
    var slots: array<seq<byte>>
    var count: int

    /** 512 slots, of which the first count hold pending requests, each a
        full-size CONNECT request as the listener queued it. */
    ghost predicate Valid()
      reads this, slots
    {
      slots.Length == QUEUE_SLOTS && 0 <= count <= QUEUE_SLOTS
      && forall k :: 0 <= k < count ==> IsConnectRequest(slots[k])
    }

    /** The pending requests, oldest first. */
    function Contents(): seq<seq<byte>>
      reads this, slots
      requires Valid()
    {
      slots[..count]
    }

    constructor ()
      ensures Valid() && Contents() == [] && fresh(slots)
    {
      slots := new seq<byte>[QUEUE_SLOTS](_ => []);
      count := 0;
    }

    /** One turn of the listener loop after its read: a queued request goes
        into slot users_queue_count and the count grows by one; nothing else
        changes the queue. The code does not check the 512-slot bound; it is
        required here. */
    method OnListenerRead(r: ListenerRead) returns (action: ListenerAction)
      requires Valid() && Fits(r)
      requires ListenerDecision(r).Enqueue? ==> count < QUEUE_SLOTS
      modifies this`count, slots
      ensures Valid() && slots == old(slots)
      ensures action == ListenerDecision(r)
      ensures action.Enqueue? ==> count == old(count) + 1 && slots[old(count)] == action.frame
      ensures Contents() == old(Contents()) + (if action.Enqueue? then [action.frame] else [])
    {
      action := ListenerDecision(r);
      ListenerAcceptsExactly(r);
      if action.Enqueue? {
        slots[count] := action.frame;
        count := count + 1;
      }
    }

    /** The listener loop over a run of reads: it returns at the first read
        that fails other than by EINTR (`stopped`), and in any case has
        appended to the queue exactly the accepted requests, in order. */
    method Listen(rs: seq<ListenerRead>) returns (stopped: bool)
      requires Valid()
      requires forall i :: 0 <= i < |rs| ==> Fits(rs[i])
      requires count + |Accepted(rs)| <= QUEUE_SLOTS
      modifies this`count, slots
      ensures Valid() && slots == old(slots)
      ensures Contents() == old(Contents()) + Accepted(rs)
      ensures stopped <==> Failed(false) in rs
    {
      var i := 0;
      while i < |rs|
        invariant 0 <= i <= |rs| && Valid() && slots == old(slots)
        invariant forall k :: 0 <= k < i ==> rs[k] != Failed(false)
        invariant count + |Accepted(rs[i..])| <= QUEUE_SLOTS
        invariant Contents() + Accepted(rs[i..]) == old(Contents()) + Accepted(rs)
      {
        AcceptedStep(rs, i);
        ghost var before := Contents();
        var action := OnListenerRead(rs[i]);
        if action == StopListening {
          ListenerAcceptsExactly(rs[i]);
          return true;
        }
        ghost var added := if action.Enqueue? then [action.frame] else [];
        AppendAssoc(before, added, Accepted(rs[i + 1..]));
        i := i + 1;
      }
      stopped := false;
    }

    /** A worker takes the oldest request and moves every later one down a
        slot (requires a pending request: the worker waits on the semaphore). */
    method Dequeue() returns (request: seq<byte>)
      requires Valid() && count > 0
      modifies this`count, slots
      ensures Valid() && slots == old(slots)
      ensures request == old(Contents())[0] && IsConnectRequest(request)
      ensures Contents() == old(Contents())[1..]
    {
      request := slots[0];
      var i := 1;
      while i < count
        invariant 1 <= i <= count && count == old(count)
        invariant forall k :: 0 <= k < i - 1 ==> slots[k] == old(slots[k + 1])
        invariant forall k :: i <= k < slots.Length ==> slots[k] == old(slots[k])
      {
        slots[i - 1] := slots[i];
        i := i + 1;
      }
      count := count - 1;
    }
  }

  /** Appending is associative (used to move one read's requests from the
      pending run onto the queue). */
  lemma AppendAssoc(a: seq<seq<byte>>, b: seq<seq<byte>>, c: seq<seq<byte>>)
    ensures (a + b) + c == a + (b + c)
  {
  }

  /** Splitting off one read: the queued requests of the whole run are those
      of its first read followed by those of the rest, unless it stops. */
  lemma AcceptedStep(rs: seq<ListenerRead>, i: nat)
    requires forall k :: 0 <= k < |rs| ==> Fits(rs[k])
    requires i < |rs|
    ensures ListenerDecision(rs[i]) == StopListening ==> Accepted(rs[i..]) == []
    ensures ListenerDecision(rs[i]) != StopListening ==>
      Accepted(rs[i..]) == (if ListenerDecision(rs[i]).Enqueue? then [ListenerDecision(rs[i]).frame] else [])
        + Accepted(rs[i + 1..])
  {
    assert rs[i..][1..] == rs[i + 1..];
  }
}
