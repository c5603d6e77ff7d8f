/** Reading the beginning of a request body for the log without taking it from the
    application: `RequestLoggingMiddleware.__call__` (backend/app/main.py). */
module BodyPreview {

  const MAX_BODY_LOG_BYTES := 16 * 1024

  datatype Message = Disconnect | Chunk(body: seq<bv8>, more: bool)

  /** The messages of one connection, in the order the server delivers them. */
  type Stream = nat -> Message

  function Body(m: Message): seq<bv8> {
    if m.Chunk? then m.body else []
  }

  /** The body bytes of the first `n` messages. */
  function Bytes(stream: Stream, n: nat): seq<bv8> {
    if n == 0 then [] else Bytes(stream, n - 1) + Body(stream(n - 1))
  }

  predicate Last(m: Message) {
    m.Chunk? && !m.more
  }

  /** The first `n` messages leave the body open. */
  predicate Open(stream: Stream, n: nat) {
    forall k: nat :: k < n ==> stream(k).Chunk? && stream(k).more
  }

  /** The body is complete with message `n`, and nobody disconnected before. */
  predicate EndsAt(stream: Stream, n: nat) {
    Last(stream(n)) && Open(stream, n)
  }

  /** Reading would not have stopped before message `n`. */
  predicate ReadsOn(stream: Stream, n: nat) {
    |Bytes(stream, n)| <= MAX_BODY_LOG_BYTES && Open(stream, n)
  }

  lemma {:induction false} BytesGrow(stream: Stream, m: nat, n: nat)
    requires m <= n
    ensures Bytes(stream, m) <= Bytes(stream, n)
    decreases n
  {
    if m < n {
      BytesGrow(stream, m, n - 1);
    }
  }

  function Prefix(s: seq<bv8>, n: nat): seq<bv8> {
    if n <= |s| then s[..n] else s
  }

  /** What is known after reading `n` messages: the preview is the beginning of the
      body, and nothing before the last message would have stopped the reading. */
  predicate Reading(stream: Stream, n: nat, preview: seq<bv8>, complete: bool) {
    && preview == Prefix(Bytes(stream, n), MAX_BODY_LOG_BYTES + 1)
    && (n > 0 ==> ReadsOn(stream, n - 1) && stream(n - 1).Chunk?)
    && (complete <==> n > 0 && Last(stream(n - 1)))
  }

  /** While the loop runs, nothing read so far would have stopped it. */
  lemma StillOpen(stream: Stream, n: nat, preview: seq<bv8>)
    requires Reading(stream, n, preview, false) && |preview| <= MAX_BODY_LOG_BYTES
    ensures ReadsOn(stream, n) && preview == Bytes(stream, n)
  {
  }

  lemma PrefixAppend(s: seq<bv8>, t: seq<bv8>, limit: nat)
    requires |s| <= limit
    ensures Prefix(s + t, limit + 1) == s + Prefix(t, limit + 1 - |s|)
  {
  }

  lemma ReadOne(stream: Stream, n: nat, preview: seq<bv8>)
    requires Reading(stream, n, preview, false) && |preview| <= MAX_BODY_LOG_BYTES && stream(n).Chunk?
    ensures Reading(stream, n + 1, preview + Prefix(stream(n).body, MAX_BODY_LOG_BYTES + 1 - |preview|), !stream(n).more)
    ensures stream(n).body == [] ==> Reading(stream, n + 1, preview, !stream(n).more)
  {
    StillOpen(stream, n, preview);
    PrefixAppend(preview, stream(n).body, MAX_BODY_LOG_BYTES);
    assert stream(n).body == [] ==> preview + Prefix(stream(n).body, MAX_BODY_LOG_BYTES + 1 - |preview|) == preview;
  }

  /** Reading that stopped without a disconnect did not skip one, and agrees with the
      whole body on whether it fits. */
  lemma Stopped(stream: Stream, n: nat, preview: seq<bv8>, complete: bool)
    requires n > 0 && Reading(stream, n, preview, complete) && (complete || |preview| > MAX_BODY_LOG_BYTES)
    ensures !Abandoned(stream)
    ensures forall m: nat :: EndsAt(stream, m) ==>
              (|preview| > MAX_BODY_LOG_BYTES <==> |Bytes(stream, m + 1)| > MAX_BODY_LOG_BYTES)
              && (|preview| <= MAX_BODY_LOG_BYTES ==> preview == Bytes(stream, m + 1))
  {
    forall m: nat | AbandonedAt(stream, m)
      ensures false
    {
      if m >= n {
        BytesGrow(stream, n, m);
      }
    }
    forall m: nat | EndsAt(stream, m)
      ensures (|preview| > MAX_BODY_LOG_BYTES <==> |Bytes(stream, m + 1)| > MAX_BODY_LOG_BYTES)
              && (|preview| <= MAX_BODY_LOG_BYTES ==> preview == Bytes(stream, m + 1))
    {
      EndAgrees(stream, n, preview, complete, m);
    }
  }

  lemma EndAgrees(stream: Stream, n: nat, preview: seq<bv8>, complete: bool, m: nat)
    requires n > 0 && Reading(stream, n, preview, complete) && (complete || |preview| > MAX_BODY_LOG_BYTES)
    requires EndsAt(stream, m)
    ensures |preview| > MAX_BODY_LOG_BYTES <==> |Bytes(stream, m + 1)| > MAX_BODY_LOG_BYTES
    ensures |preview| <= MAX_BODY_LOG_BYTES ==> preview == Bytes(stream, m + 1)
  {
    assert m >= n - 1;
    BytesGrow(stream, n, m + 1);
    if complete {
      assert m == n - 1;
    }
  }

  /** The client disconnects while the body is still open and short. */
  ghost predicate Abandoned(stream: Stream) {
    exists n: nat :: AbandonedAt(stream, n)
  }

  predicate AbandonedAt(stream: Stream, n: nat) {
    stream(n).Disconnect? && ReadsOn(stream, n)
  }

  /** The first messages, in order. */
  predicate Copies(stream: Stream, q: seq<Message>) {
    forall k :: 0 <= k < |q| ==> q[k] == stream(k)
  }

  lemma CopyOne(stream: Stream, q: seq<Message>)
    requires Copies(stream, q)
    ensures Copies(stream, q + [stream(|q|)])
  {
  }

  lemma OpenBeforeLast(stream: Stream, n: nat, last: nat)
    requires Open(stream, n) && (stream(last).Disconnect? || Last(stream(last)))
    ensures n <= last
  {
  }

  class Request {
    const stream: Stream
    var consumed: nat
    var buffered: seq<Message>
    var index: nat

    constructor (stream: Stream)
      ensures Valid() && Delivered() == 0 && this.stream == stream && buffered == [] && consumed == 0
    {
      this.stream := stream;
      consumed, buffered, index := 0, [], 0;
    }

    /** What was read ahead is buffered in order, and is handed out first. */
    ghost predicate Valid()
      reads this
    {
      && index <= |buffered| <= consumed && (index < |buffered| ==> consumed == |buffered|)
      && Copies(stream, buffered)
    }

    /** How many messages the application has received. */
    ghost function Delivered(): nat
      reads this
    {
      if index < |buffered| then index else consumed
    }

    /** Reads ahead until the body is complete or longer than the limit. The preview
        is the beginning of the body, at most one byte longer than the limit; it is
        marked as truncated exactly when the whole body does not fit, and otherwise
        it is the whole body. Reading stops early exactly when the client disconnects
        before that; `last` is some message at which the body ends or the client has
        gone. */
    method Preview(ghost last: nat) returns (early: bool, preview: seq<bv8>, truncated: bool)
      requires Valid() && consumed == 0 && buffered == []
      requires stream(last).Disconnect? || Last(stream(last))
      modifies this
      ensures early <==> Abandoned(stream)
      ensures !early ==> Valid() && Delivered() == 0 && consumed == |buffered| > 0
      ensures !early ==> preview == Prefix(Bytes(stream, consumed), MAX_BODY_LOG_BYTES + 1)
      ensures !early ==> forall n: nat :: EndsAt(stream, n) ==>
                (truncated <==> |Bytes(stream, n + 1)| > MAX_BODY_LOG_BYTES)
                && (!truncated ==> preview == Bytes(stream, n + 1))
      ensures !early ==> (truncated <==> |preview| > MAX_BODY_LOG_BYTES)
    {
      var complete := false;
      early, preview, truncated := false, [], false;
      while !complete && |preview| <= MAX_BODY_LOG_BYTES
        invariant index == 0 && consumed == |buffered| && (complete || |preview| > 0 ==> consumed > 0)
        invariant Copies(stream, buffered)
        invariant Reading(stream, consumed, preview, complete)
        decreases last + 1 - consumed, !complete
      {
        StillOpen(stream, consumed, preview);
        OpenBeforeLast(stream, consumed, last);
        var message := stream(consumed);
        if message.Disconnect? {
          assert AbandonedAt(stream, consumed);
          consumed := consumed + 1;
          early := true;
          return;
        }
        ReadOne(stream, consumed, preview);
        CopyOne(stream, buffered);
        if message.body != [] {
          var remaining := MAX_BODY_LOG_BYTES + 1 - |preview|;
          preview := preview + Prefix(message.body, remaining);
        }
        complete := !message.more;
        assert Reading(stream, consumed + 1, preview, complete);
        consumed := consumed + 1;
        buffered := buffered + [message];
      }
      truncated := |preview| > MAX_BODY_LOG_BYTES || !complete;
      Stopped(stream, consumed, preview, complete);
    }

    /** The application's receive: its next message is always the next one of the
        original stream, buffered or not. */
    method Receive() returns (message: Message)
      requires Valid()
      modifies this
      ensures Valid() && Delivered() == old(Delivered()) + 1
      ensures message == stream(old(Delivered()))
    {
      if index < |buffered| {
        message := buffered[index];
        index := index + 1;
      } else {
        message := stream(consumed);
        consumed := consumed + 1;
      }
    }
  }
}
