/** Configuration delivery (main.go, config.go): writing everything, reading up to a limit. */
module Delivery {
  import opened Text
  import opened Hex
  import opened Streams

  datatype WriteError = WriterFailed | NothingWritten

  predicate WriteFailed(w: WriteEvent) {
    w.failed
  }

  /** The writer took nothing and reported no failure. */
  predicate TookNothing(w: WriteEvent) {
    !w.failed && w.taken == 0
  }

  predicate ReadFailure(r: ReadEvent) {
    r.status == Failed
  }

  /** What went through the writer or the reader since it had done `before`. */
  function Since<T>(now: seq<T>, before: seq<T>): seq<T>
    requires |before| <= |now|
  {
    now[|before|..]
  }

  /** Writes all of `data`, however little each write takes; on an error only a prefix has
      been accepted. */
  method WriteAll(w: Sink, data: seq<byte>) returns (err: Option<WriteError>)
    modifies w
    ensures err == None ==> w.accepted == old(w.accepted) + data
    ensures err.Some? ==> exists n :: 0 <= n <= |data| && w.accepted == old(w.accepted) + data[..n]
    ensures err == Some(NothingWritten) ==> w.accepted != old(w.accepted) + data
    ensures old(w.writeLog) <= w.writeLog
    ensures var done := Since(w.writeLog, old(w.writeLog));
            && (err == Some(WriterFailed) <==> exists k :: 0 <= k < |done| && WriteFailed(done[k]))
            && (err == Some(NothingWritten) <==> exists k :: 0 <= k < |done| && TookNothing(done[k]))
            && (forall k :: 0 <= k < |done| - 1 ==> !WriteFailed(done[k]) && !TookNothing(done[k]))
  {
    ghost var done: seq<WriteEvent> := [];
    var rest := data;
    ghost var sent: nat := 0;
    while |rest| > 0
      invariant sent <= |data| && rest == data[sent..]
      invariant w.accepted == old(w.accepted) + data[..sent]
      invariant w.writeLog == old(w.writeLog) + done
      invariant forall k :: 0 <= k < |done| ==> !WriteFailed(done[k]) && !TookNothing(done[k])
      decreases |rest|
    {
      var n, failed := w.Write(rest);
      assert data[..sent] + rest[..n] == data[..sent + n];
      done := done + [WriteEvent(rest, n, failed)];
      assert Since(w.writeLog, old(w.writeLog)) == done && done[|done| - 1] == WriteEvent(rest, n, failed);
      if failed {
        return Some(WriterFailed);
      }
      if n == 0 {
        return Some(NothingWritten);
      }
      sent := sent + n;
      rest := rest[n..];
    }
    return None;
  }

  datatype ReadResult = Whole(data: seq<byte>) | TooLarge(size: nat) | ReadFailed

  /** Reads a stream of at most `limit` bytes, through a reader that stops one byte past
      the limit and a buffer whose free room is never used up. */
  method ReadAllLimited(r: Source, limit: nat) returns (result: ReadResult)
    requires r.Valid()
    modifies r
    ensures r.Valid() && r.position <= old(r.position) + limit + 1
    ensures r.clean ==>
      result == if |old(r.Rest())| <= limit then Whole(old(r.Rest())) else TooLarge(limit + 1)
    ensures !r.clean ==> result.ReadFailed? || (result == TooLarge(limit + 1) && |old(r.Rest())| > limit)
    ensures old(r.readLog) <= r.readLog
    ensures var done := Since(r.readLog, old(r.readLog));
            result.ReadFailed? <==> exists k :: 0 <= k < |done| && ReadFailure(done[k])
  {
    ghost var done: seq<ReadEvent> := [];
    var data: seq<byte> := [];
    var remaining := limit + 1;
    while remaining > 0
      invariant r.Valid() && old(r.position) <= r.position && 0 <= remaining <= limit + 1
      invariant data == r.input[old(r.position)..r.position] && |data| + remaining == limit + 1
      invariant r.position + remaining == old(r.position) + limit + 1
      invariant r.readLog == old(r.readLog) + done
      invariant forall k :: 0 <= k < |done| ==> !ReadFailure(done[k])
    {
      var room: nat :| room >= 1;
      var chunk, status := r.Read(if room < remaining then room else remaining);
      data := data + chunk;
      done := done + [ReadEvent(chunk, status)];
      assert Since(r.readLog, old(r.readLog)) == done && done[|done| - 1] == ReadEvent(chunk, status);
      remaining := remaining - |chunk|;
      if status == AtEnd {
        break;
      }
      if status == Failed {
        return ReadFailed;
      }
    }
    if |data| > limit {
      return TooLarge(|data|);
    }
    return Whole(data);
  }

  /** Sends a configuration and receives it at the other end: if the sender succeeds, the
      receiver gets exactly the bytes sent when they are within the limit and an error
      otherwise; if the sender fails, the receiver gets no more than a prefix. */
  method Deliver(data: seq<byte>, limit: nat) returns (sent: Option<WriteError>, got: ReadResult)
    ensures sent == None ==> got == if |data| <= limit then Whole(data) else TooLarge(limit + 1)
    ensures got.Whole? ==> got.data <= data && |got.data| <= limit
    ensures !got.ReadFailed?
  {
    var w := new Sink();
    sent := WriteAll(w, data);
    var r := new Source(w.accepted, true);
    assert r.Rest() == w.accepted;
    got := ReadAllLimited(r, limit);
  }
}
