/** The copy loop of one bridge direction, run by itself, takes the steps of the bridge's
    state machine (main.go, `io.Copy`). */
module CopyLoop {
  import opened Text
  import opened Hex
  import opened Streams
  import opened Bridge

  lemma {:induction false} RunOneMore(input: seq<byte>, c: Copy, steps: seq<Step>, t: Copy, e: Step)
    requires RunAlone(input, c, steps) == Some(t) && CanStep(input, t, e)
    ensures RunAlone(input, c, steps + [e]) == Some(StepCopy(input, t, e))
    decreases |steps|
  {
    hide CanStep, StepCopy;
    if steps == [] {
      assert (steps + [e])[1..] == [];
    } else {
      assert (steps + [e])[1..] == steps[1..] + [e];
      RunOneMore(input, StepCopy(input, c, steps[0]), steps[1..], t, e);
    }
  }

  lemma {:induction false} RunAloneInv(input: seq<byte>, c: Copy, steps: seq<Step>)
    requires CopyInv(input, c) && RunAlone(input, c, steps).Some?
    ensures CopyInv(input, RunAlone(input, c, steps).value)
    decreases |steps|
  {
    hide CanStep, StepCopy, CopyInv;
    if steps != [] {
      CopyInvStep(input, c, steps[0]);
      RunAloneInv(input, StepCopy(input, c, steps[0]), steps[1..]);
    }
  }

  /** A write that took all it was given and reported no failure. */
  predicate Complete(w: WriteEvent) {
    !w.failed && w.taken == |w.data|
  }

  predicate AllComplete(ws: seq<WriteEvent>) {
    forall w :: w in ws ==> Complete(w)
  }

  predicate GoesOn(r: ReadEvent) {
    r.status == Available
  }

  predicate AllGoOn(rs: seq<ReadEvent>) {
    forall r :: r in rs ==> GoesOn(r)
  }

  /** The steps of the state machine that these reads and writes are: one read, and one
      write of its chunk unless the read returned no bytes. */
  function Steps(rs: seq<ReadEvent>, ws: seq<WriteEvent>): seq<Step>
    decreases |rs|
  {
    if rs == [] then []
    else
      var (n, m) := (|rs| - 1, |ws| - 1);
      var read := Read(|rs[n].chunk|, AsRead(rs[n].status));
      if rs[n].chunk == [] || ws == [] then Steps(rs[..n], ws) + [read]
      else Steps(rs[..n], ws[..m]) + [read, Write(ws[m].taken, ws[m].failed)]
  }

  /** The chunks that were read are what was offered for writing, in order. */
  function Chunks(rs: seq<ReadEvent>): seq<seq<byte>> {
    if rs == [] then []
    else
      var n := |rs| - 1;
      Chunks(rs[..n]) + if rs[n].chunk == [] then [] else [rs[n].chunk]
  }

  function Offered(ws: seq<WriteEvent>): seq<seq<byte>> {
    seq(|ws|, k requires 0 <= k < |ws| => ws[k].data)
  }

  lemma NothingYet()
    ensures Steps([], []) == [] && Chunks([]) == [] && Offered([]) == [] && AllComplete([]) && AllGoOn([])
  {
  }

  /** One more read without bytes. */
  lemma OneMoreRead(rs: seq<ReadEvent>, ws: seq<WriteEvent>, r: ReadEvent)
    requires r.chunk == []
    ensures Steps(rs + [r], ws) == Steps(rs, ws) + [Read(0, AsRead(r.status))]
    ensures Chunks(rs + [r]) == Chunks(rs)
  {
    assert (rs + [r])[..|rs|] == rs;
  }

  /** One more read and the write of its chunk. */
  lemma OneMoreChunk(rs: seq<ReadEvent>, ws: seq<WriteEvent>, r: ReadEvent, w: WriteEvent)
    requires r.chunk != [] && w.data == r.chunk
    ensures Steps(rs + [r], ws + [w])
         == Steps(rs, ws) + [Read(|r.chunk|, AsRead(r.status)), Write(w.taken, w.failed)]
    ensures Chunks(rs) == Offered(ws) ==> Chunks(rs + [r]) == Offered(ws + [w])
  {
    assert (rs + [r])[..|rs|] == rs && (ws + [w])[..|ws|] == ws;
    assert Offered(ws + [w]) == Offered(ws) + [w.data];
  }

  /** What the events of a copy say of its verdict: it stops at the first event that is not
      a complete write or a read that goes on, and that event is the verdict. */
  ghost predicate VerdictOf(rs: seq<ReadEvent>, ws: seq<WriteEvent>, err: Verdict) {
    && rs != [] && AllGoOn(rs[..|rs| - 1])
    && (ws != [] ==> AllComplete(ws[..|ws| - 1]))
    && match err
       case WriteError => ws != [] && ws[|ws| - 1].failed
       case ShortWrite => ws != [] && !ws[|ws| - 1].failed && !Complete(ws[|ws| - 1])
       case ReadError => AllComplete(ws) && rs[|rs| - 1].status == Failed
       case Clean => AllComplete(ws) && rs[|rs| - 1].status == AtEnd
  }

  /** The events of a copy leave one verdict. */
  lemma VerdictUnique(rs: seq<ReadEvent>, ws: seq<WriteEvent>, e1: Verdict, e2: Verdict)
    requires VerdictOf(rs, ws, e1) && VerdictOf(rs, ws, e2)
    ensures e1 == e2
  {
    if ws != [] {
      assert ws[|ws| - 1] in ws;
    }
  }

  lemma Extended(rs: seq<ReadEvent>, r: ReadEvent)
    requires AllGoOn(rs)
    ensures (rs + [r])[..|rs|] == rs && (GoesOn(r) ==> AllGoOn(rs + [r]))
  {
  }

  lemma ExtendedWrites(ws: seq<WriteEvent>, w: WriteEvent)
    requires AllComplete(ws)
    ensures (ws + [w])[..|ws|] == ws && (Complete(w) ==> AllComplete(ws + [w]))
    ensures !Complete(w) ==> !AllComplete(ws + [w])
  {
    assert w in ws + [w];
  }

  /** Reads a chunk, writes it with one write, counts what was accepted even when the write
      fails part-way, and stops at the end of the source or the first failure. */
  method IoCopy(dst: Sink, src: Source) returns (written: nat, err: Verdict)
    requires src.Valid() && src.position == 0 && dst.accepted == []
    requires src.readLog == [] && dst.writeLog == []
    modifies dst, src
    ensures src.Valid()
    ensures VerdictOf(src.readLog, dst.writeLog, err)
    ensures Offered(dst.writeLog) == Chunks(src.readLog)
    ensures RunAlone(src.input, START, Steps(src.readLog, dst.writeLog))
         == Some(Copy(src.position, dst.accepted, written, Copied(err)))
    ensures written == |dst.accepted| && dst.accepted <= src.input[..src.position]
    ensures err == Clean ==> src.clean && dst.accepted == src.input
    ensures src.clean && AllComplete(dst.writeLog) ==> err == Clean
  {
    hide RunAlone, Steps, Chunks, Offered, StepCopy;
    written := 0;
    NothingYet();
    assert RunAlone(src.input, START, []) == Some(START) by { StartsThere(src.input); }
    while true
      invariant src.Valid() && AllGoOn(src.readLog) && AllComplete(dst.writeLog)
      invariant Offered(dst.writeLog) == Chunks(src.readLog)
      invariant RunAlone(src.input, START, Steps(src.readLog, dst.writeLog))
             == Some(Copy(src.position, dst.accepted, written, Reading))
      decreases |src.input| - src.position
    {
      ghost var c := Copy(src.position, dst.accepted, written, Reading);
      ghost var rs, ws := src.readLog, dst.writeLog;
      var chunk, status := src.Read(COPY_BUFFER);
      ghost var r := ReadEvent(chunk, status);
      Extended(rs, r);
      ReadStep(src.input, rs, ws, c, r);
      if |chunk| > 0 {
        var n, failed := dst.Write(chunk);
        written := written + n;
        ghost var w := WriteEvent(chunk, n, failed);
        ExtendedWrites(ws, w);
        ChunkStep(src.input, rs, ws, c, r, w);
        if failed {
          err := WriteError;
          break;
        }
        if n != |chunk| {
          err := ShortWrite;
          break;
        }
      }
      if status != Available {
        err := if status == AtEnd then Clean else ReadError;
        break;
      }
    }
    RunAloneInv(src.input, START, Steps(src.readLog, dst.writeLog));
  }

  /** The state after a copy's read, when it returned no bytes. */
  lemma ReadStep(input: seq<byte>, rs: seq<ReadEvent>, ws: seq<WriteEvent>, c: Copy, r: ReadEvent)
    requires RunAlone(input, START, Steps(rs, ws)) == Some(c) && c.phase.Reading?
    requires CanStep(input, c, Read(|r.chunk|, AsRead(r.status)))
    ensures r.chunk == [] ==>
      && RunAlone(input, START, Steps(rs + [r], ws)) == Some(c.(phase := AfterChunk(AsRead(r.status))))
      && Chunks(rs + [r]) == Chunks(rs)
  {
    hide RunAlone, Steps, Chunks;
    if r.chunk == [] {
      OneMoreRead(rs, ws, r);
      RunOneMore(input, START, Steps(rs, ws), c, Read(0, AsRead(r.status)));
    }
  }

  /** The state after a read and the write of its chunk. */
  lemma ChunkStep(input: seq<byte>, rs: seq<ReadEvent>, ws: seq<WriteEvent>, c: Copy, r: ReadEvent, w: WriteEvent)
    requires RunAlone(input, START, Steps(rs, ws)) == Some(c) && c.phase.Reading?
    requires CanStep(input, c, Read(|r.chunk|, AsRead(r.status)))
    requires r.chunk != [] && w.data == r.chunk == input[c.read..c.read + |r.chunk|] && w.taken <= |w.data|
    ensures RunAlone(input, START, Steps(rs + [r], ws + [w]))
         == Some(Copy(c.read + |r.chunk|, c.delivered + r.chunk[..w.taken], c.count + w.taken,
              if w.failed then Copied(WriteError) else if w.taken < |r.chunk| then Copied(ShortWrite)
              else AfterChunk(AsRead(r.status))))
    ensures Chunks(rs) == Offered(ws) ==> Chunks(rs + [r]) == Offered(ws + [w])
  {
    hide RunAlone, Steps, Chunks, Offered;
    OneMoreChunk(rs, ws, r, w);
    var read, write := Read(|r.chunk|, AsRead(r.status)), Write(w.taken, w.failed);
    var steps := Steps(rs, ws);
    RunOneMore(input, START, steps, c, read);
    RunOneMore(input, START, steps + [read], StepCopy(input, c, read), write);
    assert steps + [read, write] == steps + [read] + [write];
  }

  function AsRead(status: Status): ReadStatus {
    match status
    case Available => More
    case AtEnd => EndOfStream
    case Failed => ReadFailure
  }

  lemma StartsThere(input: seq<byte>)
    ensures RunAlone(input, START, []) == Some(START)
  {
  }
}
