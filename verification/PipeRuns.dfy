/** One pipe from its making on: reads and writes begin at any time and take turns in any
    order, while descriptors of the write end are copied and closed. */
module PipeRuns {
  import opened Words
  import opened Pipes

  /** Bytes moved in one turn, and by whom. */
  datatype Chunk = Chunk(who: nat, bytes: seq<byte>)

  /** A turn of a call under way, a call that begins, or a descriptor of the write end that
      is copied (`dup`, `fork`) or goes (`close`, `exit`). */
  datatype Event =
    | ReaderRuns(i: nat)
    | WriterRuns(j: nat)
    | ReadBegins(length: nat)
    | WriteBegins(data: seq<byte>)
    | WriteEndCopied
    | WriteEndCloses

  datatype Reader = Reader(got: seq<byte>, left: nat, done: bool)

  datatype Writer = Writer(data: seq<byte>, pos: nat, done: bool)

  /** The pipe as a plain queue: the bytes in it, its calls, and open descriptors of the
      write end. */
  datatype Queue = Queue(buffer: seq<byte>, readers: seq<Reader>, writers: seq<Writer>, open: nat)

  predicate Within(q: Queue, e: Event)
  {
    match e
    case WriterRuns(j) => j < |q.writers| ==> q.writers[j].pos <= |q.writers[j].data| && |q.buffer| <= 32
    case _ => true
  }

  /** Everybody who could still write is gone. */
  predicate Ended(q: Queue)
  {
    q.open == 0 && forall j :: 0 <= j < |q.writers| ==> q.writers[j].done
  }

  /** One event on the plain queue. A call that does not exist, or has returned, has no turn;
      only an open descriptor can be written to, copied or closed. */
  function Next(q: Queue, e: Event): Queue
    requires Within(q, e)
  {
    match e
    case ReaderRuns(i) =>
      if i >= |q.readers| || q.readers[i].done then q else
      var r := q.readers[i];
      var n := Min(r.left, |q.buffer|);
      q.(buffer := q.buffer[n..], readers := q.readers[i := Reader(r.got + q.buffer[..n], r.left - n, |q.buffer| > r.left || Ended(q))])
    case WriterRuns(j) =>
      if j >= |q.writers| || q.writers[j].done then q else
      var w := q.writers[j];
      var n := Min(|w.data| - w.pos, 32 - |q.buffer|);
      q.(buffer := q.buffer + w.data[w.pos..w.pos + n], writers := q.writers[j := Writer(w.data, w.pos + n, 32 - |q.buffer| > |w.data| - w.pos)])
    case ReadBegins(length) => q.(readers := q.readers + [Reader([], length, false)])
    case WriteBegins(data) => if q.open > 0 then q.(writers := q.writers + [Writer(data, 0, false)]) else q
    case WriteEndCopied => if q.open > 0 then q.(open := q.open + 1) else q
    case WriteEndCloses => if q.open > 0 then q.(open := q.open - 1) else q
  }

  /** Once everybody who could write is gone, nobody comes back. */
  lemma EndStays(q: Queue, e: Event)
    requires Within(q, e) && Ended(q)
    ensures Ended(Next(q, e)) && Next(q, e).writers == q.writers
    ensures exists n :: 0 <= n <= |q.buffer| && Next(q, e).buffer == q.buffer[n..]
  {
    var n := if e.ReaderRuns? && e.i < |q.readers| && !q.readers[e.i].done then Min(q.readers[e.i].left, |q.buffer|) else 0;
    assert Next(q, e).buffer == q.buffer[n..];
  }

  lemma ReadJoins(q: Queue, length: nat)
    ensures Next(q, ReadBegins(length)) == q.(readers := q.readers + [Reader([], length, false)])
  {
  }

  lemma WriteJoins(q: Queue, data: seq<byte>)
    ensures Next(q, WriteBegins(data)) == if q.open > 0 then q.(writers := q.writers + [Writer(data, 0, false)]) else q
  {
  }

  lemma ReaderRests(q: Queue, i: nat)
    requires i >= |q.readers| || q.readers[i].done
    ensures Next(q, ReaderRuns(i)) == q
  {
  }

  lemma ReaderSteps(q: Queue, i: nat, q': Queue)
    requires i < |q.readers| && i < |q'.readers| && !q.readers[i].done && q'.writers == q.writers && q'.open == q.open
    requires q'.readers == q.readers[i := q'.readers[i]]
    requires var r := q.readers[i]; var n := Min(r.left, |q.buffer|);
      && q'.readers[i].got == r.got + q.buffer[..n] && q'.readers[i].left == r.left - n && q'.buffer == q.buffer[n..]
      && (q'.readers[i].done <==> |q.buffer| > r.left || Ended(q))
    ensures q' == Next(q, ReaderRuns(i))
  {
    hide Ended;
  }

  lemma WriterRests(q: Queue, j: nat)
    requires Within(q, WriterRuns(j)) && (j >= |q.writers| || q.writers[j].done)
    ensures Next(q, WriterRuns(j)) == q
  {
  }

  lemma WriterSteps(q: Queue, j: nat, q': Queue)
    requires Within(q, WriterRuns(j)) && j < |q.writers| && j < |q'.writers| && !q.writers[j].done && q'.readers == q.readers && q'.open == q.open
    requires q'.writers == q.writers[j := q'.writers[j]]
    requires var w := q.writers[j]; var n := Min(|w.data| - w.pos, 32 - |q.buffer|);
      && q'.writers[j].data == w.data && q'.writers[j].pos == w.pos + n && q'.buffer == q.buffer + w.data[w.pos..w.pos + n]
      && (q'.writers[j].done <==> 32 - |q.buffer| > |w.data| - w.pos)
    ensures q' == Next(q, WriterRuns(j))
  {
    hide Ended;
  }

  /** States one after another along a schedule. */
  ghost predicate Schedule(states: seq<Queue>, events: seq<Event>)
  {
    |states| == |events| + 1 && forall k :: 0 <= k < |events| ==> Within(states[k], events[k]) && states[k + 1] == Next(states[k], events[k])
  }

  lemma ScheduleMore(states: seq<Queue>, events: seq<Event>, e: Event)
    requires Schedule(states, events) && Within(states[|events|], e)
    ensures Schedule(states + [Next(states[|events|], e)], events + [e])
  {
    var states', events' := states + [Next(states[|events|], e)], events + [e];
    forall k | 0 <= k < |events'|
      ensures Within(states'[k], events'[k]) && states'[k + 1] == Next(states'[k], events'[k])
    {
      if k < |events| {
        assert states'[k] == states[k] && states'[k + 1] == states[k + 1] && events'[k] == events[k];
      }
    }
  }

  function Flat(chunks: seq<Chunk>): seq<byte>
  {
    if chunks == [] then [] else Flat(chunks[..|chunks| - 1]) + chunks[|chunks| - 1].bytes
  }

  /** One participant's bytes, in order. */
  function Of(chunks: seq<Chunk>, who: nat): seq<byte>
  {
    if chunks == [] then [] else Of(chunks[..|chunks| - 1], who) + if chunks[|chunks| - 1].who == who then chunks[|chunks| - 1].bytes else []
  }

  lemma FlatMore(chunks: seq<Chunk>, c: Chunk)
    ensures Flat(chunks + [c]) == Flat(chunks) + c.bytes
  {
    assert (chunks + [c])[..|chunks|] == chunks;
  }

  lemma OfMore(chunks: seq<Chunk>, c: Chunk, who: nat)
    ensures Of(chunks + [c], who) == Of(chunks, who) + if c.who == who then c.bytes else []
  {
    assert (chunks + [c])[..|chunks|] == chunks;
  }

  lemma Assoc(a: seq<byte>, b: seq<byte>, c: seq<byte>)
    ensures a + (b + c) == (a + b) + c
  {
  }

  ghost predicate Different<T>(s: seq<T>)
  {
    forall i, j :: 0 <= i < j < |s| ==> s[i] != s[j]
  }

  lemma OneMoreDifferent<T>(s: seq<T>, x: T)
    requires Different(s) && forall i :: 0 <= i < |s| ==> s[i] != x
    ensures Different(s + [x])
  {
  }

  /** A pipe with all reads and writes that have begun on it. Every unfinished writer holds a
      reference to the write end, and so do `open` file descriptors. */
  class PipeSystem {
    const ring: PipeRingBuffer
    var readers: seq<ReadCall>
    var writers: seq<WriteCall>
    var lengths: seq<nat>
    var open: nat
    ghost var accepted: seq<Chunk>
    ghost var delivered: seq<Chunk>

    ghost predicate Distinct()
      reads this`readers, this`writers, this`lengths
    {
      Different(readers) && Different(writers) && |lengths| == |readers|
    }

    /** Nothing is lost, repeated or reordered. */
    ghost predicate Conserved()
      requires ring.Valid()
      reads this`accepted, this`delivered, ring`head, ring`tail, ring`status, ring.arr
    {
      Flat(delivered) + ring.Contents() == Flat(accepted)
    }

    ghost predicate ReadersOk()
      requires |lengths| == |readers|
      reads this`delivered, this`readers, this`lengths, readers
    {
      && (forall i :: 0 <= i < |readers| ==> readers[i].got == Of(delivered, i) && |readers[i].got| + readers[i].left == lengths[i])
      && (forall i :: i >= |readers| ==> Of(delivered, i) == [])
    }

    ghost predicate WritersOk()
      reads this`accepted, this`writers, writers`pos, writers`done
    {
      && (forall j :: 0 <= j < |writers| ==>
        writers[j].pos <= |writers[j].data| && writers[j].data[..writers[j].pos] == Of(accepted, j) && (writers[j].done ==> writers[j].pos == |writers[j].data|))
      && (forall j :: j >= |writers| ==> Of(accepted, j) == [])
    }

    /** While a writer is unfinished or a descriptor is open the write end lives. */
    ghost predicate EndsOk()
      reads this`open, this`writers, ring`writeEnds, writers`done
    {
      ring.writeEnds == open + Unfinished(Flags(writers))
    }

    /** Whoever came back short came back when all was delivered and none can follow. */
    ghost predicate ShortReadsOk()
      requires ring.Valid()
      reads this`readers, ring, ring.arr, readers`done, readers`left
    {
      (exists i :: 0 <= i < |readers| && readers[i].done && readers[i].left > 0) ==> ring.writeEnds == 0 && ring.Contents() == []
    }

    /** This system as a plain queue. */
    ghost function Abs(): Queue
      requires ring.Valid()
      reads this`open, this`readers, this`writers, ring`head, ring`tail, ring`status, ring.arr, readers, writers
    {
      Queue(ring.Contents(), ReaderStates(readers), WriterStates(writers), open)
    }

    ghost predicate Valid()
      reads this, ring, ring.arr, readers, writers
    {
      ring.Valid() && Distinct() && Conserved() && ReadersOk() && WritersOk() && EndsOk() && ShortReadsOk()
    }

    /** `make_pipe`: nothing in the ring, and one descriptor of the write end. */
    constructor ()
      ensures Valid() && fresh(ring) && fresh(ring.arr) && Abs() == Queue([], [], [], 1)
      ensures readers == [] && writers == []
    {
      hide PipeRingBuffer.Valid, PipeRingBuffer.Contents, PipeRingBuffer.Length;
      ring := new PipeRingBuffer(1);
      readers, writers, lengths, open := [], [], [], 1;
      accepted, delivered := [], [];
    }

    /** A turn of reader i, with its bytes entered in the log. */
    method ReaderTurn(i: nat)
      requires ring.Valid() && Distinct() && Conserved() && ReadersOk() && i < |readers| && !readers[i].done
      modifies this`delivered, ring`head, ring`status, readers[i]
      ensures ring.Valid() && Conserved() && ReadersOk()
      ensures var r := readers[i]; var buffer := old(ring.Contents()); var n := Min(old(r.left), |buffer|);
        && r.got == old(r.got) + buffer[..n] && r.left == old(r.left) - n && ring.Contents() == buffer[n..]
        && (r.done <==> |buffer| > old(r.left) || ring.writeEnds == 0)
      ensures readers[i].done && readers[i].left > 0 ==> ring.writeEnds == 0 && ring.Contents() == []
      ensures old(ring.Contents()) == [] ==> ring.Contents() == []
    {
      hide Flat, Of, PipeRingBuffer.Valid, PipeRingBuffer.Contents;
      ghost var got, was := readers[i].got, ring.Contents();
      readers[i].Turn(ring);
      ghost var c := Chunk(i, readers[i].got[|got|..]);
      assert readers[i].got == got + c.bytes && was == c.bytes + ring.Contents();
      FlatMore(delivered, c);
      Assoc(Flat(delivered), c.bytes, ring.Contents());
      forall k: nat
        ensures Of(delivered + [c], k) == Of(delivered, k) + if k == i then c.bytes else []
      {
        OfMore(delivered, c, k);
      }
      delivered := delivered + [c];
    }

    method ReaderRuns(i: nat)
      requires Valid()
      modifies this`delivered, ring`head, ring`status, readers
      ensures Valid() && Abs() == Next(old(Abs()), Event.ReaderRuns(i))
    {
      hide Flags, Unfinished, PipeRingBuffer.Valid, PipeRingBuffer.Contents, Conserved, ReadersOk, WritersOk,
        ReaderStates, WriterStates, Ended, Next, Min;
      ghost var q := Abs();
      if i >= |readers| || readers[i].done {
        ReaderRests(q, i);
        return;
      }
      EndedIs();
      ReaderTurn(i);
      assert ReaderStates(readers) == q.readers[i := Reader(readers[i].got, readers[i].left, readers[i].done)];
      ReaderSteps(q, i, Abs());
    }

    /** The write end is gone exactly when every writer has finished and no descriptor is open. */
    lemma EndedIs()
      requires Valid()
      ensures Ended(Abs()) <==> ring.writeEnds == 0
    {
      hide Flags, Unfinished, PipeRingBuffer.Valid, PipeRingBuffer.Contents, ReaderStates, WriterStates, Conserved,
        ReadersOk, WritersOk, ShortReadsOk;
      UnfinishedIs(Flags(writers));
      assert forall j :: 0 <= j < |writers| ==> Abs().writers[j].done == Flags(writers)[j];
    }

    lemma WriterAlive(j: nat)
      requires Valid() && j < |writers| && !writers[j].done
      ensures ring.writeEnds > 0 && Unfinished(Flags(writers)) > 0
      ensures Unfinished(Flags(writers)[j := true]) == Unfinished(Flags(writers)) - 1
      ensures forall i :: 0 <= i < |readers| ==> !(readers[i].done && readers[i].left > 0)
    {
      hide Flags, Unfinished;
      OneFinishes(Flags(writers), j);
    }

    /** A turn of writer j, with its bytes entered in the log. */
    method WriterTurn(j: nat)
      requires ring.Valid() && Distinct() && Conserved() && WritersOk() && j < |writers| && !writers[j].done
      modifies this`accepted, ring`tail, ring`status, ring.arr, writers[j]
      ensures ring.Valid() && Conserved() && WritersOk() && writers[j].pos <= |writers[j].data|
      ensures var w := writers[j]; var buffer := old(ring.Contents()); var n := Min(|w.data| - old(w.pos), 32 - |buffer|);
        && w.pos == old(w.pos) + n && ring.Contents() == buffer + w.data[old(w.pos)..w.pos]
        && (w.done <==> 32 - |buffer| > |w.data| - old(w.pos))
      ensures Flags(writers) == old(Flags(writers))[j := writers[j].done]
    {
      hide Flat, Of, Flags, PipeRingBuffer.Valid, PipeRingBuffer.Contents;
      ghost var flags := Flags(writers);
      ghost var pos, was := writers[j].pos, ring.Contents();
      writers[j].Turn(ring);
      assert writers[j].data[..writers[j].pos] == writers[j].data[..pos] + writers[j].data[pos..writers[j].pos];
      ghost var c := Chunk(j, writers[j].data[pos..writers[j].pos]);
      assert ring.Contents() == was + c.bytes;
      Assoc(Flat(delivered), was, c.bytes);
      FlatMore(accepted, c);
      forall k: nat
        ensures Of(accepted + [c], k) == Of(accepted, k) + if k == j then c.bytes else []
      {
        OfMore(accepted, c, k);
      }
      accepted := accepted + [c];
    }

    /** A writer that returns drops its reference. */
    method WriterMoves(j: nat)
      requires Valid() && j < |writers| && !writers[j].done
      modifies this`accepted, ring`tail, ring`status, ring`writeEnds, ring.arr, writers[j]
      ensures ring.Valid() && old(writers[j].pos) <= writers[j].pos <= |writers[j].data|
      ensures WriterStates(writers) == old(WriterStates(writers))[j := Writer(writers[j].data, writers[j].pos, writers[j].done)]
      ensures var w := writers[j]; var buffer := old(ring.Contents()); var n := Min(|w.data| - old(w.pos), 32 - |buffer|);
        && w.pos == old(w.pos) + n && ring.Contents() == buffer + w.data[old(w.pos)..w.pos]
        && (w.done <==> 32 - |buffer| > |w.data| - old(w.pos))
      ensures Valid()
    {
      hide Flat, Of, Flags, Unfinished, PipeRingBuffer.Valid, PipeRingBuffer.Contents, Conserved, ReadersOk,
        WritersOk, WriterStates, Min;
      WriterBounds(j);
      WriterAlive(j);
      ghost var flags := Flags(writers);
      assert flags[j := false] == flags;
      WriterTurn(j);
      if writers[j].done {
        ring.writeEnds := ring.writeEnds - 1;
      }
    }

    method WriterRuns(j: nat)
      requires Valid()
      modifies this`accepted, ring`tail, ring`status, ring`writeEnds, ring.arr, writers
      ensures Valid() && Within(old(Abs()), Event.WriterRuns(j)) && Abs() == Next(old(Abs()), Event.WriterRuns(j))
    {
      hide PipeRingBuffer.Valid, PipeRingBuffer.Contents, Conserved, ReadersOk, WritersOk, EndsOk, ShortReadsOk,
        ReaderStates, WriterStates, Next, Min;
      ghost var q := Abs();
      if j < |writers| {
        WriterBounds(j);
      }
      if j >= |writers| || writers[j].done {
        WriterRests(q, j);
        return;
      }
      WriterMoves(j);
      WriterSteps(q, j, Abs());
    }

    lemma WriterBounds(j: nat)
      requires Valid() && j < |writers|
      ensures writers[j].pos <= |writers[j].data| && |ring.Contents()| <= 32
    {
    }

    /** A read came back short: every write has finished, and all that was ever accepted has
        been delivered. */
    lemma ShortReadIsEnd(i: nat)
      requires Valid() && i < |readers| && readers[i].done && readers[i].left > 0
      ensures Flat(delivered) == Flat(accepted) && forall j :: 0 <= j < |writers| ==> writers[j].done
    {
      hide Flags, Unfinished, Flat;
      assert Flat(delivered) + [] == Flat(delivered);
      forall j | 0 <= j < |writers|
        ensures writers[j].done
      {
        if !writers[j].done {
          WriterAlive(j);
        }
      }
    }

    method WriteEndCloses()
      requires Valid()
      modifies this`open, ring`writeEnds
      ensures Valid() && Abs() == Next(old(Abs()), Event.WriteEndCloses)
    {
      hide Flat, Of, Flags, Unfinished, PipeRingBuffer.Contents, PipeRingBuffer.Valid, ReaderStates, WriterStates;
      if open > 0 {
        open := open - 1;
        ring.writeEnds := ring.writeEnds - 1;
      }
    }

    method ReadBegins(length: nat)
      requires Valid()
      modifies this`readers, this`lengths
      ensures Valid() && Abs() == Next(old(Abs()), Event.ReadBegins(length))
      ensures |readers| == |old(readers)| + 1 && readers[..|old(readers)|] == old(readers) && fresh(readers[|old(readers)|])
    {
      hide Different, Conserved, WritersOk, EndsOk, Of, PipeRingBuffer.Contents, PipeRingBuffer.Valid, ReaderStates, WriterStates, Next;
      ghost var q := Abs();
      var r := new ReadCall(length);
      OneMoreDifferent(readers, r);
      readers, lengths := readers + [r], lengths + [length];
      assert ReaderStates(readers) == q.readers + [Reader([], length, false)];
      ReadJoins(q, length);
    }

    /** The call holds a reference of its own until it returns. */
    method NewWriter(data: seq<byte>)
      requires Valid() && open > 0
      modifies this`writers, ring`writeEnds
      ensures Valid() && |writers| == |old(writers)| + 1 && writers[..|old(writers)|] == old(writers)
      ensures fresh(writers[|old(writers)|])
      ensures WriterStates(writers) == old(WriterStates(writers)) + [Writer(data, 0, false)]
    {
      hide Different, Conserved, ReadersOk, Of, Flags, Unfinished, PipeRingBuffer.Contents, PipeRingBuffer.Valid, ReaderStates, WriterStates;
      ghost var flags := Flags(writers);
      var w := new WriteCall(data);
      OneBegins(flags);
      OneMoreDifferent(writers, w);
      writers := writers + [w];
      assert Flags(writers) == flags + [false];
      ring.writeEnds := ring.writeEnds + 1;
    }

    method WriteBegins(data: seq<byte>)
      requires Valid()
      modifies this`writers, ring`writeEnds
      ensures Valid() && Abs() == Next(old(Abs()), Event.WriteBegins(data))
      ensures |writers| >= |old(writers)| && writers[..|old(writers)|] == old(writers)
      ensures forall j :: |old(writers)| <= j < |writers| ==> fresh(writers[j])
    {
      hide Conserved, ReadersOk, WritersOk, EndsOk, ShortReadsOk, PipeRingBuffer.Contents, PipeRingBuffer.Valid, ReaderStates,
        WriterStates, Next;
      WriteJoins(Abs(), data);
      if open > 0 {
        NewWriter(data);
      }
    }

    method WriteEndCopied()
      requires Valid()
      modifies this`open, ring`writeEnds
      ensures Valid() && Abs() == Next(old(Abs()), Event.WriteEndCopied)
    {
      hide Flat, Of, Flags, Unfinished, PipeRingBuffer.Contents, PipeRingBuffer.Valid, ReaderStates, WriterStates;
      if open > 0 {
        open := open + 1;
        ring.writeEnds := ring.writeEnds + 1;
      }
    }

    method Do(e: Event)
      requires Valid()
      modifies this, ring, ring.arr, readers, writers
      ensures Valid() && Within(old(Abs()), e) && Abs() == Next(old(Abs()), e)
      ensures forall i :: 0 <= i < |readers| ==> readers[i] in old(readers) || fresh(readers[i])
      ensures forall j :: 0 <= j < |writers| ==> writers[j] in old(writers) || fresh(writers[j])
    {
      hide Distinct, Conserved, ReadersOk, WritersOk, EndsOk, ShortReadsOk, Next, ReaderStates, WriterStates,
        PipeRingBuffer.Valid, PipeRingBuffer.Contents;
      match e {
        case ReaderRuns(i) => ReaderRuns(i);
        case WriterRuns(j) => WriterRuns(j);
        case ReadBegins(length) => ReadBegins(length);
        case WriteBegins(data) => WriteBegins(data);
        case WriteEndCopied => WriteEndCopied();
        case WriteEndCloses => WriteEndCloses();
      }
    }

    /** Any schedule: the system goes through the states of the plain queue. */
    method Run(events: seq<Event>) returns (ghost states: seq<Queue>)
      requires Valid()
      modifies this, ring, ring.arr, readers, writers
      ensures Valid() && Schedule(states, events) && states[0] == old(Abs()) && states[|events|] == Abs()
    {
      hide Distinct, Conserved, ReadersOk, WritersOk, EndsOk, ShortReadsOk, Abs, Next, Within, Schedule, ReaderStates, WriterStates,
        PipeRingBuffer.Valid, PipeRingBuffer.Contents;
      states := [Abs()];
      assert Schedule(states, []) by { ScheduleStart(Abs()); }
      assert events[..0] == [];
      var n := 0;
      while n < |events|
        invariant n <= |events| && Valid() && |states| == n + 1
        invariant forall i :: 0 <= i < |readers| ==> readers[i] in old(readers) || fresh(readers[i])
        invariant forall j :: 0 <= j < |writers| ==> writers[j] in old(writers) || fresh(writers[j])
        invariant Schedule(states, events[..n]) && states[0] == old(Abs()) && states[n] == Abs()
      {
        Do(events[n]);
        assert events[..n + 1] == events[..n] + [events[n]];
        ScheduleMore(states, events[..n], events[n]);
        states := states + [Abs()];
        n := n + 1;
      }
      assert events[..n] == events;
    }
  }

  lemma ScheduleStart(q: Queue)
    ensures Schedule([q], [])
  {
  }

  ghost function ReaderStates(readers: seq<ReadCall>): (r: seq<Reader>)
    reads readers
    ensures |r| == |readers| && forall i :: 0 <= i < |r| ==> r[i] == Reader(readers[i].got, readers[i].left, readers[i].done)
  {
    if readers == [] then [] else
      var c := readers[|readers| - 1];
      ReaderStates(readers[..|readers| - 1]) + [Reader(c.got, c.left, c.done)]
  }

  ghost function WriterStates(writers: seq<WriteCall>): (r: seq<Writer>)
    reads writers
    ensures |r| == |writers| && forall j :: 0 <= j < |r| ==> r[j] == Writer(writers[j].data, writers[j].pos, writers[j].done)
  {
    if writers == [] then [] else
      var c := writers[|writers| - 1];
      WriterStates(writers[..|writers| - 1]) + [Writer(c.data, c.pos, c.done)]
  }

  lemma {:induction false} UnfinishedIs(done: seq<bool>)
    ensures Unfinished(done) == 0 <==> forall j :: 0 <= j < |done| ==> done[j]
  {
    if done != [] {
      UnfinishedIs(done[..|done| - 1]);
    }
  }

  /** Which writers are done. */
  ghost function Flags(writers: seq<WriteCall>): (r: seq<bool>)
    reads writers`done
    ensures |r| == |writers| && forall j :: 0 <= j < |r| ==> r[j] == writers[j].done
  {
    if writers == [] then [] else Flags(writers[..|writers| - 1]) + [writers[|writers| - 1].done]
  }

  ghost function Unfinished(done: seq<bool>): nat
  {
    if done == [] then 0 else Unfinished(done[..|done| - 1]) + if done[|done| - 1] then 0 else 1
  }

  lemma {:induction false} OneFinishes(done: seq<bool>, j: nat)
    requires j < |done| && !done[j]
    ensures Unfinished(done) > 0 && Unfinished(done[j := true]) == Unfinished(done) - 1
  {
    var n := |done| - 1;
    if j == n {
      assert done[j := true][..n] == done[..n];
    } else {
      OneFinishes(done[..n], j);
      assert done[j := true][..n] == done[..n][j := true];
    }
  }

  lemma OneBegins(done: seq<bool>)
    ensures Unfinished(done + [false]) == Unfinished(done) + 1
  {
    assert (done + [false])[..|done|] == done;
  }
}
