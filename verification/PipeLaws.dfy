/** What any schedule of calls on a new pipe comes to, in terms of the events alone. */
module PipeLaws {
  import opened Words
  import opened PipeRuns

  /** Copies of the write end's descriptor, less those that went. */
  function Balance(events: seq<Event>): int
  {
    if events == [] then 0 else
      var e := events[|events| - 1];
      Balance(events[..|events| - 1]) + if e.WriteEndCopied? then 1 else if e.WriteEndCloses? then -1 else 0
  }

  /** The data of the writes that began, in order. */
  function Datas(events: seq<Event>): seq<seq<byte>>
  {
    if events == [] then [] else
      var before := Datas(events[..|events| - 1]);
      if events[|events| - 1].WriteBegins? then before + [events[|events| - 1].data] else before
  }

  /** The lengths of the reads that began, in order. */
  function Lengths(events: seq<Event>): seq<nat>
  {
    if events == [] then [] else
      var before := Lengths(events[..|events| - 1]);
      if events[|events| - 1].ReadBegins? then before + [events[|events| - 1].length] else before
  }

  /** Before each of the first n events a descriptor of the write end is open, counting from one. */
  predicate StaysOpen(events: seq<Event>, n: nat)
    requires n <= |events|
  {
    forall k :: 0 <= k < n ==> 1 + Balance(events[..k]) > 0
  }

  predicate New(q: Queue) { q == Queue([], [], [], 1) }

  /** The writes and reads of a queue are those asked for. */
  predicate Asked(q: Queue, datas: seq<seq<byte>>, lengths: seq<nat>)
  {
    && |q.writers| == |datas| && (forall j :: 0 <= j < |datas| ==> q.writers[j].data == datas[j])
    && |q.readers| == |lengths| && (forall i :: 0 <= i < |lengths| ==> |q.readers[i].got| + q.readers[i].left == lengths[i])
  }

  lemma PrefixOf(events: seq<Event>, states: seq<Queue>, n: nat)
    requires Schedule(states, events) && n < |events|
    ensures Within(states[n], events[n]) && states[n + 1] == Next(states[n], events[n])
    ensures events[..n + 1][..|events[..n + 1]| - 1] == events[..n] && events[..n + 1][n] == events[n]
  {
  }

  lemma OneMore(events: seq<Event>, n: nat)
    requires n < |events|
    ensures Balance(events[..n + 1]) == Balance(events[..n]) + if events[n].WriteEndCopied? then 1 else if events[n].WriteEndCloses? then -1 else 0
    ensures Datas(events[..n + 1]) == if events[n].WriteBegins? then Datas(events[..n]) + [events[n].data] else Datas(events[..n])
    ensures Lengths(events[..n + 1]) == if events[n].ReadBegins? then Lengths(events[..n]) + [events[n].length] else Lengths(events[..n])
  {
    assert events[..n + 1][..n] == events[..n];
  }

  /** As long as a descriptor was open before each event: so many are open, and every call
      that began is under way or done, as it was asked for. */
  lemma {:induction false} CountsAgree(events: seq<Event>, states: seq<Queue>, n: nat)
    requires Schedule(states, events) && |states| == |events| + 1 && New(states[0]) && n <= |events| && StaysOpen(events, n)
    ensures states[n].open == 1 + Balance(events[..n])
    ensures Asked(states[n], Datas(events[..n]), Lengths(events[..n]))
  {
    hide Balance, Datas, Lengths, Asked, Next, Schedule;
    if n == 0 {
      assert events[..0] == [];
      NothingYet(states[0]);
    } else {
      PrefixOf(events, states, n - 1);
      CountsAgree(events, states, n - 1);
      OneMore(events, n - 1);
      AskedStep(states[n - 1], events[n - 1], Datas(events[..n - 1]), Lengths(events[..n - 1]));
    }
  }

  lemma NothingYet(q: Queue)
    requires New(q)
    ensures Asked(q, Datas([]), Lengths([])) && Balance([]) == 0 && FullReads(q)
  {
  }

  lemma AskedStep(q: Queue, e: Event, datas: seq<seq<byte>>, lengths: seq<nat>)
    requires Within(q, e) && Asked(q, datas, lengths) && q.open > 0
    ensures Next(q, e).open == q.open + if e.WriteEndCopied? then 1 else if e.WriteEndCloses? then -1 else 0
    ensures Asked(Next(q, e), if e.WriteBegins? then datas + [e.data] else datas, if e.ReadBegins? then lengths + [e.length] else lengths)
  {
    hide Ended;
  }

  /** No read came back short. */
  predicate FullReads(q: Queue) { forall i :: 0 <= i < |q.readers| && q.readers[i].done ==> q.readers[i].left == 0 }

  /** While each prefix of the events has no more closes than copies, no read comes back
      short. */
  lemma {:induction false} NoEarlyEnd(events: seq<Event>, states: seq<Queue>, n: nat)
    requires Schedule(states, events) && |states| == |events| + 1 && New(states[0]) && n <= |events|
    requires forall k :: 0 <= k <= n ==> Balance(events[..k]) >= 0
    ensures FullReads(states[n])
  {
    hide Balance, Datas, Lengths, Asked, Next, Schedule, FullReads;
    if n == 0 {
      NothingYet(states[0]);
    } else {
      NoEarlyEnd(events, states, n - 1);
      CountsAgree(events, states, n - 1);
      PrefixOf(events, states, n - 1);
      FullStep(states[n - 1], events[n - 1]);
    }
  }

  lemma FullStep(q: Queue, e: Event)
    requires Within(q, e) && FullReads(q) && q.open > 0
    ensures FullReads(Next(q, e))
  {
  }

  /** A new pipe under any events: where a descriptor stays open so many are open, and the
      calls are those that began; and no read comes back short while no prefix has more
      closes than copies. */
  method NewPipe(events: seq<Event>) returns (p: PipeSystem)
    ensures p.Valid()
    ensures StaysOpen(events, |events|) ==> p.open == 1 + Balance(events)
    ensures StaysOpen(events, |events|) ==> |p.writers| == |Datas(events)| && forall j :: 0 <= j < |p.writers| ==> p.writers[j].data == Datas(events)[j]
    ensures StaysOpen(events, |events|) ==> |p.readers| == |Lengths(events)| && forall i :: 0 <= i < |p.readers| ==> |p.readers[i].got| + p.readers[i].left == Lengths(events)[i]
    ensures (forall k :: 0 <= k <= |events| ==> Balance(events[..k]) >= 0) ==>
      forall i :: 0 <= i < |p.readers| && p.readers[i].done ==> p.readers[i].left == 0
  {
    hide Balance, Datas, Lengths, Schedule, StaysOpen, FullReads, Asked, PipeSystem.Valid, PipeSystem.Abs;
    p := new PipeSystem();
    var states := RunOf(p, events);
    assert events[..|events|] == events;
    if StaysOpen(events, |events|) {
      CountsAgree(events, states, |events|);
    }
    if forall k :: 0 <= k <= |events| ==> Balance(events[..k]) >= 0 {
      NoEarlyEnd(events, states, |events|);
    }
    Shown(p, states[|events|]);
  }

  method RunOf(p: PipeSystem, events: seq<Event>) returns (ghost states: seq<Queue>)
    requires p.Valid() && New(p.Abs())
    modifies p, p.ring, p.ring.arr, p.readers, p.writers
    ensures p.Valid() && Schedule(states, events) && |states| == |events| + 1 && New(states[0]) && p.Abs() == states[|events|]
  {
    hide PipeSystem.Abs;
    states := p.Run(events);
  }

  lemma Shown(p: PipeSystem, q: Queue)
    requires p.Valid() && p.Abs() == q
    ensures p.open == q.open && |p.writers| == |q.writers| && |p.readers| == |q.readers|
    ensures forall j :: 0 <= j < |p.writers| ==> p.writers[j].data == q.writers[j].data
    ensures forall i :: 0 <= i < |p.readers| ==>
      p.readers[i].got == q.readers[i].got && p.readers[i].left == q.readers[i].left && p.readers[i].done == q.readers[i].done
    ensures forall datas, lengths :: Asked(q, datas, lengths) ==>
      && |q.writers| == |datas| && (forall j :: 0 <= j < |datas| ==> q.writers[j].data == datas[j])
      && |q.readers| == |lengths| && (forall i :: 0 <= i < |lengths| ==> |q.readers[i].got| + q.readers[i].left == lengths[i])
    ensures FullReads(q) ==> forall i :: 0 <= i < |q.readers| && q.readers[i].done ==> q.readers[i].left == 0
  {
  }
}
