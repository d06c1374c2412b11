/**
 The queue of frames a session has still to write. Writes are asynchronous: a step
 starts one, and a later completion, with or without an error, ends it. The state
 holds all writes under way, in the order in which they were started.
 */
module SendQueue {
  import opened Bytes
  import opened WebSocketFrame

  /** A completion or an error names the write under way that it ends. */
  datatype Event = Send(frame: seq<byte>) | Completion(write: nat) | Failure(write: nat)

  /** The queue, the writes under way, and the frames written so far. */
  datatype State = State(queue: seq<seq<byte>>, writes: seq<seq<byte>>, completed: seq<seq<byte>>, failed: bool)

  const INITIAL := State([], [], [], false)

  /** One more write, of the queue's front, whatever is under way already. */
  function StartWrite(s: State): State {
    if s.queue == [] then s else s.(writes := s.writes + [s.queue[0]])
  }

  function EndWrite(writes: seq<seq<byte>>, i: nat): seq<seq<byte>>
    requires i < |writes|
  {
    writes[..i] + writes[i + 1..]
  }

  /** A completion or an error can only come of a write that is under way. */
  function Next(s: State, e: Event): State {
    match e
    case Send(frame) =>
      var t := s.(queue := s.queue + [frame]);
      if s.queue == [] then StartWrite(t) else t
    case Completion(i) =>
      if i >= |s.writes| || s.queue == [] then s
      else
        StartWrite(s.(queue := s.queue[1..], writes := EndWrite(s.writes, i), completed := s.completed + [s.writes[i]]))
    case Failure(i) =>
      if i >= |s.writes| then s else s.(writes := EndWrite(s.writes, i), failed := true)
  }

  function Run(s: State, events: seq<Event>): State {
    if events == [] then s else Next(Run(s, events[..|events| - 1]), events[|events| - 1])
  }

  /** The frames sent in a run, in order. */
  function Sent(events: seq<Event>): seq<seq<byte>> {
    if events == [] then []
    else
      var e := events[|events| - 1];
      Sent(events[..|events| - 1]) + (if e.Send? then [e.frame] else [])
  }

  ghost predicate Inv(s: State, sent: seq<seq<byte>>) {
    && |s.writes| <= 1
    && (s.writes != [] ==> s.queue != [] && s.writes[0] == s.queue[0])
    && (!s.failed ==> (s.queue != [] <==> s.writes != []))
    && (s.failed ==> s.queue != [] && s.writes == [])
    && s.completed + s.queue == sent
  }

  lemma NextKeepsInv(s: State, e: Event, sent: seq<seq<byte>>)
    requires Inv(s, sent)
    ensures Inv(Next(s, e), sent + (if e.Send? then [e.frame] else []))
  {
    match e
    case Send(frame) =>
      assert s.completed + (s.queue + [frame]) == (s.completed + s.queue) + [frame];
    case Completion(i) =>
      if i < |s.writes| {
        assert s.completed + s.queue == (s.completed + [s.queue[0]]) + s.queue[1..];
      }
    case Failure(i) =>
  }

  lemma {:induction false} InvOfRun(events: seq<Event>)
    ensures Inv(Run(INITIAL, events), Sent(events))
  {
    if events != [] {
      var before := events[..|events| - 1];
      InvOfRun(before);
      NextKeepsInv(Run(INITIAL, before), events[|events| - 1], Sent(before));
    }
  }

  /**
   Over every sequence of sends, completions and errors: at most one write is under
   way, and it is of the queue's front; the queue is non-empty exactly while a write
   is under way until one fails; and the frames written are a prefix of the frames
   sent, in order.
   */
  lemma {:induction false} EveryRun(events: seq<Event>)
    ensures var s, sent := Run(INITIAL, events), Sent(events);
      && |s.writes| <= 1 && (s.writes != [] ==> s.queue != [] && s.writes == [s.queue[0]])
      && (!s.failed ==> (s.queue != [] <==> s.writes != []))
      && s.completed <= sent && s.queue == sent[|s.completed|..]
  {
    InvOfRun(events);
    var s, sent := Run(INITIAL, events), Sent(events);
    assert sent[..|s.completed|] == s.completed;
  }

  lemma {:induction false} CompletionsOnly(s: State, sent: seq<seq<byte>>, events: seq<Event>)
    requires Inv(s, sent) && !s.failed
    requires |events| <= |s.queue| && forall i :: 0 <= i < |events| ==> events[i] == Completion(0)
    ensures var t := Run(s, events);
      Inv(t, sent) && !t.failed && |t.queue| == |s.queue| - |events|
  {
    if events != [] {
      var before := events[..|events| - 1];
      CompletionsOnly(s, sent, before);
      NextKeepsInv(Run(s, before), Completion(0), sent);
      assert sent + [] == sent;
    }
  }

  /** As long as no write fails, as many completions as there are queued frames write them all. */
  lemma {:induction false} AllWritten(s: State, sent: seq<seq<byte>>, events: seq<Event>)
    requires Inv(s, sent) && !s.failed
    requires |events| == |s.queue| && forall i :: 0 <= i < |events| ==> events[i] == Completion(0)
    ensures Run(s, events).completed == sent && Run(s, events).queue == []
  {
    CompletionsOnly(s, sent, events);
  }

  /** After a failure nothing is written any more, whatever happens. */
  lemma {:induction false} FailureIsFinal(s: State, sent: seq<seq<byte>>, events: seq<Event>)
    requires Inv(s, sent) && s.failed
    ensures var t := Run(s, events);
      t.failed && t.writes == [] && t.queue != [] && t.completed == s.completed
  {
    if events != [] {
      FailureIsFinal(s, sent, events[..|events| - 1]);
    }
  }

  class Session {
    var writeQueue: seq<seq<byte>>
    var writes: seq<seq<byte>>
    ghost var completed: seq<seq<byte>>
    ghost var failed: bool

    ghost function View(): State reads this { State(writeQueue, writes, completed, failed) }

    constructor ()
      ensures View() == INITIAL
    {
      writeQueue, writes, completed, failed := [], [], [], false;
    }

    /** Starts a write of the queue's front, in addition to those under way. */
    method DoWrite()
      modifies this`writes
      ensures View() == StartWrite(old(View()))
    {
      if writeQueue != [] {
        writes := writes + [writeQueue[0]];
      }
    }

    method SendMessage(message: seq<byte>, opcode: nat)
      requires opcode < 16 && |message| < Power256(8)
      modifies this
      ensures View() == Next(old(View()), Send(Frame(opcode, [], message)))
    {
      var frame := CreateFrame(message, opcode);
      hide Frame;
      var writeInProgress := writeQueue != [];
      writeQueue := writeQueue + [frame];
      if !writeInProgress {
        DoWrite();
      }
    }

    /** The handler of a finished write. */
    method OnWritten(write: nat, error: bool)
      requires write < |writes| && writeQueue != []
      modifies this
      ensures View() == Next(old(View()), if error then Failure(write) else Completion(write))
    {
      ghost var frame := writes[write];
      writes := EndWrite(writes, write);
      if !error {
        completed := completed + [frame];
        writeQueue := writeQueue[1..];
        if writeQueue != [] {
          DoWrite();
        }
      } else {
        failed := true;
      }
    }
  }
}
