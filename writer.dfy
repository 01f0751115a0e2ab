/** The decoupled export writer: an interpreter that takes `Write` and
    `Finish` commands one at a time, in arrival order, and appends records
    to the export file. It keeps the first write error (`res`) until a
    `Finish` reports it; a `Finish` after error-free writes reports the
    outcome of flushing the file instead.

    As in the archiver, pure functions give the rules and the class `Inner`
    keeps the interpreter's fields and is proved against them. The outcome
    of each file operation (a write, a flush, the file's creation) is a
    parameter. The export file's content is modelled as the list of chunks
    written to it (`file`) and the part of it known to be on disk
    (`flushed`, updated by a successful flush). */
module ArchiveWriter {
  import opened Model

  /** A command sent to the interpreter; the reply channel of `Finish` is
      modelled by the reply the interpreter returns for it. */
  datatype Command = Write(contact: Contact) | Finish

  type IoResult = Result<(), IoError>

  datatype WriterState = WriterState(res: IoResult, file: seq<string>, flushed: seq<string>)

  function OutcomeOf(outcome: Option<IoError>): IoResult
  {
    if outcome.Some? then Err(outcome.value) else Ok(())
  }

  /** What handling one command gives: the new state, the value that
      `handle` returns (to be stored in `res` when present), and the reply
      sent for a `Finish`. */
  datatype Handled = Handled(state: WriterState, stored: Option<IoResult>, reply: Option<IoResult>)

  function HandleNext(s: WriterState, cmd: Command, outcome: Option<IoError>): (h: Handled)
    ensures cmd.Write? ==> h.reply.None? && h.state.flushed == s.flushed
    ensures cmd.Write? && s.res.Err? ==> h == Handled(s, None, None)
    ensures cmd.Write? && s.res.Ok? ==> h.stored == Some(OutcomeOf(outcome))
    ensures h.state.file == s.file
      || (cmd.Write? && s.res.Ok? && outcome.None? && h.state.file == s.file + [CsvRecord(cmd.contact)])
    ensures cmd.Finish? ==> h.stored == Some(Ok(())) && h.reply.Some? && h.state.file == s.file
    ensures cmd.Finish? && s.res.Err? ==> h.reply == Some(s.res) && h.state.flushed == s.flushed
    ensures cmd.Finish? && s.res.Ok? ==> h.reply == Some(OutcomeOf(outcome))
    ensures cmd.Write? && s.res.Ok? && outcome.None? ==> h.state.file == s.file + [CsvRecord(cmd.contact)]
    ensures cmd.Finish? && s.res.Ok? && outcome.None? ==> h.state.flushed == s.file
    ensures cmd.Finish? && outcome.Some? ==> h.state.flushed == s.flushed
    ensures cmd.Finish? ==> h.state.res == Ok(())
    ensures cmd.Write? ==> h.state.res == s.res
  {
    match cmd
    case Write(c) =>
      if s.res.Ok? then
        var file := if outcome.None? then s.file + [CsvRecord(c)] else s.file;
        Handled(s.(file := file), Some(OutcomeOf(outcome)), None)
      else Handled(s, None, None)
    case Finish =>
      var s1 := s.(res := Ok(()));
      if s.res.Ok? then
        var flushed := if outcome.None? then s.file else s.flushed;
        Handled(s1.(flushed := flushed), Some(Ok(())), Some(OutcomeOf(outcome)))
      else Handled(s1, Some(Ok(())), Some(Err(s.res.error)))
  }

  /** One turn of the receive loop: handle, then store what `handle`
      returned. */
  function StepNext(s: WriterState, cmd: Command, outcome: Option<IoError>): WriterState
  {
    var h := HandleNext(s, cmd, outcome);
    if h.stored.Some? then h.state.(res := h.stored.value) else h.state
  }

  /** The state after the loop handled `cmds`, with `outs[i]` the outcome
      of the file operation that handling `cmds[i]` performs, if any. */
  function RunNext(s: WriterState, cmds: seq<Command>, outs: seq<Option<IoError>>): WriterState
    requires |cmds| == |outs|
  {
    if cmds == [] then s
    else
      var n := |cmds| - 1;
      StepNext(RunNext(s, cmds[..n], outs[..n]), cmds[n], outs[n])
  }

  /** The replies the loop sent while handling `cmds`, in order. */
  function RunReplies(s: WriterState, cmds: seq<Command>, outs: seq<Option<IoError>>): seq<IoResult>
    requires |cmds| == |outs|
  {
    if cmds == [] then []
    else
      var n := |cmds| - 1;
      var h := HandleNext(RunNext(s, cmds[..n], outs[..n]), cmds[n], outs[n]);
      RunReplies(s, cmds[..n], outs[..n]) + (if h.reply.Some? then [h.reply.value] else [])
  }

  function Writes(cs: seq<Contact>): (cmds: seq<Command>)
    ensures |cmds| == |cs| && forall i :: 0 <= i < |cs| ==> cmds[i] == Write(cs[i])
  {
    seq(|cs|, i requires 0 <= i < |cs| => Write(cs[i]))
  }

  /** The first failing outcome among `outs`, if any. */
  function FirstError(outs: seq<Option<IoError>>): Option<IoError>
  {
    if outs == [] then None
    else
      var n := |outs| - 1;
      if FirstError(outs[..n]).Some? then FirstError(outs[..n]) else outs[n]
  }

  /** The records that reach the file when `cs` are written with outcomes
      `outs`: those written before the first failure. */
  function Written(cs: seq<Contact>, outs: seq<Option<IoError>>): seq<string>
    requires |cs| == |outs|
  {
    if cs == [] then []
    else
      var n := |cs| - 1;
      Written(cs[..n], outs[..n])
      + (if FirstError(outs[..n]).None? && outs[n].None? then [CsvRecord(cs[n])] else [])
  }

  function Records(cs: seq<Contact>): (r: seq<string>)
    ensures |r| == |cs| && forall i :: 0 <= i < |cs| ==> r[i] == CsvRecord(cs[i])
  {
    seq(|cs|, i requires 0 <= i < |cs| => CsvRecord(cs[i]))
  }

  /** While `res` holds an error, writes are dropped and the error kept. */
  lemma {:induction false} WritesDroppedAfterError(s: WriterState, cs: seq<Contact>, outs: seq<Option<IoError>>)
    requires s.res.Err? && |cs| == |outs|
    ensures RunNext(s, Writes(cs), outs) == s
  {
    if cs != [] {
      var n := |cs| - 1;
      assert Writes(cs)[..n] == Writes(cs[..n]);
      WritesDroppedAfterError(s, cs[..n], outs[..n]);
    }
  }

  /** Writes from an error-free state: `res` becomes the first write error
      (or stays `Ok`), and the file gains the records written before it. */
  lemma {:induction false} WritesKeepFirstError(s: WriterState, cs: seq<Contact>, outs: seq<Option<IoError>>)
    requires s.res == Ok(()) && |cs| == |outs|
    ensures RunNext(s, Writes(cs), outs)
         == s.(res := OutcomeOf(FirstError(outs)), file := s.file + Written(cs, outs))
  {
    if cs == [] {
      assert Writes(cs) == [] && outs == [];
      assert s.file + [] == s.file;
    } else {
      var n := |cs| - 1;
      assert Writes(cs)[..n] == Writes(cs[..n]);
      WritesKeepFirstError(s, cs[..n], outs[..n]);
      var prev := RunNext(s, Writes(cs[..n]), outs[..n]);
      assert RunNext(s, Writes(cs), outs) == StepNext(prev, Write(cs[n]), outs[n]);
      if FirstError(outs[..n]).Some? {
        assert HandleNext(prev, Write(cs[n]), outs[n]) == Handled(prev, None, None);
      } else {
        assert (s.file + Written(cs[..n], outs[..n])) + (if outs[n].None? then [CsvRecord(cs[n])] else [])
            == s.file + Written(cs, outs);
      }
    }
  }

  lemma {:induction false} WrittenWithoutError(cs: seq<Contact>, outs: seq<Option<IoError>>)
    requires |cs| == |outs| && FirstError(outs).None?
    ensures Written(cs, outs) == Records(cs)
  {
    if cs != [] {
      var n := |cs| - 1;
      WrittenWithoutError(cs[..n], outs[..n]);
      assert Records(cs) == Records(cs[..n]) + [CsvRecord(cs[n])];
    }
  }

  /** Writes send no reply, whatever the state. */
  lemma {:induction false} WritesReplyNothing(s: WriterState, cs: seq<Contact>, outs: seq<Option<IoError>>)
    requires |cs| == |outs|
    ensures RunReplies(s, Writes(cs), outs) == []
  {
    if cs != [] {
      var n := |cs| - 1;
      assert Writes(cs)[..n] == Writes(cs[..n]);
      WritesReplyNothing(s, cs[..n], outs[..n]);
    }
  }

  /** One writer session: writes, then `Finish`. The single reply is the
      first write error if there was one (no flush is attempted then), and
      otherwise the outcome of the flush; `res` is `Ok` again afterwards,
      so the writer accepts writes once more. */
  lemma Session(s: WriterState, cs: seq<Contact>, outs: seq<Option<IoError>>, flush: Option<IoError>)
    requires s.res == Ok(()) && |cs| == |outs|
    ensures var t := RunNext(s, Writes(cs) + [Finish], outs + [flush]);
      && t.res == Ok(())
      && t.file == s.file + Written(cs, outs)
      && t.flushed == (if FirstError(outs).None? && flush.None? then t.file else s.flushed)
      && RunReplies(s, Writes(cs) + [Finish], outs + [flush])
         == [if FirstError(outs).Some? then Err(FirstError(outs).value) else OutcomeOf(flush)]
    ensures FirstError(outs).None? ==> Written(cs, outs) == Records(cs)
  {
    var cmds := Writes(cs) + [Finish];
    var os := outs + [flush];
    assert cmds[..|cs|] == Writes(cs) && os[..|cs|] == outs;
    WritesKeepFirstError(s, cs, outs);
    WritesReplyNothing(s, cs, outs);
    if FirstError(outs).None? {
      WrittenWithoutError(cs, outs);
    }
  }

  /** The interpreter's state. */
  class Inner {
    var res: IoResult
    var file: seq<string>
    var flushed: seq<string>

    ghost function Snapshot(): WriterState
      reads this
    {
      WriterState(res, file, flushed)
    }

    /** A fresh interpreter over a newly created (empty) file. */
    constructor ()
      ensures res == Ok(()) && file == [] && flushed == []
    {
      res, file, flushed := Ok(()), [], [];
    }

    /** Writes one record; `outcome` is the outcome of the file write. */
    method WriteRecord(c: Contact, outcome: Option<IoError>) returns (r: IoResult)
      modifies this
      ensures r == OutcomeOf(outcome) && res == old(res) && flushed == old(flushed)
      ensures file == if outcome.None? then old(file) + [CsvRecord(c)] else old(file)
    {
      if outcome.None? {
        file := file + [CsvRecord(c)];
      }
      r := OutcomeOf(outcome);
    }

    /** Flushes the file; `outcome` is the outcome of the flush. */
    method FinishFile(outcome: Option<IoError>) returns (r: IoResult)
      modifies this
      ensures r == OutcomeOf(outcome) && res == old(res) && file == old(file)
      ensures flushed == if outcome.None? then old(file) else old(flushed)
    {
      if outcome.None? {
        flushed := file;
      }
      r := OutcomeOf(outcome);
    }

    /** Handles one command: a write only while `res` is `Ok`; a `Finish`
        swaps `res` for `Ok` and replies with the swapped-out error, or
        flushes and replies with the flush outcome. */
    method Handle(cmd: Command, outcome: Option<IoError>) returns (stored: Option<IoResult>, reply: Option<IoResult>)
      modifies this
      ensures Handled(Snapshot(), stored, reply) == HandleNext(old(Snapshot()), cmd, outcome)
      ensures cmd.Write? && old(res).Err? ==> stored == None && Snapshot() == old(Snapshot())
      ensures cmd.Finish? ==> stored == Some(Ok(())) && res == Ok(()) && reply.Some?
      ensures cmd.Finish? && old(res).Err? ==> reply == Some(old(res)) && flushed == old(flushed)
    {
      match cmd {
        case Write(c) =>
          if res.Ok? {
            var r := WriteRecord(c, outcome);
            stored, reply := Some(r), None;
          } else {
            stored, reply := None, None;
          }
        case Finish =>
          var previous := res;
          res := Ok(());
          if previous.Ok? {
            var r := FinishFile(outcome);
            reply := Some(r);
          } else {
            reply := Some(Err(previous.error));
          }
          stored := Some(Ok(()));
      }
    }

    /** The receive loop: every command in arrival order until the channel
        closes; returns the replies sent for the `Finish` commands. */
    method Work(cmds: seq<Command>, outs: seq<Option<IoError>>) returns (replies: seq<IoResult>)
      requires |cmds| == |outs|
      modifies this
      ensures Snapshot() == RunNext(old(Snapshot()), cmds, outs)
      ensures replies == RunReplies(old(Snapshot()), cmds, outs)
    {
      ghost var s0 := Snapshot();
      replies := [];
      var i := 0;
      while i < |cmds|
        invariant 0 <= i <= |cmds|
        invariant Snapshot() == RunNext(s0, cmds[..i], outs[..i])
        invariant replies == RunReplies(s0, cmds[..i], outs[..i])
      {
        assert cmds[..i + 1][..i] == cmds[..i] && outs[..i + 1][..i] == outs[..i];
        var stored, reply := Handle(cmds[i], outs[i]);
        if stored.Some? {
          res := stored.value;
        }
        if reply.Some? {
          replies := replies + [reply.value];
        }
        i := i + 1;
      }
      assert cmds[..|cmds|] == cmds && outs[..|outs|] == outs;
    }
  }

  /** Creating the interpreter creates (truncates) the export file; if that
      fails, so does creating the writer. */
  method NewInner(created: Option<IoError>) returns (r: Result<Inner, IoError>)
    ensures r.Err? <==> created.Some?
    ensures r.Err? ==> r.error == created.value
    ensures r.Ok? ==> fresh(r.value) && r.value.Snapshot() == WriterState(Ok(()), [], [])
  {
    if created.Some? {
      return Err(created.value);
    }
    var inner := new Inner();
    return Ok(inner);
  }
}
