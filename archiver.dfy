/** The background archiver's worker: one loop that owns the export state
    and reacts, one event at a time, to the commands `Start`, `Reset` and
    `GetStatus` and to the next item of the contact stream it is exporting.

    The pure functions below are the worker's transition rules over a value
    `Locals` holding the loop's local variables; the class `Worker` keeps
    the same variables as fields and its methods are proved against the
    rules. The outcome of every outside action (counting the contacts,
    creating the file, writing a line) is a parameter. */
module Archiver {
  import opened Model

  /** An item of the contact stream: a contact or a database error. */
  type Row = Result<Contact, Error>

  /** The stream the worker consumes. `Pending` never yields an item;
      `Live(rest)` yields the items of `rest` in order and then reports
      end-of-stream once `rest` is empty. */
  datatype RowStream = Pending | Live(rest: seq<Row>)

  /** What a status query reports: progress is the pair (count, total)
      of which the source divides the first by the second. */
  datatype ArchiverStatus =
    | Waiting
    | Running(count: nat, total: nat)
    | Complete(outcome: Result<(), Error>)

  /** The worker loop's locals. `file` is the open export file as the list
      of chunks written to it (`None` when no file is open); `exported` is
      what the export file on disk holds as of its last truncation or flush. */
  datatype Locals = Locals(
    running: bool,
    count: nat,
    total: nat,
    result: Option<Result<(), Error>>,
    file: Option<seq<string>>,
    rows: RowStream,
    exported: seq<string>)

  /** One event of the worker loop, with the outcomes of the outside
      actions its handler performs. */
  datatype Event =
    | StartEv(counted: Result<nat, Error>, created: Option<IoError>, all: seq<Row>)
    | ResetEv
    | StatusEv
    | RowEv(written: Option<IoError>)

  /** The line written for one contact: its record and a newline. */
  function CsvLine(c: Contact): (line: string)
    ensures |line| == |CsvRecord(c)| + 1
    ensures line[..|line| - 1] == CsvRecord(c) && line[|line| - 1] == '\n'
  {
    CsvRecord(c) + "\n"
  }

  /** A file is open exactly when a stream is being consumed. */
  ghost predicate Consistent(s: Locals)
  {
    s.rows.Live? <==> s.file.Some?
  }

  function Initial(onDisk: seq<string>): Locals
  {
    Locals(false, 0, 0, None, None, Pending, onDisk)
  }

  /** `Start`: count the contacts, create the export file, open the
      stream. A failure on the way is stored as the result and leaves the
      earlier stream, file and (for a failed creation) nothing else behind. */
  function StartNext(s: Locals, counted: Result<nat, Error>, created: Option<IoError>, all: seq<Row>): (r: Locals)
    ensures Consistent(s) ==> Consistent(r)
    ensures r.running
    ensures r.result.None? <==> counted.Ok? && created.None?
    ensures counted.Err? ==> r.result == Some(Err(counted.error)) && r.count == s.count && r.total == s.total
    ensures counted.Ok? ==> r.count == 0 && r.total == counted.value
    ensures counted.Ok? && created.Some? ==> r.result == Some(Err(Io(created.value)))
    ensures r.result.None? ==> r.rows == Live(all) && r.file == Some([]) && r.exported == []
    ensures r.result.Some? ==> r.rows == s.rows && r.file == s.file && r.exported == s.exported
  {
    var s1 := s.(result := None, running := true);
    match counted
    case Err(e) => s1.(result := Some(Err(e)))
    case Ok(n) =>
      var s2 := s1.(total := n, count := 0);
      match created
      case Some(e) => s2.(result := Some(Err(Io(e))))
      case None => s2.(file := Some([]), exported := [], rows := Live(all))
  }

  /** `Reset` clears the result and stops consuming, but keeps the stream
      and the open file: a later `Start` replaces them. */
  function ResetNext(s: Locals): (r: Locals)
    ensures StatusOf(r) == Waiting && !CanConsume(r)
    ensures r.rows == s.rows && r.file == s.file && r.exported == s.exported
    ensures r.count == s.count && r.total == s.total
  {
    s.(result := None, running := false)
  }

  /** A stored result wins over everything, then a stopped worker is
      waiting, and only then is progress reported. */
  function StatusOf(s: Locals): (r: ArchiverStatus)
    ensures r.Complete? <==> s.result.Some?
    ensures r.Complete? ==> r.outcome == s.result.value
    ensures r == Waiting <==> s.result.None? && !s.running
    ensures r.Running? ==> r.count == s.count && r.total == s.total
  {
    if s.result.Some? then Complete(s.result.value)
    else if !s.running then Waiting
    else Running(s.count, s.total)
  }

  /** The stream branch of the loop is enabled only while running, and a
      `Pending` stream never yields. */
  predicate CanConsume(s: Locals)
  {
    s.running && s.rows.Live?
  }

  /** The stream branch: the end of the stream closes (flushes) the file
      and stores success; a contact is written as one line and counted; a
      database error or a failed write is stored as the result, and the
      item is consumed either way. */
  function RowNext(s: Locals, written: Option<IoError>): (r: Locals)
    requires Consistent(s)
    ensures Consistent(r) && r.running == s.running
    ensures !CanConsume(s) ==> r == s
    ensures CanConsume(s) && s.rows.rest == [] ==>
      r.file.None? && r.exported == s.file.value && r.result == Some(Ok(()))
    ensures CanConsume(s) && s.rows.rest != [] ==> r.rows == Live(s.rows.rest[1..])
  {
    if !CanConsume(s) then s
    else if s.rows.rest == [] then
      s.(file := None, exported := s.file.value, rows := Pending, result := Some(Ok(())))
    else
      var s1 := s.(rows := Live(s.rows.rest[1..]));
      match s.rows.rest[0]
      case Err(e) => s1.(result := Some(Err(e)))
      case Ok(c) =>
        match written
        case Some(e) => s1.(result := Some(Err(Io(e))))
        case None => s1.(file := Some(s.file.value + [CsvLine(c)]), count := s.count + 1)
  }

  /** The count goes up by one exactly when a contact is consumed and its
      line written, and the line is then appended to the open file;
      otherwise the count stays and the file is kept or, at the end of the
      stream, closed. */
  lemma RowCounted(s: Locals, written: Option<IoError>)
    requires Consistent(s)
    ensures var r := RowNext(s, written);
      r.count == s.count + 1 <==> CanConsume(s) && s.rows.rest != [] && s.rows.rest[0].Ok? && written.None?
    ensures var r := RowNext(s, written);
      r.count != s.count + 1 ==> r.count == s.count && (r.file == s.file || r.file.None?)
    ensures var r := RowNext(s, written);
      r.count == s.count + 1 ==> r.file == Some(s.file.value + [CsvLine(s.rows.rest[0].value)])
  {
  }

  function Step(s: Locals, ev: Event): (r: Locals)
    requires Consistent(s)
    ensures Consistent(r)
  {
    match ev
    case StartEv(counted, created, all) => StartNext(s, counted, created, all)
    case ResetEv => ResetNext(s)
    case StatusEv => s
    case RowEv(written) => RowNext(s, written)
  }

  /** The state after handling `evs` in order. */
  function Run(s: Locals, evs: seq<Event>): (r: Locals)
    requires Consistent(s)
    ensures Consistent(r)
  {
    if evs == [] then s else Step(Run(s, evs[..|evs| - 1]), evs[|evs| - 1])
  }

  /** The replies sent to the status queries among `evs`, in order. */
  function Replies(s: Locals, evs: seq<Event>): seq<ArchiverStatus>
    requires Consistent(s)
  {
    if evs == [] then []
    else
      var prev := evs[..|evs| - 1];
      Replies(s, prev) + (if evs[|evs| - 1].StatusEv? then [StatusOf(Run(s, prev))] else [])
  }

  /** The lines written for the contacts among `rows`, in order. */
  function Lines(rows: seq<Row>): seq<string>
  {
    if rows == [] then []
    else Lines(rows[..|rows| - 1]) + (if rows[|rows| - 1].Ok? then [CsvLine(rows[|rows| - 1].value)] else [])
  }

  /** The stored result after consuming `rows`: the last row error, if any. */
  function ResultAfter(r: Option<Result<(), Error>>, rows: seq<Row>): Option<Result<(), Error>>
  {
    if rows == [] then r
    else if rows[|rows| - 1].Err? then Some(Err(rows[|rows| - 1].error))
    else ResultAfter(r, rows[..|rows| - 1])
  }

  /** `n` stream events whose writes all succeed. */
  function RowEvents(n: nat): (evs: seq<Event>)
    ensures |evs| == n && forall i :: 0 <= i < n ==> evs[i] == RowEv(None)
  {
    seq(n, _ => RowEv(None))
  }

  ghost predicate OnlyRows(evs: seq<Event>)
  {
    forall i :: 0 <= i < |evs| ==> evs[i].RowEv?
  }

  lemma {:induction false} RunAppend(s: Locals, a: seq<Event>, b: seq<Event>)
    requires Consistent(s)
    ensures Run(s, a + b) == Run(Run(s, a), b)
  {
    if b == [] {
      assert a + b == a;
    } else {
      var b' := b[..|b| - 1];
      assert (a + b)[..|a + b| - 1] == a + b';
      RunAppend(s, a, b');
    }
  }

  /** A start whose count and file creation succeed resets the run even
      when one is in progress: no "already running" error is raised, and
      the earlier start leaves no trace. */
  lemma RestartDiscardsEarlierStart(s: Locals, n1: nat, all1: seq<Row>, n2: nat, all2: seq<Row>)
    ensures StartNext(StartNext(s, Ok(n1), None, all1), Ok(n2), None, all2)
         == StartNext(s, Ok(n2), None, all2)
    ensures StatusOf(StartNext(s, Ok(n2), None, all2)) == Running(0, n2)
  {
  }

  /** A failed count reports the error while keeping the previous counters,
      file and stream; a failed file creation does the same after resetting
      the counters, so a stream already being exported goes on. */
  lemma StartFailures(s: Locals, e: Error, n: nat, io: IoError, created: Option<IoError>, all: seq<Row>)
    ensures var t := StartNext(s, Err(e), created, all);
      StatusOf(t) == Complete(Err(e)) && t.running && t == s.(result := t.result, running := true)
    ensures var t := StartNext(s, Ok(n), Some(io), all);
      StatusOf(t) == Complete(Err(Io(io))) && t.count == 0 && t.total == n
      && t.file == s.file && t.rows == s.rows && CanConsume(t) == s.rows.Live?
  {
  }

  /** Once stopped, the worker consumes nothing however many stream events
      come, and stays stopped. */
  lemma {:induction false} StoppedConsumesNothing(s: Locals, evs: seq<Event>)
    requires Consistent(s) && !s.running && OnlyRows(evs)
    ensures Run(s, evs) == s
  {
    if evs != [] {
      StoppedConsumesNothing(s, evs[..|evs| - 1]);
    }
  }

  /** A reset reports `Waiting` and stops all further consumption of the
      stream, however many rows remain. */
  lemma ResetStopsExport(s: Locals, evs: seq<Event>)
    requires Consistent(s) && OnlyRows(evs)
    ensures Run(ResetNext(s), evs) == ResetNext(s)
    ensures StatusOf(Run(ResetNext(s), evs)) == Waiting
  {
    StoppedConsumesNothing(ResetNext(s), evs);
  }

  /** Stream events never lower the progress count nor change the total. */
  lemma {:induction false} ProgressMonotone(s: Locals, evs: seq<Event>)
    requires Consistent(s) && OnlyRows(evs)
    ensures Run(s, evs).count >= s.count && Run(s, evs).total == s.total
  {
    if evs != [] {
      ProgressMonotone(s, evs[..|evs| - 1]);
    }
  }

  /** The state after consuming the first `k` rows of the stream of `s`
      with every write succeeding. */
  function Drained(s: Locals, k: nat): Locals
    requires s.rows.Live? && s.file.Some? && k <= |s.rows.rest|
  {
    var done := s.rows.rest[..k];
    s.(rows := Live(s.rows.rest[k..]),
       file := Some(s.file.value + Lines(done)),
       count := s.count + |Lines(done)|,
       result := ResultAfter(s.result, done))
  }

  /** One more row consumed takes the drained state for `k - 1` rows to
      the one for `k`. */
  lemma DrainStep(s: Locals, k: nat)
    requires Consistent(s) && s.running && s.rows.Live? && 0 < k <= |s.rows.rest|
    ensures RowNext(Drained(s, k - 1), None) == Drained(s, k)
  {
    var rest := s.rows.rest;
    var prev := Drained(s, k - 1);
    var done := rest[..k];
    assert done[..k - 1] == rest[..k - 1];
    assert rest[k - 1..][1..] == rest[k..];
    assert prev.rows.rest[0] == rest[k - 1] == done[k - 1];
    match rest[k - 1]
    case Err(e) =>
      assert Lines(done) == Lines(rest[..k - 1]);
      assert ResultAfter(s.result, done) == Some(Err(e));
    case Ok(c) =>
      assert Lines(done) == Lines(rest[..k - 1]) + [CsvLine(c)];
      assert (s.file.value + Lines(rest[..k - 1])) + [CsvLine(c)] == s.file.value + Lines(done);
      assert ResultAfter(s.result, done) == ResultAfter(s.result, rest[..k - 1]);
  }

  /** After `k` successful stream events of a run over `rest`, the first `k`
      rows are consumed: each contact appended one line and counted, each
      row error stored in `result`, and the run goes on. */
  lemma {:induction false} DrainPrefix(s: Locals, k: nat)
    requires Consistent(s) && s.running && s.rows.Live? && k <= |s.rows.rest|
    ensures var t := Run(s, RowEvents(k)); var done := s.rows.rest[..k];
      t == s.(rows := Live(s.rows.rest[k..]),
              file := Some(s.file.value + Lines(done)),
              count := s.count + |Lines(done)|,
              result := ResultAfter(s.result, done))
  {
    if k > 0 {
      DrainPrefix(s, k - 1);
      assert RowEvents(k)[..k - 1] == RowEvents(k - 1);
      assert Run(s, RowEvents(k)) == RowNext(Run(s, RowEvents(k - 1)), None);
      DrainStep(s, k);
    } else {
      assert RowEvents(0) == [];
      assert s.rows.rest[..0] == [] && s.rows.rest[0..] == s.rows.rest;
      assert s.file.value + Lines([]) == s.file.value;
    }
  }

  /** When the stream ends the file is flushed and closed, the stream
      becomes pending, and the run completes with `Ok(())` even if a row
      error was stored earlier; the worker is still marked running. */
  lemma DrainAll(s: Locals)
    requires Consistent(s) && s.running && s.rows.Live?
    ensures var t := Run(s, RowEvents(|s.rows.rest| + 1));
      t == s.(rows := Pending, file := None,
              exported := s.file.value + Lines(s.rows.rest),
              count := s.count + |Lines(s.rows.rest)|,
              result := Some(Ok(())))
      && StatusOf(t) == Complete(Ok(()))
  {
    var n := |s.rows.rest|;
    DrainPrefix(s, n);
    assert RowEvents(n + 1)[..n] == RowEvents(n);
    assert s.rows.rest[..n] == s.rows.rest;
    var t := Run(s, RowEvents(n));
    assert t.rows == Live([]) && t.file == Some(s.file.value + Lines(s.rows.rest));
    assert Run(s, RowEvents(n + 1)) == RowNext(t, None);
  }

  lemma {:induction false} LinesOfContacts(rows: seq<Row>)
    requires forall i :: 0 <= i < |rows| ==> rows[i].Ok?
    ensures |Lines(rows)| == |rows|
    ensures forall i :: 0 <= i < |rows| ==> Lines(rows)[i] == CsvLine(rows[i].value)
  {
    if rows != [] {
      var prev := rows[..|rows| - 1];
      assert forall i :: 0 <= i < |prev| ==> prev[i] == rows[i];
      LinesOfContacts(prev);
      var line := CsvLine(rows[|rows| - 1].value);
      assert Lines(rows) == Lines(prev) + [line];
      forall i | 0 <= i < |rows|
        ensures Lines(rows)[i] == CsvLine(rows[i].value)
      {
        if i < |prev| {
          assert Lines(rows)[i] == Lines(prev)[i];
        }
      }
    }
  }

  /** A whole export: a successful start over `all`, then the stream is
      drained with every write succeeding. The file on disk then holds one
      line per contact of the stream, in order, and no header line. */
  lemma ExportRun(s: Locals, n: nat, all: seq<Row>)
    requires Consistent(s)
    ensures var t := Run(s, [StartEv(Ok(n), None, all)] + RowEvents(|all| + 1));
      t.exported == Lines(all) && t.count == |Lines(all)| && t.total == n
      && t.file == None && t.rows == Pending && StatusOf(t) == Complete(Ok(()))
    ensures (forall i :: 0 <= i < |all| ==> all[i].Ok?) ==>
      var t := Run(s, [StartEv(Ok(n), None, all)] + RowEvents(|all| + 1));
      |t.exported| == |all| && forall i :: 0 <= i < |all| ==> t.exported[i] == CsvLine(all[i].value)
  {
    var start := [StartEv(Ok(n), None, all)];
    var s1 := StartNext(s, Ok(n), None, all);
    assert Run(s, start) == Step(Run(s, []), start[0]) == s1;
    assert s1.rows.rest == all && s1.file == Some([]) && s1.count == 0 && s1.total == n;
    RunAppend(s, start, RowEvents(|all| + 1));
    DrainAll(s1);
    assert [] + Lines(all) == Lines(all);
    if forall i :: 0 <= i < |all| ==> all[i].Ok? {
      var t := Run(s, [StartEv(Ok(n), None, all)] + RowEvents(|all| + 1));
      LinesOfContacts(all);
      assert t.exported == Lines(all);
    }
  }

  /** A row error is reported as `Complete(Err(_))` as soon as it is
      consumed, yet the stream goes on being consumed. */
  lemma RowErrorKeepsConsuming(s: Locals, k: nat)
    requires Consistent(s) && s.running && s.rows.Live? && k < |s.rows.rest|
    requires s.rows.rest[k].Err?
    ensures var t := Run(s, RowEvents(k + 1));
      StatusOf(t) == Complete(Err(s.rows.rest[k].error)) && CanConsume(t)
  {
    DrainPrefix(s, k + 1);
    var done := s.rows.rest[..k + 1];
    assert done[|done| - 1] == s.rows.rest[k];
  }

  /** The worker loop, with its locals as fields. */
  class Worker {
    var running: bool
    var count: nat
    var total: nat
    var result: Option<Result<(), Error>>
    var file: Option<seq<string>>
    var rows: RowStream
    var exported: seq<string>

    ghost function Snapshot(): Locals
      reads this
    {
      Locals(running, count, total, result, file, rows, exported)
    }

    ghost predicate Valid()
      reads this
    {
      Consistent(Snapshot())
    }

    /** The worker as spawned: stopped, nothing stored, no file open, a
        pending stream; `onDisk` is what the export file already holds. */
    constructor (onDisk: seq<string>)
      ensures Valid() && Snapshot() == Initial(onDisk)
    {
      running, count, total, result := false, 0, 0, None;
      file, rows, exported := None, Pending, onDisk;
    }

    /** `Start`: `counted` is the outcome of counting the contacts,
        `created` that of creating the export file, `all` the contact
        stream. */
    method Start(counted: Result<nat, Error>, created: Option<IoError>, all: seq<Row>)
      requires Valid()
      modifies this
      ensures Valid() && Snapshot() == StartNext(old(Snapshot()), counted, created, all)
      ensures running
      ensures counted.Err? ==>
        && result == Some(Err(counted.error))
        && count == old(count) && total == old(total) && file == old(file) && rows == old(rows)
      ensures counted.Ok? && created.Some? ==>
        && result == Some(Err(Io(created.value)))
        && count == 0 && total == counted.value && file == old(file) && rows == old(rows)
      ensures counted.Ok? && created.None? ==>
        && result == None
        && count == 0 && total == counted.value && file == Some([]) && exported == [] && rows == Live(all)
    {
      result := None;
      running := true;
      match counted {
        case Err(e) =>
          result := Some(Err(e));
          return;
        case Ok(n) =>
          total := n;
      }
      count := 0;
      match created {
        case Some(e) =>
          result := Some(Err(Io(e)));
          return;
        case None =>
      }
      file := Some([]);
      exported := [];
      rows := Live(all);
    }

    /** `GetStatus`: a stored result wins, then a stopped worker reports
        `Waiting`, else the progress pair. Nothing changes. */
    method GetStatus() returns (st: ArchiverStatus)
      ensures st == StatusOf(Snapshot())
      ensures result.Some? ==> st == Complete(result.value)
      ensures result.None? && !running ==> st == Waiting
      ensures result.None? && running ==> st == Running(count, total)
    {
      match result {
        case Some(res) => st := Complete(res);
        case None => st := if running then Running(count, total) else Waiting;
      }
    }

    /** `Reset`: forgets the stored result and stops consumption; the
        counters, the file and the stream are left as they are. */
    method Reset()
      requires Valid()
      modifies this
      ensures Valid() && Snapshot() == ResetNext(old(Snapshot()))
      ensures result == None && !running
      ensures count == old(count) && total == old(total) && file == old(file)
      ensures rows == old(rows) && exported == old(exported)
    {
      result := None;
      running := false;
    }

    /** The stream branch of the loop: when enabled, consumes the next item
        of the stream; `written` is the outcome of writing its line. */
    method StepRow(written: Option<IoError>) returns (consumed: bool)
      requires Valid()
      modifies this
      ensures Valid() && Snapshot() == RowNext(old(Snapshot()), written)
      ensures consumed == (old(running) && old(rows).Live?)
      ensures !consumed ==> Snapshot() == old(Snapshot())
      ensures running == old(running) && total == old(total)
      ensures consumed && old(rows).rest == [] ==>
        && file == None && exported == old(file).value && rows == Pending && result == Some(Ok(()))
      ensures consumed && old(rows).rest != [] ==> rows == Live(old(rows).rest[1..])
      ensures consumed && old(rows).rest != [] && old(rows).rest[0].Err? ==>
        && result == Some(Err(old(rows).rest[0].error)) && file == old(file) && count == old(count)
      ensures consumed && old(rows).rest != [] && old(rows).rest[0].Ok? && written.Some? ==>
        && result == Some(Err(Io(written.value))) && file == old(file) && count == old(count)
      ensures consumed && old(rows).rest != [] && old(rows).rest[0].Ok? && written.None? ==>
        && result == old(result) && count == old(count) + 1
        && file == Some(old(file).value + [CsvLine(old(rows).rest[0].value)])
    {
      consumed := running && rows.Live?;
      if !consumed {
        return;
      }
      var rest := rows.rest;
      if rest == [] {
        exported := file.value;
        file := None;
        rows := Pending;
        result := Some(Ok(()));
        return;
      }
      rows := Live(rest[1..]);
      match rest[0] {
        case Err(e) =>
          result := Some(Err(e));
        case Ok(c) =>
          var line := CsvLine(c);
          match written {
            case Some(e) =>
              result := Some(Err(Io(e)));
            case None =>
              file := Some(file.value + [line]);
              count := count + 1;
          }
      }
    }

    /** The loop itself, over a caller-chosen order of events; returns the
        replies to the status queries. */
    method Work(events: seq<Event>) returns (replies: seq<ArchiverStatus>)
      requires Valid()
      modifies this
      ensures Valid() && Snapshot() == Run(old(Snapshot()), events)
      ensures replies == Replies(old(Snapshot()), events)
    {
      ghost var s0 := Snapshot();
      replies := [];
      var i := 0;
      while i < |events|
        invariant 0 <= i <= |events| && Valid()
        invariant Snapshot() == Run(s0, events[..i])
        invariant replies == Replies(s0, events[..i])
      {
        assert events[..i + 1][..i] == events[..i];
        match events[i] {
          case StartEv(counted, created, all) =>
            Start(counted, created, all);
          case ResetEv =>
            Reset();
          case StatusEv =>
            var st := GetStatus();
            replies := replies + [st];
          case RowEv(written) =>
            var _ := StepRow(written);
        }
        i := i + 1;
      }
      assert events[..|events|] == events;
    }
  }
}
