/** The temp-file store of the bootstrap server under concurrent writers
    (crates/bootstrap_srv/src/store.rs). Each call of `write` takes several steps, and the steps of
    different threads interleave freely. */
module TempStore {
  import opened Wrappers

  type Bytes = seq<bv8>

  const MAX_PER_TEMPFILE: nat := 10_485_760

  /** A write handle: its file and the position of its stream. */
  datatype Writer = Writer(file: nat, pos: nat)

  /** A reference to data written earlier. */
  datatype EntryRef = EntryRef(file: nat, offset: nat, length: nat) {
    function End(): nat {
      offset + length
    }
  }

  datatype Issued = Issued(entry: EntryRef, content: Bytes)

  /** Where a thread is inside `write`. */
  datatype Phase =
    | Holding(writer: Writer, content: Bytes)
    | Written(writer: Writer, issued: Issued)

  /** The files, the pool of idle writers, the threads inside `write`, all data ever written in the order
      of writing, and the references handed out. */
  datatype State = State(files: seq<Bytes>, pool: seq<Writer>, threads: map<nat, Phase>, log: seq<Issued>,
                         returned: set<Issued>)

  /** Writing at a position overwrites what is there. */
  function WriteAt(file: Bytes, pos: nat, content: Bytes): Bytes
    requires pos <= |file|
  {
    file[..pos] + content + if pos + |content| <= |file| then file[pos + |content|..] else []
  }

  /** `StoreEntryRef::read`, which fails if the file is too short. */
  function Read(files: seq<Bytes>, entry: EntryRef): Result<Bytes> {
    if entry.file < |files| && entry.End() <= |files[entry.file]|
    then Ok(files[entry.file][entry.offset..entry.End()])
    else Err
  }

  datatype Event =
    | Begin(thread: nat, content: Bytes)
    | Append(thread: nat)
    | Finish(thread: nat)
    | Fail(thread: nat, wrote: nat)

  ghost predicate Next(s: State, e: Event, s': State) {
    match e
    case Begin(t, content) =>
      && t !in s.threads
      && (if s.pool != []
          then s' == s.(pool := s.pool[1..], threads := s.threads[t := Holding(s.pool[0], content)])
          else s' == s.(files := s.files + [[]], threads := s.threads[t := Holding(Writer(|s.files|, 0), content)]))
    case Append(t) =>
      && t in s.threads && s.threads[t].Holding?
      && var w, content := s.threads[t].writer, s.threads[t].content;
      && w.file < |s.files| && w.pos <= |s.files[w.file]|
      && var issued := Issued(EntryRef(w.file, w.pos, |content|), content);
      s' == s.(files := s.files[w.file := WriteAt(s.files[w.file], w.pos, content)],
               threads := s.threads[t := Written(Writer(w.file, w.pos + |content|), issued)],
               log := s.log + [issued])
    case Finish(t) =>
      && t in s.threads && s.threads[t].Written?
      && var w, issued := s.threads[t].writer, s.threads[t].issued;
      s' == s.(pool := if issued.entry.End() < MAX_PER_TEMPFILE then s.pool + [w] else s.pool,
               threads := s.threads - {t},
               returned := s.returned + {issued})
    case Fail(t, wrote) =>
      // a failing write may leave part of its content behind; its writer is dropped
      && t in s.threads
      && (if s.threads[t].Holding?
          then var w, content := s.threads[t].writer, s.threads[t].content;
               && wrote <= |content| && w.file < |s.files| && w.pos <= |s.files[w.file]|
               && s' == s.(files := s.files[w.file := WriteAt(s.files[w.file], w.pos, content[..wrote])],
                           threads := s.threads - {t})
          else s' == s.(threads := s.threads - {t}))
  }

  // ---------------------------------------------------------------- what every step keeps

  predicate AtEnd(w: Writer, files: seq<Bytes>) {
    w.file < |files| && w.pos == |files[w.file]|
  }

  /** No file has two writers, be they idle or in use, and each stands at the end of its file. */
  ghost predicate OneWriterEach(s: State) {
    && (forall i :: 0 <= i < |s.pool| ==> AtEnd(s.pool[i], s.files))
    && (forall t :: t in s.threads ==> AtEnd(s.threads[t].writer, s.files))
    && (forall i, j :: 0 <= i < j < |s.pool| ==> s.pool[i].file != s.pool[j].file)
    && (forall t, u :: t in s.threads && u in s.threads && t != u ==>
          s.threads[t].writer.file != s.threads[u].writer.file)
    && (forall i, t :: 0 <= i < |s.pool| && t in s.threads ==> s.pool[i].file != s.threads[t].writer.file)
  }

  /** Data written reads back, and in one file later data starts after earlier data. */
  ghost predicate Intact(log: seq<Issued>, files: seq<Bytes>) {
    && (forall k :: 0 <= k < |log| ==> Read(files, log[k].entry) == Ok(log[k].content))
    && (forall k, l :: 0 <= k < l < |log| && log[k].entry.file == log[l].entry.file ==>
          log[k].entry.End() <= log[l].entry.offset)
  }

  ghost predicate Invariant(s: State) {
    && OneWriterEach(s) && Intact(s.log, s.files)
    && (forall issued :: issued in s.returned ==> issued in s.log)
    && (forall t :: t in s.threads && s.threads[t].Written? ==> s.threads[t].issued in s.log)
  }

  /** Appending to a file spoils nothing that was written before. */
  lemma AppendSpoilsNothing(log: seq<Issued>, files: seq<Bytes>, f: nat, content: Bytes)
    requires Intact(log, files) && f < |files|
    ensures WriteAt(files[f], |files[f]|, content) == files[f] + content
    ensures Intact(log, files[f := files[f] + content])
  {
    var files' := files[f := files[f] + content];
    forall k | 0 <= k < |log|
      ensures Read(files', log[k].entry) == Ok(log[k].content)
    {
      assert Read(files, log[k].entry) == Ok(log[k].content);
      var e := log[k].entry;
      if e.file == f {
        assert files'[f][e.offset..e.End()] == files[f][e.offset..e.End()];
      }
    }
  }

  lemma LogOneMore(log: seq<Issued>, files: seq<Bytes>, f: nat, content: Bytes)
    requires Intact(log, files) && f < |files|
    ensures Intact(log + [Issued(EntryRef(f, |files[f]|, |content|), content)], files[f := files[f] + content])
  {
    AppendSpoilsNothing(log, files, f, content);
    var files' := files[f := files[f] + content];
    var entry := EntryRef(f, |files[f]|, |content|);
    assert files'[f][entry.offset..entry.End()] == content;
    forall k | 0 <= k < |log| && log[k].entry.file == f
      ensures log[k].entry.End() <= entry.offset
    {
      assert Read(files, log[k].entry) == Ok(log[k].content);
    }
  }

  lemma NewFileSpoilsNothing(log: seq<Issued>, files: seq<Bytes>)
    requires Intact(log, files)
    ensures Intact(log, files + [[]])
  {
    forall k | 0 <= k < |log|
      ensures Read(files + [[]], log[k].entry) == Ok(log[k].content)
    {
      assert Read(files, log[k].entry) == Ok(log[k].content);
    }
  }

  lemma BeginKeeps(s: State, e: Event, s': State)
    requires e.Begin? && Invariant(s) && Next(s, e, s')
    ensures Invariant(s')
  {
    NewFileSpoilsNothing(s.log, s.files);
    if s.pool == [] {
      assert forall t :: t in s.threads ==> AtEnd(s.threads[t].writer, s.files);
    } else {
      assert AtEnd(s.pool[0], s.files);
      assert forall i :: 0 <= i < |s'.pool| ==> s'.pool[i] == s.pool[i + 1];
    }
  }

  lemma AppendKeeps(s: State, e: Event, s': State)
    requires e.Append? && Invariant(s) && Next(s, e, s')
    ensures Invariant(s')
  {
    var t := e.thread;
    var w, content := s.threads[t].writer, s.threads[t].content;
    assert AtEnd(w, s.files);
    AppendSpoilsNothing(s.log, s.files, w.file, content);
    LogOneMore(s.log, s.files, w.file, content);
    OthersUndisturbed(s, t, s.files[w.file] + content);
    assert AtEnd(s'.threads[t].writer, s'.files);
  }

  lemma FinishKeeps(s: State, e: Event, s': State)
    requires e.Finish? && Invariant(s) && Next(s, e, s')
    ensures Invariant(s')
  {
    assert AtEnd(s.threads[e.thread].writer, s.files);
    assert forall i :: 0 <= i < |s.pool| ==> s.pool[i].file != s.threads[e.thread].writer.file;
  }

  lemma FailKeeps(s: State, e: Event, s': State)
    requires e.Fail? && Invariant(s) && Next(s, e, s')
    ensures Invariant(s')
  {
    var t := e.thread;
    var w := s.threads[t].writer;
    assert AtEnd(w, s.files);
    if s.threads[t].Holding? {
      var part := s.threads[t].content[..e.wrote];
      AppendSpoilsNothing(s.log, s.files, w.file, part);
      OthersUndisturbed(s, t, s.files[w.file] + part);
    }
  }

  /** Changing the file of one thread leaves all other writers at the ends of theirs. */
  lemma OthersUndisturbed(s: State, t: nat, file: Bytes)
    requires OneWriterEach(s) && t in s.threads
    ensures var f := s.threads[t].writer.file;
            && f < |s.files|
            && (forall i :: 0 <= i < |s.pool| ==> AtEnd(s.pool[i], s.files[f := file]))
            && (forall u :: u in s.threads && u != t ==> AtEnd(s.threads[u].writer, s.files[f := file]))
  {
    var f := s.threads[t].writer.file;
    assert AtEnd(s.threads[t].writer, s.files);
    forall i | 0 <= i < |s.pool|
      ensures AtEnd(s.pool[i], s.files[f := file])
    {
      assert AtEnd(s.pool[i], s.files) && s.pool[i].file != f;
    }
    forall u | u in s.threads && u != t
      ensures AtEnd(s.threads[u].writer, s.files[f := file])
    {
      assert AtEnd(s.threads[u].writer, s.files) && s.threads[u].writer.file != f;
    }
  }

  lemma StepKeeps(s: State, e: Event, s': State)
    requires Invariant(s) && Next(s, e, s')
    ensures Invariant(s') && s.returned <= s'.returned
  {
    match e {
      case Begin(_, _) => BeginKeeps(s, e, s');
      case Append(_) => AppendKeeps(s, e, s');
      case Finish(_) => FinishKeeps(s, e, s');
      case Fail(_, _) => FailKeeps(s, e, s');
    }
  }

  // ---------------------------------------------------------------- sizes and reuse

  /** Ten mebibytes, after which a file is not written to again. */
  const LIMIT: nat := 10 * 1024 * 1024

  /** Only files below the limit are written to, by idle or by busy writers, and so it has been with all data. */
  ghost predicate BelowLimit(s: State) {
    && (forall i :: 0 <= i < |s.pool| ==> s.pool[i].pos < LIMIT)
    && (forall t :: t in s.threads && s.threads[t].Holding? ==> s.threads[t].writer.pos < LIMIT)
    && (forall t :: t in s.threads && s.threads[t].Written? ==>
          s.threads[t].issued.entry.End() == s.threads[t].writer.pos)
    && (forall k :: 0 <= k < |s.log| ==> s.log[k].entry.offset < LIMIT)
  }

  lemma StepBelowLimit(s: State, e: Event, s': State)
    requires BelowLimit(s) && Next(s, e, s')
    ensures BelowLimit(s')
  {
  }

  /** A file has a writer, idle or busy. */
  ghost predicate HasWriter(s: State, f: nat) {
    (exists i :: 0 <= i < |s.pool| && s.pool[i].file == f) ||
    (exists t :: t in s.threads && s.threads[t].writer.file == f)
  }

  /** No file that has room is given up. */
  ghost predicate NoneGivenUp(s: State) {
    forall f: nat :: f < |s.files| ==> HasWriter(s, f) || |s.files[f]| >= LIMIT
  }

  /** A file is made only when no writer is idle; and as long as nothing fails, no file with room is given up. */
  lemma StepReuses(s: State, e: Event, s': State)
    requires Invariant(s) && BelowLimit(s) && NoneGivenUp(s) && Next(s, e, s')
    ensures |s'.files| == |s.files| + if e.Begin? && s.pool == [] then 1 else 0
    ensures !e.Fail? ==> NoneGivenUp(s')
  {
    if !e.Fail? {
      forall f: nat | f < |s'.files|
        ensures HasWriter(s', f) || |s'.files[f]| >= LIMIT
      {
        WriterKept(s, e, s', f);
      }
    }
  }

  lemma WriterKept(s: State, e: Event, s': State, f: nat)
    requires Invariant(s) && BelowLimit(s) && NoneGivenUp(s) && Next(s, e, s') && !e.Fail? && f < |s'.files|
    ensures HasWriter(s', f) || |s'.files[f]| >= LIMIT
  {
    match e {
      case Begin(t, _) =>
        assert s'.threads[t].writer.file == f || f < |s.files|;
        if f < |s.files| && HasWriter(s, f) {
          if i :| 0 <= i < |s.pool| && s.pool[i].file == f {
            assert if i == 0 then s'.threads[t].writer.file == f else s'.pool[i - 1].file == f;
          } else {
            var u :| u in s.threads && s.threads[u].writer.file == f;
            assert u in s'.threads && s'.threads[u].writer.file == f;
          }
        }
      case Append(t) =>
        assert AtEnd(s.threads[t].writer, s.files);
        if HasWriter(s, f) {
          if i :| 0 <= i < |s.pool| && s.pool[i].file == f {
            assert s'.pool[i].file == f;
          } else {
            var u :| u in s.threads && s.threads[u].writer.file == f;
            assert u in s'.threads && s'.threads[u].writer.file == f;
          }
        } else {
          assert f != s.threads[t].writer.file;
        }
      case Finish(t) =>
        assert AtEnd(s.threads[t].writer, s.files);
        if HasWriter(s, f) {
          if i :| 0 <= i < |s.pool| && s.pool[i].file == f {
            assert s'.pool[i].file == f;
          } else {
            var u :| u in s.threads && s.threads[u].writer.file == f;
            if u != t {
              assert u in s'.threads && s'.threads[u].writer.file == f;
            } else if s.threads[t].issued.entry.End() < LIMIT {
              assert s'.pool[|s.pool|].file == f;
            }
          }
        }
    }
  }

  /** In every run data is only ever written below the limit; and until something fails every file below the limit
      has a writer to be used again. */
  lemma {:induction false} RunReuses(states: seq<State>, events: seq<Event>, i: nat)
    requires IsRun(states, events) && i <= |events|
    ensures BelowLimit(states[i])
    ensures (forall j :: 0 <= j < i ==> !events[j].Fail?) ==> NoneGivenUp(states[i])
  {
    if i > 0 {
      RunReuses(states, events, i - 1);
      RunKeeps(states, events, i - 1);
      StepBelowLimit(states[i - 1], events[i - 1], states[i]);
      if forall j :: 0 <= j < i ==> !events[j].Fail? {
        StepReuses(states[i - 1], events[i - 1], states[i]);
      }
    }
  }

  // ---------------------------------------------------------------- runs

  ghost predicate IsRun(states: seq<State>, events: seq<Event>) {
    && |states| == |events| + 1
    && states[0] == State([], [], map[], [], {})
    && forall i :: 0 <= i < |events| ==> Next(states[i], events[i], states[i + 1])
  }

  lemma {:induction false} RunKeeps(states: seq<State>, events: seq<Event>, i: nat)
    requires IsRun(states, events) && i <= |events|
    ensures Invariant(states[i])
  {
    if i > 0 {
      RunKeeps(states, events, i - 1);
      StepKeeps(states[i - 1], events[i - 1], states[i]);
    }
  }

  lemma {:induction false} ReturnedStays(states: seq<State>, events: seq<Event>, i: nat, j: nat, issued: Issued)
    requires IsRun(states, events) && i <= j <= |events| && issued in states[i].returned
    ensures issued in states[j].returned
    decreases j
  {
    if i < j {
      ReturnedStays(states, events, i, j - 1, issued);
      RunKeeps(states, events, j - 1);
      StepKeeps(states[j - 1], events[j - 1], states[j]);
    }
  }

  /** Under every interleaving, a reference once handed out reads back exactly its own bytes at every
      later time, and two different ones in one file never overlap. */
  lemma ReadsBackForever(states: seq<State>, events: seq<Event>, i: nat, j: nat, a: Issued, b: Issued)
    requires IsRun(states, events) && i <= j <= |events| && a in states[i].returned && b in states[i].returned
    ensures Read(states[j].files, a.entry) == Ok(a.content)
    ensures a != b && a.entry.file == b.entry.file ==>
              a.entry.End() <= b.entry.offset || b.entry.End() <= a.entry.offset
  {
    ReturnedStays(states, events, i, j, a);
    ReturnedStays(states, events, i, j, b);
    RunKeeps(states, events, j);
    var log := states[j].log;
    var k :| 0 <= k < |log| && log[k] == a;
    var l :| 0 <= l < |log| && log[l] == b;
  }
}
