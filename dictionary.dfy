/**
 * The dictionary attack of a "full" task (dictionary_attack in
 * collisionAttackTask_CPU.cpp): every line of every dictionary file is a
 * candidate, and a checkpoint "file;line" names the first line not yet
 * evaluated.
 */
module Dictionary {
  import opened Wrappers
  import opened Strings
  import opened Alphabets
  import opened AttackState

  /** A dictionary file: its name in the dictionary directory and its lines. */
  datatype DictFile = DictFile(name: string, lines: seq<string>)

  /** A candidate read from a dictionary: its file, its 0-based line number and the word on that line. */
  datatype Entry = Entry(file: string, line: nat, word: string)

  /** The place a checkpoint asks to resume at. */
  datatype ResumePoint = ResumePoint(file: string, line: nat)

  /** A directory listing never names a file twice. */
  predicate UniqueNames(dicts: seq<DictFile>) {
    forall i, j :: 0 <= i < j < |dicts| ==> dicts[i].name != dicts[j].name
  }

  /**
   * The resume point of a task's milestone: present only for a non-empty
   * milestone that splits on ';' into exactly two parts, a non-empty file
   * name and a decimal line number that fits 32 bits.
   */
  function ParseMilestone(milestone: string): (r: Option<ResumePoint>)
    ensures r.Some? ==> |Split(milestone, ';')| == 2 && r.value.file == Split(milestone, ';')[0]
    ensures r.Some? ==> r.value.file != "" && ';' !in r.value.file && r.value.line < UIntLimit
    ensures r.Some? ==> ParseUInt(Split(milestone, ';')[1]) == Some(r.value.line)
    ensures r.None? ==>
      milestone == "" || |Split(milestone, ';')| != 2 || Split(milestone, ';')[0] == "" ||
      ParseUInt(Split(milestone, ';')[1]).None?
  {
    SplitParts(milestone, ';');
    if milestone == "" then None
    else
      var parts := Split(milestone, ';');
      if |parts| == 2 && parts[0] != "" && ParseUInt(parts[1]).Some? then
        Some(ResumePoint(parts[0], ParseUInt(parts[1]).value))
      else None
  }

  /** The checkpoint text of an entry: "file;line". */
  function Mark(e: Entry): string {
    e.file + ";" + NumberToString(e.line)
  }

  /**
   * The checkpoint of an entry whose file name is non-empty and free of ';'
   * and whose line number fits 32 bits parses back to that entry's place.
   */
  lemma MarkRoundTrip(e: Entry)
    requires e.file != "" && ';' !in e.file && e.line < UIntLimit
    ensures ParseMilestone(Mark(e)) == Some(ResumePoint(e.file, e.line))
  {
    var digits := NumberToString(e.line);
    NumberHasOnlyDigits(e.line, ';');
    SplitConcat(e.file, digits, ';');
    SplitNoSep(digits, ';');
    NumberParseRoundTrip(e.line);
    assert Split(Mark(e), ';') == [e.file, digits];
  }

  /** A file name holding ';' gives a checkpoint that does not count, so resuming from it starts afresh. */
  lemma MarkWithSeparator(e: Entry)
    requires ';' in e.file
    ensures ParseMilestone(Mark(e)) == None
  {
    var k :| 0 <= k < |e.file| && e.file[k] == ';';
    var m := Mark(e);
    assert m[k] == ';' && m[|e.file|] == ';';
    var i := NextSep(m, ';');
    assert i <= k;
    var tail := m[i + 1..];
    assert Split(m, ';') == [m[..i]] + Split(tail, ';');
    assert tail[|e.file| - i - 1] == ';';
    assert NextSep(tail, ';') <= |e.file| - i - 1;
    assert |Split(tail, ';')| >= 2;
  }

  /** Every line of a file, in order, as entries. */
  function FileEntries(f: DictFile): (r: seq<Entry>)
    ensures |r| == |f.lines|
    ensures forall k :: 0 <= k < |r| ==> r[k] == Entry(f.name, k, f.lines[k])
  {
    seq(|f.lines|, k requires 0 <= k < |f.lines| => Entry(f.name, k, f.lines[k]))
  }

  /** Every line of every file, file by file. */
  function AllEntries(dicts: seq<DictFile>): seq<Entry>
    decreases |dicts|
  {
    if |dicts| == 0 then [] else FileEntries(dicts[0]) + AllEntries(dicts[1..])
  }

  /**
   * The first line of a file that dictionary_attack evaluates, given whether
   * evaluation is enabled on opening it: line 0 when it is, and otherwise the
   * paused line, where evaluation switches on (past the end when the file has
   * no such line).
   */
  function RestStart(f: DictFile, enabled: bool, pausedLine: nat): (start: nat)
    ensures start <= |f.lines|
  {
    if enabled then 0 else if pausedLine < |f.lines| then pausedLine else |f.lines|
  }

  /** The entries of a file that dictionary_attack evaluates: those from its start line on. */
  function FileRest(f: DictFile, enabled: bool, pausedLine: nat): seq<Entry> {
    FileEntries(f)[RestStart(f, enabled, pausedLine)..]
  }

  /** Whether evaluation is enabled after reading a file: it was already, or the file has the paused line. */
  function EnabledAfter(f: DictFile, enabled: bool, pausedLine: nat): bool {
    enabled || pausedLine < |f.lines|
  }

  /**
   * The entries dictionary_attack evaluates from the files `dicts` on when
   * every poll reads "run": while evaluation is disabled only a file named
   * `pausedFile` is read, and its lines before `pausedLine` are skipped.
   */
  function Schedule(dicts: seq<DictFile>, enabled: bool, pausedFile: string, pausedLine: nat): seq<Entry>
    decreases |dicts|
  {
    if |dicts| == 0 then []
    else if !(enabled || pausedFile == dicts[0].name) then Schedule(dicts[1..], enabled, pausedFile, pausedLine)
    else
      FileRest(dicts[0], enabled, pausedLine) +
      Schedule(dicts[1..], EnabledAfter(dicts[0], enabled, pausedLine), pausedFile, pausedLine)
  }

  /** The entries a dictionary attack with milestone `milestone` evaluates when every poll reads "run". */
  function DictSchedule(dicts: seq<DictFile>, milestone: string): seq<Entry> {
    match ParseMilestone(milestone)
    case None => Schedule(dicts, true, "", 0)
    case Some(p) => Schedule(dicts, false, p.file, p.line)
  }

  function Words(sched: seq<Entry>): (r: seq<string>)
    ensures |r| == |sched| && forall k :: 0 <= k < |r| ==> r[k] == sched[k].word
  {
    seq(|sched|, k requires 0 <= k < |sched| => sched[k].word)
  }

  function Marks(sched: seq<Entry>): (r: seq<string>)
    ensures |r| == |sched| && forall k :: 0 <= k < |r| ==> r[k] == Mark(sched[k])
  {
    seq(|sched|, k requires 0 <= k < |sched| => Mark(sched[k]))
  }

  /** With evaluation enabled, every line of every file is evaluated, in order. */
  lemma {:induction false} ScheduleEnabled(dicts: seq<DictFile>, pausedFile: string, pausedLine: nat)
    ensures Schedule(dicts, true, pausedFile, pausedLine) == AllEntries(dicts)
    decreases |dicts|
  {
    if |dicts| > 0 {
      assert FileRest(dicts[0], true, pausedLine) == FileEntries(dicts[0]);
      ScheduleEnabled(dicts[1..], pausedFile, pausedLine);
    }
  }

  /** The entries of the files `dicts` name those files. */
  lemma {:induction false} AllEntriesFiles(dicts: seq<DictFile>, k: nat)
    requires k < |AllEntries(dicts)|
    ensures exists j :: 0 <= j < |dicts| && AllEntries(dicts)[k].file == dicts[j].name
    decreases |dicts|
  {
    var n := |dicts[0].lines|;
    if k >= n {
      AllEntriesFiles(dicts[1..], k - n);
      var j :| 0 <= j < |dicts[1..]| && AllEntries(dicts[1..])[k - n].file == dicts[1..][j].name;
      assert AllEntries(dicts)[k] == AllEntries(dicts[1..])[k - n];
      assert dicts[1..][j] == dicts[j + 1];
    }
  }

  /** A milestone that does not count makes the attack evaluate every line of every file. */
  lemma FreshSchedule(dicts: seq<DictFile>, milestone: string)
    requires ParseMilestone(milestone).None?
    ensures DictSchedule(dicts, milestone) == AllEntries(dicts)
  {
    ScheduleEnabled(dicts, "", 0);
  }

  /**
   * In a listing without repeated names, resuming at the place of the idx-th
   * entry of the complete enumeration evaluates exactly the entries from
   * that one on.
   */
  lemma {:induction false} ResumeAt(dicts: seq<DictFile>, p: ResumePoint, idx: nat)
    requires UniqueNames(dicts)
    requires idx < |AllEntries(dicts)|
    requires AllEntries(dicts)[idx].file == p.file && AllEntries(dicts)[idx].line == p.line
    ensures Schedule(dicts, false, p.file, p.line) == AllEntries(dicts)[idx..]
    decreases |dicts|
  {
    var f, rest := dicts[0], dicts[1..];
    var n := |f.lines|;
    assert AllEntries(dicts) == FileEntries(f) + AllEntries(rest);
    assert UniqueNames(rest) by {
      forall i, j | 0 <= i < j < |rest| ensures rest[i].name != rest[j].name {
        assert rest[i] == dicts[i + 1] && rest[j] == dicts[j + 1];
      }
    }
    if idx < n {
      assert p.line == idx;
      ScheduleEnabled(rest, p.file, p.line);
      assert FileEntries(f)[idx..] + AllEntries(rest) == AllEntries(dicts)[idx..];
    } else {
      assert AllEntries(dicts)[idx] == AllEntries(rest)[idx - n];
      AllEntriesFiles(rest, idx - n);
      var j :| 0 <= j < |rest| && AllEntries(rest)[idx - n].file == rest[j].name;
      assert rest[j] == dicts[j + 1];
      assert f.name != p.file;
      ResumeAt(rest, p, idx - n);
      assert AllEntries(rest)[idx - n..] == AllEntries(dicts)[idx..];
    }
  }

  /** The l-th line of the j-th file is an entry of the complete enumeration. */
  lemma {:induction false} EntryIndex(dicts: seq<DictFile>, j: nat, l: nat) returns (k: nat)
    requires j < |dicts| && l < |dicts[j].lines|
    ensures k < |AllEntries(dicts)| && AllEntries(dicts)[k] == Entry(dicts[j].name, l, dicts[j].lines[l])
    decreases j
  {
    var n := |dicts[0].lines|;
    if j == 0 {
      k := l;
    } else {
      var k' := EntryIndex(dicts[1..], j - 1, l);
      assert dicts[1..][j - 1] == dicts[j];
      k := n + k';
    }
  }

  /** Resuming at a line that no file of that name has evaluates nothing. */
  lemma {:induction false} ResumeMissing(dicts: seq<DictFile>, p: ResumePoint)
    requires forall j :: 0 <= j < |dicts| && dicts[j].name == p.file ==> |dicts[j].lines| <= p.line
    ensures Schedule(dicts, false, p.file, p.line) == []
    decreases |dicts|
  {
    if |dicts| > 0 {
      var rest := dicts[1..];
      forall j | 0 <= j < |rest| && rest[j].name == p.file ensures |rest[j].lines| <= p.line {
        assert rest[j] == dicts[j + 1];
      }
      ResumeMissing(rest, p);
    }
  }

  /** Whatever the milestone, the attack evaluates a suffix of the complete enumeration. */
  lemma ScheduleIsSuffix(dicts: seq<DictFile>, milestone: string) returns (idx: nat)
    requires UniqueNames(dicts)
    ensures idx <= |AllEntries(dicts)| && DictSchedule(dicts, milestone) == AllEntries(dicts)[idx..]
  {
    match ParseMilestone(milestone)
    case None =>
      FreshSchedule(dicts, milestone);
      idx := 0;
    case Some(p) =>
      if j :| 0 <= j < |dicts| && dicts[j].name == p.file && p.line < |dicts[j].lines| {
        idx := EntryIndex(dicts, j, p.line);
        ResumeAt(dicts, p, idx);
      } else {
        ResumeMissing(dicts, p);
        idx := |AllEntries(dicts)|;
      }
  }

  /**
   * A checkpoint saved at the k-th evaluation, given back as the milestone of
   * a new dictionary task, resumes exactly there: nothing is evaluated twice
   * and nothing is skipped. It needs file names without ';' and line numbers
   * below 2^32.
   */
  lemma SaveResumeRoundTrip(dicts: seq<DictFile>, milestone: string, k: nat)
    requires UniqueNames(dicts)
    requires k < |DictSchedule(dicts, milestone)|
    requires var e := DictSchedule(dicts, milestone)[k]; e.file != "" && ';' !in e.file && e.line < UIntLimit
    ensures DictSchedule(dicts, Mark(DictSchedule(dicts, milestone)[k])) == DictSchedule(dicts, milestone)[k..]
  {
    var idx := ScheduleIsSuffix(dicts, milestone);
    var all := AllEntries(dicts);
    var e := all[idx + k];
    assert DictSchedule(dicts, milestone)[k] == e;
    MarkRoundTrip(e);
    ResumeAt(dicts, ResumePoint(e.file, e.line), idx + k);
    assert all[idx..][k..] == all[idx + k..];
  }

  /** A suffix made of two parts holds the first part, followed by a suffix that is the second. */
  lemma SplitSuffix(sched: seq<Entry>, poll: nat, a: seq<Entry>, b: seq<Entry>)
    requires poll <= |sched| && sched[poll..] == a + b
    ensures poll + |a| <= |sched| && sched[poll..poll + |a|] == a && sched[poll + |a|..] == b
  {
    assert sched[poll..poll + |a|] == sched[poll..][..|a|];
    assert sched[poll + |a|..] == sched[poll..][|a|..];
  }

  /** The entry of the t-th evaluated line of a file, read from where the file's entries sit in `sched`. */
  lemma EntryAt(sched: seq<Entry>, poll: nat, f: DictFile, start: nat, t: nat)
    requires start <= |f.lines| && poll + (|f.lines| - start) <= |sched|
    requires sched[poll..poll + (|f.lines| - start)] == FileEntries(f)[start..]
    requires t < |f.lines| - start
    ensures sched[poll + t] == Entry(f.name, start + t, f.lines[start + t])
  {
    assert sched[poll..poll + (|f.lines| - start)][t] == FileEntries(f)[start..][t];
  }

  /**
   * The evaluation of line `linenum` of a file whose lines from `start` on
   * sit in `sched` from poll `first` on: one poll of the status, with the
   * line as the candidate and "file;line" as its checkpoint.
   */
  method EvaluateLine(f: DictFile, linenum: nat, ghost start: nat, heur: Heuristic,
                      engine: Engine, st: nat -> int, digest: (string, string) -> string,
                      ghost sched: seq<Entry>, ghost first: nat, poll: nat,
                      ghost found0: seq<string>, ghost count0: uint32, ghost to0: seq<Milestone>,
                      ghost hits: seq<string>, success: bool)
    returns (stopped: bool, ghost hits': seq<string>, success': bool)
    requires engine.target.Some? && start <= linenum < |f.lines|
    requires first + (|f.lines| - start) <= |sched|
    requires sched[first..first + (|f.lines| - start)] == FileEntries(f)[start..]
    requires poll == first + (linenum - start)
    requires engine.Progress(Words(sched), st, digest, found0, count0, to0, poll, hits, success)
    modifies engine`foundCollisions, engine`hitsNum, engine`milestonesToCache
    ensures stopped ==>
      engine.Polled(Words(sched), Marks(sched), st, heur, digest, found0, count0, to0, success')
    ensures !stopped ==>
      engine.Progress(Words(sched), st, digest, found0, count0, to0, poll + 1, hits', success')
  {
    var dicLine := f.lines[linenum];
    var mark := f.name + ";" + NumberToString(linenum);
    EntryAt(sched, first, f, start, linenum - start);
    assert Words(sched)[poll] == dicLine && Marks(sched)[poll] == mark;
    stopped, hits', success' :=
      engine.PollStep(Words(sched), Marks(sched), st, heur, digest, found0, count0, to0, poll,
                      dicLine, mark, hits, success);
  }

  /**
   * One line of the inner loop of dictionary_attack, line `linenum` of a file
   * whose first evaluated line is `start` and whose entries sit in `sched`
   * from poll `first` on: the line switches evaluation on when it is the
   * paused line, and with evaluation on it takes one poll of the status.
   */
  method ReadLine(f: DictFile, linenum: nat, ghost start: nat, enabled: bool, pausedLine: nat, heur: Heuristic,
                  engine: Engine, st: nat -> int, digest: (string, string) -> string,
                  ghost sched: seq<Entry>, ghost first: nat, poll: nat,
                  ghost found0: seq<string>, ghost count0: uint32, ghost to0: seq<Milestone>,
                  ghost hits: seq<string>, success: bool)
    returns (stopped: bool, enabled': bool, poll': nat, ghost hits': seq<string>, success': bool)
    requires engine.target.Some? && linenum < |f.lines| && start <= |f.lines|
    requires first + (|f.lines| - start) <= |sched|
    requires sched[first..first + (|f.lines| - start)] == FileEntries(f)[start..]
    requires enabled ==> start <= linenum && poll == first + (linenum - start)
    requires !enabled ==> poll == first && (start == linenum <==> pausedLine == linenum)
    requires engine.Progress(Words(sched), st, digest, found0, count0, to0, poll, hits, success)
    modifies engine`foundCollisions, engine`hitsNum, engine`milestonesToCache
    ensures stopped ==>
      engine.Polled(Words(sched), Marks(sched), st, heur, digest, found0, count0, to0, success')
    ensures !stopped ==>
      && (enabled' <==> enabled || pausedLine == linenum)
      && (enabled' ==> start <= linenum + 1 && poll' == first + (linenum + 1 - start))
      && (!enabled' ==> poll' == first)
      && engine.Progress(Words(sched), st, digest, found0, count0, to0, poll', hits', success')
  {
    stopped, enabled', poll', hits', success' := false, enabled, poll, hits, success;
    if !enabled' && pausedLine == linenum {
      enabled' := true;
    }
    if enabled' {
      stopped, hits', success' :=
        EvaluateLine(f, linenum, start, heur, engine, st, digest, sched, first, poll,
                     found0, count0, to0, hits, success);
      poll' := poll + 1;
    }
  }

  /**
   * The inner loop of dictionary_attack over one file, entered with
   * evaluation `enabled` or not; the file's entries sit in `sched` from poll
   * `poll` on. `stopped` tells that a poll read something other than "run";
   * the attack is then over, with the outcome `Polled` describes.
   */
  method ReadDictFile(f: DictFile, enabled: bool, pausedLine: nat, heur: Heuristic, engine: Engine,
                      st: nat -> int, digest: (string, string) -> string,
                      ghost sched: seq<Entry>, poll: nat,
                      ghost found0: seq<string>, ghost count0: uint32, ghost to0: seq<Milestone>,
                      ghost hits: seq<string>, success: bool)
    returns (stopped: bool, enabled': bool, poll': nat, ghost hits': seq<string>, success': bool)
    requires engine.target.Some?
    requires var n := |FileRest(f, enabled, pausedLine)|;
      poll + n <= |sched| && sched[poll..poll + n] == FileRest(f, enabled, pausedLine)
    requires engine.Progress(Words(sched), st, digest, found0, count0, to0, poll, hits, success)
    modifies engine`foundCollisions, engine`hitsNum, engine`milestonesToCache
    ensures stopped ==>
      engine.Polled(Words(sched), Marks(sched), st, heur, digest, found0, count0, to0, success')
    ensures !stopped ==>
      && enabled' == EnabledAfter(f, enabled, pausedLine)
      && poll' == poll + |FileRest(f, enabled, pausedLine)|
      && engine.Progress(Words(sched), st, digest, found0, count0, to0, poll', hits', success')
  {
    stopped, enabled', poll', hits', success' := false, enabled, poll, hits, success;
    ghost var start := RestStart(f, enabled, pausedLine);
    var linenum: nat := 0;
    while linenum < |f.lines|
      invariant linenum <= |f.lines|
      invariant enabled' <==> enabled || pausedLine < linenum
      invariant enabled' ==> start <= linenum && poll' == poll + (linenum - start)
      invariant !enabled' ==> poll' == poll
      invariant engine.Progress(Words(sched), st, digest, found0, count0, to0, poll', hits', success')
      decreases |f.lines| - linenum
    {
      stopped, enabled', poll', hits', success' :=
        ReadLine(f, linenum, start, enabled', pausedLine, heur, engine, st, digest, sched, poll, poll',
                 found0, count0, to0, hits', success');
      if stopped {
        return;
      }
      linenum := linenum + 1;
    }
  }

  /**
   * One pass of the outer loop of dictionary_attack, over the f-th file of
   * the listing: it is read when evaluation is enabled or it is the paused
   * file, and skipped otherwise.
   */
  method ReadListedFile(files: seq<DictFile>, f: nat, enabled: bool, pausedFile: string, pausedLine: nat,
                        heur: Heuristic, engine: Engine, st: nat -> int, digest: (string, string) -> string,
                        ghost sched: seq<Entry>, poll: nat,
                        ghost found0: seq<string>, ghost count0: uint32, ghost to0: seq<Milestone>,
                        ghost hits: seq<string>, success: bool)
    returns (stopped: bool, enabled': bool, poll': nat, ghost hits': seq<string>, success': bool)
    requires engine.target.Some? && f < |files|
    requires poll <= |sched| && sched[poll..] == Schedule(files[f..], enabled, pausedFile, pausedLine)
    requires engine.Progress(Words(sched), st, digest, found0, count0, to0, poll, hits, success)
    modifies engine`foundCollisions, engine`hitsNum, engine`milestonesToCache
    ensures stopped ==>
      engine.Polled(Words(sched), Marks(sched), st, heur, digest, found0, count0, to0, success')
    ensures !stopped ==>
      && poll' <= |sched| && sched[poll'..] == Schedule(files[f + 1..], enabled', pausedFile, pausedLine)
      && engine.Progress(Words(sched), st, digest, found0, count0, to0, poll', hits', success')
  {
    stopped, enabled', poll', hits', success' := false, enabled, poll, hits, success;
    assert files[f..][0] == files[f] && files[f..][1..] == files[f + 1..];
    if enabled || pausedFile == files[f].name {
      ghost var here := FileRest(files[f], enabled, pausedLine);
      ghost var later := Schedule(files[f + 1..], EnabledAfter(files[f], enabled, pausedLine), pausedFile, pausedLine);
      SplitSuffix(sched, poll, here, later);
      stopped, enabled', poll', hits', success' :=
        ReadDictFile(files[f], enabled, pausedLine, heur, engine, st, digest, sched, poll,
                     found0, count0, to0, hits, success);
    }
  }

  /**
   * The resume point dictionary_attack reads from its milestone: evaluation
   * starts disabled exactly when the milestone counts, and then waits for
   * the file and line it names.
   */
  method ReadResumePoint(milestone: string) returns (enableEvaluation: bool, pausedFilename: string, pausedLinenum: nat)
    ensures enableEvaluation <==> ParseMilestone(milestone).None?
    ensures !enableEvaluation ==> ParseMilestone(milestone) == Some(ResumePoint(pausedFilename, pausedLinenum))
  {
    enableEvaluation := true;
    pausedFilename := "";
    pausedLinenum := 0;
    if milestone != "" {
      var parts := Split(milestone, ';');
      if |parts| == 2 {
        pausedFilename := parts[0];
        var linenum := ParseUInt(parts[1]);
        if linenum.Some? {
          pausedLinenum := linenum.value;
        }
        if pausedFilename != "" && linenum.Some? {
          enableEvaluation := false;
        }
      }
    }
  }

  /**
   * dictionary_attack over the dictionary directory's listing (None when the
   * directory is absent). It polls the status once per line it evaluates:
   * "run" evaluates the line, "save" enqueues the line's checkpoint
   * "file;line" and stops, anything else stops.
   */
  method DictionaryAttack(dicts: Option<seq<DictFile>>, milestone: string, heur: Heuristic, engine: Engine,
                          st: nat -> int, digest: (string, string) -> string)
    returns (success: bool)
    requires engine.target.Some?
    modifies engine`foundCollisions, engine`hitsNum, engine`milestonesToCache
    ensures dicts.None? ==>
      && !success
      && engine.foundCollisions == old(engine.foundCollisions) && engine.hitsNum == old(engine.hitsNum)
      && engine.milestonesToCache == old(engine.milestonesToCache)
    ensures dicts.Some? ==>
      var sched := DictSchedule(dicts.value, milestone);
      engine.Polled(Words(sched), Marks(sched), st, heur, digest,
                    old(engine.foundCollisions), old(engine.hitsNum), old(engine.milestonesToCache), success)
  {
    success := false;
    if dicts.None? {
      return;
    }
    var files := dicts.value;
    var enableEvaluation, pausedFilename, pausedLinenum := ReadResumePoint(milestone);
    ghost var sched := DictSchedule(files, milestone);
    ghost var found0, count0, to0 := engine.foundCollisions, engine.hitsNum, engine.milestonesToCache;
    ghost var hits: seq<string> := [];
    if enableEvaluation {
      ScheduleEnabled(files, pausedFilename, pausedLinenum);
      ScheduleEnabled(files, "", 0);
    }
    assert sched == Schedule(files[0..], enableEvaluation, pausedFilename, pausedLinenum);
    var poll: nat := 0;
    for f := 0 to |files|
      invariant poll <= |sched| && sched[poll..] == Schedule(files[f..], enableEvaluation, pausedFilename, pausedLinenum)
      invariant engine.Progress(Words(sched), st, digest, found0, count0, to0, poll, hits, success)
    {
      var stopped;
      stopped, enableEvaluation, poll, hits, success :=
        ReadListedFile(files, f, enableEvaluation, pausedFilename, pausedLinenum, heur, engine, st, digest,
                       sched, poll, found0, count0, to0, hits, success);
      if stopped {
        return;
      }
    }
    ProgressComplete(engine, Words(sched), Marks(sched), st, heur, digest, found0, count0, to0, hits, success);
  }
}
