/**
 * The non-graphical logic of the main window (mainwindow.cpp): reading the
 * accounts of a shadow file, picking the target by name, saving and
 * reloading a paused attack, reporting found passwords once each, and the
 * busy indicator of the status line.
 */
module Desk {
  import opened Wrappers
  import opened Strings
  import opened Json
  import opened Alphabets
  import opened Users
  import opened AttackState
  import Enumeration
  import BruteForce

  // ---------------------------------------------------------------------------
  // The shadow file
  // ---------------------------------------------------------------------------

  /** What reading a shadow file reports about a line it rejects. */
  datatype ParseWarning =
    | CorruptedLine(lineNumber: nat)
    | UnsupportedScheme(user: string, algid: string)

  /** How a line of a shadow file is read. */
  datatype LineOutcome =
    | Corrupted                              // not 9 ':'-separated fields: a warning
    | Incomplete                             // no "$id$salt$hash" password field: skipped silently
    | Unsupported(name: string, algid: string) // an unknown crypt(3) scheme: a warning
    | Accepted(user: UserData)

  /** The outcome of one line, in the order the fields are checked. */
  function ClassifyLine(line: string): (r: LineOutcome)
    ensures r == Corrupted <==> |Split(line, ':')| != 9
    ensures r == Incomplete <==> |Split(line, ':')| == 9 && |Split(Split(line, ':')[1], '$')| != 4
    ensures r.Accepted? ==> AlgorithmName(r.user.algid) != "" && r.user.name == Split(line, ':')[0]
    ensures r.Unsupported? ==> AlgorithmName(r.algid) == ""
    ensures |Split(line, ':')| == 9 && |Split(Split(line, ':')[1], '$')| == 4 ==>
      var f := Split(line, ':');
      var p := Split(f[1], '$');
      && (r.Unsupported? <==> AlgorithmName(p[1]) == "")
      && (r.Unsupported? ==> r.name == f[0] && r.algid == p[1])
      && (r.Accepted? ==> r.user == UserData(f[0], p[1], p[2], p[3]))
  {
    var fields := Split(line, ':');
    if |fields| != 9 then Corrupted
    else
      var parts := Split(fields[1], '$');
      if |parts| != 4 then Incomplete
      else if AlgorithmName(parts[1]) == "" then Unsupported(fields[0], parts[1])
      else Accepted(UserData(fields[0], parts[1], parts[2], parts[3]))
  }

  /** The accounts, the warnings and the line counter after reading some lines. */
  datatype Scanned = Scanned(users: seq<UserData>, warnings: seq<ParseWarning>, counter: nat)

  /** Reading one more line: a silently skipped line does not advance the line counter. */
  function ScanStep(s: Scanned, line: string): Scanned {
    match ClassifyLine(line)
    case Corrupted => Scanned(s.users, s.warnings + [CorruptedLine(s.counter)], s.counter + 1)
    case Incomplete => s
    case Unsupported(name, algid) => Scanned(s.users, s.warnings + [UnsupportedScheme(name, algid)], s.counter + 1)
    case Accepted(u) => Scanned(s.users + [u], s.warnings, s.counter + 1)
  }

  /** Reading the lines in file order, from no account and line counter 1. */
  function Scan(lines: seq<string>): Scanned
    decreases |lines|
  {
    if |lines| == 0 then Scanned([], [], 1) else ScanStep(Scan(lines[..|lines| - 1]), lines[|lines| - 1])
  }

  /** The number of lines of `lines` that are skipped silently. */
  function IncompleteCount(lines: seq<string>): (n: nat)
    ensures n <= |lines|
    decreases |lines|
  {
    if |lines| == 0 then 0
    else IncompleteCount(lines[..|lines| - 1]) + (if ClassifyLine(lines[|lines| - 1]) == Incomplete then 1 else 0)
  }

  /**
   * Every line yields an account, a warning, or nothing, and the line
   * counter counts the lines that yield an account or a warning, from 1.
   */
  lemma {:induction false} ScanCounts(lines: seq<string>)
    ensures var s := Scan(lines);
      && |s.users| + |s.warnings| + IncompleteCount(lines) == |lines|
      && s.counter == 1 + |s.users| + |s.warnings|
    decreases |lines|
  {
    if |lines| > 0 {
      ScanCounts(lines[..|lines| - 1]);
    }
  }

  /** Reading one more line appends the account of that line, if it yields one. */
  lemma ScanUsersStep(lines: seq<string>)
    requires |lines| > 0
    ensures var c := ClassifyLine(lines[|lines| - 1]);
      Scan(lines).users == Scan(lines[..|lines| - 1]).users + if c.Accepted? then [c.user] else []
  {
  }

  /** Every account read has a supported scheme. */
  lemma {:induction false} ScanSupported(lines: seq<string>)
    ensures var s := Scan(lines);
      forall k :: 0 <= k < |s.users| ==> AlgorithmName(s.users[k].algid) != ""
    decreases |lines|
  {
    if |lines| > 0 {
      ScanSupported(lines[..|lines| - 1]);
      ScanUsersStep(lines);
    }
  }

  /** Every account read comes from an accepted line. */
  lemma {:induction false} ScanFromLines(lines: seq<string>, u: UserData)
    requires u in Scan(lines).users
    ensures exists i :: 0 <= i < |lines| && ClassifyLine(lines[i]) == Accepted(u)
    decreases |lines|
  {
    var init := lines[..|lines| - 1];
    ScanUsersStep(lines);
    if u in Scan(init).users {
      ScanFromLines(init, u);
      var i :| 0 <= i < |init| && ClassifyLine(init[i]) == Accepted(u);
      assert lines[i] == init[i];
    } else {
      assert ClassifyLine(lines[|lines| - 1]) == Accepted(u);
    }
  }

  /** Every accepted line yields an account. */
  lemma {:induction false} ScanKeeps(lines: seq<string>, i: nat)
    requires i < |lines| && ClassifyLine(lines[i]).Accepted?
    ensures ClassifyLine(lines[i]).user in Scan(lines).users
    decreases |lines|
  {
    var init := lines[..|lines| - 1];
    ScanUsersStep(lines);
    if i < |init| {
      assert init[i] == lines[i];
      ScanKeeps(init, i);
    }
  }

  /** A shadow line: the name, the "$id$salt$hash" field and seven other fields, separated by ':'. */
  function ShadowLine(u: UserData, rest: seq<string>): string
    requires |rest| == 7
  {
    Join([u.name, Join(["", u.algid, u.salt, u.hash], '$')] + rest, ':')
  }

  /**
   * The line of an account with a supported scheme, whose fields hold no
   * ':' and whose password parts hold no '$', is read back as that account.
   */
  lemma ShadowLineRoundTrip(u: UserData, rest: seq<string>)
    requires |rest| == 7 && AlgorithmName(u.algid) != ""
    requires ':' !in u.name && ':' !in u.algid && ':' !in u.salt && ':' !in u.hash
    requires '$' !in u.algid && '$' !in u.salt && '$' !in u.hash
    requires forall k :: 0 <= k < 7 ==> ':' !in rest[k]
    ensures ClassifyLine(ShadowLine(u, rest)) == Accepted(u)
  {
    var pw := ["", u.algid, u.salt, u.hash];
    SplitJoin(pw, '$');
    JoinSplit(Join(pw, '$'), '$');
    SplitParts(Join(pw, '$'), ':');
    var parts := Split(Join(pw, '$'), '$');
    assert ':' !in Join(pw, '$') by {
      JoinNoSep(pw, '$', ':');
    }
    var fields := [u.name, Join(pw, '$')] + rest;
    assert forall k :: 0 <= k < |fields| ==> ':' !in fields[k];
    SplitJoin(fields, ':');
  }

  /** Joining parts that hold no `c` with a separator other than `c` gives a string without `c`. */
  lemma {:induction false} JoinNoSep(parts: seq<string>, sep: char, c: char)
    requires |parts| >= 1 && sep != c
    requires forall k :: 0 <= k < |parts| ==> c !in parts[k]
    ensures c !in Join(parts, sep)
    decreases |parts|
  {
    if |parts| > 1 {
      JoinNoSep(parts[1..], sep, c);
    }
  }

  // ---------------------------------------------------------------------------
  // Checkpoints saved with a paused attack
  // ---------------------------------------------------------------------------

  /** A saved checkpoint record that the resume accepts: a string "Milestone" and a numeric "Heuristic" in 0..2. */
  predicate ValidRecord(rec: JsonObject) {
    HasString(rec, "Milestone") && HasNumber(rec, "Heuristic") && 0 <= rec["Heuristic"].num <= 2
  }

  function RecordMilestone(rec: JsonObject): (m: Milestone)
    requires ValidRecord(rec)
    ensures m.point == rec["Milestone"].str && Code(m.heur) == rec["Heuristic"].num
  {
    Milestone(rec["Milestone"].str, FromCode(rec["Heuristic"].num))
  }

  /** The record a checkpoint is saved as. */
  function Record(m: Milestone): JsonObject {
    map["Milestone" := JString(m.point), "Heuristic" := JNumber(Code(m.heur))]
  }

  /** The number of leading records, from the i-th on, that the resume accepts. */
  function ValidCount(items: seq<JsonValue>, i: nat): (n: nat)
    requires i <= |items|
    ensures i <= n <= |items|
    ensures forall j :: i <= j < n ==> ValidRecord(ToObject(items[j]))
    ensures n < |items| ==> !ValidRecord(ToObject(items[n]))
    decreases |items| - i
  {
    if i < |items| && ValidRecord(ToObject(items[i])) then ValidCount(items, i + 1) else i
  }

  /** The checkpoints of the first n records, all accepted. */
  function Checkpoints(items: seq<JsonValue>, n: nat): (ms: seq<Milestone>)
    requires n <= |items| && forall j :: 0 <= j < n ==> ValidRecord(ToObject(items[j]))
    ensures |ms| == n && forall j :: 0 <= j < n ==> ms[j] == RecordMilestone(ToObject(items[j]))
  {
    seq(n, j requires 0 <= j < n => RecordMilestone(ToObject(items[j])))
  }

  /** The "Pause" array of a saved attack, when there is one. */
  function PauseItems(json: JsonObject): Option<seq<JsonValue>> {
    if "Pause" in json && json["Pause"].JArray? then Some(json["Pause"].items) else None
  }

  /** The records of the checkpoints, in order. */
  function Records(ms: seq<Milestone>): (r: seq<JsonValue>)
    ensures |r| == |ms| && forall j :: 0 <= j < |ms| ==> r[j] == JObject(Record(ms[j]))
  {
    seq(|ms|, j requires 0 <= j < |ms| => JObject(Record(ms[j])))
  }

  /** The saved attack: the target's fields and the "Pause" array of the checkpoints. */
  function SavedAttack(u: UserData, ms: seq<Milestone>): JsonObject {
    WriteUser(u, map[])["Pause" := JArray(Records(ms))]
  }

  /** The number of checkpoints the save drains: those before the first empty one. */
  function DrainCount(q: seq<Milestone>, i: nat): (n: nat)
    requires i <= |q|
    ensures i <= n <= |q|
    ensures forall j :: i <= j < n ==> q[j].point != ""
    ensures n < |q| ==> q[n].point == ""
    decreases |q| - i
  {
    if i < |q| && q[i].point != "" then DrainCount(q, i + 1) else i
  }

  /** What is left of the outgoing queue after the drain: the empty checkpoint that ended it is gone too. */
  function DrainRest(q: seq<Milestone>): seq<Milestone> {
    var n := DrainCount(q, 0);
    if n < |q| then q[n + 1..] else []
  }

  /**
   * A saved attack is resumed as it was saved: the same target, and every
   * checkpoint record accepted, giving back the saved checkpoints in order.
   */
  lemma SaveLoadRoundTrip(u: UserData, ms: seq<Milestone>)
    ensures ReadUser(SavedAttack(u, ms)) == Success(u)
    ensures PauseItems(SavedAttack(u, ms)) == Some(Records(ms))
    ensures ValidCount(Records(ms), 0) == |ms|
    ensures Checkpoints(Records(ms), |ms|) == ms
  {
    var doc := SavedAttack(u, ms);
    var w := WriteUser(u, map[]);
    WriteReadRoundTrip(u, map[]);
    assert forall k :: k in UserKeys ==> doc[k] == w[k];
    assert ReadUser(doc) == ReadUser(w);
    var items := Records(ms);
    forall j | 0 <= j < |ms|
      ensures ValidRecord(ToObject(items[j])) && RecordMilestone(ToObject(items[j])) == ms[j]
    {
      CodeRoundTrip(ms[j].heur);
    }
    ValidCountAll(items, 0);
  }

  /**
   * A resumed brute-force task whose milestone does not fit evaluates only
   * "", so a pause at its first poll queues the empty checkpoint. A later
   * save stops draining at that checkpoint: the checkpoints queued after it
   * are left out of the saved attack and stay in the queue.
   */
  lemma UnfitCheckpointCutsSave(task: Task, u: UserData, before: seq<Milestone>, after: seq<Milestone>)
    requires task.heur != Full && task.milestone != "" && task.passwordLength > 0
    requires !(Enumeration.Over(task.milestone, BruteForce.TaskAlphabet(task)) && |task.milestone| == task.passwordLength)
    requires forall j :: 0 <= j < |before| ==> before[j].point != ""
    ensures var q := before + [Milestone(BruteForce.Candidates(task)[0], task.heur)] + after;
      && DrainCount(q, 0) == |before|
      && SavedAttack(u, q[..DrainCount(q, 0)]) == SavedAttack(u, before)
      && DrainRest(q) == after
  {
    BruteForce.UnfitMilestone(task);
    var q := before + [Milestone("", task.heur)] + after;
    assert q[|before|].point == "";
    assert forall j :: 0 <= j < |before| ==> q[j] == before[j];
    assert q[..|before|] == before;
    assert q[|before| + 1..] == after;
  }

  /** With every record accepted, all of them count. */
  lemma {:induction false} ValidCountAll(items: seq<JsonValue>, i: nat)
    requires i <= |items| && forall j :: i <= j < |items| ==> ValidRecord(ToObject(items[j]))
    ensures ValidCount(items, i) == |items|
    decreases |items| - i
  {
    if i < |items| {
      ValidCountAll(items, i + 1);
    }
  }

  /**
   * The part of startAttackActions that resumes a saved attack `saved` (None
   * when no saved attack could be loaded): the target is read from it, and
   * its checkpoint records are enqueued one by one as incoming checkpoints. A
   * record the resume does not accept rejects the whole resume, and the
   * records before it stay enqueued.
   */
  method LoadAttack(saved: Option<JsonObject>, engine: Engine) returns (target: Option<UserData>)
    modifies engine`milestonesFromCache
    ensures saved.None? ==> target.None? && engine.milestonesFromCache == old(engine.milestonesFromCache)
    ensures saved.Some? ==>
      var json := saved.value;
      && (target.Some? <==>
            ReadUser(json).Success? && PauseItems(json).Some? &&
            ValidCount(PauseItems(json).value, 0) == |PauseItems(json).value|)
      && (target.Some? ==> target.value == ReadUser(json).value)
      && engine.milestonesFromCache == old(engine.milestonesFromCache) +
           if ReadUser(json).Failure? || PauseItems(json).None? then []
           else Checkpoints(PauseItems(json).value, ValidCount(PauseItems(json).value, 0))
  {
    target := None;
    if saved.None? {
      return;
    }
    var json := saved.value;
    var user := ReadUser(json);
    if user.Failure? {
      return;
    }
    if !("Pause" in json && json["Pause"].JArray?) {
      return;
    }
    var attackData := json["Pause"].items;
    ghost var q0 := engine.milestonesFromCache;
    ghost var n := ValidCount(attackData, 0);
    for k := 0 to |attackData|
      invariant k <= n
      invariant engine.milestonesFromCache == q0 + Checkpoints(attackData, k)
    {
      var taskProperties := ToObject(attackData[k]);
      if ValidRecord(taskProperties) {
        engine.AddCacheInit(Milestone(taskProperties["Milestone"].str, FromCode(taskProperties["Heuristic"].num)));
        assert Checkpoints(attackData, k + 1) == Checkpoints(attackData, k) + [RecordMilestone(taskProperties)];
      } else {
        return;
      }
    }
    target := Some(user.value);
  }

  /**
   * abortAttackActions, from the selected target on (None when there is
   * none): the target's fields are written out, the attack is set to "save",
   * and the outgoing checkpoints are drained, up to the first empty one, into
   * the "Pause" array of the saved attack.
   */
  method AbortAttack(selected: Option<UserData>, engine: Engine) returns (doc: Option<JsonObject>)
    modifies engine`attackIsOn, engine`milestonesToCache
    ensures selected.None? ==>
      doc.None? && engine.attackIsOn == old(engine.attackIsOn) && engine.milestonesToCache == old(engine.milestonesToCache)
    ensures selected.Some? ==>
      var q := old(engine.milestonesToCache);
      && engine.attackIsOn == Saving
      && doc == Some(SavedAttack(selected.value, q[..DrainCount(q, 0)]))
      && engine.milestonesToCache == DrainRest(q)
  {
    doc := None;
    if selected.None? {
      return;
    }
    var userData := WriteUser(selected.value, map[]);
    engine.SaveAttack();
    ghost var q := engine.milestonesToCache;
    ghost var n := DrainCount(q, 0);
    var attackData: seq<JsonValue> := [];
    ghost var k := 0;
    while true
      invariant k <= n && engine.milestonesToCache == q[k..] && engine.attackIsOn == Saving
      invariant attackData == Records(q[..k])
      decreases |engine.milestonesToCache|
    {
      var taskSavings := engine.GetMilestone();
      if taskSavings.point == "" {
        break;
      }
      assert taskSavings == q[k];
      attackData := attackData + [JObject(Record(taskSavings))];
      assert q[..k + 1] == q[..k] + [q[k]];
      k := k + 1;
    }
    userData := userData["Pause" := JArray(attackData)];
    doc := Some(userData);
  }

  // ---------------------------------------------------------------------------
  // The window
  // ---------------------------------------------------------------------------

  /** The line after which the found passwords are listed. */
  const PasswordsHeader: string := "Possible passwords:"

  /** The paragraphs of the text area that are not empty (its lines, empty ones skipped). */
  function Lines(text: seq<string>): (r: seq<string>)
    ensures forall k :: 0 <= k < |r| ==> r[k] != ""
    decreases |text|
  {
    if |text| == 0 then []
    else Lines(text[..|text| - 1]) + (if text[|text| - 1] == "" then [] else [text[|text| - 1]])
  }

  /** Where the search for a repeated password stops: the last header line, or the first line when there is none. */
  function HeaderStart(lines: seq<string>): (h: nat)
    ensures h <= |lines| && (|lines| > 0 ==> h < |lines|)
    ensures forall j :: h < j < |lines| ==> lines[j] != PasswordsHeader
    ensures h > 0 ==> lines[h] == PasswordsHeader
    decreases |lines|
  {
    if |lines| == 0 then 0
    else if lines[|lines| - 1] == PasswordsHeader then |lines| - 1
    else HeaderStart(lines[..|lines| - 1])
  }

  /** A header line with none after it is where the search stops. */
  lemma {:induction false} HeaderStartAt(lines: seq<string>, h: nat)
    requires h < |lines| && lines[h] == PasswordsHeader
    requires forall j :: h < j < |lines| ==> lines[j] != PasswordsHeader
    ensures HeaderStart(lines) == h
    decreases |lines|
  {
    if h < |lines| - 1 {
      HeaderStartAt(lines[..|lines| - 1], h);
    }
  }

  /** Without a header line the search runs back to the first line. */
  lemma {:induction false} HeaderStartNone(lines: seq<string>)
    requires forall j :: 0 <= j < |lines| ==> lines[j] != PasswordsHeader
    ensures HeaderStart(lines) == 0
    decreases |lines|
  {
    if |lines| > 0 {
      HeaderStartNone(lines[..|lines| - 1]);
    }
  }

  /** Whether a password is already listed: some line from the search start on equals it. */
  predicate Listed(lines: seq<string>, password: string) {
    exists j :: HeaderStart(lines) <= j < |lines| && lines[j] == password
  }

  /** The window's state that the modelled slots read and change. */
  class Window {
    /** m_shadowUsers: the accounts of the last shadow file read. */
    var shadowUsers: seq<UserData>
    /** The warnings of the shadow files read so far. */
    var warnings: seq<ParseWarning>
    /** m_initialsetup_usersCBox: the next selection change is the one filling the list. */
    var initialSetup: bool
    /** The paragraphs of the text area (GeneralTE). */
    var text: seq<string>
    /** The status line (StatusLabel); it is never empty. */
    var status: string

    ghost predicate Valid()
      reads this
    {
      |status| > 0
    }

    /** The window at start: no accounts, an empty text area and a non-empty status line. */
    constructor (today: string)
      ensures Valid()
      ensures shadowUsers == [] && warnings == [] && initialSetup && text == []
      ensures status == "Date: " + today
    {
      shadowUsers := [];
      warnings := [];
      initialSetup := true;
      text := [];
      status := "Date: " + today;
    }

    /**
     * The reading loop of openFileButton_clicked over the lines of the chosen
     * file (None when it cannot be opened, which leaves the accounts as they
     * were): the accounts are replaced by those of the file, in file order, and
     * the warnings of its rejected lines are added.
     */
    method OpenShadowFile(file: Option<seq<string>>)
      modifies this`shadowUsers, this`warnings, this`initialSetup
      ensures file.None? ==>
        shadowUsers == old(shadowUsers) && warnings == old(warnings) && initialSetup == old(initialSetup)
      ensures file.Some? ==>
        && shadowUsers == Scan(file.value).users
        && warnings == old(warnings) + Scan(file.value).warnings
        && initialSetup
    {
      if file.None? {
        return;
      }
      var lines := file.value;
      shadowUsers := [];
      initialSetup := true;
      ghost var w0 := warnings;
      var lineCounter: nat := 1;
      for i := 0 to |lines|
        invariant initialSetup && |w0| <= |warnings| && warnings[..|w0|] == w0
        invariant Scan(lines[..i]) == Scanned(shadowUsers, warnings[|w0|..], lineCounter)
      {
        assert lines[..i + 1][..i] == lines[..i];
        var splittedLine := Split(lines[i], ':');
        if |splittedLine| != 9 {
          warnings := warnings + [CorruptedLine(lineCounter)];
          lineCounter := lineCounter + 1;
        } else {
          var currentUsername := splittedLine[0];
          var currentUserData := Split(splittedLine[1], '$');
          if |currentUserData| == 4 {
            if AlgorithmName(currentUserData[1]) == "" {
              warnings := warnings + [UnsupportedScheme(currentUsername, currentUserData[1])];
            } else {
              shadowUsers := shadowUsers +
                [UserData(currentUsername, currentUserData[1], currentUserData[2], currentUserData[3])];
            }
            lineCounter := lineCounter + 1;
          }
        }
      }
      assert lines[..|lines|] == lines;
      assert warnings == w0 + warnings[|w0|..];
    }

    /**
     * The first check of startAttackActions for a new attack: the selection
     * change fired while the list of accounts is being filled is skipped,
     * once, and every later one goes ahead.
     */
    method SelectionChanged() returns (proceed: bool)
      modifies this`initialSetup
      ensures proceed <==> !old(initialSetup)
      ensures !initialSetup
    {
      if initialSetup {
        initialSetup := false;
        return false;
      }
      return true;
    }

    /** The selection of startAttackActions: the first account with the chosen name, if any. */
    method FindUser(name: string) returns (r: Option<UserData>)
      ensures r.None? <==> forall i :: 0 <= i < |shadowUsers| ==> shadowUsers[i].name != name
      ensures r.Some? ==> r.value.name == name
      ensures r.Some? ==>
        exists i :: 0 <= i < |shadowUsers| && shadowUsers[i] == r.value && (forall j :: 0 <= j < i ==> shadowUsers[j].name != name)
    {
      r := None;
      for i := 0 to |shadowUsers|
        invariant forall j :: 0 <= j < i ==> shadowUsers[j].name != name
      {
        if shadowUsers[i].name == name {
          r := Some(shadowUsers[i]);
          return;
        }
      }
    }

    /**
     * infodeskUpdate: a found password is appended to the text area unless
     * it is already listed after the last header line.
     */
    method InfodeskUpdate(newPassword: string)
      modifies this`text
      ensures text == old(text) + if Listed(Lines(old(text)), newPassword) then [] else [newPassword]
    {
      var allLines := Lines(text);
      var lineIndex: int := |allLines| - 1;
      while lineIndex >= 0
        invariant -1 <= lineIndex < |allLines|
        invariant forall j :: lineIndex < j < |allLines| ==> allLines[j] != newPassword && allLines[j] != PasswordsHeader
        decreases lineIndex + 1
      {
        if allLines[lineIndex] == newPassword {
          assert HeaderStart(allLines) <= lineIndex;
          return;
        } else if allLines[lineIndex] == PasswordsHeader {
          HeaderStartAt(allLines, lineIndex);
          break;
        }
        lineIndex := lineIndex - 1;
      }
      if lineIndex < 0 {
        HeaderStartNone(allLines);
      }
      text := text + [newPassword];
    }

    /** statusUpdate: the status line grows by one dot, and drops its dots once it has three. */
    method StatusUpdate()
      requires Valid()
      modifies this`status
      ensures Valid() && status == Spin(old(status))
    {
      var currentStatus := status;
      var busycharCounter: nat := 0;
      var itr := |currentStatus| - 1;
      while itr != 0
        invariant 0 <= itr < |currentStatus| && busycharCounter == |currentStatus| - 1 - itr
        invariant TrailingDots(currentStatus) == busycharCounter + DotsFrom(currentStatus, itr)
        decreases itr
      {
        if currentStatus[itr] == '.' {
          busycharCounter := busycharCounter + 1;
        } else {
          break;
        }
        itr := itr - 1;
      }
      if busycharCounter >= 3 {
        status := currentStatus[..|currentStatus| - busycharCounter];
      } else {
        status := currentStatus + ".";
      }
    }
  }

  /** The number of dots at positions i, i-1, ... down to position 1; position 0 is never counted. */
  function DotsFrom(s: string, i: nat): (n: nat)
    requires i < |s|
    ensures n <= i
    ensures forall k :: i - n < k <= i ==> s[k] == '.'
    ensures n < i ==> s[i - n] != '.'
    decreases i
  {
    if i == 0 || s[i] != '.' then 0 else 1 + DotsFrom(s, i - 1)
  }

  /** The dots that end a status line, not counting its first character. */
  function TrailingDots(s: string): (n: nat)
    requires |s| > 0
    ensures n < |s|
  {
    DotsFrom(s, |s| - 1)
  }

  /** The next status line of the busy indicator. */
  function Spin(s: string): (r: string)
    requires |s| > 0
    ensures |r| > 0
  {
    if TrailingDots(s) >= 3 then s[..|s| - TrailingDots(s)] else s + "."
  }

  /**
   * The busy indicator cycles: a status line that does not end in a dot
   * after its first character gains one, two and three dots, and then comes
   * back to itself.
   */
  lemma SpinCycle(s: string)
    requires |s| > 0 && (|s| == 1 || s[|s| - 1] != '.')
    ensures Spin(s) == s + "."
    ensures Spin(Spin(s)) == s + ".."
    ensures Spin(Spin(Spin(s))) == s + "..."
    ensures Spin(Spin(Spin(Spin(s)))) == s
  {
    assert TrailingDots(s) == 0;
    DotsAppended(s, 1);
    DotsAppended(s, 2);
    DotsAppended(s, 3);
    assert s + "." == s + Repeat('.', 1) && s + ".." == s + Repeat('.', 2) && s + "..." == s + Repeat('.', 3);
    assert (s + "...")[..|s|] == s;
  }

  /** A status line without trailing dots followed by d dots has exactly d trailing dots. */
  lemma {:induction false} DotsAppended(s: string, d: nat)
    requires |s| > 0 && (|s| == 1 || s[|s| - 1] != '.')
    ensures TrailingDots(s + Repeat('.', d)) == d
    decreases d
  {
    var t := s + Repeat('.', d);
    if d == 0 {
      assert t == s;
    } else {
      DotsAppended(s, d - 1);
      var u := s + Repeat('.', d - 1);
      assert t[..|t| - 1] == u;
      DotsFromPrefix(t, |t| - 2);
      assert t[|t| - 1] == '.';
    }
  }

  /** Counting dots does not look past position i. */
  lemma {:induction false} DotsFromPrefix(t: string, i: nat)
    requires i + 1 < |t|
    ensures DotsFrom(t, i) == DotsFrom(t[..|t| - 1], i)
    decreases i
  {
    if i > 0 && t[i] == '.' {
      DotsFromPrefix(t, i - 1);
    }
  }

  /** A password that is reported is then listed, so reporting it again changes nothing. */
  lemma ReportedListed(text: seq<string>, password: string)
    requires password != ""
    ensures var text' := text + if Listed(Lines(text), password) then [] else [password];
      Listed(Lines(text'), password)
  {
    if !Listed(Lines(text), password) {
      var text' := text + [password];
      assert text'[..|text'| - 1] == text;
      assert Lines(text') == Lines(text) + [password];
      var L := Lines(text');
      assert HeaderStart(L) <= |L| - 1 && L[|L| - 1] == password;
    } else {
      assert text + [] == text;
    }
  }
}
