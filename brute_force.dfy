/**
 * The brute-force task (collisionAttackTask_CPU.cpp): the start or resume
 * point, the odometer successor and the run/save/stop polling loop.
 */
module BruteForce {
  import opened Wrappers
  import opened Strings
  import opened Enumeration
  import opened Alphabets
  import opened AttackState

  /** The alphabet of a brute-force task. */
  function TaskAlphabet(task: Task): (A: string)
    requires task.heur != Full
    ensures ValidAlphabet(A)
  {
    AlphabetValid(task.heur);
    GetAlphabet(task.heur).value
  }

  /**
   * The start point of a task: the task's milestone when asked to use it and
   * it is non-empty (or "" when it does not fit the task), and otherwise the
   * alphabet's first character repeated `length` times.
   */
  function InitialPoint(task: Task, useMilestone: bool, length: nat): string
    requires task.heur != Full
  {
    var A := TaskAlphabet(task);
    if useMilestone && task.milestone != "" then
      if Over(task.milestone, A) && |task.milestone| == length then task.milestone else ""
    else Repeat(A[0], length)
  }

  /** initial_password. */
  method InitialPassword(task: Task, useMilestone: bool, length: nat) returns (password: string)
    requires task.heur != Full
    ensures password == InitialPoint(task, useMilestone, length)
    ensures useMilestone && task.milestone != "" ==>
      (password == task.milestone <==> Over(task.milestone, TaskAlphabet(task)) && |task.milestone| == length)
    ensures useMilestone && task.milestone != "" && password != task.milestone ==> password == ""
    ensures !(useMilestone && task.milestone != "") ==> password == Repeat(TaskAlphabet(task)[0], length)
  {
    var A := GetAlphabet(task.heur).value;
    password := "";
    if useMilestone && task.milestone != "" {
      var milestoneOk := true;
      for i := 0 to |task.milestone|
        invariant milestoneOk <==> forall j :: 0 <= j < i ==> task.milestone[j] in A
      {
        if task.milestone[i] !in A {
          milestoneOk := false;
        }
      }
      if milestoneOk && |task.milestone| == length {
        password := task.milestone;
      }
    } else {
      for i := 0 to length
        invariant password == Repeat(A[0], i)
      {
        RepeatSnoc(A[0], i);
        password := password + [A[0]];
      }
    }
  }

  /**
   * next_password. Code 2: the current string has the wrong length; code 3: it
   * holds a character outside the task's alphabet; code 1: it is the last
   * string of its length; code 0: `next` is its odometer successor. `next` is
   * "" unless the code is 0. A task of length 0 given "" would read before the
   * start of the string, which the precondition excludes.
   */
  method Advance(A: string, L: nat, current: string) returns (code: int, next: string)
    requires ValidAlphabet(A)
    requires |current| != L || L > 0
    ensures 0 <= code <= 3
    ensures code != 0 ==> next == ""
    ensures code == 2 <==> |current| != L
    ensures code == 3 <==> |current| == L && !Over(current, A)
    ensures |current| == L && Over(current, A) ==>
      (code == 1 <==> forall i :: 0 <= i < |current| ==> current[i] == Last(A))
    ensures code == 0 <==>
      |current| == L && Over(current, A) && !(forall i :: 0 <= i < |current| ==> current[i] == Last(A))
    ensures code == 0 ==>
      var p := CarryPos(A, current);
      && Over(current, A) && 0 <= p && IndexOf(A, current[p]) + 1 < |A|
      && next == current[..p] + [A[IndexOf(A, current[p]) + 1]] + Repeat(A[0], |current| - 1 - p)
      && Succ(A, current) == Some(next)
  {
    next := "";
    if |current| != L {
      return 2, "";
    }
    for i := 0 to |current|
      invariant forall j :: 0 <= j < i ==> current[j] in A
    {
      if current[i] !in A {
        return 3, "";
      }
    }
    var shiftPosition := |current| - 1;
    if current[shiftPosition] != Last(A) {
      var nextRightest := A[IndexOf(A, current[shiftPosition]) + 1];
      next := current[..shiftPosition] + [nextRightest];
    } else {
      if shiftPosition > 0 {
        var position := |current| - 2;
        while position >= 0
          invariant -1 <= position <= |current| - 2
          invariant shiftPosition == position + 1
          invariant forall i :: shiftPosition <= i < |current| ==> current[i] == Last(A)
          decreases position + 1
        {
          if current[position] != Last(A) {
            break;
          }
          shiftPosition := shiftPosition - 1;
          position := position - 1;
        }
      }
      if shiftPosition == 0 {
        return 1, "";
      }
      if shiftPosition - 1 >= 0 {
        next := current[..shiftPosition - 1];
      }
      var preshift := A[IndexOf(A, current[shiftPosition - 1]) + 1];
      var tail := Repeat(A[0], |current| - shiftPosition);
      next := next + [preshift] + tail;
    }
    code := 0;
    var p := if current[|current| - 1] != Last(A) then |current| - 1 else shiftPosition - 1;
    CarryPosUnique(A, current, p);
    Odometer(A, current);
    OdometerEnd(A, current);
  }

  method NextPassword(task: Task, current: string) returns (code: int, next: string)
    requires task.heur != Full
    requires |current| != task.passwordLength || task.passwordLength > 0
    ensures 0 <= code <= 3
    ensures code != 0 ==> next == ""
    ensures code == 2 <==> |current| != task.passwordLength
    ensures code == 3 <==> |current| == task.passwordLength && !Over(current, TaskAlphabet(task))
    ensures |current| == task.passwordLength && Over(current, TaskAlphabet(task)) ==>
      (code == 1 <==> forall i :: 0 <= i < |current| ==> current[i] == Last(TaskAlphabet(task)))
    ensures code == 0 ==>
      var A := TaskAlphabet(task);
      var p := CarryPos(A, current);
      && Over(current, A) && 0 <= p && IndexOf(A, current[p]) + 1 < |A|
      && next == current[..p] + [A[IndexOf(A, current[p]) + 1]] + Repeat(A[0], |current| - 1 - p)
      && Succ(A, current) == Some(next)
  {
    code, next := Advance(TaskAlphabet(task), task.passwordLength, current);
  }

  /**
   * The strings a polling loop from `start` visits with every poll reading
   * "run": the odometer enumeration from `start`, or just "" when the start
   * point is "" (a milestone that did not fit the task).
   */
  function Trail(A: string, L: nat, start: string): (cands: seq<string>)
    requires ValidAlphabet(A)
    requires start == "" || (|start| == L && Over(start, A))
    ensures |cands| >= 1 && cands[0] == start
  {
    if start == "" then [""] else Iterate(A, start)
  }

  /** The strings a task of positive length would evaluate with every poll reading "run". */
  function Candidates(task: Task): (cands: seq<string>)
    requires task.heur != Full
    ensures |cands| >= 1 && cands[0] == InitialPoint(task, true, task.passwordLength)
  {
    var A := TaskAlphabet(task);
    Trail(A, task.passwordLength, InitialPoint(task, true, task.passwordLength))
  }

  /** Candidates are consecutive odometer successors of length L; only the last has no successor. */
  lemma TrailChain(A: string, L: nat, start: string, i: nat)
    requires ValidAlphabet(A)
    requires start == "" || (|start| == L && Over(start, A))
    requires i < |Trail(A, L, start)|
    ensures var c := Trail(A, L, start);
      i < |c| - 1 ==>
        && |c[i]| == L && Over(c[i], A)
        && Succ(A, c[i]) == Some(c[i + 1])
        && !(forall j :: 0 <= j < |c[i]| ==> c[i][j] == Last(A))
    ensures var c := Trail(A, L, start);
      i == |c| - 1 && start != "" ==> |c[i]| == L && Over(c[i], A) && Succ(A, c[i]) == None
    ensures start == "" ==> Trail(A, L, start) == [""]
  {
    if start != "" {
      IterateRanks(A, start);
      IterateSteps(A, start);
      IterateEnd(A, start);
      if i < |Trail(A, L, start)| - 1 {
        Odometer(A, Trail(A, L, start)[i]);
        OdometerEnd(A, Trail(A, L, start)[i]);
      }
    }
  }

  /**
   * One step of the polling loop: a successful next_password leads to the
   * following candidate, a failing one happens exactly at the last candidate.
   */
  lemma TrailStep(A: string, L: nat, start: string, i: nat, code: int, next: string)
    requires ValidAlphabet(A)
    requires start == "" || (|start| == L && Over(start, A))
    requires i < |Trail(A, L, start)|
    requires var c := Trail(A, L, start);
      code == 0 <==> |c[i]| == L && Over(c[i], A) && !(forall j :: 0 <= j < |c[i]| ==> c[i][j] == Last(A))
    requires code == 0 ==> Succ(A, Trail(A, L, start)[i]) == Some(next)
    ensures code == 0 ==> i + 1 < |Trail(A, L, start)| && next == Trail(A, L, start)[i + 1]
    ensures code != 0 ==> i + 1 == |Trail(A, L, start)|
  {
    TrailChain(A, L, start, i);
    if start != "" && i == |Trail(A, L, start)| - 1 {
      Odometer(A, Trail(A, L, start)[i]);
      OdometerEnd(A, Trail(A, L, start)[i]);
    }
  }

  /** next_password on the i-th candidate: the following candidate, or a failure code at the last one. */
  method AdvanceOnTrail(A: string, L: nat, start: string, ghost i: nat, current: string) returns (code: int, next: string)
    requires ValidAlphabet(A) && L > 0
    requires start == "" || (|start| == L && Over(start, A))
    requires i < |Trail(A, L, start)| && current == Trail(A, L, start)[i]
    ensures code == 0 ==> i + 1 < |Trail(A, L, start)| && next == Trail(A, L, start)[i + 1]
    ensures code != 0 ==> i + 1 == |Trail(A, L, start)|
  {
    code, next := Advance(A, L, current);
    TrailStep(A, L, start, i, code, next);
  }

  /**
   * The do-while loop of brute_force over alphabet A, from `start`. Each pass
   * polls the status once: "run" evaluates the next candidate and advances it
   * with next_password, "save" enqueues the not yet evaluated candidate as a
   * milestone and stops, anything else stops.
   */
  method PollLoop(A: string, L: nat, heur: Heuristic, start: string, engine: Engine, st: nat -> int,
                  digest: (string, string) -> string)
    returns (success: bool)
    requires ValidAlphabet(A) && L > 0 && engine.target.Some?
    requires start == "" || (|start| == L && Over(start, A))
    modifies engine`foundCollisions, engine`hitsNum, engine`milestonesToCache
    ensures engine.Polled(Trail(A, L, start), Trail(A, L, start), st, heur, digest,
                          old(engine.foundCollisions), old(engine.hitsNum), old(engine.milestonesToCache), success)
  {
    success := false;
    ghost var cands := Trail(A, L, start);
    ghost var found0, count0, to0 := engine.foundCollisions, engine.hitsNum, engine.milestonesToCache;
    ghost var hits: seq<string> := [];
    var currentPw := "";
    var nextPw := start;
    var i: nat := 0;
    while true
      invariant i < |cands| && nextPw == cands[i]
      invariant engine.Progress(cands, st, digest, found0, count0, to0, i, hits, success)
      decreases |cands| - i
    {
      var stopped;
      stopped, hits, success :=
        engine.PollStep(cands, cands, st, heur, digest, found0, count0, to0, i, nextPw, nextPw, hits, success);
      if stopped {
        return;
      }
      currentPw := nextPw;
      var code;
      code, nextPw := AdvanceOnTrail(A, L, start, i, currentPw);
      if code != 0 {
        ProgressComplete(engine, cands, cands, st, heur, digest, found0, count0, to0, hits, success);
        return;
      }
      i := i + 1;
    }
  }

  /**
   * brute_force: nothing for a task of length 0; otherwise the polling loop
   * from the task's start point, over the task's alphabet.
   */
  method BruteForceAttack(task: Task, engine: Engine, st: nat -> int, digest: (string, string) -> string)
    returns (success: bool)
    requires task.heur != Full
    requires task.passwordLength > 0 ==> engine.target.Some?
    modifies engine`foundCollisions, engine`hitsNum, engine`milestonesToCache
    ensures task.passwordLength == 0 ==>
      && !success
      && engine.foundCollisions == old(engine.foundCollisions) && engine.hitsNum == old(engine.hitsNum)
      && engine.milestonesToCache == old(engine.milestonesToCache)
    ensures task.passwordLength > 0 ==>
      engine.Polled(Candidates(task), Candidates(task), st, task.heur, digest,
                    old(engine.foundCollisions), old(engine.hitsNum), old(engine.milestonesToCache), success)
  {
    success := false;
    if task.passwordLength == 0 {
      return;
    }
    var nextPw := InitialPassword(task, true, task.passwordLength);
    success := PollLoop(TaskAlphabet(task), task.passwordLength, task.heur, nextPw, engine, st, digest);
  }

  /**
   * A task of positive length with no milestone tries every string of its
   * length over its alphabet, each once, in index-lexicographic order.
   */
  lemma FreshTaskCoverage(task: Task)
    requires task.heur != Full && task.milestone == "" && task.passwordLength > 0
    ensures var A := TaskAlphabet(task); Candidates(task) == Iterate(A, Repeat(A[0], task.passwordLength))
    ensures |Candidates(task)| == Pow(|TaskAlphabet(task)|, task.passwordLength)
    ensures forall i, j :: 0 <= i < j < |Candidates(task)| ==> Candidates(task)[i] != Candidates(task)[j]
    ensures forall t: string :: t in Candidates(task) <==> |t| == task.passwordLength && Over(t, TaskAlphabet(task))
  {
    var A, L := TaskAlphabet(task), task.passwordLength;
    assert Candidates(task) == Iterate(A, Repeat(A[0], L));
    EnumerationComplete(A, L);
  }

  /** Among the candidates of a fresh task, the hits are exactly the matching strings of its length and alphabet. */
  lemma CandidateHits(task: Task, digest: (string, string) -> string, salt: string, hash: string)
    requires task.heur != Full && task.milestone == "" && task.passwordLength > 0
    ensures forall t :: t in Hits(Candidates(task), digest, salt, hash) <==>
      |t| == task.passwordLength && Over(t, TaskAlphabet(task)) && IsCollision(digest(t, salt), hash)
  {
    FreshTaskCoverage(task);
    HitsMembers(Candidates(task), digest, salt, hash);
  }

  /**
   * A task resumed from a milestone that fits it tries exactly the suffix of
   * the complete enumeration that starts at the milestone: the strings of its
   * length over its alphabet that do not come before the milestone.
   */
  lemma ResumeFromMilestone(task: Task)
    requires task.heur != Full && task.milestone != ""
    requires |task.milestone| == task.passwordLength && Over(task.milestone, TaskAlphabet(task))
    ensures var A := TaskAlphabet(task); var e := Iterate(A, Repeat(A[0], task.passwordLength));
      && Rank(A, task.milestone) < |e|
      && Candidates(task) == e[Rank(A, task.milestone)..]
    ensures forall t: string :: t in Candidates(task) <==>
      |t| == task.passwordLength && Over(t, TaskAlphabet(task)) && !LexLess(TaskAlphabet(task), t, task.milestone)
  {
    var A := TaskAlphabet(task);
    assert Candidates(task) == Iterate(A, task.milestone);
    IterateFrom(A, task.milestone);
    IterateMembers(A, task.milestone);
  }

  /**
   * A non-empty milestone saved at poll k, when given back to a task of the
   * same mode and length, resumes exactly where the saving run stopped:
   * nothing is tried twice and nothing is skipped.
   */
  lemma SaveResumeRoundTrip(task: Task, k: nat)
    requires task.heur != Full && task.passwordLength > 0
    requires k < |Candidates(task)| && Candidates(task)[k] != ""
    ensures Candidates(Task(task.heur, task.passwordLength, Candidates(task)[k])) == Candidates(task)[k..]
  {
    var A, L := TaskAlphabet(task), task.passwordLength;
    var start := InitialPoint(task, true, L);
    assert start != "";
    IterateSuffix(A, start, k);
    IterateRanks(A, start);
  }

  /**
   * A milestone that does not fit its task (wrong length, or a character
   * outside the alphabet) makes the task evaluate only "" and stop: "" has
   * the wrong length for next_password.
   */
  lemma UnfitMilestone(task: Task)
    requires task.heur != Full && task.milestone != "" && task.passwordLength > 0
    requires !(Over(task.milestone, TaskAlphabet(task)) && |task.milestone| == task.passwordLength)
    ensures Candidates(task) == [""]
  {
  }
}
