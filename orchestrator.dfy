/**
 * The planning of an attack (user.cpp): which tasks a fresh or resumed
 * collision attack starts on the thread pool, in which order, as the status
 * and the pool's spare capacity allow.
 *
 * The status polls of the planning thread are an oracle `st`, indexed from
 * `poll` on; the spare capacity seen at poll j is `spare(j)`. Starting a task
 * on the pool is recorded by returning it: every planning method returns the
 * tasks it starts, in order.
 */
module Orchestrator {
  import opened Wrappers
  import opened Alphabets
  import opened Users
  import opened AttackState

  function Max(a: nat, b: nat): (m: nat)
    ensures m >= a && m >= b && (m == a || m == b)
  {
    if a < b then b else a
  }

  // ---------------------------------------------------------------------------
  // limited_attack
  // ---------------------------------------------------------------------------

  /** The poll at which limited_attack from `initial` stops starting tasks (the first that does not read "run", or the end of its lengths). */
  function LimitedStop(initial: nat, st: nat -> int, poll: nat): (k: nat)
    requires initial <= OptimalMaxPL
    ensures poll <= k <= poll + (OptimalMaxPL + 1 - initial)
  {
    FirstStop(st, poll, poll + (OptimalMaxPL + 1 - initial))
  }

  /**
   * The tasks limited_attack starts: one "partial" task per length from
   * `initial` up to the optimal maximum, each after a poll that reads "run",
   * until a poll reads anything else.
   */
  function LimitedTasks(initial: nat, st: nat -> int, poll: nat, hasTarget: bool): (r: seq<Task>)
    ensures initial > OptimalMaxPL ==> r == []
    ensures initial <= OptimalMaxPL ==> |r| <= OptimalMaxPL + 1 - initial
    ensures forall i :: 0 <= i < |r| ==> r[i] == NewTask(Partial, initial + i, "", hasTarget)
    ensures forall j :: poll <= j < poll + |r| ==> st(j) == Running
    ensures initial <= OptimalMaxPL && |r| < OptimalMaxPL + 1 - initial ==> st(poll + |r|) != Running
  {
    if initial > OptimalMaxPL then []
    else seq(LimitedStop(initial, st, poll) - poll, i requires 0 <= i => NewTask(Partial, initial + i, "", hasTarget))
  }

  /** The first poll after limited_attack: one per task started, plus the one that stopped it, if any. */
  function LimitedEnd(initial: nat, st: nat -> int, poll: nat): (p: nat)
    ensures p == poll + |LimitedTasks(initial, st, poll, true)| ||
            p == poll + |LimitedTasks(initial, st, poll, true)| + 1
  {
    if initial > OptimalMaxPL then poll
    else
      var k := LimitedStop(initial, st, poll);
      if k < poll + (OptimalMaxPL + 1 - initial) then k + 1 else k
  }

  /** limited_attack(initial_password_length). */
  method LimitedAttack(initial: nat, st: nat -> int, poll: nat, hasTarget: bool) returns (tasks: seq<Task>, poll': nat)
    ensures tasks == LimitedTasks(initial, st, poll, hasTarget)
    ensures poll' == LimitedEnd(initial, st, poll)
  {
    tasks, poll' := [], poll;
    if initial <= OptimalMaxPL {
      ghost var n := poll + (OptimalMaxPL + 1 - initial);
      var passLength := initial;
      while passLength <= OptimalMaxPL
        invariant initial <= passLength <= OptimalMaxPL + 1
        invariant poll' == poll + (passLength - initial)
        invariant FirstStop(st, poll, n) == FirstStop(st, poll', n)
        invariant |tasks| == passLength - initial
        invariant forall i :: 0 <= i < |tasks| ==> tasks[i] == NewTask(Partial, initial + i, "", hasTarget)
      {
        var status := st(poll');
        if status != Running {
          poll' := poll' + 1;
          break;
        }
        tasks := tasks + [NewTask(Partial, passLength, "", hasTarget)];
        poll' := poll' + 1;
        passLength := passLength + 1;
      }
    }
  }

  // ---------------------------------------------------------------------------
  // unlimited_attack
  // ---------------------------------------------------------------------------

  /** The first poll from `poll` on that does not read "run". */
  ghost function NextStop(st: nat -> int, poll: nat): (k: nat)
    requires exists k :: k >= poll && st(k) != Running
    ensures poll <= k && st(k) != Running
    ensures forall j :: poll <= j < k ==> st(j) == Running
  {
    var w :| w >= poll && st(w) != Running;
    FirstStop(st, poll, w + 1)
  }

  /** The number of polls among a .. b-1 that see spare capacity. */
  function SpareCount(spare: nat -> bool, a: nat, b: nat): (n: nat)
    ensures n <= if a <= b then b - a else 0
    ensures (forall j :: a <= j < b ==> spare(j)) ==> n == if a <= b then b - a else 0
    decreases b
  {
    if b <= a then 0 else SpareCount(spare, a, b - 1) + (if spare(b - 1) then 1 else 0)
  }

  /**
   * The tasks unlimited_attack starts: a "none" task of the next length for
   * every poll that reads "run" and sees spare capacity, lengths counting up
   * from `initial`, until a poll reads anything else.
   */
  ghost function UnlimitedTasks(initial: nat, st: nat -> int, spare: nat -> bool, poll: nat, hasTarget: bool): (r: seq<Task>)
    requires exists k :: k >= poll && st(k) != Running
    ensures |r| == SpareCount(spare, poll, NextStop(st, poll))
    ensures forall i :: 0 <= i < |r| ==> r[i] == NewTask(NoHeuristic, initial + i, "", hasTarget)
  {
    seq(SpareCount(spare, poll, NextStop(st, poll)), i requires 0 <= i => NewTask(NoHeuristic, initial + i, "", hasTarget))
  }

  /**
   * unlimited_attack(initial_password_length). It ends only when a poll reads
   * something other than "run", so the model covers the runs where one does.
   */
  method UnlimitedAttack(initial: nat, st: nat -> int, spare: nat -> bool, poll: nat, hasTarget: bool)
    returns (tasks: seq<Task>, poll': nat)
    requires exists k :: k >= poll && st(k) != Running
    ensures tasks == UnlimitedTasks(initial, st, spare, poll, hasTarget)
    ensures poll' == NextStop(st, poll) + 1
  {
    ghost var stop := NextStop(st, poll);
    var current := initial;
    tasks, poll' := [], poll;
    while true
      invariant poll <= poll' <= stop
      invariant current == initial + |tasks|
      invariant |tasks| == SpareCount(spare, poll, poll')
      invariant forall i :: 0 <= i < |tasks| ==> tasks[i] == NewTask(NoHeuristic, initial + i, "", hasTarget)
      decreases stop - poll'
    {
      var status := st(poll');
      if status != Running {
        break;
      } else if spare(poll') {
        tasks := tasks + [NewTask(NoHeuristic, current, "", hasTarget)];
        current := current + 1;
      }
      poll' := poll' + 1;
    }
    poll' := poll' + 1;
  }

  /**
   * The unlimited attack starts "none" tasks of consecutive lengths from
   * `initial`, with no gaps, at most one per poll before the stop, and one on
   * every such poll when the pool always has spare capacity.
   */
  lemma UnlimitedConsecutive(initial: nat, st: nat -> int, spare: nat -> bool, poll: nat)
    requires exists k :: k >= poll && st(k) != Running
    ensures var r := UnlimitedTasks(initial, st, spare, poll, true);
      && (forall i :: 0 <= i < |r| ==> r[i].heur == NoHeuristic && r[i].milestone == "")
      && (|r| > 0 ==> r[0].passwordLength == initial)
      && (forall i, j :: 0 <= i < j < |r| ==> r[j].passwordLength == r[i].passwordLength + (j - i))
      && |r| <= NextStop(st, poll) - poll
      && ((forall j :: poll <= j < NextStop(st, poll) ==> spare(j)) ==> |r| == NextStop(st, poll) - poll)
  {
  }

  // ---------------------------------------------------------------------------
  // resumed_collision_attack
  // ---------------------------------------------------------------------------

  /** The highest checkpoint reached: a mode and a password length. */
  datatype Bound = Bound(heur: Heuristic, length: nat)

  /** How one resumed checkpoint moves the bound: "none" always wins, "partial" only over "full". */
  function BoundStep(b: Bound, m: Milestone): Bound {
    match m.heur
    case NoHeuristic => Bound(NoHeuristic, Max(b.length, |m.point|))
    case Partial => if b.heur != NoHeuristic then Bound(Partial, Max(b.length, |m.point|)) else b
    case Full => b
  }

  /** The bound after resuming the checkpoints `ms` in order, from ("full", 1). */
  function ResumeBound(ms: seq<Milestone>): Bound
    decreases |ms|
  {
    if |ms| == 0 then Bound(Full, 1) else BoundStep(ResumeBound(ms[..|ms| - 1]), ms[|ms| - 1])
  }

  /**
   * The number of checkpoints resumed from `incoming`, counting from the i-th:
   * each needs a poll that reads "run" and a non-empty point; the first
   * empty point (or the end of the queue) ends the resumption.
   */
  function ResumeCount(incoming: seq<Milestone>, st: nat -> int, poll: nat, i: nat): (n: nat)
    requires i <= |incoming|
    ensures i <= n <= |incoming|
    ensures forall j :: i <= j < n ==> incoming[j].point != ""
    ensures forall p :: poll + i <= p < poll + n ==> st(p) == Running
    ensures n < |incoming| ==> st(poll + n) != Running || incoming[n].point == ""
    decreases |incoming| - i
  {
    if i < |incoming| && st(poll + i) == Running && incoming[i].point != "" then ResumeCount(incoming, st, poll, i + 1)
    else i
  }

  /** Resumption ends at the first checkpoint that is missing, empty, or met with a poll that does not read "run". */
  lemma ResumeCountStops(incoming: seq<Milestone>, st: nat -> int, poll: nat, i: nat)
    requires i <= ResumeCount(incoming, st, poll, 0)
    requires i == |incoming| || st(poll + i) != Running || incoming[i].point == ""
    ensures i == ResumeCount(incoming, st, poll, 0)
  {
  }

  /** The tasks that resume the first n checkpoints, in order. */
  function ResumedTasks(incoming: seq<Milestone>, n: nat, hasTarget: bool): (r: seq<Task>)
    requires n <= |incoming|
    ensures |r| == n && forall i :: 0 <= i < n ==> r[i] == ResumeTask(incoming[i], hasTarget)
  {
    seq(n, i requires 0 <= i < n => ResumeTask(incoming[i], hasTarget))
  }

  /** The task that resumes a checkpoint: its mode, the length of its point, and the point itself. */
  function ResumeTask(m: Milestone, hasTarget: bool): Task {
    NewTask(m.heur, |m.point|, m.point, hasTarget)
  }

  /** The incoming queue after resuming n checkpoints: the poll after them also dequeued one when it read "run". */
  function QueueAfter(incoming: seq<Milestone>, st: nat -> int, poll: nat, n: nat): (r: seq<Milestone>)
    requires n <= |incoming|
    ensures |r| <= |incoming| - n
  {
    if n < |incoming| && st(poll + n) == Running then incoming[n + 1..] else incoming[n..]
  }

  /** One case of the switch in resumed_collision_attack: the bound after resuming checkpoint m. */
  method RaiseBound(upperboundHeur: Heuristic, upperboundLength: nat, m: Milestone) returns (heur': Heuristic, length': nat)
    ensures Bound(heur', length') == BoundStep(Bound(upperboundHeur, upperboundLength), m)
  {
    heur', length' := upperboundHeur, upperboundLength;
    if m.heur == NoHeuristic {
      heur' := NoHeuristic;
      if length' < |m.point| {
        length' := |m.point|;
      }
    } else if m.heur == Partial {
      if heur' != NoHeuristic {
        heur' := Partial;
        if length' < |m.point| {
          length' := |m.point|;
        }
      }
    }
  }

  /**
   * The first i checkpoints of `incoming` have been resumed: one task each,
   * in order, and the bound they reach.
   */
  ghost predicate Resuming(incoming: seq<Milestone>, st: nat -> int, poll: nat, hasTarget: bool,
                           i: nat, tasks: seq<Task>, b: Bound)
  {
    && i <= ResumeCount(incoming, st, poll, 0)
    && |tasks| == i && (forall j :: 0 <= j < i ==> tasks[j] == ResumeTask(incoming[j], hasTarget))
    && b == ResumeBound(incoming[..i])
  }

  /**
   * One pass of the first loop of resumed_collision_attack, at poll `poll'`
   * with i checkpoints resumed: it stops on a poll that does not read "run"
   * or on an empty checkpoint, and otherwise resumes the next checkpoint.
   */
  method ResumeStep(engine: Engine, st: nat -> int, poll: nat, hasTarget: bool, ghost incoming: seq<Milestone>,
                    ghost i: nat, tasks: seq<Task>, upperboundHeur: Heuristic, upperboundLength: nat, poll': nat)
    returns (stopped: bool, tasks': seq<Task>, heur': Heuristic, length': nat)
    requires poll' == poll + i && i <= |incoming| && engine.milestonesFromCache == incoming[i..]
    requires Resuming(incoming, st, poll, hasTarget, i, tasks, Bound(upperboundHeur, upperboundLength))
    modifies engine`milestonesFromCache
    ensures stopped ==>
      && i == ResumeCount(incoming, st, poll, 0) && tasks' == tasks
      && Bound(heur', length') == Bound(upperboundHeur, upperboundLength)
      && engine.milestonesFromCache == QueueAfter(incoming, st, poll, i)
    ensures !stopped ==>
      && i < |incoming| && engine.milestonesFromCache == incoming[i + 1..]
      && Resuming(incoming, st, poll, hasTarget, i + 1, tasks', Bound(heur', length'))
  {
    stopped, tasks', heur', length' := true, tasks, upperboundHeur, upperboundLength;
    var status := st(poll');
    if status != Running {
      ResumeCountStops(incoming, st, poll, i);
      return;
    }
    var taskInit := engine.GetCacheInit();
    assert i < |incoming| ==> taskInit == incoming[i..][0] == incoming[i];
    if taskInit.point == "" {
      ResumeCountStops(incoming, st, poll, i);
      return;
    }
    assert incoming[..i + 1][..i] == incoming[..i];
    heur', length' := RaiseBound(upperboundHeur, upperboundLength, taskInit);
    tasks' := tasks + [NewTask(taskInit.heur, |taskInit.point|, taskInit.point, hasTarget)];
    stopped := false;
  }

  /**
   * The first loop of resumed_collision_attack: it starts one task per
   * resumed checkpoint of the incoming queue, in queue order, and returns
   * the bound they reach.
   */
  method ResumeCached(engine: Engine, st: nat -> int, poll: nat, hasTarget: bool)
    returns (tasks: seq<Task>, bound: Bound, poll': nat)
    modifies engine`milestonesFromCache
    ensures var incoming := old(engine.milestonesFromCache);
      var n := ResumeCount(incoming, st, poll, 0);
      && tasks == ResumedTasks(incoming, n, hasTarget)
      && bound == ResumeBound(incoming[..n])
      && poll' == poll + n + 1
      && engine.milestonesFromCache == QueueAfter(incoming, st, poll, n)
  {
    ghost var incoming := engine.milestonesFromCache;
    var upperboundHeur := Full;
    var upperboundLength: nat := 1;
    tasks, poll' := [], poll;
    ghost var i: nat := 0;
    while true
      invariant i <= |incoming| && poll' == poll + i
      invariant engine.milestonesFromCache == incoming[i..]
      invariant Resuming(incoming, st, poll, hasTarget, i, tasks, Bound(upperboundHeur, upperboundLength))
      decreases |incoming| - i
    {
      var stopped;
      stopped, tasks, upperboundHeur, upperboundLength :=
        ResumeStep(engine, st, poll, hasTarget, incoming, i, tasks, upperboundHeur, upperboundLength, poll');
      if stopped {
        break;
      }
      poll' := poll' + 1;
      i := i + 1;
    }
    poll' := poll' + 1;
    bound := Bound(upperboundHeur, upperboundLength);
  }

  /** The first length of the tasks above the bound: one past it, except that a bound of 1 stays 1. */
  function AboveLength(b: Bound): nat {
    if b.length != 1 then b.length + 1 else b.length
  }

  /** Whether the tasks above the bound start with a limited attack: when no "none" checkpoint was resumed. */
  predicate LimitedAbove(b: Bound) {
    b.heur == Full || b.heur == Partial
  }

  /** The first poll of the unlimited attack above the bound, when the planning polls from `poll` on. */
  function AboveStart(b: Bound, st: nat -> int, poll: nat): nat {
    if LimitedAbove(b) then LimitedEnd(AboveLength(b), st, poll) else poll
  }

  /**
   * The tasks resumed_collision_attack starts above the bound: a limited
   * attack from the length above it and then an unlimited attack from
   * length 1 when no "none" checkpoint was resumed, and otherwise an
   * unlimited attack from the length above it.
   */
  ghost function AboveTasks(b: Bound, st: nat -> int, spare: nat -> bool, poll: nat): (r: seq<Task>)
    requires exists k :: k >= AboveStart(b, st, poll) && st(k) != Running
  {
    if LimitedAbove(b) then
      LimitedTasks(AboveLength(b), st, poll, true) + UnlimitedTasks(1, st, spare, AboveStart(b, st, poll), true)
    else UnlimitedTasks(AboveLength(b), st, spare, poll, true)
  }

  /** The tasks a resumed collision attack starts from the incoming checkpoints, first ones resumed and then those above their bound. */
  ghost function ResumedPlan(incoming: seq<Milestone>, st: nat -> int, spare: nat -> bool): seq<Task>
    requires var n := ResumeCount(incoming, st, 0, 0);
      exists k :: k >= AboveStart(ResumeBound(incoming[..n]), st, n + 1) && st(k) != Running
  {
    var n := ResumeCount(incoming, st, 0, 0);
    ResumedTasks(incoming, n, true) + AboveTasks(ResumeBound(incoming[..n]), st, spare, n + 1)
  }

  /** The second part of resumed_collision_attack: the tasks above the bound, with the target set. */
  method AttackAbove(bound: Bound, st: nat -> int, spare: nat -> bool, poll: nat) returns (tasks: seq<Task>)
    requires exists k :: k >= AboveStart(bound, st, poll) && st(k) != Running
    ensures tasks == AboveTasks(bound, st, spare, poll)
  {
    var upperboundLength := bound.length;
    if upperboundLength != 1 {
      upperboundLength := upperboundLength + 1;
    }
    assert upperboundLength == AboveLength(bound);
    var limited: seq<Task> := [];
    var poll' := poll;
    if bound.heur == Full || bound.heur == Partial {
      limited, poll' := LimitedAttack(upperboundLength, st, poll, true);
      upperboundLength := 1;
    }
    assert poll' == AboveStart(bound, st, poll);
    ghost var w :| w >= poll' && st(w) != Running;
    var unlimited, _ := UnlimitedAttack(upperboundLength, st, spare, poll', true);
    tasks := limited + unlimited;
    if !LimitedAbove(bound) {
      assert limited + unlimited == unlimited;
    }
  }

  // ---------------------------------------------------------------------------
  // collision_attack and resumed_collision_attack
  // ---------------------------------------------------------------------------

  /** Every effect of setNewTarget for the user `u`, bar the incoming checkpoints. */
  ghost predicate Targeted(engine: Engine, u: UserData)
    reads engine
  {
    && engine.target == Some(u) && engine.algidSalt == "$" + u.algid + "$" + u.salt
    && engine.attackIsOn == Running
    && engine.foundCollisions == [] && engine.hitsNum == 0 && engine.milestonesToCache == []
  }

  /**
   * collision_attack: targets the user, starts the user-name and dictionary
   * task, then a limited attack from length 1, then an unlimited attack from
   * length 1.
   */
  method CollisionAttack(u: UserData, engine: Engine, st: nat -> int, spare: nat -> bool) returns (tasks: seq<Task>)
    requires exists k :: k >= LimitedEnd(1, st, 0) && st(k) != Running
    modifies engine`target, engine`algidSalt, engine`attackIsOn
    modifies engine`foundCollisions, engine`hitsNum, engine`milestonesToCache
    ensures Targeted(engine, u)
    ensures tasks ==
      [Task(Full, 0, "")] + LimitedTasks(1, st, 0, true) + UnlimitedTasks(1, st, spare, LimitedEnd(1, st, 0), true)
  {
    engine.SetNewTarget(Some(u));
    tasks := [NewTask(Full, 0, "", engine.target.Some?)];
    var limited, poll := LimitedAttack(1, st, 0, engine.target.Some?);
    var unlimited, _ := UnlimitedAttack(1, st, spare, poll, engine.target.Some?);
    tasks := tasks + limited + unlimited;
  }

  /**
   * resumed_collision_attack: targets the user, resumes the incoming
   * checkpoints, then starts the tasks above their bound.
   */
  method ResumedCollisionAttack(u: UserData, engine: Engine, st: nat -> int, spare: nat -> bool) returns (tasks: seq<Task>)
    requires var n := ResumeCount(engine.milestonesFromCache, st, 0, 0);
      exists k :: k >= AboveStart(ResumeBound(engine.milestonesFromCache[..n]), st, n + 1) && st(k) != Running
    modifies engine`target, engine`algidSalt, engine`attackIsOn
    modifies engine`foundCollisions, engine`hitsNum, engine`milestonesToCache, engine`milestonesFromCache
    ensures Targeted(engine, u)
    ensures engine.milestonesFromCache ==
      QueueAfter(old(engine.milestonesFromCache), st, 0, ResumeCount(old(engine.milestonesFromCache), st, 0, 0))
    ensures tasks == ResumedPlan(old(engine.milestonesFromCache), st, spare)
  {
    ghost var incoming := engine.milestonesFromCache;
    engine.SetNewTarget(Some(u));
    assert engine.milestonesFromCache == incoming;
    ghost var n := ResumeCount(incoming, st, 0, 0);
    var resumed, bound, poll := ResumeCached(engine, st, 0, engine.target.Some?);
    assert resumed == ResumedTasks(incoming, n, true) && bound == ResumeBound(incoming[..n]) && poll == n + 1;
    ghost var w :| w >= AboveStart(bound, st, poll) && st(w) != Running;
    var above := AttackAbove(bound, st, spare, poll);
    tasks := resumed + above;
  }

  // ---------------------------------------------------------------------------
  // Properties of the plans
  // ---------------------------------------------------------------------------

  /**
   * The mode of the bound: "none" exactly when a "none" checkpoint was
   * resumed, "full" exactly when only "full" ones were; the length is at
   * least 1, covers every "none" checkpoint (and every "partial" one when
   * there is no "none" one), and is 1 or the length of a checkpoint.
   */
  lemma {:induction false} ResumeBoundCovers(ms: seq<Milestone>)
    ensures ResumeBound(ms).heur == NoHeuristic <==> exists i :: 0 <= i < |ms| && ms[i].heur == NoHeuristic
    ensures ResumeBound(ms).heur == Full <==> forall i :: 0 <= i < |ms| ==> ms[i].heur == Full
    ensures ResumeBound(ms).length >= 1
    ensures forall i :: 0 <= i < |ms| && ms[i].heur == NoHeuristic ==> |ms[i].point| <= ResumeBound(ms).length
    ensures ResumeBound(ms).heur != NoHeuristic ==>
      forall i :: 0 <= i < |ms| && ms[i].heur == Partial ==> |ms[i].point| <= ResumeBound(ms).length
    ensures ResumeBound(ms).length == 1 ||
      exists i :: 0 <= i < |ms| && ms[i].heur != Full && |ms[i].point| == ResumeBound(ms).length
    decreases |ms|
  {
    if |ms| > 0 {
      var init := ms[..|ms| - 1];
      var m := ms[|ms| - 1];
      ResumeBoundCovers(init);
      assert forall i :: 0 <= i < |init| ==> init[i] == ms[i];
      var b := ResumeBound(init);
      var r := BoundStep(b, m);
      if r.length != 1 {
        if r.length == b.length {
          var i :| 0 <= i < |init| && init[i].heur != Full && |init[i].point| == b.length;
          assert ms[i] == init[i];
        } else {
          assert ms[|ms| - 1].heur != Full && |ms[|ms| - 1].point| == r.length;
        }
      }
    }
  }

  /**
   * The bound depends on the order of the checkpoints: a "partial"
   * checkpoint resumed before the first "none" one raises the length the
   * "none" mode then continues from, and one resumed after it does not.
   */
  lemma ResumeBoundOrder()
    ensures ResumeBound([Milestone("abc", Partial), Milestone("a", NoHeuristic)]) == Bound(NoHeuristic, 3)
    ensures ResumeBound([Milestone("a", NoHeuristic), Milestone("abc", Partial)]) == Bound(NoHeuristic, 1)
  {
    var p, n := Milestone("abc", Partial), Milestone("a", NoHeuristic);
    assert [p, n][..1] == [p] && [p][..0] == [];
    assert [n, p][..1] == [n] && [n][..0] == [];
  }

  /**
   * A resumed length-1 "none" checkpoint leaves the bound at 1, so the
   * unlimited attack above it starts again from length 1.
   */
  lemma ResumeLengthOne(m: Milestone)
    requires m.heur == NoHeuristic && |m.point| == 1
    ensures ResumeBound([m]) == Bound(NoHeuristic, 1)
    ensures !LimitedAbove(ResumeBound([m])) && AboveLength(ResumeBound([m])) == 1
  {
    assert [m][..0] == [];
  }

  /** After "none" checkpoints, every task started above the bound is a "none" task longer than every one of them (bar length 1). */
  lemma AboveNoneLonger(b: Bound, st: nat -> int, spare: nat -> bool, poll: nat)
    requires b.heur == NoHeuristic && b.length != 1
    requires exists k :: k >= AboveStart(b, st, poll) && st(k) != Running
    ensures forall t :: t in AboveTasks(b, st, spare, poll) ==> t.heur == NoHeuristic && t.passwordLength > b.length
  {
    var r := AboveTasks(b, st, spare, poll);
    forall t | t in r
      ensures t.heur == NoHeuristic && t.passwordLength > b.length
    {
      var i :| 0 <= i < |r| && r[i] == t;
    }
  }

  /**
   * With every one of its polls reading "run", the limited attack from
   * `initial` starts one "partial" task for each length from `initial` up to
   * the optimal maximum.
   */
  lemma LimitedUninterrupted(initial: nat, st: nat -> int, poll: nat)
    requires 1 <= initial <= OptimalMaxPL
    requires forall j :: poll <= j < poll + (OptimalMaxPL + 1 - initial) ==> st(j) == Running
    ensures var r := LimitedTasks(initial, st, poll, true);
      && |r| == OptimalMaxPL + 1 - initial
      && forall l :: initial <= l <= OptimalMaxPL ==> r[l - initial] == Task(Partial, l, "")
    ensures LimitedEnd(initial, st, poll) == poll + (OptimalMaxPL + 1 - initial)
  {
  }
}
