/**
 * The body of an attack task (collisionAttackTask_CPU::run): it polls the
 * status once before starting, then runs the user-name and dictionary attack
 * for a "full" task, or the brute-force attack otherwise.
 */
module TaskRun {
  import opened Wrappers
  import opened Alphabets
  import opened Users
  import opened AttackState
  import opened BruteForce
  import opened Dictionary

  /** The status polls after the first one. */
  function After(st: nat -> int): (st': nat -> int)
    ensures forall k: nat :: st'(k) == st(k + 1)
  {
    (k: nat) => st(k + 1)
  }

  /** The candidates a "full" task evaluates before its dictionaries, without a poll: the target's name on a fresh start. */
  function NameCandidates(task: Task, name: string): seq<string> {
    if task.milestone == "" then [name] else []
  }

  /** Whether the task starts at all: its first poll reads "run", and a brute-force task has a positive length. */
  predicate Starts(task: Task, st: nat -> int) {
    st(0) == Running && (task.heur == Full || task.passwordLength > 0)
  }

  /**
   * run(): the task stops at once unless it `Starts`. A "full" task then
   * evaluates the target's name when it starts afresh, and goes on with the
   * dictionary attack over `dicts` with the polls after the first; any other
   * task runs the brute-force attack with those polls. `success` is what the
   * attack found, which run() itself drops.
   */
  method Run(task: Task, engine: Engine, st: nat -> int, digest: (string, string) -> string,
             dicts: Option<seq<DictFile>>)
    returns (ghost success: bool)
    requires task.heur == Full || task.passwordLength > 0 ==> engine.target.Some?
    modifies engine`foundCollisions, engine`hitsNum, engine`milestonesToCache
    ensures !Starts(task, st) ==>
      && engine.foundCollisions == old(engine.foundCollisions) && engine.hitsNum == old(engine.hitsNum)
      && engine.milestonesToCache == old(engine.milestonesToCache)
    ensures Starts(task, st) && task.heur != Full ==>
      engine.Polled(Candidates(task), Candidates(task), After(st), task.heur, digest,
                    old(engine.foundCollisions), old(engine.hitsNum), old(engine.milestonesToCache), success)
    ensures Starts(task, st) && task.heur == Full ==>
      var first := Hits(NameCandidates(task, engine.target.value.name), digest, engine.algidSalt, engine.target.value.hash);
      dicts.None? ==>
        && engine.foundCollisions == old(engine.foundCollisions) + first
        && engine.hitsNum == AddWrapped(old(engine.hitsNum), |first|)
        && engine.milestonesToCache == old(engine.milestonesToCache)
    ensures Starts(task, st) && task.heur == Full && dicts.Some? ==>
      var first := Hits(NameCandidates(task, engine.target.value.name), digest, engine.algidSalt, engine.target.value.hash);
      var sched := DictSchedule(dicts.value, task.milestone);
      engine.Polled(Words(sched), Marks(sched), After(st), task.heur, digest,
                    old(engine.foundCollisions) + first, AddWrapped(old(engine.hitsNum), |first|),
                    old(engine.milestonesToCache), success)
  {
    success := false;
    var status := st(0);
    if status != Running || (task.heur != Full && task.passwordLength == 0) {
      return;
    }
    if task.heur == Full {
      ghost var t := engine.target.value;
      ghost var found0, count0 := engine.foundCollisions, engine.hitsNum;
      if task.milestone == "" {
        var broken := engine.EvaluatePassword(digest, engine.target.value.name);
        assert [t.name][..0] == [];
      }
      ghost var first := Hits(NameCandidates(task, t.name), digest, engine.algidSalt, t.hash);
      assert engine.foundCollisions == found0 + first && engine.hitsNum == AddWrapped(count0, |first|);
      success := DictionaryAttack(dicts, task.milestone, task.heur, engine, After(st), digest);
    } else {
      success := BruteForceAttack(task, engine, After(st), digest);
    }
  }
}
