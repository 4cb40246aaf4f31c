/**
 * The state shared by all attack tasks (the static members of
 * collisionAttackTask_CPU): the found passwords and their counter, the
 * outgoing and incoming checkpoint queues, the target, its
 * "$algid$salt" prefix and the attack status; plus the per-task settings and
 * the collision test.
 */
module AttackState {
  import opened Wrappers
  import opened Strings
  import opened Alphabets
  import opened Users

  /** Attack status values (m_attack_is_on). Any value other than 1 and 2 means "stop". */
  const Stopped: int := 0
  const Running: int := 1
  const Saving: int := 2

  /** The `unsigned int` hit counter. */
  newtype uint32 = x: int | 0 <= x < 0x1_0000_0000

  /** `x++` on an unsigned 32-bit counter: the largest value wraps around to 0. */
  function Inc(x: uint32): uint32 {
    if x == 0xFFFF_FFFF then 0 else x + 1
  }

  /** The counter after `n` increments. */
  function AddWrapped(x: uint32, n: nat): uint32
    decreases n
  {
    if n == 0 then x else Inc(AddWrapped(x, n - 1))
  }

  /** `n` increments add `n` modulo 2^32. */
  lemma {:induction false} AddWrappedModulo(x: uint32, n: nat)
    ensures AddWrapped(x, n) as int == (x as int + n) % 0x1_0000_0000
    decreases n
  {
    if n > 0 {
      var y := AddWrapped(x, n - 1);
      AddWrappedModulo(x, n - 1);
      ModStep(x as int + n - 1);
      assert AddWrapped(x, n) == Inc(y);
      if y == 0xFFFF_FFFF {
        assert (x as int + n) % 0x1_0000_0000 == 0;
      } else {
        assert (x as int + n) % 0x1_0000_0000 == y as int + 1;
      }
    }
  }

  /** Adding one to a number moves its residue modulo 2^32 one step, wrapping from the largest to 0. */
  lemma ModStep(a: nat)
    ensures (a + 1) % 0x1_0000_0000 == if a % 0x1_0000_0000 == 0xFFFF_FFFF then 0 else a % 0x1_0000_0000 + 1
  {
    var q, r := a / 0x1_0000_0000, a % 0x1_0000_0000;
    assert a == q * 0x1_0000_0000 + r;
    if r == 0xFFFF_FFFF {
      ModShift(0, q + 1);
    } else {
      ModShift(r + 1, q);
    }
  }

  lemma ModShift(b: nat, q: int)
    requires b + q * 0x1_0000_0000 >= 0
    ensures (b + q * 0x1_0000_0000) % 0x1_0000_0000 == b % 0x1_0000_0000
  {
  }

  /** The settings of one task (one QRunnable). */
  datatype Task = Task(heur: Heuristic, passwordLength: nat, milestone: string)

  /**
   * The task constructor. Without a target, or for a "partial" task longer
   * than the optimal maximum, the password length is forced to 0, which makes
   * the task do nothing.
   */
  function NewTask(heur: Heuristic, length: nat, milestone: string, hasTarget: bool): (t: Task)
    ensures t.heur == heur && t.milestone == milestone
    ensures t.passwordLength == length || t.passwordLength == 0
    ensures !hasTarget ==> t.passwordLength == 0
    ensures heur == Partial && length > OptimalMaxPL ==> t.passwordLength == 0
    ensures hasTarget && (heur != Partial || length <= OptimalMaxPL) ==> t.passwordLength == length
  {
    if !hasTarget || (heur == Partial && length > OptimalMaxPL) then Task(heur, 0, milestone)
    else Task(heur, length, milestone)
  }

  /** A task never holds a partial length above the optimal maximum. */
  lemma NewTaskPartialBound(length: nat, milestone: string, hasTarget: bool)
    ensures NewTask(Partial, length, milestone, hasTarget).passwordLength <= OptimalMaxPL
  {
  }

  /** The hash field of a crypt(3) result: the fourth `$`-separated part, when there is one. */
  function HashField(digestOut: string): (r: Option<string>)
    ensures r.None? <==> |Split(digestOut, '$')| < 4
    ensures r.Some? ==> r.value == Split(digestOut, '$')[3] && '$' !in r.value
  {
    var parts := Split(digestOut, '$');
    SplitParts(digestOut, '$');
    if |parts| < 4 then None else Some(parts[3])
  }

  /**
   * A crypt(3) result of the usual shape "" $ id $ salt $ hash, none of whose
   * fields holds '$', has exactly that hash field.
   */
  lemma HashFieldOfCryptFormat(id: string, salt: string, hash: string)
    requires '$' !in id && '$' !in salt && '$' !in hash
    ensures HashField("$" + id + "$" + salt + "$" + hash) == Some(hash)
  {
    var parts := ["", id, salt, hash];
    assert parts[1..] == [id, salt, hash] && parts[1..][1..] == [salt, hash] && parts[1..][1..][1..] == [hash];
    assert Join([salt, hash], '$') == salt + "$" + hash;
    assert Join([id, salt, hash], '$') == id + "$" + (salt + "$" + hash);
    assert Join(parts, '$') == "$" + id + "$" + salt + "$" + hash;
    SplitJoin(parts, '$');
  }

  /** A candidate is a collision when its digest's hash field equals the target hash. */
  predicate IsCollision(digestOut: string, targetHash: string) {
    HashField(digestOut) == Some(targetHash)
  }

  /** The candidates of `cands` that are collisions, in order. */
  function Hits(cands: seq<string>, digest: (string, string) -> string, algidSalt: string, targetHash: string): (r: seq<string>)
    ensures |r| <= |cands|
    decreases |cands|
  {
    if |cands| == 0 then []
    else
      var init := Hits(cands[..|cands| - 1], digest, algidSalt, targetHash);
      var c := cands[|cands| - 1];
      if IsCollision(digest(c, algidSalt), targetHash) then init + [c] else init
  }

  /** The hits are exactly the candidates whose digest matches the target hash. */
  lemma {:induction false} HitsMembers(cands: seq<string>, digest: (string, string) -> string, algidSalt: string, targetHash: string)
    ensures forall c :: c in Hits(cands, digest, algidSalt, targetHash) <==>
      c in cands && IsCollision(digest(c, algidSalt), targetHash)
    decreases |cands|
  {
    if |cands| > 0 {
      var init := cands[..|cands| - 1];
      HitsMembers(init, digest, algidSalt, targetHash);
      assert cands == init + [cands[|cands| - 1]];
    }
  }

  /** Collecting the hits of one more candidate extends the collected hits by at most that candidate. */
  lemma HitsSnoc(cands: seq<string>, c: string, digest: (string, string) -> string, algidSalt: string, targetHash: string)
    ensures Hits(cands + [c], digest, algidSalt, targetHash) ==
      Hits(cands, digest, algidSalt, targetHash) + (if IsCollision(digest(c, algidSalt), targetHash) then [c] else [])
  {
    assert (cands + [c])[..|cands|] == cands;
  }

  /** The hits among the first i + 1 candidates extend those among the first i. */
  lemma HitsPrefixStep(cands: seq<string>, i: nat, digest: (string, string) -> string, salt: string, hash: string)
    requires i < |cands|
    ensures Hits(cands[..i + 1], digest, salt, hash) ==
      Hits(cands[..i], digest, salt, hash) + (if IsCollision(digest(cands[i], salt), hash) then [cands[i]] else [])
    ensures i + 1 == |cands| ==> Hits(cands[..i + 1], digest, salt, hash) == Hits(cands, digest, salt, hash)
  {
    assert cands[..i + 1] == cands[..i] + [cands[i]];
    HitsSnoc(cands[..i], cands[i], digest, salt, hash);
    if i + 1 == |cands| {
      assert cands[..i + 1] == cands;
    }
  }

  /**
   * The number of status polls after `from` that read "run" before one reads
   * anything else, among the polls from .. n-1; n when all of them read "run".
   */
  function FirstStop(st: nat -> int, from: nat, n: nat): (k: nat)
    requires from <= n
    ensures from <= k <= n
    ensures forall j :: from <= j < k ==> st(j) == Running
    ensures k < n ==> st(k) != Running
    decreases n - from
  {
    if from == n || st(from) != Running then from else FirstStop(st, from + 1, n)
  }

  /** The shared state of all tasks. */
  class Engine {
    var foundCollisions: seq<string>
    var hitsNum: uint32
    /** Checkpoints of paused tasks, to be saved. */
    var milestonesToCache: seq<Milestone>
    /** Checkpoints loaded from a saved attack, to be resumed. */
    var milestonesFromCache: seq<Milestone>
    var target: Option<UserData>
    var algidSalt: string
    var attackIsOn: int

    /** The initial values of the static members. */
    constructor ()
      ensures foundCollisions == [] && hitsNum == 0
      ensures milestonesToCache == [] && milestonesFromCache == []
      ensures target == None && algidSalt == "" && attackIsOn == Stopped
    {
      foundCollisions := [];
      hitsNum := 0;
      milestonesToCache := [];
      milestonesFromCache := [];
      target := None;
      algidSalt := "";
      attackIsOn := Stopped;
    }

    /** The hits are `found0` followed by `hits`, and the counter has advanced once per member of `hits`. */
    ghost predicate HitsLogged(found0: seq<string>, count0: uint32, hits: seq<string>)
      reads this
    {
      foundCollisions == found0 + hits && hitsNum == AddWrapped(count0, |hits|)
    }

    /**
     * The outcome of polling the candidates `cands` until the first poll k
     * that does not read "run": the hits among the candidates before k follow
     * `found0` (and the counter `count0` has advanced once per hit), a "save"
     * at poll k has enqueued the checkpoint `marks[k]` of candidate k after
     * `to0` with mode `heur`, and `success` tells whether anything was found.
     */
    ghost predicate Polled(cands: seq<string>, marks: seq<string>, st: nat -> int, heur: Heuristic,
                           digest: (string, string) -> string,
                           found0: seq<string>, count0: uint32, to0: seq<Milestone>, success: bool)
      requires |marks| == |cands| && target.Some?
      reads this
    {
      var k := FirstStop(st, 0, |cands|);
      var hits := Hits(cands[..k], digest, algidSalt, target.value.hash);
      && HitsLogged(found0, count0, hits)
      && milestonesToCache == to0 + (if k < |cands| && st(k) == Saving then [Milestone(marks[k], heur)] else [])
      && (success <==> |hits| > 0)
    }

    /**
     * Polling the candidates `cands` has reached poll `poll` with every poll
     * so far reading "run": the hits among the candidates before it are
     * logged after `found0` and `count0`, and nothing has been enqueued.
     */
    ghost predicate Progress(cands: seq<string>, st: nat -> int, digest: (string, string) -> string,
                             found0: seq<string>, count0: uint32, to0: seq<Milestone>,
                             poll: nat, hits: seq<string>, success: bool)
      requires target.Some?
      reads this
    {
      && poll <= |cands|
      && FirstStop(st, 0, |cands|) == FirstStop(st, poll, |cands|)
      && milestonesToCache == to0
      && hits == Hits(cands[..poll], digest, algidSalt, target.value.hash)
      && HitsLogged(found0, count0, hits)
      && (success <==> |hits| > 0)
    }

    function AttackStatus(): int
      reads this
    {
      attackIsOn
    }

    method StopAttack()
      modifies this`attackIsOn
      ensures attackIsOn == Stopped
    {
      attackIsOn := Stopped;
    }

    method StartAttack()
      modifies this`attackIsOn
      ensures attackIsOn == Running
    {
      attackIsOn := Running;
    }

    method SaveAttack()
      modifies this`attackIsOn
      ensures attackIsOn == Saving
    {
      attackIsOn := Saving;
    }

    method AddCacheInit(m: Milestone)
      modifies this`milestonesFromCache
      ensures milestonesFromCache == old(milestonesFromCache) + [m]
    {
      milestonesFromCache := milestonesFromCache + [m];
    }

    /** Dequeues the oldest incoming checkpoint, or returns ("", none) when there is none. */
    method GetCacheInit() returns (m: Milestone)
      modifies this`milestonesFromCache
      ensures old(milestonesFromCache) == [] ==> m == Milestone("", NoHeuristic) && milestonesFromCache == []
      ensures old(milestonesFromCache) != [] ==>
        m == old(milestonesFromCache)[0] && milestonesFromCache == old(milestonesFromCache)[1..]
    {
      if milestonesFromCache == [] {
        m := Milestone("", NoHeuristic);
      } else {
        m := milestonesFromCache[0];
        milestonesFromCache := milestonesFromCache[1..];
      }
    }

    method AddMilestone(m: Milestone)
      modifies this`milestonesToCache
      ensures milestonesToCache == old(milestonesToCache) + [m]
    {
      milestonesToCache := milestonesToCache + [m];
    }

    /** Dequeues the oldest outgoing checkpoint, or returns ("", none) when there is none. */
    method GetMilestone() returns (m: Milestone)
      modifies this`milestonesToCache
      ensures old(milestonesToCache) == [] ==> m == Milestone("", NoHeuristic) && milestonesToCache == []
      ensures old(milestonesToCache) != [] ==>
        m == old(milestonesToCache)[0] && milestonesToCache == old(milestonesToCache)[1..]
    {
      if milestonesToCache == [] {
        m := Milestone("", NoHeuristic);
      } else {
        m := milestonesToCache[0];
        milestonesToCache := milestonesToCache[1..];
      }
    }

    method ClearCacheInit()
      modifies this`milestonesFromCache
      ensures milestonesFromCache == []
    {
      milestonesFromCache := [];
    }

    method ClearMilestones()
      modifies this`milestonesToCache
      ensures milestonesToCache == []
    {
      milestonesToCache := [];
    }

    /** Appends a found password and counts it. */
    method AddHit(finding: string)
      modifies this`foundCollisions, this`hitsNum
      ensures foundCollisions == old(foundCollisions) + [finding]
      ensures hitsNum == Inc(old(hitsNum))
    {
      foundCollisions := foundCollisions + [finding];
      hitsNum := Inc(hitsNum);
    }

    /** Removes and returns the oldest found password, or "" when there is none; the counter is kept. */
    method GetHit() returns (h: string)
      modifies this`foundCollisions
      ensures old(foundCollisions) == [] ==> h == "" && foundCollisions == []
      ensures old(foundCollisions) != [] ==>
        h == old(foundCollisions)[0] && foundCollisions == old(foundCollisions)[1..]
    {
      if foundCollisions == [] {
        h := "";
      } else {
        h := foundCollisions[0];
        foundCollisions := foundCollisions[1..];
      }
    }

    method ClearHits()
      modifies this`foundCollisions, this`hitsNum
      ensures foundCollisions == [] && hitsNum == 0
    {
      foundCollisions := [];
      hitsNum := 0;
    }

    /**
     * (Re)initialises the attack for a target: stops it, drops the findings
     * and the outgoing checkpoints (the incoming ones are kept), and for a
     * real target sets the "$algid$salt" prefix and starts the attack.
     */
    method SetNewTarget(t: Option<UserData>)
      modifies this`target, this`algidSalt, this`attackIsOn, this`foundCollisions, this`hitsNum, this`milestonesToCache
      ensures target == t
      ensures foundCollisions == [] && hitsNum == 0 && milestonesToCache == []
      ensures t.None? ==> algidSalt == "" && attackIsOn == Stopped
      ensures t.Some? ==> algidSalt == "$" + t.value.algid + "$" + t.value.salt && attackIsOn == Running
    {
      StopAttack();
      ClearMilestones();
      ClearHits();
      target := t;
      if t.None? {
        algidSalt := "";
      } else {
        algidSalt := "$" + t.value.algid + "$" + t.value.salt;
        StartAttack();
      }
    }

    /** compare_hashes. */
    predicate CompareHashes(hash: string)
      reads this
      requires target.Some?
    {
      hash == target.value.hash
    }

    /**
     * evaluate_password: digests the candidate with the target's prefix and
     * records it as a hit exactly when the result's hash field is the
     * target's hash; a digest with fewer than four fields records nothing.
     */
    method EvaluatePassword(digest: (string, string) -> string, password: string) returns (broken: bool)
      requires target.Some?
      modifies this`foundCollisions, this`hitsNum
      ensures broken <==> IsCollision(digest(password, algidSalt), target.value.hash)
      ensures |Split(digest(password, algidSalt), '$')| < 4 ==> !broken
      ensures foundCollisions == old(foundCollisions) + (if broken then [password] else [])
      ensures hitsNum == if broken then Inc(old(hitsNum)) else old(hitsNum)
    {
      broken := false;
      var parts := Split(digest(password, algidSalt), '$');
      if |parts| < 4 {
        return;
      }
      var hash := parts[3];
      if CompareHashes(hash) {
        AddHit(password);
        broken := true;
      }
    }

    /**
     * One poll of a polling loop at candidate `poll`, whose text is `word` and
     * whose checkpoint is `mark`: "run" evaluates it, "save" enqueues its
     * checkpoint and stops, anything else stops.
     */
    method PollStep(ghost cands: seq<string>, ghost marks: seq<string>, st: nat -> int, heur: Heuristic,
                    digest: (string, string) -> string, ghost found0: seq<string>, ghost count0: uint32,
                    ghost to0: seq<Milestone>, poll: nat, word: string, mark: string,
                    ghost hits: seq<string>, success: bool)
      returns (stopped: bool, ghost hits': seq<string>, success': bool)
      requires target.Some? && |marks| == |cands| && poll < |cands|
      requires word == cands[poll] && mark == marks[poll]
      requires Progress(cands, st, digest, found0, count0, to0, poll, hits, success)
      modifies this`foundCollisions, this`hitsNum, this`milestonesToCache
      ensures stopped ==> Polled(cands, marks, st, heur, digest, found0, count0, to0, success')
      ensures !stopped ==> Progress(cands, st, digest, found0, count0, to0, poll + 1, hits', success')
    {
      stopped, hits', success' := false, hits, success;
      var status := st(poll);
      if status == Running {
        var broken := EvaluatePassword(digest, word);
        HitsPrefixStep(cands, poll, digest, algidSalt, target.value.hash);
        if broken {
          success' := true;
        }
        hits' := hits + (if broken then [word] else []);
      } else {
        if status == Saving {
          AddMilestone(Milestone(mark, heur));
        }
        stopped := true;
      }
    }
  }

  /**
   * A polling loop whose polls all read "run" evaluates every candidate:
   * every hit is logged, nothing is enqueued, and the result says whether
   * anything was found.
   */
  lemma PolledUninterrupted(engine: Engine, cands: seq<string>, marks: seq<string>, st: nat -> int,
                            heur: Heuristic, digest: (string, string) -> string,
                            found0: seq<string>, count0: uint32, to0: seq<Milestone>, success: bool)
    requires |marks| == |cands| && engine.target.Some?
    requires forall j :: 0 <= j < |cands| ==> st(j) == Running
    requires engine.Polled(cands, marks, st, heur, digest, found0, count0, to0, success)
    ensures engine.foundCollisions == found0 + Hits(cands, digest, engine.algidSalt, engine.target.value.hash)
    ensures engine.hitsNum == AddWrapped(count0, |Hits(cands, digest, engine.algidSalt, engine.target.value.hash)|)
    ensures engine.milestonesToCache == to0
    ensures success <==> |Hits(cands, digest, engine.algidSalt, engine.target.value.hash)| > 0
  {
    assert cands[..|cands|] == cands;
  }

  /** Polling that got past the last candidate has the outcome `Polled` describes, with nothing enqueued. */
  lemma ProgressComplete(engine: Engine, cands: seq<string>, marks: seq<string>, st: nat -> int, heur: Heuristic,
                         digest: (string, string) -> string, found0: seq<string>, count0: uint32,
                         to0: seq<Milestone>, hits: seq<string>, success: bool)
    requires engine.target.Some? && |marks| == |cands|
    requires engine.Progress(cands, st, digest, found0, count0, to0, |cands|, hits, success)
    ensures engine.Polled(cands, marks, st, heur, digest, found0, count0, to0, success)
  {
    assert cands[..|cands|] == cands;
  }
}
