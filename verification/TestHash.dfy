/** The concurrent test of the hash table, with every table operation one atomic step: what each
    interleaving of the threads leaves in the table and what its lookups see. */
module TestHash {
  import opened Hashing
  import opened HTable
  import opened Primes

  datatype Mode = INSERT | MIX

  /** testkeys, the addresses of testvals, num_threads and run_mode */
  datatype Config = Config(keys: seq<Key>, vals: seq<Ptr>, threads: nat, mode: Mode)

  predicate ValidConfig(c: Config) {
    && |c.keys| == |c.vals| > 0 && c.threads > 0
    && (forall i, j :: 0 <= i < j < |c.keys| ==> c.keys[i] != c.keys[j])
    && (forall i :: 0 <= i < |c.vals| ==> c.vals[i] != NULL)
  }

  // ---- the partition of the keys

  function Lo(c: Config, t: nat): nat
    requires c.threads > 0
  {
    t * (|c.keys| / c.threads)
  }

  /** `end`: the last thread also takes what the division leaves over. */
  function Hi(c: Config, t: nat): nat
    requires c.threads > 0
  {
    if t == c.threads - 1 then |c.keys| else Lo(c, t + 1)
  }

  lemma MulMonotone(a: nat, b: nat, k: nat)
    requires a <= b
    ensures a * k <= b * k
    decreases b - a
  {
    if a < b {
      assert (a + 1) * k == a * k + k;
      MulMonotone(a + 1, b, k);
    }
  }

  lemma ShareBound(c: Config, t: nat)
    requires t < c.threads
    ensures Lo(c, t) <= Hi(c, t) <= |c.keys|
  {
    var share := |c.keys| / c.threads;
    assert c.threads * share <= |c.keys|;
    MulMonotone(t, t + 1, share);
    MulMonotone(t + 1, c.threads, share);
  }

  /** Every key belongs to exactly one thread. */
  lemma Owner(c: Config, i: nat) returns (t: nat)
    requires c.threads > 0 && i < |c.keys|
    ensures t < c.threads && Lo(c, t) <= i < Hi(c, t)
    ensures forall u :: 0 <= u < c.threads && Lo(c, u) <= i < Hi(c, u) ==> u == t
  {
    var share := |c.keys| / c.threads;
    t := 0;
    while t < c.threads - 1 && Lo(c, t + 1) <= i
      invariant t < c.threads && Lo(c, t) <= i
      invariant forall u :: 0 <= u < t ==> i >= Hi(c, u)
    {
      t := t + 1;
    }
    forall u | t < u < c.threads
      ensures Lo(c, u) > i
    {
      MulMonotone(t + 1, u, share);
    }
  }

  /** The shares: all threads but the last own |keys| / threads indices each, in order; the last one
      owns everything from its start. */
  lemma ShareMeaning(c: Config, t: nat, i: nat)
    requires t < c.threads && i < |c.keys|
    ensures t < c.threads - 1 ==>
              (Lo(c, t) <= i < Hi(c, t) <==> t * (|c.keys| / c.threads) <= i < (t + 1) * (|c.keys| / c.threads))
    ensures t == c.threads - 1 ==>
              (Lo(c, t) <= i < Hi(c, t) <==> t * (|c.keys| / c.threads) <= i)
  {
  }

  /** The second key of an iteration. */
  function Rand(c: Config, t: nat, i: nat): (r: nat)
    requires |c.keys| > 0
    ensures r < |c.keys|
  {
    ((t * i) % 256 * BIG_PRIME) % |c.keys|
  }

  // ---- threads as step machines

  /** The number of table operations thread t performs: two for each of its keys. */
  function Steps(c: Config, t: nat): nat
    requires t < c.threads
  {
    ShareBound(c, t);
    2 * (Hi(c, t) - Lo(c, t))
  }

  /** The index of the key that step k of thread t is about. */
  function Target(c: Config, t: nat, k: nat): (i: nat)
    requires ValidConfig(c) && t < c.threads && k < Steps(c, t)
    ensures i < |c.keys|
  {
    ShareBound(c, t);
    if k % 2 == 0 then Lo(c, t) + k / 2 else Rand(c, t, Lo(c, t) + k / 2)
  }

  function OpAt(c: Config, t: nat, k: nat): TableOp
    requires ValidConfig(c) && t < c.threads && k < Steps(c, t)
  {
    var i := Target(c, t, k);
    if k % 2 == 0 || c.mode.INSERT? then Put(c.keys[i], c.vals[i]) else Get(c.keys[i])
  }

  /** How far each thread has come, and the table as a map. */
  datatype State = State(pcs: seq<nat>, m: map<Key, Ptr>)

  /** Schedule thread t for one operation; a finished or unknown thread does nothing. */
  function Step(c: Config, s: State, t: nat): State
    requires ValidConfig(c) && |s.pcs| == c.threads
  {
    if t < c.threads && s.pcs[t] < Steps(c, t) then
      State(s.pcs[t := s.pcs[t] + 1], ApplyOp(s.m, OpAt(c, t, s.pcs[t])))
    else s
  }

  /** The state after the first n choices of a schedule. */
  function After(c: Config, sched: seq<nat>, n: nat): (s: State)
    requires ValidConfig(c) && n <= |sched|
    ensures |s.pcs| == c.threads
  {
    if n == 0 then State(seq(c.threads, _ => 0), map[])
    else Step(c, After(c, sched, n - 1), sched[n - 1])
  }

  /** What scheduling thread t does, from the configuration and the state alone. Step 2j inserts the j-th
      key of the thread's share; step 2j + 1 inserts, or in the MIX phase looks up, a key picked from the
      thread and that index; and after two steps for each key of the share the thread is done. */
  lemma StepMeaning(c: Config, s: State, t: nat)
    requires ValidConfig(c) && |s.pcs| == c.threads
    ensures t >= c.threads ==> Step(c, s, t) == s
    ensures t < c.threads ==>
      var n, share, k := |c.keys|, |c.keys| / c.threads, s.pcs[t];
      var first := t * share;
      var size := if t == c.threads - 1 then n - first else share;
      if k >= 2 * size then Step(c, s, t) == s
      else
        var own := first + k / 2;
        var i := if k % 2 == 0 then own else ((t * own) % 256 * 1_560_007) % n;
        0 <= i < n &&
        Step(c, s, t) ==
          State(s.pcs[t := k + 1],
                if (k % 2 == 0 || c.mode.INSERT?) && c.keys[i] !in s.m then s.m[c.keys[i] := c.vals[i]] else s.m)
  {
    hide Steps, Target;
    if t < c.threads {
      StepsMeaning(c, t);
      if s.pcs[t] < Steps(c, t) {
        TargetMeaning(c, t, s.pcs[t]);
      }
    }
  }

  lemma StepsMeaning(c: Config, t: nat)
    requires t < c.threads
    ensures var share := |c.keys| / c.threads;
            Steps(c, t) == 2 * (if t == c.threads - 1 then |c.keys| - t * share else share)
  {
    ShareBound(c, t);
    assert (t + 1) * (|c.keys| / c.threads) == t * (|c.keys| / c.threads) + |c.keys| / c.threads;
  }

  lemma TargetMeaning(c: Config, t: nat, k: nat)
    requires ValidConfig(c) && t < c.threads && k < Steps(c, t)
    ensures var own := t * (|c.keys| / c.threads) + k / 2;
            Target(c, t, k) == if k % 2 == 0 then own else ((t * own) % 256 * 1_560_007) % |c.keys|
  {
  }

  /** A run starts with an empty table and every thread at its first step; then the schedule decides. */
  lemma AfterMeaning(c: Config, sched: seq<nat>, n: nat)
    requires ValidConfig(c) && n <= |sched|
    ensures After(c, sched, 0) == State(seq(c.threads, _ => 0), map[])
    ensures n < |sched| ==> After(c, sched, n + 1) == Step(c, After(c, sched, n), sched[n])
  {
    hide Step;
  }

  /** All threads have been joined. */
  predicate Complete(c: Config, s: State)
    requires |s.pcs| == c.threads
  {
    forall t :: 0 <= t < c.threads ==> s.pcs[t] == Steps(c, t)
  }

  // ---- what holds in every reachable state

  /** Thread t has finished inserting the key of index i. */
  predicate InsertDone(c: Config, s: State, t: nat, i: nat)
    requires t < c.threads == |s.pcs|
  {
    Lo(c, t) <= i < Hi(c, t) && s.pcs[t] > 2 * (i - Lo(c, t))
  }

  ghost predicate Sound(c: Config, s: State)
    requires ValidConfig(c) && |s.pcs| == c.threads
  {
    && (forall k :: k in s.m ==> k in c.keys)
    && (forall i :: 0 <= i < |c.keys| && c.keys[i] in s.m ==> s.m[c.keys[i]] == c.vals[i])
    && (forall t, i :: 0 <= t < c.threads && 0 <= i < |c.keys| && InsertDone(c, s, t, i) ==> c.keys[i] in s.m)
  }

  lemma StepSound(c: Config, s: State, t: nat)
    requires ValidConfig(c) && |s.pcs| == c.threads && Sound(c, s)
    ensures Sound(c, Step(c, s, t))
  {
    if t < c.threads && s.pcs[t] < Steps(c, t) {
      hide Lo, Hi, Rand, InsertDone, Steps, Target;
      var s' := Step(c, s, t);
      assert c.keys[Target(c, t, s.pcs[t])] in c.keys;
      forall u, j | 0 <= u < c.threads && 0 <= j < |c.keys| && InsertDone(c, s', u, j)
        ensures c.keys[j] in s'.m
      {
        if !InsertDone(c, s, u, j) {
          NewlyDone(c, s, t, u, j);
        }
      }
    }
  }

  /** An insertion becomes finished only by being performed. */
  lemma NewlyDone(c: Config, s: State, t: nat, u: nat, j: nat)
    requires ValidConfig(c) && |s.pcs| == c.threads && t < c.threads && u < c.threads
    requires s.pcs[t] < Steps(c, t) && j < |c.keys|
    requires InsertDone(c, Step(c, s, t), u, j) && !InsertDone(c, s, u, j)
    ensures OpAt(c, t, s.pcs[t]) == Put(c.keys[j], c.vals[j])
  {
    hide Lo, Hi, Rand;
    assert u == t && s.pcs[t] == 2 * (j - Lo(c, t));
  }

  lemma {:induction false} AlwaysSound(c: Config, sched: seq<nat>, n: nat)
    requires ValidConfig(c) && n <= |sched|
    ensures Sound(c, After(c, sched, n))
  {
    if n > 0 {
      AlwaysSound(c, sched, n - 1);
      StepSound(c, After(c, sched, n - 1), sched[n - 1]);
    } else {
      assert forall t, i :: 0 <= t < c.threads && 0 <= i < |c.keys| ==> !InsertDone(c, After(c, sched, 0), t, i);
    }
  }

  /** Every interleaving that runs all threads to the end maps every key to its own value, and
      nothing else. */
  lemma FinalTable(c: Config, sched: seq<nat>)
    requires ValidConfig(c) && Complete(c, After(c, sched, |sched|))
    ensures var m := After(c, sched, |sched|).m;
            && (forall i :: 0 <= i < |c.keys| ==> c.keys[i] in m && m[c.keys[i]] == c.vals[i])
            && (forall k :: k in m ==> k in c.keys)
  {
    hide After, Sound, Complete;
    AlwaysSound(c, sched, |sched|);
    CompleteCovers(c, After(c, sched, |sched|));
  }

  lemma CompleteCovers(c: Config, s: State)
    requires ValidConfig(c) && |s.pcs| == c.threads && Sound(c, s) && Complete(c, s)
    ensures forall i :: 0 <= i < |c.keys| ==> c.keys[i] in s.m && s.m[c.keys[i]] == c.vals[i]
    ensures forall k :: k in s.m ==> k in c.keys
  {
    hide Lo;
    forall i | 0 <= i < |c.keys|
      ensures c.keys[i] in s.m
    {
      var t := Owner(c, i);
      assert s.pcs[t] == Steps(c, t);
      assert InsertDone(c, s, t, i);
    }
  }

  /** What a lookup of the MIX phase sees when thread t is scheduled next. */
  lemma LookupSound(c: Config, sched: seq<nat>, n: nat, t: nat)
    requires ValidConfig(c) && c.mode.MIX? && n <= |sched| && t < c.threads
    requires After(c, sched, n).pcs[t] < Steps(c, t) && After(c, sched, n).pcs[t] % 2 == 1
    ensures var s, share := After(c, sched, n), |c.keys| / c.threads;
            var r := ((t * (t * share + s.pcs[t] / 2)) % 256 * 1_560_007) % |c.keys|;
            var seen := if c.keys[r] in s.m then s.m[c.keys[r]] else 0;
            && (seen == 0 || seen == c.vals[r])
            && (forall u ::
                  (0 <= u < c.threads && u * share <= r && (u == c.threads - 1 || r < (u + 1) * share)
                   && s.pcs[u] > 2 * (r - u * share)) ==> seen == c.vals[r] != 0)
  {
    hide Steps, Target, After, InsertDone;
    AlwaysSound(c, sched, n);
    var s := After(c, sched, n);
    TargetMeaning(c, t, s.pcs[t]);
    var r := Target(c, t, s.pcs[t]);
    forall u | 0 <= u < c.threads && u * (|c.keys| / c.threads) <= r
               && (u == c.threads - 1 || r < (u + 1) * (|c.keys| / c.threads))
               && s.pcs[u] > 2 * (r - u * (|c.keys| / c.threads))
      ensures InsertDone(c, s, u, r)
    {
      DoneMeaning(c, s, u, r);
    }
  }

  lemma DoneMeaning(c: Config, s: State, t: nat, i: nat)
    requires t < c.threads == |s.pcs| && i < |c.keys|
    ensures var share := |c.keys| / c.threads;
            InsertDone(c, s, t, i) <==>
            && t * share <= i && (t == c.threads - 1 || i < (t + 1) * share)
            && s.pcs[t] > 2 * (i - t * share)
  {
    ShareMeaning(c, t, i);
  }

  /** No interleaving gets stuck: whatever has been scheduled so far, the threads can be run to the end. */
  lemma CanFinish(c: Config, sched: seq<nat>) returns (more: seq<nat>)
    requires ValidConfig(c)
    ensures Complete(c, After(c, sched + more, |sched + more|))
    decreases Remaining(c, After(c, sched, |sched|).pcs, c.threads)
  {
    hide After, Step, Steps, Remaining, Complete;
    var s := After(c, sched, |sched|);
    if Complete(c, s) {
      more := [];
      assert sched + more == sched;
    } else {
      BoundedSteps(c, sched, |sched|);
      var t := Unfinished(c, s);
      var next := sched + [t];
      AfterOneMore(c, sched, t);
      var rest := CanFinish(c, next);
      more := [t] + rest;
      assert sched + more == next + rest;
    }
  }

  lemma Unfinished(c: Config, s: State) returns (t: nat)
    requires ValidConfig(c) && |s.pcs| == c.threads && !Complete(c, s)
    requires forall u :: 0 <= u < c.threads ==> s.pcs[u] <= Steps(c, u)
    ensures Remaining(c, Step(c, s, t).pcs, c.threads) < Remaining(c, s.pcs, c.threads)
  {
    hide Steps, ApplyOp, OpAt, Remaining;
    t :| 0 <= t < c.threads && s.pcs[t] != Steps(c, t);
    RemainingStep(c, s.pcs, c.threads, t);
  }

  lemma AfterOneMore(c: Config, sched: seq<nat>, t: nat)
    requires ValidConfig(c)
    ensures After(c, sched + [t], |sched| + 1) == Step(c, After(c, sched, |sched|), t)
  {
    hide Step;
    AfterPrefix(c, sched, [t], |sched|);
  }

  /** Operations still to be performed by the first n threads. */
  function Remaining(c: Config, pcs: seq<nat>, n: nat): nat
    requires n <= |pcs| == c.threads
  {
    if n == 0 then 0
    else Remaining(c, pcs, n - 1) + (if pcs[n - 1] < Steps(c, n - 1) then Steps(c, n - 1) - pcs[n - 1] else 0)
  }

  lemma {:induction false} RemainingStep(c: Config, pcs: seq<nat>, n: nat, t: nat)
    requires n <= |pcs| == c.threads && t < c.threads && pcs[t] < Steps(c, t)
    ensures Remaining(c, pcs[t := pcs[t] + 1], n) == Remaining(c, pcs, n) - (if t < n then 1 else 0)
  {
    if n > 0 {
      RemainingStep(c, pcs, n - 1, t);
    }
  }

  lemma {:induction false} BoundedSteps(c: Config, sched: seq<nat>, n: nat)
    requires ValidConfig(c) && n <= |sched|
    ensures forall t :: 0 <= t < c.threads ==> After(c, sched, n).pcs[t] <= Steps(c, t)
  {
    if n > 0 {
      BoundedSteps(c, sched, n - 1);
    }
  }

  lemma {:induction false} AfterPrefix(c: Config, sched: seq<nat>, more: seq<nat>, n: nat)
    requires ValidConfig(c) && n <= |sched|
    ensures After(c, sched + more, n) == After(c, sched, n)
  {
    if n > 0 {
      AfterPrefix(c, sched, more, n - 1);
    }
  }

  // ---- the test itself, on the real table

  /** Thread t is about to look up a key that is there with a value other than its own. */
  predicate SeesWrongValue(c: Config, s: State, t: nat)
    requires ValidConfig(c) && |s.pcs| == c.threads
  {
    && c.mode.MIX? && t < c.threads && s.pcs[t] < Steps(c, t) && s.pcs[t] % 2 == 1
    && var i := Target(c, t, s.pcs[t]);
       c.keys[i] in s.m && s.m[c.keys[i]] != NULL && s.m[c.keys[i]] != c.vals[i]
  }

  lemma SoundSeesRight(c: Config, s: State, t: nat)
    requires ValidConfig(c) && |s.pcs| == c.threads && Sound(c, s)
    ensures !SeesWrongValue(c, s, t)
  {
    hide Steps, Target;
  }

  /** One scheduled operation of thread t, on any table; `fatal` is set where the test calls test_fatal. */
  method RunStep(c: Config, ht: HTable, pcs: seq<nat>, t: nat)
    returns (pcs': seq<nat>, fatal: bool, ghost added: set<Node>)
    requires ValidConfig(c) && |pcs| == c.threads && ht.Valid()
    modifies ht, ht.store, ht.nodes`next
    ensures ht.Valid() && (ht.store == old(ht.store) || fresh(ht.store))
    ensures ht.nodes == old(ht.nodes) + added && fresh(added)
    ensures |pcs'| == |pcs| && State(pcs', ht.contents) == Step(c, State(pcs, old(ht.contents)), t)
    ensures fatal <==> SeesWrongValue(c, State(pcs, old(ht.contents)), t)
  {
    hide Shape, ListsAre, AllLive, Appended, Flatten, Filter, Reverse, Lo, Hi, Rand, Hash;
    pcs', fatal, added := pcs, false, {};
    if t < c.threads && pcs[t] < Steps(c, t) {
      var k := pcs[t];
      var i := Target(c, t, k);
      if k % 2 == 0 || c.mode.INSERT? {
        var r, more := ht.Insert(c.keys[i], c.vals[i]);
        if more != null {
          added := {more};
        }
      } else {
        var v := ht.Lookup(c.keys[i]);
        if v != NULL && v != c.vals[i] {
          fatal := true;
        }
      }
      pcs' := pcs[t := k + 1];
    }
  }

  /** All threads, interleaved as the schedule says. */
  method RunThreads(c: Config, ht: HTable, sched: seq<nat>) returns (fatal: bool)
    requires ValidConfig(c) && ht.Valid() && ht.contents == map[]
    modifies ht, ht.store, ht.nodes`next
    ensures ht.Valid() && (ht.store == old(ht.store) || fresh(ht.store)) && fresh(ht.nodes - old(ht.nodes))
    ensures ht.contents == After(c, sched, |sched|).m
    ensures !fatal
  {
    hide Shape, ListsAre, AllLive, Step, Sound, SeesWrongValue;
    var pcs: seq<nat> := seq(c.threads, _ => 0);
    var n := 0;
    fatal := false;
    while n < |sched|
      invariant n <= |sched| && !fatal && |pcs| == c.threads
      invariant ht.Valid() && (ht.store == old(ht.store) || fresh(ht.store)) && fresh(ht.nodes - old(ht.nodes))
      invariant State(pcs, ht.contents) == After(c, sched, n)
    {
      AlwaysSound(c, sched, n);
      SoundSeesRight(c, After(c, sched, n), sched[n]);
      var bad: bool;
      ghost var added: set<Node>;
      pcs, bad, added := RunStep(c, ht, pcs, sched[n]);
      fatal := fatal || bad;
      n := n + 1;
    }
  }

  /** The validation loop of the test. */
  method Validate(c: Config, ht: HTable) returns (passed: bool)
    requires ValidConfig(c) && ht.Valid()
    ensures passed <==>
            forall i :: 0 <= i < |c.keys| ==> c.keys[i] in ht.contents && ht.contents[c.keys[i]] == c.vals[i]
  {
    hide Shape, ListsAre, AllLive;
    var i := 0;
    while i < |c.keys|
      invariant i <= |c.keys|
      invariant forall j :: 0 <= j < i ==> c.keys[j] in ht.contents && ht.contents[c.keys[j]] == c.vals[j]
    {
      var p := ht.Lookup(c.keys[i]);
      if p == NULL || p != c.vals[i] {
        return false;
      }
      i := i + 1;
    }
    return true;
  }

  /** What the validation loop finds after any part of the first phase. */
  lemma ValidatedMeaning(c: Config, sched: seq<nat>)
    requires ValidConfig(c)
    ensures var m := After(c, sched, |sched|).m;
            && (forall i :: 0 <= i < |c.keys| && c.keys[i] in m ==> m[c.keys[i]] == c.vals[i])
            && (Complete(c, After(c, sched, |sched|)) ==> forall i :: 0 <= i < |c.keys| ==> c.keys[i] in m)
  {
    hide After, Complete;
    AlwaysSound(c, sched, |sched|);
    if Complete(c, After(c, sched, |sched|)) {
      FinalTable(c, sched);
    }
  }

  /** test_htable: the test passes exactly when the first phase has left every key in the table, whatever
      the schedule of the second; and that is so as soon as the first-phase threads have finished. */
  method TestHtable(keys: seq<Key>, vals: seq<Ptr>, threads: nat, allowResize: bool, sched1: seq<nat>, sched2: seq<nat>)
    returns (passed: bool)
    requires |keys| == |vals| > 0 && threads > 0
    requires forall i, j :: 0 <= i < j < |keys| ==> keys[i] != keys[j]
    requires forall i :: 0 <= i < |vals| ==> vals[i] != 0
    ensures var s := After(Config(keys, vals, threads, INSERT), sched1, |sched1|);
            && (passed <==> forall i :: 0 <= i < |keys| ==> keys[i] in s.m)
            && (Complete(Config(keys, vals, threads, INSERT), s) ==> passed)
  {
    hide Shape, ListsAre, AllLive, Complete, After, IsPrime;
    var c := Config(keys, vals, threads, INSERT);
    var ht := new HTable(|keys| / 100, allowResize);
    var fatal := RunThreads(c, ht, sched1);
    ValidatedMeaning(c, sched1);
    passed := Validate(c, ht);
    if !passed {
      return;
    }
    ht.Destroy();
    var mixed := c.(mode := MIX);
    var ht2 := new HTable(|keys| / 100, allowResize);
    var fatal2 := RunThreads(mixed, ht2, sched2);
    ht2.Destroy();
    passed := passed && !fatal && !fatal2;
  }
}
