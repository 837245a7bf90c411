/** The MySQL connection pool: a FIFO of handles, checked when taken and when
    returned, replaced when found dead. */
module ConnectionPool {
  import opened Bytes

  type Handle = nat

  /** The database as the pool meets it, for any behaviour of the database:
      answers(h, k) is the outcome of the k-th check of connection h, and
      connects(k) that of the k-th attempt to open a connection. */
  datatype Db = Db(answers: (Handle, nat) -> bool, connects: nat -> bool)

  datatype State = State(
    queue: seq<Handle>,       // connectionQueue
    out: set<Handle>,         // handles clients hold
    lost: nat,                // places no connection could be created for
    next: Handle,             // the next connection opened gets this name
    checks: map<Handle, nat>, // how often each handle has been checked
    dials: nat)               // attempts to open a connection so far

  const MAX_ATTEMPTS: nat := 3
  const MAX_CREATE_ATTEMPTS: nat := 3

  function Checks(s: State, h: Handle): nat {
    if h in s.checks then s.checks[h] else 0
  }

  /** The check isConnectionValid would make next. */
  predicate Answer(db: Db, s: State, h: Handle) {
    db.answers(h, Checks(s, h))
  }

  function Checked(s: State, h: Handle): State {
    s.(checks := s.checks[h := Checks(s, h) + 1])
  }

  /** createNewConnection: up to `left` attempts; on success the fresh handle is s.next. */
  function Create(db: Db, s: State, left: nat): (bool, State)
    decreases left
  {
    if left == 0 then (false, s)
    else if db.connects(s.dials) then (true, s.(dials := s.dials + 1, next := s.next + 1))
    else Create(db, s.(dials := s.dials + 1), left - 1)
  }

  /** The database refuses `n` connection attempts in a row. */
  predicate Refuses(db: Db, from: nat, n: nat) {
    forall k :: from <= k < from + n ==> !db.connects(k)
  }

  /** It fails exactly when each of its attempts does. */
  lemma {:induction false} CreateFailsIff(db: Db, s: State, left: nat)
    ensures var (ok, t) := Create(db, s, left);
      && (!ok <==> Refuses(db, s.dials, left))
      && t == s.(dials := t.dials, next := if ok then s.next + 1 else s.next)
      && if ok then s.dials < t.dials <= s.dials + left else t.dials == s.dials + left
    decreases left
  {
    if left > 0 && !db.connects(s.dials) {
      CreateFailsIff(db, s.(dials := s.dials + 1), left - 1);
    }
  }

  /** A place of the pool is filled with a new connection, or lost. */
  function Replace(db: Db, s: State): State {
    var (ok, t) := Create(db, s, MAX_CREATE_ATTEMPTS);
    if ok then t.(queue := t.queue + [s.next]) else t.(lost := t.lost + 1)
  }

  /** One turn of getConnection's inner loop: take the front handle and check it. */
  function Take(db: Db, s: State): State
    requires s.queue != []
  {
    var h := s.queue[0];
    var t := Checked(s.(queue := s.queue[1..]), h);
    if Answer(db, s, h) then t.(out := t.out + {h}) else Replace(db, t)
  }

  /** returnConnection, by a client that holds `h`. */
  function GiveBack(db: Db, s: State, h: Handle): State
    requires h in s.out
  {
    var t := Checked(s.(out := s.out - {h}), h);
    if Answer(db, s, h) then t.(queue := t.queue + [h]) else Replace(db, t)
  }

  function Fill(db: Db, n: nat): State {
    if n == 0 then State([], {}, 0, 0, map[], 0) else Replace(db, Fill(db, n - 1))
  }

  // ---------------------------------------------------------------------------
  // Accounting

  /** No handle is queued twice, or both queued and held; names of connections not
      yet opened are unused. */
  predicate Sound(s: State) {
    && Distinct(s.queue)
    && (forall i :: 0 <= i < |s.queue| ==> s.queue[i] !in s.out)
    && (forall i :: 0 <= i < |s.queue| ==> s.queue[i] < s.next)
    && (forall h :: h in s.out ==> h < s.next)
    && (forall h :: h in s.checks ==> h < s.next)
  }

  /** Queued, held and lost places add up to the pool size. */
  predicate Accounted(s: State, poolSize: nat) {
    Sound(s) && |s.queue| + |s.out| + s.lost == poolSize
  }

  predicate Distinct(q: seq<Handle>) {
    forall i, j :: 0 <= i < j < |q| ==> q[i] != q[j]
  }

  lemma ReplaceAccounted(db: Db, s: State, poolSize: nat)
    requires Accounted(s.(lost := s.lost + 1), poolSize)
    ensures Accounted(Replace(db, s), poolSize)
  {
    CreateFailsIff(db, s, MAX_CREATE_ATTEMPTS);
  }

  /** Any client may take a turn of the inner loop or return what it holds. Turns are
      interleaved at least as finely as the mutex allows. */
  datatype Action = TakeFront | Return(h: Handle)

  function Next(db: Db, s: State, a: Action): State {
    match a
    case TakeFront => if s.queue != [] then Take(db, s) else s
    case Return(h) => if h in s.out then GiveBack(db, s, h) else s
  }

  function Run(db: Db, s: State, acts: seq<Action>): State
    decreases |acts|
  {
    if acts == [] then s else Next(db, Run(db, s, acts[..|acts|-1]), acts[|acts|-1])
  }

  lemma TakeAccounted(db: Db, s: State, poolSize: nat)
    requires Accounted(s, poolSize) && s.queue != []
    ensures Accounted(Take(db, s), poolSize)
  {
    var t := Checked(s.(queue := s.queue[1..]), s.queue[0]);
    if !Answer(db, s, s.queue[0]) { ReplaceAccounted(db, t, poolSize); }
  }

  lemma GiveBackAccounted(db: Db, s: State, h: Handle, poolSize: nat)
    requires Accounted(s, poolSize) && h in s.out
    ensures Accounted(GiveBack(db, s, h), poolSize)
  {
    var t := Checked(s.(out := s.out - {h}), h);
    if !Answer(db, s, h) { ReplaceAccounted(db, t, poolSize); }
  }

  lemma {:induction false} FillAccounted(db: Db, n: nat)
    ensures Accounted(Fill(db, n), n)
  {
    if n > 0 {
      FillAccounted(db, n - 1);
      var s := Fill(db, n - 1);
      assert Accounted(s.(lost := s.lost + 1), n);
      ReplaceAccounted(db, s, n);
    }
  }

  /** In every reachable state of a pool whose clients return what they hold once. */
  lemma {:induction false} AlwaysAccounted(db: Db, poolSize: nat, acts: seq<Action>)
    ensures Accounted(Run(db, Fill(db, poolSize), acts), poolSize)
    decreases |acts|
  {
    if acts == [] {
      FillAccounted(db, poolSize);
    } else {
      var s := Run(db, Fill(db, poolSize), acts[..|acts|-1]);
      AlwaysAccounted(db, poolSize, acts[..|acts|-1]);
      NextAccounted(db, s, acts[|acts|-1], poolSize);
    }
  }

  lemma NextAccounted(db: Db, s: State, a: Action, poolSize: nat)
    requires Accounted(s, poolSize)
    ensures Accounted(Next(db, s, a), poolSize)
  {
    match a
    case TakeFront => if s.queue != [] { TakeAccounted(db, s, poolSize); }
    case Return(h) => if h in s.out { GiveBackAccounted(db, s, h, poolSize); }
  }

  // ---------------------------------------------------------------------------
  // What becomes of a handle

  /** The next three attempts to connect are refused. */
  predicate AllRefused(db: Db, s: State) {
    forall k :: s.dials <= k < s.dials + 3 ==> !db.connects(k)
  }

  /** In place of a handle found dead a fresh one, never checked, is queued last; only if
      three attempts to connect are refused its place is lost instead. */
  predicate Replaced(db: Db, s: State, queue: seq<Handle>, t: State) {
    if AllRefused(db, s) then
      t.queue == queue && t.lost == s.lost + 1 && t.next == s.next && t.dials == s.dials + 3
    else
      && t.queue == queue + [s.next] && t.lost == s.lost && t.next == s.next + 1
      && s.next !in t.checks && s.dials < t.dials <= s.dials + 3
      && db.connects(t.dials - 1) && forall k :: s.dials <= k < t.dials - 1 ==> !db.connects(k)
  }

  predicate NothingDialled(s: State, t: State) {
    t.lost == s.lost && t.next == s.next && t.dials == s.dials
  }

  /** One check of `h` was made. */
  ghost predicate OneCheck(s: State, h: Handle, t: State) {
    Checks(t, h) == Checks(s, h) + 1 && forall g: Handle :: g != h ==> Checks(t, g) == Checks(s, g)
  }

  /** A returned handle that passes its check is queued last; one that does not is gone, and
      replaced. */
  ghost predicate Returned(db: Db, s: State, h: Handle, t: State) {
    && t.out == s.out - {h} && OneCheck(s, h, t)
    && if db.answers(h, Checks(s, h)) then t.queue == s.queue + [h] && NothingDialled(s, t)
       else Replaced(db, s, s.queue, t)
  }

  /** The front handle leaves the queue; it goes to the client if it passes its check, and is
      gone, and replaced, if not. */
  ghost predicate Taken(db: Db, s: State, t: State)
    requires s.queue != []
  {
    var h, rest := s.queue[0], s.queue[1..];
    && OneCheck(s, h, t)
    && if db.answers(h, Checks(s, h)) then t.queue == rest && t.out == s.out + {h} && NothingDialled(s, t)
       else t.out == s.out && Replaced(db, s, rest, t)
  }

  lemma {:induction false} CreateDials(db: Db, s: State, left: nat)
    ensures var (ok, t) := Create(db, s, left);
      && t == s.(dials := t.dials, next := t.next)
      && (ok ==> s.dials < t.dials <= s.dials + left && db.connects(t.dials - 1))
      && (ok ==> forall k :: s.dials <= k < t.dials - 1 ==> !db.connects(k))
    decreases left
  {
    if left > 0 && !db.connects(s.dials) {
      CreateDials(db, s.(dials := s.dials + 1), left - 1);
    }
  }

  lemma ReplaceMeans(db: Db, s: State)
    requires Sound(s)
    ensures Replaced(db, s, s.queue, Replace(db, s)) && Replace(db, s).out == s.out && Replace(db, s).checks == s.checks
  {
    CreateFailsIff(db, s, MAX_CREATE_ATTEMPTS);
    CreateDials(db, s, MAX_CREATE_ATTEMPTS);
  }

  lemma GiveBackMeans(db: Db, s: State, h: Handle)
    requires Sound(s) && h in s.out
    ensures Returned(db, s, h, GiveBack(db, s, h))
  {
    var t := Checked(s.(out := s.out - {h}), h);
    ReplaceMeans(db, t);
  }

  lemma TakeMeans(db: Db, s: State)
    requires Sound(s) && s.queue != []
    ensures Taken(db, s, Take(db, s))
  {
    var t := Checked(s.(queue := s.queue[1..]), s.queue[0]);
    ReplaceMeans(db, t);
  }

  /** Whether this action finds a handle dead and cannot replace it. */
  predicate LosesPlace(db: Db, s: State, a: Action) {
    AllRefused(db, s) &&
    match a
    case TakeFront => s.queue != [] && !db.answers(s.queue[0], Checks(s, s.queue[0]))
    case Return(h) => h in s.out && !db.answers(h, Checks(s, h))
  }

  function LostInRun(db: Db, s: State, acts: seq<Action>): nat
    decreases |acts|
  {
    if acts == [] then 0
    else
      var before := acts[..|acts|-1];
      LostInRun(db, s, before) + if LosesPlace(db, Run(db, s, before), acts[|acts|-1]) then 1 else 0
  }

  function LostInFill(db: Db, n: nat): nat {
    if n == 0 then 0 else LostInFill(db, n - 1) + if AllRefused(db, Fill(db, n - 1)) then 1 else 0
  }

  lemma {:induction false} FillMeans(db: Db, n: nat)
    ensures Fill(db, n).lost == LostInFill(db, n) && |Fill(db, n).queue| == n - LostInFill(db, n)
    ensures Fill(db, n).out == {} && Fill(db, n).checks == map[]
    decreases n
  {
    if n > 0 {
      FillMeans(db, n - 1);
      FillAccounted(db, n - 1);
      ReplaceMeans(db, Fill(db, n - 1));
    }
  }

  /** The places lost are those of the initial connections that could not be created and of
      the dead handles that could not be replaced. */
  lemma {:induction false} LostIsFailedCreations(db: Db, poolSize: nat, acts: seq<Action>)
    ensures Run(db, Fill(db, poolSize), acts).lost == LostInFill(db, poolSize) + LostInRun(db, Fill(db, poolSize), acts)
    decreases |acts|
  {
    if acts == [] {
      FillMeans(db, poolSize);
    } else {
      var before := acts[..|acts|-1];
      LostIsFailedCreations(db, poolSize, before);
      AlwaysAccounted(db, poolSize, before);
      LostStep(db, Run(db, Fill(db, poolSize), before), acts[|acts|-1]);
    }
  }

  lemma LostStep(db: Db, s: State, a: Action)
    requires Sound(s)
    ensures Next(db, s, a).lost == s.lost + if LosesPlace(db, s, a) then 1 else 0
  {
    match a
    case TakeFront => if s.queue != [] { TakeMeans(db, s); }
    case Return(h) => if h in s.out { GiveBackMeans(db, s, h); }
  }

  // ---------------------------------------------------------------------------
  // Termination of the inner loop

  /** Some queued handle would pass its next check. */
  predicate HasGood(db: Db, s: State) {
    exists i :: 0 <= i < |s.queue| && Answer(db, s, s.queue[i])
  }

  /** Nothing queued would pass its next check, and every attempt to replace it is
      refused. */
  predicate Dead(db: Db, s: State) {
    !HasGood(db, s) && Refuses(db, s.dials, MAX_CREATE_ATTEMPTS * |s.queue|)
  }

  /** A queued handle is good, or the first connection that would be opened now passes
      its first check, or none can be opened. Nothing is asked of connections opened
      earlier, checked or not. */
  predicate Ending(db: Db, s: State) {
    HasGood(db, s) || Dead(db, s) || db.answers(s.next, 0)
  }

  /** How many handles at the front of `q` would fail their next check. */
  function BadOnes(db: Db, s: State, q: seq<Handle>): (n: nat)
    ensures n <= |q|
    decreases |q|
  {
    if q == [] || Answer(db, s, q[0]) then 0 else 1 + BadOnes(db, s, q[1..])
  }

  lemma {:induction false} BadFrame(db: Db, s: State, t: State, q: seq<Handle>)
    requires forall i :: 0 <= i < |q| ==> Checks(s, q[i]) == Checks(t, q[i])
    ensures BadOnes(db, s, q) == BadOnes(db, t, q)
    decreases |q|
  {
    if q != [] { BadFrame(db, s, t, q[1..]); }
  }

  lemma {:induction false} BadSnoc(db: Db, s: State, q: seq<Handle>, h: Handle)
    requires Answer(db, s, h) || exists i :: 0 <= i < |q| && Answer(db, s, q[i])
    ensures BadOnes(db, s, q + [h]) == BadOnes(db, s, q)
    decreases |q|
  {
    if q == [] {
      assert q + [h] == [h];
    } else {
      assert (q + [h])[1..] == q[1..] + [h];
      if !Answer(db, s, q[0]) {
        assert forall i :: 1 <= i < |q| ==> q[1..][i-1] == q[i];
        BadSnoc(db, s, q[1..], h);
      }
    }
  }

  lemma TakeSound(db: Db, s: State)
    requires Sound(s) && s.queue != []
    ensures Sound(Take(db, s))
  {
    TakeAccounted(db, s, |s.queue| + |s.out| + s.lost);
  }

  /** A turn that does not return: the front handle goes, a fresh one may come, and
      the others are as they were. */
  lemma TakeFrame(db: Db, s: State)
    requires Sound(s) && s.queue != [] && !Answer(db, s, s.queue[0])
    ensures var t := Take(db, s);
      && t.out == s.out
      && (forall i :: 1 <= i < |s.queue| ==> Checks(t, s.queue[i]) == Checks(s, s.queue[i]))
      && if Refuses(db, s.dials, MAX_CREATE_ATTEMPTS) then
           t.queue == s.queue[1..] && t.next == s.next && t.dials == s.dials + MAX_CREATE_ATTEMPTS
         else
           t.queue == s.queue[1..] + [s.next] && Checks(t, s.next) == 0 && t.next == s.next + 1
           && s.dials < t.dials <= s.dials + MAX_CREATE_ATTEMPTS
  {
    CreateFailsIff(db, Checked(s.(queue := s.queue[1..]), s.queue[0]), MAX_CREATE_ATTEMPTS);
  }

  /** Such a turn uses up one bad handle, and what it may push back does not add one. */
  lemma TakeShrinks(db: Db, s: State)
    requires Sound(s) && Ending(db, s) && s.queue != [] && !Answer(db, s, s.queue[0])
    ensures var t := Take(db, s);
      Ending(db, t) && BadOnes(db, t, t.queue) == BadOnes(db, s, s.queue) - 1 && (Dead(db, t) <==> Dead(db, s))
  {
    TakeFrame(db, s);
    var rest, t := s.queue[1..], Take(db, s);
    BadFrame(db, s, t, rest);
    assert forall i :: 0 <= i < |rest| ==>
      rest[i] == s.queue[i+1] && Answer(db, t, rest[i]) == Answer(db, s, s.queue[i+1]);
    if HasGood(db, s) {
      StaysGood(db, s);
      if t.queue != rest { BadSnoc(db, t, rest, s.next); }
    } else if t.queue == rest {
      assert !HasGood(db, t);
    } else {
      assert t.queue[|t.queue|-1] == s.next;
      assert db.answers(s.next, 0) by { assert !Dead(db, s); }
      assert HasGood(db, t);
      BadSnoc(db, t, rest, s.next);
    }
  }

  lemma StaysGood(db: Db, s: State)
    requires Sound(s) && HasGood(db, s) && s.queue != [] && !Answer(db, s, s.queue[0])
    ensures HasGood(db, Take(db, s))
    ensures exists i :: 0 <= i < |s.queue| - 1 && Answer(db, Take(db, s), s.queue[1..][i])
  {
    TakeFrame(db, s);
    var i :| 0 <= i < |s.queue| && Answer(db, s, s.queue[i]);
    var t := Take(db, s);
    assert s.queue[1..][i-1] == s.queue[i] == t.queue[i-1];
  }

  /** getConnection's inner loop: ends, because each turn that does not return uses
      up a bad handle. */
  ghost function Attempt(db: Db, s: State): (Option<Handle>, State)
    requires Sound(s) && Ending(db, s)
    decreases BadOnes(db, s, s.queue)
  {
    if s.queue == [] then (None, s)
    else if Answer(db, s, s.queue[0]) then (Some(s.queue[0]), Take(db, s))
    else
      TakeSound(db, s);
      TakeShrinks(db, s);
      Attempt(db, Take(db, s))
  }

  /** A returned handle was just validated and is now the client's; otherwise the
      queue is empty. Either way the places still add up. */
  lemma {:induction false} AttemptYields(db: Db, s: State, poolSize: nat)
    requires Accounted(s, poolSize) && Ending(db, s)
    ensures var (got, t) := Attempt(db, s);
      && Accounted(t, poolSize) && s.next <= t.next
      && (got.None? ==> t.queue == [] && t.out == s.out)
      && (got.Some? ==>
            && got.value !in s.out && t.out == s.out + {got.value}
            && Checks(t, got.value) > 0 && db.answers(got.value, Checks(t, got.value) - 1))
    decreases BadOnes(db, s, s.queue)
  {
    if s.queue != [] {
      TakeAccounted(db, s, poolSize);
      if !Answer(db, s, s.queue[0]) {
        TakeShrinks(db, s);
        TakeFrame(db, s);
        AttemptYields(db, Take(db, s), poolSize);
      }
    }
  }

  /** An attempt returns the first queued handle that passes its check, and the ones behind
      it keep their places. */
  lemma {:induction false} AttemptTakesFirstGood(db: Db, s: State, n: nat)
    requires Sound(s) && Ending(db, s) && n < |s.queue| && Answer(db, s, s.queue[n])
    requires forall i :: 0 <= i < n ==> !Answer(db, s, s.queue[i])
    ensures Attempt(db, s).0 == Some(s.queue[n]) && s.queue[n+1..] <= Attempt(db, s).1.queue
    decreases n
  {
    if n > 0 {
      var t := Take(db, s);
      TakeSound(db, s);
      TakeShrinks(db, s);
      FirstGoodNext(db, s);
      assert t.queue[n-1] == s.queue[1..][n-1];
      AttemptTakesFirstGood(db, t, n - 1);
      assert s.queue[1..][n..] == s.queue[n+1..];
    } else {
      TakeMeans(db, s);
    }
  }

  /** If none does, and not all reconnections are refused, it returns the first connection
      it opens. */
  lemma {:induction false} AttemptOpensOne(db: Db, s: State)
    requires Sound(s) && Ending(db, s) && !HasGood(db, s) && !Dead(db, s)
    ensures Attempt(db, s).0 == Some(s.next)
    decreases |s.queue|
  {
    assert s.queue != [];
    assert !Answer(db, s, s.queue[0]);
    var rest, t := s.queue[1..], Take(db, s);
    TakeSound(db, s);
    TakeShrinks(db, s);
    TakeFrame(db, s);
    FirstGoodNext(db, s);
    assert forall i :: 0 <= i < |rest| ==> rest[i] == s.queue[i+1];
    if t.queue == rest {
      assert !HasGood(db, t);
      AttemptOpensOne(db, t);
    } else {
      AttemptTakesFirstGood(db, t, |rest|);
    }
  }

  lemma FirstGoodNext(db: Db, s: State)
    requires Sound(s) && s.queue != [] && !Answer(db, s, s.queue[0])
    ensures var t := Take(db, s);
      && s.queue[1..] <= t.queue
      && forall i :: 0 < i < |s.queue| ==> Answer(db, t, t.queue[i-1]) == Answer(db, s, s.queue[i])
  {
    TakeFrame(db, s);
  }

  /** One attempt comes back empty-handed exactly when the whole queue is dead. */
  lemma {:induction false} AttemptFailsIff(db: Db, s: State)
    requires Sound(s) && Ending(db, s)
    ensures Attempt(db, s).0.None? <==> Dead(db, s)
    decreases BadOnes(db, s, s.queue)
  {
    if s.queue != [] && !Answer(db, s, s.queue[0]) {
      TakeSound(db, s);
      TakeShrinks(db, s);
      AttemptFailsIff(db, Take(db, s));
    }
  }

  /** The databases that behave alike as far as Ending looks: the next check of each
      connection opened so far, the first one of the next connection, and as many
      attempts to connect as it takes to replace the whole queue. */
  ghost predicate Alike(db: Db, db': Db, s: State) {
    && (forall h: Handle :: h < s.next ==> Answer(db', s, h) == Answer(db, s, h))
    && db'.answers(s.next, 0) == db.answers(s.next, 0)
    && (forall k: nat :: k < s.dials + MAX_CREATE_ATTEMPTS * |s.queue| ==> db'.connects(k) == db.connects(k))
  }

  /** The inner loop is still turning after any number of turns. */
  ghost predicate Spins(db: Db, s: State) {
    forall n: nat :: StillTurning(db, s, n)
  }

  predicate StillTurning(db: Db, s: State, n: nat) {
    var t := Run(db, s, Repeat(TakeFront, n));
    t.queue != [] && !Answer(db, t, t.queue[0])
  }

  /** It accepts every connection after those Ending looks at, and fails every check of
      a connection opened from now on. */
  function Worst(db: Db, s: State): Db {
    Db((h: Handle, k: nat) => h < s.next && db.answers(h, k),
       (k: nat) => if k < s.dials + MAX_CREATE_ATTEMPTS * |s.queue| then db.connects(k) else true)
  }

  /** `t` is on the way from `s` and will not come to an end. */
  predicate Turning(db: Db, s: State, t: State) {
    && Sound(t) && s.next <= t.next && t.queue != []
    && !HasGood(db, t) && !Refuses(db, t.dials, MAX_CREATE_ATTEMPTS * |t.queue|)
    && s.dials + MAX_CREATE_ATTEMPTS * |s.queue| <= t.dials + MAX_CREATE_ATTEMPTS * |t.queue|
  }

  lemma TurningStep(db: Db, s: State, t: State)
    requires Turning(Worst(db, s), s, t)
    ensures Turning(Worst(db, s), s, Take(Worst(db, s), t))
  {
    var db' := Worst(db, s);
    var u, rest := Take(db', t), t.queue[1..];
    assert !Answer(db', t, t.queue[0]);
    TakeSound(db', t);
    TakeFrame(db', t);
    assert forall i :: 0 <= i < |rest| ==> rest[i] == t.queue[i+1] && !Answer(db', t, t.queue[i+1]);
    if u.queue != rest {
      var last := s.dials + MAX_CREATE_ATTEMPTS * |s.queue|;
      assert db'.connects(if last < u.dials then u.dials else last);
    }
  }

  lemma {:induction false} KeepsTurning(db: Db, s: State, n: nat)
    requires Turning(Worst(db, s), s, s)
    ensures Turning(Worst(db, s), s, Run(Worst(db, s), s, Repeat(TakeFront, n)))
    ensures StillTurning(Worst(db, s), s, n)
  {
    if n > 0 {
      KeepsTurning(db, s, n - 1);
      assert Repeat(TakeFront, n)[..n-1] == Repeat(TakeFront, n - 1);
      TurningStep(db, s, Run(Worst(db, s), s, Repeat(TakeFront, n - 1)));
    }
  }

  /** Whether the inner loop ends whatever the database does afterwards: Ending is
      exactly that. */
  lemma EndsIff(db: Db, s: State)
    requires Sound(s)
    ensures Ending(db, s) <==> forall db' :: Alike(db, db', s) ==> !Spins(db', s)
  {
    if Ending(db, s) {
      forall db' | Alike(db, db', s) ensures !Spins(db', s) {
        AlikeEnds(db, db', s);
        DoesNotSpin(db', s, s, 0);
      }
    } else {
      var db' := Worst(db, s);
      assert Alike(db, db', s);
      var n := MAX_CREATE_ATTEMPTS * |s.queue|;
      assert Refuses(db, s.dials, n) == Refuses(db', s.dials, n);
      forall n: nat ensures StillTurning(db', s, n) {
        KeepsTurning(db, s, n);
      }
    }
  }

  /** One that accepts every connection and fails every check keeps it turning. */
  lemma {:induction false} MaySpin(db: Db, s: State, n: nat)
    requires s.queue != []
    requires forall h: Handle, k: nat :: !db.answers(h, k)
    requires forall k: nat :: db.connects(k)
    ensures StillTurning(db, s, n) && Run(db, s, Repeat(TakeFront, n)).out == s.out
  {
    if n > 0 {
      MaySpin(db, s, n - 1);
      assert Repeat(TakeFront, n)[..n-1] == Repeat(TakeFront, n - 1);
    }
  }

  lemma AlikeEnds(db: Db, db': Db, s: State)
    requires Sound(s) && Ending(db, s) && Alike(db, db', s)
    ensures Ending(db', s)
  {
    if HasGood(db, s) {
      var i :| 0 <= i < |s.queue| && Answer(db, s, s.queue[i]);
      assert Answer(db', s, s.queue[i]);
    }
  }

  lemma {:induction false} DoesNotSpin(db: Db, s: State, t: State, n: nat)
    requires Sound(t) && Ending(db, t) && t == Run(db, s, Repeat(TakeFront, n))
    ensures !Spins(db, s)
    decreases BadOnes(db, t, t.queue)
  {
    if t.queue == [] || Answer(db, t, t.queue[0]) {
      assert !StillTurning(db, s, n);
    } else {
      TakeSound(db, t);
      TakeShrinks(db, t);
      assert Repeat(TakeFront, n + 1)[..n] == Repeat(TakeFront, n);
      DoesNotSpin(db, s, Take(db, t), n + 1);
    }
  }

  // ---------------------------------------------------------------------------
  // getConnection

  lemma {:induction false} RunAccounted(db: Db, s: State, acts: seq<Action>, poolSize: nat)
    requires Accounted(s, poolSize)
    ensures Accounted(Run(db, s, acts), poolSize)
    decreases |acts|
  {
    if acts != [] {
      RunAccounted(db, s, acts[..|acts|-1], poolSize);
      NextAccounted(db, Run(db, s, acts[..|acts|-1]), acts[|acts|-1], poolSize);
    }
  }

  function Total(s: State): nat {
    |s.queue| + |s.out| + s.lost
  }

  /** What the second and third attempt start from, if there is one. */
  ghost function AfterSleep(db: Db, s: State, acts: seq<Action>): (t: State)
    requires Sound(s) && Ending(db, s)
    ensures Sound(t)
  {
    AttemptYields(db, s, Total(s));
    RunAccounted(db, Attempt(db, s).1, acts, Total(s));
    Run(db, Attempt(db, s).1, acts)
  }

  /** Each attempt that is made, ends. */
  ghost predicate AllEnd(db: Db, s: State, others: seq<seq<Action>>, attempt: nat)
    requires Sound(s) && |others| == MAX_ATTEMPTS - 1 && attempt < MAX_ATTEMPTS
    decreases MAX_ATTEMPTS - attempt
  {
    && Ending(db, s)
    && (attempt < MAX_ATTEMPTS - 1 && Attempt(db, s).0.None? ==>
          AllEnd(db, AfterSleep(db, s, others[attempt]), others, attempt + 1))
  }

  /** getConnection from attempt number `attempt` on; during the sleep after attempt
      i the other clients do others[i]. None is the exception. */
  ghost function GetConnectionFrom(db: Db, s: State, others: seq<seq<Action>>, attempt: nat): (Option<Handle>, State)
    requires Sound(s) && |others| == MAX_ATTEMPTS - 1 && attempt < MAX_ATTEMPTS && AllEnd(db, s, others, attempt)
    decreases MAX_ATTEMPTS - attempt
  {
    if Attempt(db, s).0.Some? || attempt == MAX_ATTEMPTS - 1 then Attempt(db, s)
    else GetConnectionFrom(db, AfterSleep(db, s, others[attempt]), others, attempt + 1)
  }

  /** getConnection throws exactly when the queue it finds is dead at all three
      attempts, whatever the other clients do in between. */
  lemma GetConnectionThrowsIff(db: Db, s: State, others: seq<seq<Action>>)
    requires Sound(s) && |others| == MAX_ATTEMPTS - 1 && AllEnd(db, s, others, 0)
    ensures GetConnectionFrom(db, s, others, 0).0.None? <==>
      && Dead(db, s)
      && Dead(db, AfterSleep(db, s, others[0]))
      && Dead(db, AfterSleep(db, AfterSleep(db, s, others[0]), others[1]))
  {
    AttemptFailsIff(db, s);
    if Dead(db, s) {
      var s1 := AfterSleep(db, s, others[0]);
      AttemptFailsIff(db, s1);
      if Dead(db, s1) {
        AttemptFailsIff(db, AfterSleep(db, s1, others[1]));
      }
    }
  }

  /** It is enough that connections opened from now on pass their first check. Those
      that are queued may have died, checked before or not. */
  lemma {:induction false} WorkingFromNowOn(db: Db, s: State, others: seq<seq<Action>>, attempt: nat)
    requires Sound(s) && |others| == MAX_ATTEMPTS - 1 && attempt < MAX_ATTEMPTS
    requires forall h: Handle :: s.next <= h ==> db.answers(h, 0)
    ensures AllEnd(db, s, others, attempt)
    decreases MAX_ATTEMPTS - attempt
  {
    if attempt < MAX_ATTEMPTS - 1 {
      AttemptYields(db, s, Total(s));
      NextGrows(db, Attempt(db, s).1, others[attempt]);
      WorkingFromNowOn(db, AfterSleep(db, s, others[attempt]), others, attempt + 1);
    }
  }

  lemma {:induction false} NextGrows(db: Db, s: State, acts: seq<Action>)
    ensures s.next <= Run(db, s, acts).next
    decreases |acts|
  {
    if acts != [] {
      NextGrows(db, s, acts[..|acts|-1]);
      NextGrowsStep(db, Run(db, s, acts[..|acts|-1]), acts[|acts|-1]);
    }
  }

  lemma NextGrowsStep(db: Db, s: State, a: Action)
    ensures s.next <= Next(db, s, a).next
  {
    match a
    case TakeFront =>
      if s.queue != [] { CreateFailsIff(db, Checked(s.(queue := s.queue[1..]), s.queue[0]), MAX_CREATE_ATTEMPTS); }
    case Return(h) =>
      if h in s.out { CreateFailsIff(db, Checked(s.(out := s.out - {h}), h), MAX_CREATE_ATTEMPTS); }
  }

  /** The usual way to the exception: the database goes down after start-up. */
  lemma OutageThrows(db: Db, n: nat, others: seq<seq<Action>>)
    requires |others| == MAX_ATTEMPTS - 1 && forall i :: 0 <= i < |others| ==> others[i] == []
    requires forall h: Handle, k: nat :: !db.answers(h, k)
    requires Refuses(db, Fill(db, n).dials, MAX_CREATE_ATTEMPTS * n)
    ensures Sound(Fill(db, n)) && AllEnd(db, Fill(db, n), others, 0)
    ensures GetConnectionFrom(db, Fill(db, n), others, 0).0.None?
  {
    var s := Fill(db, n);
    FillAccounted(db, n);
    AttemptFailsIff(db, s);
    AttemptYields(db, s, Total(s));
    var s1 := AfterSleep(db, s, others[0]);
    assert s1.queue == [];
    AttemptFailsIff(db, s1);
    assert AfterSleep(db, s1, others[1]).queue == [];
    GetConnectionThrowsIff(db, s, others);
  }

  /** The handle is held, not queued, and passed its last check. */
  predicate JustValidated(db: Db, s: State, h: Handle) {
    h in s.out && h !in s.queue && Checks(s, h) > 0 && db.answers(h, Checks(s, h) - 1)
  }

  lemma NextAttempt(db: Db, s: State, others: seq<seq<Action>>, attempt: nat)
    requires Sound(s) && |others| == MAX_ATTEMPTS - 1 && attempt < MAX_ATTEMPTS - 1
    requires AllEnd(db, s, others, attempt) && Attempt(db, s).0.None?
    ensures var t := Run(db, Attempt(db, s).1, others[attempt]);
      && Sound(t) && AllEnd(db, t, others, attempt + 1)
      && GetConnectionFrom(db, s, others, attempt) == GetConnectionFrom(db, t, others, attempt + 1)
  {
    assert AfterSleep(db, s, others[attempt]) == Run(db, Attempt(db, s).1, others[attempt]);
  }

  lemma {:induction false} GetConnectionYields(db: Db, s: State, others: seq<seq<Action>>, attempt: nat)
    requires Sound(s) && |others| == MAX_ATTEMPTS - 1 && attempt < MAX_ATTEMPTS && AllEnd(db, s, others, attempt)
    ensures var (got, t) := GetConnectionFrom(db, s, others, attempt);
      if got.Some? then JustValidated(db, t, got.value) else t.queue == []
    decreases MAX_ATTEMPTS - attempt
  {
    AttemptYields(db, s, Total(s));
    if Attempt(db, s).0.None? && attempt < MAX_ATTEMPTS - 1 {
      GetConnectionYields(db, AfterSleep(db, s, others[attempt]), others, attempt + 1);
    }
  }

  /** The pool's fields, with the database's side of the story. */
  class MySqlConnectionPool {
    const db: Db
    const poolSize: nat
    var connectionQueue: seq<Handle>
    var out: set<Handle>
    var lost: nat
    var next: Handle
    var checks: map<Handle, nat>
    var dials: nat

    ghost function Now(): State
      reads this
    {
      State(connectionQueue, out, lost, next, checks, dials)
    }

    ghost predicate Valid()
      reads this
    {
      Accounted(Now(), poolSize)
    }

    constructor (size: nat, db: Db)
      ensures Valid() && Now() == Fill(db, size) && poolSize == size && this.db == db
      ensures lost == LostInFill(db, size) && |connectionQueue| == size - lost && out == {}
    {
      poolSize := size;
      this.db := db;
      connectionQueue, out, lost, next, checks, dials := [], {}, 0, 0, map[], 0;
      new;
      var i := 0;
      while i < size
        invariant 0 <= i <= size && Now() == Fill(db, i)
      {
        RefillPlace();
        i := i + 1;
      }
      FillAccounted(db, size);
      FillMeans(db, size);
    }

    method IsConnectionValid(h: Handle) returns (ok: bool)
      modifies this`checks
      ensures ok == Answer(db, old(Now()), h) && Now() == Checked(old(Now()), h)
    {
      var k := if h in checks then checks[h] else 0;
      ok := db.answers(h, k);
      checks := checks[h := k + 1];
    }

    method CreateNewConnection() returns (conn: Option<Handle>)
      modifies this`next, this`dials
      ensures var (ok, t) := Create(db, old(Now()), MAX_CREATE_ATTEMPTS);
        Now() == t && conn == if ok then Some(old(next)) else None
    {
      ghost var s := Now();
      var attempt := 0;
      while attempt < MAX_CREATE_ATTEMPTS
        invariant 0 <= attempt <= MAX_CREATE_ATTEMPTS
        invariant Now() == s.(dials := s.dials + attempt)
        invariant Create(db, s, MAX_CREATE_ATTEMPTS) == Create(db, Now(), MAX_CREATE_ATTEMPTS - attempt)
      {
        var connected := db.connects(dials);
        dials := dials + 1;
        if connected {
          conn := Some(next);
          next := next + 1;
          return;
        }
        attempt := attempt + 1;
      }
      conn := None;
    }

    /** createConnection, and the replacement of a dead connection. */
    method RefillPlace()
      modifies this`next, this`dials, this`connectionQueue, this`lost
      ensures Now() == Replace(db, old(Now()))
    {
      var conn := CreateNewConnection();
      if conn.Some? {
        connectionQueue := connectionQueue + [conn.value];
      } else {
        lost := lost + 1;
      }
    }

    method ReturnConnection(h: Handle)
      requires Valid() && h in out
      modifies this
      ensures Valid() && Now() == GiveBack(db, old(Now()), h)
      ensures Returned(db, old(Now()), h, Now())
    {
      GiveBackMeans(db, Now(), h);
      GiveBackAccounted(db, Now(), h, poolSize);
      out := out - {h};
      var ok := IsConnectionValid(h);
      if ok {
        connectionQueue := connectionQueue + [h];
      } else {
        RefillPlace();
      }
    }

    /** One turn of the inner loop. */
    method TakeFront() returns (conn: Option<Handle>)
      requires Valid() && connectionQueue != []
      modifies this
      ensures Valid() && Now() == Take(db, old(Now()))
      ensures Taken(db, old(Now()), Now())
      ensures conn == if Answer(db, old(Now()), old(connectionQueue)[0]) then Some(old(connectionQueue)[0]) else None
    {
      TakeMeans(db, Now());
      TakeAccounted(db, Now(), poolSize);
      var h := connectionQueue[0];
      connectionQueue := connectionQueue[1..];
      var ok := IsConnectionValid(h);
      if ok {
        out := out + {h};
        return Some(h);
      }
      RefillPlace();
      conn := None;
    }

    /** The inner while loop of getConnection, one hold of the mutex. */
    method AttemptOnce() returns (conn: Option<Handle>)
      requires Valid() && Ending(db, Now())
      modifies this
      ensures Valid() && (conn, Now()) == Attempt(db, old(Now()))
    {
      while connectionQueue != []
        invariant Valid() && Ending(db, Now())
        invariant Attempt(db, Now()) == Attempt(db, old(Now()))
        decreases BadOnes(db, Now(), connectionQueue)
      {
        ghost var s := Now();
        conn := TakeFront();
        if conn.Some? { return; }
        TakeShrinks(db, s);
      }
      conn := None;
    }

    method OneAction(a: Action)
      requires Valid()
      modifies this
      ensures Valid() && Now() == Next(db, old(Now()), a)
    {
      match a
      case TakeFront =>
        if connectionQueue != [] { var conn := TakeFront(); }
      case Return(h) =>
        if h in out { ReturnConnection(h); }
    }

    /** The other clients, while this one sleeps without the mutex. */
    method Sleep(acts: seq<Action>)
      requires Valid()
      modifies this
      ensures Valid() && Now() == Run(db, old(Now()), acts)
    {
      ghost var s := Now();
      var i := 0;
      assert acts[..0] == [];
      while i < |acts|
        invariant 0 <= i <= |acts| && Valid() && Now() == Run(db, s, acts[..i])
      {
        assert acts[..i+1][..i] == acts[..i];
        OneAction(acts[i]);
        i := i + 1;
      }
      assert acts[..|acts|] == acts;
    }

    method GetConnection(others: seq<seq<Action>>) returns (conn: Option<Handle>)
      requires Valid() && |others| == MAX_ATTEMPTS - 1 && AllEnd(db, Now(), others, 0)
      modifies this
      ensures Valid() && (conn, Now()) == GetConnectionFrom(db, old(Now()), others, 0)
      ensures if conn.Some? then JustValidated(db, Now(), conn.value) else connectionQueue == []
    {
      ghost var s := Now();
      GetConnectionYields(db, s, others, 0);
      ghost var result := GetConnectionFrom(db, s, others, 0);
      var attempt := 0;
      while attempt < MAX_ATTEMPTS
        invariant 0 <= attempt <= MAX_ATTEMPTS && Valid()
        invariant attempt < MAX_ATTEMPTS ==> AllEnd(db, Now(), others, attempt)
        invariant if attempt < MAX_ATTEMPTS then GetConnectionFrom(db, Now(), others, attempt) == result
                  else (None, Now()) == result
      {
        ghost var t := Now();
        conn := AttemptOnce();
        if conn.Some? { return; }
        if attempt < MAX_ATTEMPTS - 1 {
          NextAttempt(db, t, others, attempt);
          Sleep(others[attempt]);
        }
        attempt := attempt + 1;
      }
      conn := None;
    }
  }
}
