/** Password logins whose hash check runs outside the lock (core/qihse_auth.c). */
module Login {
  import opened Prelude
  import opened Principal
  import opened AuthTable
  import opened AuthService

  /** A principal as logins see it; `handle` is the identity of its allocation. */
  datatype Account = Account(handle: nat, active: bool, passwordSet: bool, generation: nat, verifier: Verifier,
                             rate: Rate)

  /** A login between its two lock holds: what it copied under the first. */
  datatype Attempt = Attempt(id: nat, secret: nat, handle: nat, verifier: Verifier, generation: nat)

  datatype State = State(accounts: seq<Account>, attempts: seq<Attempt>, handles: nat, now: nat)

  datatype Step =
    | Begin(id: nat, secret: nat)
    | Finish(k: nat, stored: bool)
    | Modify(id: nat, verifier: Verifier, renewed: bool)
    | Destroy(id: nat)
    | Import(id: nat, active: bool, verifier: Verifier, generation: nat, rate: Rate)
    | Tick(now: nat)

  /** What checking a secret against a verifier answers. */
  type Check = (nat, Verifier) -> bool

  predicate Locked(r: Rate, now: nat) { r.lockout > now }

  predicate Enabled(s: State, e: Step) {
    match e
    case Begin(id, _) =>
      id < |s.accounts| && var a := s.accounts[id]; a.active && a.passwordSet && !Locked(a.rate, s.now)
    case Finish(k, _) => k < |s.attempts| && s.attempts[k].id < |s.accounts| && s.now <= I64_MAX - LOCKOUT_SECONDS
    case Modify(id, _, _) => id < |s.accounts| && s.accounts[id].active
    case Destroy(id) => id < |s.accounts| && s.accounts[id].active
    case Import(id, active, _, g, r) =>
      id < |s.accounts| && var a := s.accounts[id];
      g > a.generation && (active ==> a.active) && r.failed >= a.rate.failed && r.lockout >= a.rate.lockout
    case Tick(now) => now >= s.now
  }

  /** The account is still the one the attempt was made against, and not locked out. */
  predicate Current(a: Account, t: Attempt, now: nat) {
    a.handle == t.handle && a.active && a.generation == t.generation && a.passwordSet && a.verifier == t.verifier
    && !Locked(a.rate, now)
  }

  /** The login hands out a handle. */
  predicate Succeeds(s: State, e: Step, check: Check)
    requires Enabled(s, e)
  {
    e.Finish? && e.stored && var t := s.attempts[e.k];
    Current(s.accounts[t.id], t, s.now) && check(t.secret, t.verifier)
  }

  /** The attempt is counted as a failure. */
  predicate Counts(s: State, e: Step, check: Check)
    requires Enabled(s, e)
  {
    e.Finish? && e.stored && var t := s.attempts[e.k];
    Current(s.accounts[t.id], t, s.now) && !check(t.secret, t.verifier)
  }

  function Next(s: State, e: Step, check: Check): State
    requires Enabled(s, e)
  {
    match e
    case Begin(id, secret) =>
      var a := s.accounts[id];
      s.(attempts := s.attempts + [Attempt(id, secret, a.handle, a.verifier, a.generation)])
    case Finish(k, stored) =>
      var t := s.attempts[k];
      var a := s.accounts[t.id];
      var rest := s.(attempts := s.attempts[..k] + s.attempts[k + 1..]);
      if !Current(a, t, s.now) || !stored then rest
      else rest.(accounts := s.accounts[t.id := a.(rate := Counted(a.rate, check(t.secret, t.verifier), s.now))])
    case Modify(id, verifier, renewed) =>
      var a := s.accounts[id];
      s.(accounts := s.accounts[id := a.(verifier := verifier, generation := a.generation + 1,
                                         handle := if renewed then s.handles else a.handle)],
         handles := s.handles + 1)
    case Destroy(id) =>
      var a := s.accounts[id];
      s.(accounts := s.accounts[id := a.(active := false, passwordSet := false, generation := a.generation + 1,
                                         rate := Rate(0, 0))])
    case Import(id, active, verifier, g, r) =>
      s.(accounts := s.accounts[id := Account(s.handles, active, active, g, verifier, r)], handles := s.handles + 1)
    case Tick(now) => s.(now := now)
  }

  // ---------------------------------------------------------------- runs

  ghost predicate IsRun(s: State, steps: seq<Step>, check: Check)
    decreases |steps|
  {
    steps == [] || (Enabled(s, steps[0]) && IsRun(Next(s, steps[0], check), steps[1..], check))
  }

  ghost function After(s: State, steps: seq<Step>, check: Check): State
    requires IsRun(s, steps, check)
    decreases |steps|
  {
    if steps == [] then s else After(Next(s, steps[0], check), steps[1..], check)
  }

  /** What a step leaves of one account: the same policy, or a later generation. */
  predicate Moves(a: Account, b: Account) {
    && a.generation <= b.generation && (!a.active ==> !b.active)
    && (a.generation == b.generation ==> b.(rate := a.rate) == a)
  }

  lemma StepMoves(s: State, e: Step, check: Check, id: nat)
    requires Enabled(s, e) && id < |s.accounts|
    ensures |Next(s, e, check).accounts| == |s.accounts| && Moves(s.accounts[id], Next(s, e, check).accounts[id])
  {}

  lemma {:induction false} RunMoves(s: State, steps: seq<Step>, check: Check, id: nat)
    requires IsRun(s, steps, check) && id < |s.accounts|
    ensures |After(s, steps, check).accounts| == |s.accounts|
            && Moves(s.accounts[id], After(s, steps, check).accounts[id])
    decreases |steps|
  {
    if steps != [] {
      StepMoves(s, steps[0], check, id);
      RunMoves(Next(s, steps[0], check), steps[1..], check, id);
    }
  }

  /** A run is a run of its first steps and then one of the rest. */
  lemma {:induction false} RunParts(s: State, steps: seq<Step>, n: nat, check: Check)
    requires IsRun(s, steps, check) && n <= |steps|
    ensures IsRun(s, steps[..n], check) && IsRun(After(s, steps[..n], check), steps[n..], check)
    ensures After(s, steps, check) == After(After(s, steps[..n], check), steps[n..], check)
    decreases n
  {
    if n > 0 {
      assert steps[..n][0] == steps[0] && steps[..n][1..] == steps[1..][..n - 1] && steps[1..][n - 1..] == steps[n..];
      RunParts(Next(s, steps[0], check), steps[1..], n - 1, check);
    } else {
      assert steps[n..] == steps;
    }
  }

  // ---------------------------------------------------------------- a success is about the account that was checked

  /** The account is active and is what the attempt copied. */
  predicate Copied(a: Account, t: Attempt) {
    a.active && a.passwordSet && a.handle == t.handle && a.generation == t.generation && a.verifier == t.verifier
  }

  /** After the first `m` steps the attempt's account is what the attempt copied. */
  ghost predicate StandsAt(s: State, steps: seq<Step>, check: Check, t: Attempt, m: nat) {
    && m <= |steps| && IsRun(s, steps[..m], check)
    && var x := After(s, steps[..m], check); t.id < |x.accounts| && Copied(x.accounts[t.id], t)
  }

  /** Step `i` began the attempt, against an unlocked account. */
  ghost predicate Begun(s: State, steps: seq<Step>, check: Check, t: Attempt, i: nat) {
    && i < |steps| && steps[i] == Begin(t.id, t.secret) && StandsAt(s, steps, check, t, i)
    && var x := After(s, steps[..i], check); !Locked(x.accounts[t.id].rate, x.now)
  }

  /** Every attempt under way was begun by a step of the run. */
  lemma {:induction false} AttemptsHaveBegun(s: State, steps: seq<Step>, check: Check, t: Attempt)
    requires s.attempts == [] && IsRun(s, steps, check) && t in After(s, steps, check).attempts
    ensures exists i: nat :: Begun(s, steps, check, t, i)
    decreases |steps|
  {
    if steps != [] {
      var n := |steps| - 1;
      var front := steps[..n];
      RunParts(s, steps, n, check);
      var x := After(s, front, check);
      assert steps[n..] == [steps[n]];
      assert After(s, steps, check) == Next(x, steps[n], check);
      if t in x.attempts {
        AttemptsHaveBegun(s, front, check, t);
        var i: nat :| Begun(s, front, check, t, i);
        assert front[..i] == steps[..i];
        assert Begun(s, steps, check, t, i);
      } else {
        assert Begun(s, steps, check, t, n);
      }
    }
  }

  /** Whenever a login succeeds, a step of the run began it against an unlocked account, and at
      every moment from then on the account was active and carried the very handle, generation
      and verifier that were copied: it was never modified, destroyed or replaced, and the secret
      matches the verifier it has. */
  lemma SuccessWasUndisturbed(s: State, steps: seq<Step>, e: Step, check: Check)
    requires s.attempts == [] && IsRun(s, steps, check)
    requires Enabled(After(s, steps, check), e) && Succeeds(After(s, steps, check), e, check)
    ensures var end := After(s, steps, check);
            var t := end.attempts[e.k];
            && check(t.secret, end.accounts[t.id].verifier) && !Locked(end.accounts[t.id].rate, end.now)
            && exists i: nat :: Begun(s, steps, check, t, i)
                                && forall m: nat :: i <= m <= |steps| ==> StandsAt(s, steps, check, t, m)
  {
    var end := After(s, steps, check);
    var t := end.attempts[e.k];
    AttemptsHaveBegun(s, steps, check, t);
    var i: nat :| Begun(s, steps, check, t, i);
    forall m: nat | i <= m <= |steps| ensures StandsAt(s, steps, check, t, m) {
      StandsBetween(s, steps, check, t, i, m);
    }
  }

  lemma StandsBetween(s: State, steps: seq<Step>, check: Check, t: Attempt, i: nat, m: nat)
    requires IsRun(s, steps, check) && i <= m <= |steps| && StandsAt(s, steps, check, t, i)
    requires var end := After(s, steps, check); t.id < |end.accounts| && Copied(end.accounts[t.id], t)
    ensures StandsAt(s, steps, check, t, m)
  {
    RunParts(s, steps, m, check);
    RunParts(s, steps[..m], i, check);
    assert steps[..m][..i] == steps[..i];
    var x := After(s, steps[..i], check);
    RunMoves(x, steps[..m][i..], check, t.id);
    RunMoves(After(s, steps[..m], check), steps[m..], check, t.id);
  }

  // ---------------------------------------------------------------- lockouts

  /** A step is a success of a login to this account. */
  predicate Admits(s: State, e: Step, check: Check, id: nat)
    requires Enabled(s, e)
  {
    Succeeds(s, e, check) && s.attempts[e.k].id == id
  }

  /** A step counts a failure against this account. */
  predicate Charges(s: State, e: Step, check: Check, id: nat)
    requires Enabled(s, e)
  {
    Counts(s, e, check) && s.attempts[e.k].id == id
  }

  /** A lockout that has not ended outlives every step, unless the account is destroyed for good. */
  lemma StepKeepsLock(s: State, e: Step, check: Check, id: nat, until: nat)
    requires Enabled(s, e) && id < |s.accounts| && (s.accounts[id].active ==> s.accounts[id].rate.lockout >= until)
             && s.now < until
    ensures !Admits(s, e, check, id) && !Charges(s, e, check, id)
    ensures var t := Next(s, e, check);
            id < |t.accounts| && (t.accounts[id].active ==> t.accounts[id].rate.lockout >= until)
  {}

  /** No step of the run admits or charges the account. */
  ghost predicate Quiet(s: State, steps: seq<Step>, check: Check, id: nat)
    requires IsRun(s, steps, check)
    decreases |steps|
  {
    steps == []
    || (!Admits(s, steps[0], check, id) && !Charges(s, steps[0], check, id)
        && Quiet(Next(s, steps[0], check), steps[1..], check, id))
  }

  lemma {:induction false} ClockAdvances(s: State, steps: seq<Step>, check: Check)
    requires IsRun(s, steps, check)
    ensures s.now <= After(s, steps, check).now
    decreases |steps|
  {
    if steps != [] { ClockAdvances(Next(s, steps[0], check), steps[1..], check); }
  }

  /** No login to a locked account succeeds, or is even counted, before the lockout ends,
      whatever happens in between. */
  lemma {:induction false} LockHolds(s: State, steps: seq<Step>, check: Check, id: nat, until: nat)
    requires IsRun(s, steps, check) && id < |s.accounts|
             && (s.accounts[id].active ==> s.accounts[id].rate.lockout >= until)
    requires After(s, steps, check).now < until
    ensures Quiet(s, steps, check, id)
    decreases |steps|
  {
    if steps != [] {
      ClockAdvances(s, steps, check);
      StepKeepsLock(s, steps[0], check, id, until);
      LockHolds(Next(s, steps[0], check), steps[1..], check, id, until);
    }
  }

  // ---------------------------------------------------------------- what a success does

  predicate NeverImports(steps: seq<Step>, id: nat) {
    forall i :: 0 <= i < |steps| ==> !(steps[i].Import? && steps[i].id == id)
  }

  lemma {:induction false} FewFailuresOpen(s: State, steps: seq<Step>, check: Check, id: nat)
    requires IsRun(s, steps, check) && id < |s.accounts| && s.accounts[id].rate.lockout == 0 && NeverImports(steps, id)
    requires s.accounts[id].rate.failed + Charged(s, steps, check, id) <= 4
    ensures var a := After(s, steps, check); id < |a.accounts| && a.accounts[id].rate.lockout == 0
    decreases |steps|
  {
    if steps != [] {
      assert !(steps[0].Import? && steps[0].id == id);
      assert NeverImports(steps[1..], id);
      FewFailuresOpen(Next(s, steps[0], check), steps[1..], check, id);
    }
  }

  /** A success wipes the record: afterwards it takes five counted failures, or an import, to lock
      the account. */
  lemma SuccessClears(s: State, e: Step, steps: seq<Step>, check: Check, id: nat)
    requires Enabled(s, e) && Admits(s, e, check, id) && IsRun(Next(s, e, check), steps, check) && id < |s.accounts|
    requires Charged(Next(s, e, check), steps, check, id) <= 4 && NeverImports(steps, id)
    ensures var t := Next(s, e, check); t.accounts[id].rate.failed == 0 && t.accounts[id].rate.lockout == 0
    ensures var a := After(Next(s, e, check), steps, check);
            id < |a.accounts| && a.accounts[id].rate.lockout == 0 && !Locked(a.accounts[id].rate, a.now)
  {
    FewFailuresOpen(Next(s, e, check), steps, check, id);
  }

  // ---------------------------------------------------------------- how often one may guess

  /** Failures still possible before the account is locked until `end` or later. A counter at its
      32-bit limit first starts over. */
  function Budget(a: Account, end: nat): nat {
    if !a.active || a.rate.lockout >= end then 0
    else if a.rate.failed == U32_MAX then MAX_ATTEMPTS + 1
    else if a.rate.failed >= MAX_ATTEMPTS then 1
    else MAX_ATTEMPTS - a.rate.failed
  }

  /** An import that sets the account's counter to its limit. */
  predicate Saturates(e: Step, id: nat) { e.Import? && e.id == id && e.rate.failed == U32_MAX }

  function Saturations(steps: seq<Step>, id: nat): nat {
    if steps == [] then 0 else (if Saturates(steps[0], id) then 1 else 0) + Saturations(steps[1..], id)
  }

  ghost function Charged(s: State, steps: seq<Step>, check: Check, id: nat): nat
    requires IsRun(s, steps, check)
    decreases |steps|
  {
    if steps == [] then 0
    else (if Charges(s, steps[0], check, id) then 1 else 0) + Charged(Next(s, steps[0], check), steps[1..], check, id)
  }

  ghost predicate NeverAdmits(s: State, steps: seq<Step>, check: Check, id: nat)
    requires IsRun(s, steps, check)
    decreases |steps|
  {
    steps == [] || (!Admits(s, steps[0], check, id) && NeverAdmits(Next(s, steps[0], check), steps[1..], check, id))
  }

  lemma StepSpends(s: State, e: Step, check: Check, id: nat, end: nat)
    requires Enabled(s, e) && id < |s.accounts| && !Admits(s, e, check, id)
    requires s.now < end <= s.now + LOCKOUT_SECONDS || !e.Finish?
    ensures var t := Next(s, e, check);
            id < |t.accounts| && Budget(t.accounts[id], end) + (if Charges(s, e, check, id) then 1 else 0)
                                 <= Budget(s.accounts[id], end) + (if Saturates(e, id) then MAX_ATTEMPTS else 0)
  {}

  /** Within any 300 seconds, and as long as no login succeeds, at most five failed guesses are
      counted against an account, however logins interleave with each other, with policy changes
      and with imports: one more if its counter stands at the 32-bit limit, and five more for each
      import that puts it there. */
  lemma {:induction false} GuessesAreBounded(s: State, steps: seq<Step>, check: Check, id: nat, end: nat)
    requires IsRun(s, steps, check) && id < |s.accounts| && NeverAdmits(s, steps, check, id)
    requires end <= s.now + LOCKOUT_SECONDS && After(s, steps, check).now < end
    ensures Charged(s, steps, check, id) <= Budget(s.accounts[id], end) + MAX_ATTEMPTS * Saturations(steps, id)
    ensures Budget(s.accounts[id], end) <= if s.accounts[id].rate.failed == U32_MAX then MAX_ATTEMPTS + 1
            else MAX_ATTEMPTS
    decreases |steps|
  {
    if steps != [] {
      ClockAdvances(s, steps, check);
      StepSpends(s, steps[0], check, id, end);
      GuessesAreBounded(Next(s, steps[0], check), steps[1..], check, id, end);
    }
  }

  // ---------------------------------------------------------------- when five is the bound

  function Never(secret: nat, v: Verifier): bool { false }

  /** So many wrong guesses, one after the other. */
  function Guesses(id: nat, k: nat, n: nat): seq<Step> {
    if n == 0 then [] else [Begin(id, 0), Finish(k, true)] + Guesses(id, k, n - 1)
  }

  /** The counter lets so many wrong guesses through before it locks. */
  predicate Open(r: Rate, n: nat, now: u64)
    requires now <= I64_MAX - LOCKOUT_SECONDS
    decreases n
  {
    n == 0 || (!Locked(r, now) && Open(Counted(r, false, now), n - 1, now))
  }

  /** The account can be guessed at now. */
  predicate Exposed(s: State, id: nat) {
    id < |s.accounts| && s.now <= I64_MAX - LOCKOUT_SECONDS
    && var a := s.accounts[id]; a.active && a.passwordSet && !Locked(a.rate, s.now)
  }

  lemma OneGuess(s: State, id: nat)
    requires Exposed(s, id)
    ensures var k := |s.attempts|;
            var a := s.accounts[id];
            && Enabled(s, Begin(id, 0)) && Enabled(Next(s, Begin(id, 0), Never), Finish(k, true))
            && Charges(Next(s, Begin(id, 0), Never), Finish(k, true), Never, id)
            && Next(Next(s, Begin(id, 0), Never), Finish(k, true), Never)
               == s.(accounts := s.accounts[id := a.(rate := Counted(a.rate, false, s.now))])
  {
    var b := Next(s, Begin(id, 0), Never);
    assert b.attempts[..|s.attempts|] + b.attempts[|s.attempts| + 1..] == s.attempts;
  }

  /** Every one of those guesses is counted. */
  lemma {:induction false} GuessRun(s: State, id: nat, n: nat)
    requires id < |s.accounts| && s.now <= I64_MAX - LOCKOUT_SECONDS
    requires var a := s.accounts[id]; a.active && a.passwordSet && Open(a.rate, n, s.now)
    ensures var steps := Guesses(id, |s.attempts|, n);
            && IsRun(s, steps, Never) && After(s, steps, Never).now == s.now
            && Charged(s, steps, Never, id) == n && NeverAdmits(s, steps, Never, id) && Saturations(steps, id) == 0
    decreases n
  {
    if n > 0 {
      OneGuess(s, id);
      var k := |s.attempts|;
      var b := Next(s, Begin(id, 0), Never);
      var c := Next(b, Finish(k, true), Never);
      GuessRun(c, id, n - 1);
      var steps, rest := Guesses(id, k, n), Guesses(id, k, n - 1);
      assert steps[1..][1..] == rest && steps[0] == Begin(id, 0) && steps[1..][0] == Finish(k, true);
      assert IsRun(b, steps[1..], Never);
    }
  }

  /** In 300 seconds without a success or a saturating import at most five guesses are counted. */
  ghost predicate FiveAtMost(s: State, id: nat)
    requires id < |s.accounts|
  {
    forall steps: seq<Step>, check: Check ::
      IsRun(s, steps, check) && NeverAdmits(s, steps, check, id) && Saturations(steps, id) == 0
      && After(s, steps, check).now < s.now + LOCKOUT_SECONDS
      ==> Charged(s, steps, check, id) <= MAX_ATTEMPTS
  }

  lemma SixOpen(lockout: u64, now: u64)
    requires now <= I64_MAX - LOCKOUT_SECONDS && lockout <= now
    ensures Open(Rate(U32_MAX, lockout), 6, now)
  {
    assert Counted(Rate(U32_MAX, lockout), false, now) == Rate(0, lockout);
    assert Open(Rate(4, lockout), 1, now);
    assert Open(Rate(3, lockout), 2, now);
    assert Open(Rate(2, lockout), 3, now);
    assert Open(Rate(1, lockout), 4, now);
    assert Open(Rate(0, lockout), 5, now);
  }

  /** The bound of five holds of an exposed account exactly if its counter is not at its 32-bit
      limit, where one more failure starts it over without a lockout. */
  lemma FiveAtMostIff(s: State, id: nat)
    requires Exposed(s, id)
    ensures FiveAtMost(s, id) <==> s.accounts[id].rate.failed < U32_MAX
  {
    if s.accounts[id].rate.failed < U32_MAX {
      forall steps: seq<Step>, check: Check
        | IsRun(s, steps, check) && NeverAdmits(s, steps, check, id) && Saturations(steps, id) == 0
          && After(s, steps, check).now < s.now + LOCKOUT_SECONDS
        ensures Charged(s, steps, check, id) <= MAX_ATTEMPTS
      {
        GuessesAreBounded(s, steps, check, id, s.now + LOCKOUT_SECONDS);
      }
    } else {
      SixOpen(s.accounts[id].rate.lockout, s.now);
      GuessRun(s, id, 6);
    }
  }

  /** Nothing but an import brings a counter to its limit. */
  lemma OnlyImportsSaturate(s: State, e: Step, check: Check, id: nat)
    requires Enabled(s, e) && id < |s.accounts| && s.accounts[id].rate.failed < U32_MAX && !Saturates(e, id)
    ensures id < |Next(s, e, check).accounts| && Next(s, e, check).accounts[id].rate.failed < U32_MAX
  {}

  /** And a single saturating import breaks it for every exposed account: six guesses follow. */
  lemma SaturationBreaksFive(s: State, id: nat)
    requires Exposed(s, id)
    ensures exists steps: seq<Step> ::
              && IsRun(s, steps, Never) && NeverAdmits(s, steps, Never, id) && Saturations(steps, id) == 1
              && After(s, steps, Never).now == s.now && Charged(s, steps, Never, id) == MAX_ATTEMPTS + 1
  {
    var a := s.accounts[id];
    var e := Import(id, true, a.verifier, a.generation + 1, Rate(U32_MAX, a.rate.lockout));
    var t := Next(s, e, Never);
    SixOpen(a.rate.lockout, s.now);
    GuessRun(t, id, 6);
    var steps := [e] + Guesses(id, |t.attempts|, 6);
    assert steps[1..] == Guesses(id, |t.attempts|, 6);
    assert IsRun(s, steps, Never) && Charged(s, steps, Never, id) == 6;
  }
}
