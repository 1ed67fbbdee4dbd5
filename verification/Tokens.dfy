// Session revocation: which tokens are still alive after a run of requests.
module Tokens {
  import opened Common
  import opened AccountTypes
  import opened AccountSpec

  // The account whose password an accepted request sets.
  ghost function PasswordSetBy(s: State, step: Step): Option<UserId> {
    match step.request
    case ResetPassword(u, _) =>
      var actor := Authorize(s, step.credential, step.now, USERS_MANAGE);
      if actor.Ok? && ResetRefusal(s, actor.value, u).None? then Some(u) else None
    case ChangePassword(current, next) =>
      var actor := Authenticate(s.users, step.credential, step.now, {Active, PasswordChangeRequired});
      if actor.Ok? && ChangeRefusal(s.users[actor.value], current, next).None? then Some(actor.value) else None
    case _ => None
  }

  ghost predicate Sets(s: State, steps: seq<Step>, i: nat, u: UserId)
    requires i < |steps|
  {
    PasswordSetBy(Run(s, steps[..i]), steps[i]) == Some(u)
  }

  lemma AdministeredStamp(s: State, actor: UserId, now: Time, request: Request, u: UserId)
    requires Inv(s) && Permission(request).Some? && u in s.users
    ensures u in Administer(s, actor, now, request).0.users
    ensures Administer(s, actor, now, request).0.users[u].stamp ==
              if request.ResetPassword? && request.target == u && ResetRefusal(s, actor, u).None? then Some(now)
              else s.users[u].stamp
  {
  }

  lemma OnlyPasswordStepsMoveTheStamp(s: State, step: Step, u: UserId)
    requires Inv(s) && u in s.users
    ensures u in Next(s, step).users
    ensures Next(s, step).users[u].stamp ==
              if PasswordSetBy(s, step) == Some(u) then Some(step.now) else s.users[u].stamp
  {
    if Permission(step.request).Some? {
      var authorized := Authorize(s, step.credential, step.now, Permission(step.request).value);
      if authorized.Ok? {
        AdministeredStamp(s, authorized.value, step.now, step.request, u);
      }
    }
  }

  // The instant of the last accepted change of u's password in the run.
  ghost function LastChange(s: State, steps: seq<Step>, u: UserId): Option<Time> {
    if steps == [] then None
    else if PasswordSetBy(Run(s, steps[..|steps| - 1]), steps[|steps| - 1]) == Some(u) then Some(steps[|steps| - 1].now)
    else LastChange(s, steps[..|steps| - 1], u)
  }

  ghost predicate EverSets(s: State, steps: seq<Step>, u: UserId) {
    exists i | 0 <= i < |steps| :: Sets(s, steps, i, u)
  }

  lemma SetsInFront(s: State, steps: seq<Step>, u: UserId)
    requires steps != []
    ensures var front := steps[..|steps| - 1];
            && (forall i | 0 <= i < |front| :: Sets(s, front, i, u) <==> Sets(s, steps, i, u))
            && (EverSets(s, steps, u) <==> EverSets(s, front, u) || Sets(s, steps, |front|, u))
  {
    var front := steps[..|steps| - 1];
    forall i | 0 <= i < |front| ensures Sets(s, front, i, u) <==> Sets(s, steps, i, u) {
      assert front[..i] == steps[..i];
    }
  }

  lemma {:induction false} LastChangeIsTheLastSet(s: State, steps: seq<Step>, u: UserId)
    ensures LastChange(s, steps, u).Some? <==> EverSets(s, steps, u)
    decreases |steps|
  {
    if steps != [] {
      var front := steps[..|steps| - 1];
      SetsInFront(s, steps, u);
      LastChangeIsTheLastSet(s, front, u);
    }
  }

  lemma {:induction false} StampAfterRun(s: State, steps: seq<Step>, u: UserId)
    requires Inv(s) && u in s.users
    ensures u in Run(s, steps).users
    ensures Run(s, steps).users[u].stamp ==
              if LastChange(s, steps, u).Some? then LastChange(s, steps, u) else s.users[u].stamp
    decreases |steps|
  {
    if steps != [] {
      var front := steps[..|steps| - 1];
      StampAfterRun(s, front, u);
      RunKeepsInv(s, front);
      OnlyPasswordStepsMoveTheStamp(Run(s, front), steps[|steps| - 1], u);
    }
  }

  // The life of a token issued in state s, decided exactly, with no assumption on
  // the clock: it dies with its expiry second, with the status, and with the first
  // password change, unless the last change reuses the very instant it carries.
  lemma TokenLife(s: State, steps: seq<Step>, u: UserId, issued: Time, t: Time, allowed: set<Status>)
    requires Inv(s) && u in s.users
    ensures u in Run(s, steps).users
    ensures Authenticate(Run(s, steps).users, IssueToken(u, s.users[u].stamp, issued), t, allowed).Ok? <==>
              && t < (issued / MICROSECONDS + TOKEN_SECONDS) * MICROSECONDS
              && Run(s, steps).users[u].status in allowed
              && (LastChange(s, steps, u).None? || LastChange(s, steps, u) == s.users[u].stamp)
  {
    StampAfterRun(s, steps, u);
  }

  // A token issued for an account as it stands authenticates there from its issue to the
  // end of its seventh day, counted in whole seconds.
  lemma TokensLiveSevenDays(users: map<UserId, Account>, u: UserId, issued: Time, t: Time, allowed: set<Status>)
    requires u in users && users[u].status in allowed && 0 <= issued
    ensures Authenticate(users, IssueToken(u, users[u].stamp, issued), t, allowed).Ok? <==>
              t < (issued / 1_000_000 + 7 * 24 * 60 * 60) * 1_000_000
  {
  }

  // A clock that moves on between two changes of the same password.
  ghost predicate LaterThanStamp(s: State, step: Step, u: UserId) {
    u in s.users && s.users[u].stamp.Some? ==> s.users[u].stamp.value < step.now
  }

  ghost predicate ClockAdvances(s: State, steps: seq<Step>, u: UserId) {
    forall i | 0 <= i < |steps| && Sets(s, steps, i, u) :: LaterThanStamp(Run(s, steps[..i]), steps[i], u)
  }

  lemma ClockAdvancesInFront(s: State, steps: seq<Step>, u: UserId)
    requires steps != [] && ClockAdvances(s, steps, u)
    ensures ClockAdvances(s, steps[..|steps| - 1], u)
    ensures Sets(s, steps, |steps| - 1, u) ==> LaterThanStamp(Run(s, steps[..|steps| - 1]), steps[|steps| - 1], u)
  {
    var front := steps[..|steps| - 1];
    SetsInFront(s, steps, u);
    forall i | 0 <= i < |front| && Sets(s, front, i, u) ensures LaterThanStamp(Run(s, front[..i]), front[i], u) {
      assert Sets(s, steps, i, u) && front[..i] == steps[..i];
    }
  }

  lemma {:induction false} StampOnlyGrows(s: State, steps: seq<Step>, u: UserId)
    requires Inv(s) && u in s.users && ClockAdvances(s, steps, u)
    requires LastChange(s, steps, u).Some? && s.users[u].stamp.Some?
    ensures s.users[u].stamp.value < LastChange(s, steps, u).value
    decreases |steps|
  {
    var front, last := steps[..|steps| - 1], |steps| - 1;
    ClockAdvancesInFront(s, steps, u);
    StampAfterRun(s, front, u);
    assert Sets(s, steps, last, u) <==> PasswordSetBy(Run(s, front), steps[last]) == Some(u);
    if LastChange(s, front, u).Some? {
      StampOnlyGrows(s, front, u);
    }
  }

  // The last change took place at one of the run's changes.
  lemma {:induction false} LastChangeIsAChange(s: State, steps: seq<Step>, u: UserId) returns (i: nat)
    requires LastChange(s, steps, u).Some?
    ensures i < |steps| && Sets(s, steps, i, u) && LastChange(s, steps, u) == Some(steps[i].now)
    decreases |steps|
  {
    var front, last := steps[..|steps| - 1], |steps| - 1;
    if PasswordSetBy(Run(s, front), steps[last]) == Some(u) {
      i := last;
    } else {
      i := LastChangeIsAChange(s, front, u);
      assert front[..i] == steps[..i];
    }
  }

  // No change of u's password in the run shares its instant with the stored stamp.
  ghost predicate NewInstants(s: State, steps: seq<Step>, u: UserId)
    requires u in s.users
  {
    forall i | 0 <= i < |steps| && Sets(s, steps, i, u) :: s.users[u].stamp != Some(steps[i].now)
  }

  // Revocation over runs, on any clock that gives changes other instants than the
  // stamp: a token outlives a run exactly when no change of its owner's password
  // happened in it, within its seven days and an allowed status.
  lemma TokensDieWithThePassword(s: State, steps: seq<Step>, u: UserId, issued: Time, t: Time, allowed: set<Status>)
    requires Inv(s) && u in s.users && NewInstants(s, steps, u)
    ensures u in Run(s, steps).users
    ensures Authenticate(Run(s, steps).users, IssueToken(u, s.users[u].stamp, issued), t, allowed).Ok? <==>
              && t < (issued / MICROSECONDS + TOKEN_SECONDS) * MICROSECONDS
              && Run(s, steps).users[u].status in allowed
              && !EverSets(s, steps, u)
  {
    TokenLife(s, steps, u, issued, t, allowed);
    LastChangeIsTheLastSet(s, steps, u);
    if LastChange(s, steps, u).Some? {
      var i := LastChangeIsAChange(s, steps, u);
    }
  }

  lemma {:induction false} ClockAdvancesInPrefix(s: State, steps: seq<Step>, u: UserId, n: nat)
    requires n <= |steps| && ClockAdvances(s, steps, u)
    ensures ClockAdvances(s, steps[..n], u)
    decreases |steps|
  {
    if n == |steps| {
      assert steps[..n] == steps;
    } else {
      ClockAdvancesInFront(s, steps, u);
      assert steps[..|steps| - 1][..n] == steps[..n];
      ClockAdvancesInPrefix(s, steps[..|steps| - 1], u, n);
    }
  }

  // A clock that moves on at every change never comes back to the stored stamp.
  lemma AnAdvancingClockGivesNewInstants(s: State, steps: seq<Step>, u: UserId)
    requires Inv(s) && u in s.users && ClockAdvances(s, steps, u)
    ensures NewInstants(s, steps, u)
  {
    forall i | 0 <= i < |steps| && Sets(s, steps, i, u) ensures s.users[u].stamp != Some(steps[i].now) {
      var part := steps[..i + 1];
      assert part[..|part| - 1] == steps[..i] && part[|part| - 1] == steps[i];
      ClockAdvancesInPrefix(s, steps, u, i + 1);
      if s.users[u].stamp.Some? {
        StampOnlyGrows(s, part, u);
      }
    }
  }

  const RESET_TWICE := State(map[1 := Account("r", "p", Active, 0, None), 2 := Account("e", "p", Active, 0, Some(5))],
                             {(1, SuperAdmin)}, {(SuperAdmin, USERS_MANAGE)}, [])

  // Without the clock's progress it fails: a second reset within the same instant
  // leaves the tokens of the first one alive.
  lemma AReusedInstantKeepsTheToken()
    ensures Inv(RESET_TWICE)
    ensures var step := Step(ResetPassword(2, "t"), Signed(1, None, 1), 5);
            && Sets(RESET_TWICE, [step], 0, 2)
            && Authenticate(Run(RESET_TWICE, [step]).users, IssueToken(2, Some(5), 5), 6, {PasswordChangeRequired})
               == Ok(2)
  {
    var step := Step(ResetPassword(2, "t"), Signed(1, None, 1), 5);
    assert HasPermission(RESET_TWICE, 1, USERS_MANAGE);
    assert [step][..0] == [];
    assert Run(RESET_TWICE, [step]) == Next(RESET_TWICE, step);
  }

  // Every token a reply hands out is alive in the state the request leaves.
  lemma IssuedTokensAreLive(s: State, step: Step, t: Time)
    requires Inv(s) && Apply(s, step).1.Issued?
    requires t < (step.now / MICROSECONDS + TOKEN_SECONDS) * MICROSECONDS
    ensures var token := Apply(s, step).1.token;
            && token.Signed?
            && Authenticate(Next(s, step).users, token, t, {Active, PasswordChangeRequired}) == Ok(token.sub)
            && (step.request.ChangePassword? ==> Authenticate(Next(s, step).users, token, t, {Active}) == Ok(token.sub))
  {
    if Permission(step.request).Some? {
      var authorized := Authorize(s, step.credential, step.now, Permission(step.request).value);
    }
  }

  // A password change kills the token it was asked with.
  lemma ChangeRevokesItsOwnToken(s: State, step: Step, t: Time, allowed: set<Status>)
    requires Inv(s) && step.request.ChangePassword? && Apply(s, step).1.Issued?
    requires step.credential.pwd != Some(step.now)
    ensures Authenticate(Next(s, step).users, step.credential, t, allowed).Err?
  {
  }
}
