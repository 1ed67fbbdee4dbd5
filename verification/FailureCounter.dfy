// What failed_login_count counts, and when the lockout bound holds.
module FailureCounter {
  import opened Common
  import opened AccountTypes
  import opened AccountSpec
  import opened Tokens

  // The account that a bad password is counted against.
  ghost function FailedBy(s: State, step: Step): Option<UserId> {
    match step.request
    case Login(email, password, admitted) =>
      var found := FindByEmail(s, email);
      if admitted && found.Some? && password != s.users[found.value].password && CanLogIn(s.users[found.value].status)
      then found else None
    case _ => None
  }

  // The account whose count an accepted request clears: a login, an unlock, a reset
  // or a password change.
  ghost function ClearedBy(s: State, step: Step): Option<UserId> {
    match step.request
    case Login(email, password, admitted) =>
      var found := FindByEmail(s, email);
      if admitted && found.Some? && password == s.users[found.value].password && CanLogIn(s.users[found.value].status)
      then found else None
    case Unlock(u) =>
      if Authorize(s, step.credential, step.now, USERS_MANAGE).Ok? && u in s.users && s.users[u].status == Locked
      then Some(u) else None
    case _ => PasswordSetBy(s, step)
  }

  lemma AdministeredCount(s: State, actor: UserId, now: Time, request: Request, u: UserId)
    requires Inv(s) && Permission(request).Some? && u in s.users
    ensures u in Administer(s, actor, now, request).0.users
    ensures Administer(s, actor, now, request).0.users[u].failures ==
              if request.Unlock? && request.target == u && s.users[u].status == Locked then 0
              else if request.ResetPassword? && request.target == u && ResetRefusal(s, actor, u).None? then 0
              else s.users[u].failures
  {
  }

  lemma CountMoves(s: State, step: Step, u: UserId)
    requires Inv(s) && u in s.users
    ensures u in Next(s, step).users
    ensures Next(s, step).users[u].failures ==
              if ClearedBy(s, step) == Some(u) then 0
              else s.users[u].failures + if FailedBy(s, step) == Some(u) then 1 else 0
  {
    if Permission(step.request).Some? {
      var authorized := Authorize(s, step.credential, step.now, Permission(step.request).value);
      if authorized.Ok? {
        AdministeredCount(s, authorized.value, step.now, step.request, u);
      }
    }
  }

  datatype Event = Bad | Clear | Other

  // What each step of a run did to u's count.
  ghost function History(s: State, steps: seq<Step>, u: UserId): (h: seq<Event>)
    ensures |h| == |steps|
  {
    if steps == [] then []
    else
      var before, last := Run(s, steps[..|steps| - 1]), steps[|steps| - 1];
      History(s, steps[..|steps| - 1], u)
      + [if ClearedBy(before, last) == Some(u) then Clear else if FailedBy(before, last) == Some(u) then Bad else Other]
  }

  // The number of events up to and including the last clearing one.
  function LastClear(h: seq<Event>): (k: nat)
    ensures k <= |h|
    ensures k > 0 ==> h[k - 1] == Clear
    ensures forall i | k <= i < |h| :: h[i] != Clear
  {
    if h == [] then 0
    else if h[|h| - 1] == Clear then |h|
    else LastClear(h[..|h| - 1])
  }

  ghost function BadSince(h: seq<Event>, k: nat): set<int> {
    set i | k <= i < |h| && h[i] == Bad
  }

  lemma OneMoreEvent(h: seq<Event>, e: Event)
    requires e != Clear
    ensures LastClear(h + [e]) == LastClear(h)
    ensures |BadSince(h + [e], LastClear(h))| == |BadSince(h, LastClear(h))| + if e == Bad then 1 else 0
  {
    assert (h + [e])[..|h|] == h;
    var k := LastClear(h);
    if e == Bad {
      assert BadSince(h + [e], k) == BadSince(h, k) + {|h|};
    } else {
      assert BadSince(h + [e], k) == BadSince(h, k);
    }
  }

  ghost function Tally(h: seq<Event>, start: nat): nat {
    |BadSince(h, LastClear(h))| + if LastClear(h) == 0 then start else 0
  }

  // Conservation: the stored count is the number of bad passwords given, while the
  // account could log in, since its last clearing request.
  lemma {:induction false} CountIsConserved(s: State, steps: seq<Step>, u: UserId)
    requires Inv(s) && u in s.users
    ensures u in Run(s, steps).users
    ensures Run(s, steps).users[u].failures == Tally(History(s, steps, u), s.users[u].failures)
    decreases |steps|
  {
    if steps == [] {
      assert BadSince([], 0) == {};
    } else {
      var front, last := steps[..|steps| - 1], steps[|steps| - 1];
      CountIsConserved(s, front, u);
      RunKeepsInv(s, front);
      CountMoves(Run(s, front), last, u);
      var h, e := History(s, front, u), History(s, steps, u)[|front|];
      assert History(s, steps, u) == h + [e];
      if e == Clear {
        assert BadSince(h + [e], |h| + 1) == {};
      } else {
        OneMoreEvent(h, e);
      }
    }
  }

  // ------------------------------------------------------------ the lockout bound

  ghost predicate Bounded(s: State) {
    forall u | u in s.users ::
      && s.users[u].failures <= MAX_FAILED_LOGINS
      && (s.users[u].failures == MAX_FAILED_LOGINS ==> s.users[u].status == Locked)
  }

  // An accepted status request that takes a full account out of its lock.
  ghost predicate Releases(s: State, step: Step) {
    match step.request
    case SetStatus(u, name) =>
      var actor := Authorize(s, step.credential, step.now, USERS_MANAGE);
      && actor.Ok? && u in s.users && s.users[u].failures == MAX_FAILED_LOGINS
      && ParseStatus(name).Some? && ParseStatus(name).value != Locked
      && StatusRefusal(s, actor.value, u, ParseStatus(name).value).None?
    case _ => false
  }

  lemma StatusKeepsBound(s: State, step: Step)
    requires Inv(s) && Bounded(s) && step.request.SetStatus?
    ensures Bounded(Next(s, step)) <==> !Releases(s, step)
  {
    var t, u := Next(s, step), step.request.target;
    if Releases(s, step) {
      assert t.users[u].failures == MAX_FAILED_LOGINS && t.users[u].status != Locked;
    }
  }

  lemma AdministerKeepsBound(s: State, actor: UserId, now: Time, request: Request)
    requires Inv(s) && Bounded(s) && Permission(request).Some? && !request.SetStatus?
    ensures Bounded(Administer(s, actor, now, request).0)
  {
  }

  lemma LoginKeepsBound(s: State, now: Time, email: string, password: string, admitted: bool)
    requires Inv(s) && Bounded(s)
    ensures Bounded(DoLogin(s, now, email, password, admitted).0)
  {
  }

  // The exact condition: the bound breaks with a release and with nothing else.
  lemma BoundBreaksOnlyByRelease(s: State, step: Step)
    requires Inv(s) && Bounded(s)
    ensures Bounded(Next(s, step)) <==> !Releases(s, step)
  {
    if step.request.SetStatus? {
      StatusKeepsBound(s, step);
    } else if step.request.Login? {
      LoginKeepsBound(s, step.now, step.request.email, step.request.password, step.request.admitted);
    } else if Permission(step.request).Some? {
      var authorized := Authorize(s, step.credential, step.now, Permission(step.request).value);
      if authorized.Ok? {
        AdministerKeepsBound(s, authorized.value, step.now, step.request);
      }
    }
  }

  ghost predicate SparesLocked(s: State, step: Step) {
    step.request.SetStatus? && step.request.target in s.users ==> s.users[step.request.target].status != Locked
  }

  ghost predicate NeverReleases(s: State, steps: seq<Step>) {
    forall i | 0 <= i < |steps| :: SparesLocked(Run(s, steps[..i]), steps[i])
  }

  lemma SparedStatesKeepTheBound(s: State, step: Step)
    requires Inv(s) && Bounded(s) && SparesLocked(s, step)
    ensures Bounded(Next(s, step))
  {
    BoundBreaksOnlyByRelease(s, step);
  }

  lemma NeverReleasesInFront(s: State, steps: seq<Step>)
    requires steps != [] && NeverReleases(s, steps)
    ensures NeverReleases(s, steps[..|steps| - 1])
    ensures SparesLocked(Run(s, steps[..|steps| - 1]), steps[|steps| - 1])
  {
    var front := steps[..|steps| - 1];
    forall i | 0 <= i < |front| ensures SparesLocked(Run(s, front[..i]), front[i]) {
      assert front[..i] == steps[..i];
    }
  }

  // On runs that never apply /status to a locked account, five failures mean locked
  // and no count passes five.
  lemma {:induction false} LockoutHoldsOverRuns(s: State, steps: seq<Step>)
    requires Inv(s) && Bounded(s) && NeverReleases(s, steps)
    ensures Bounded(Run(s, steps))
    decreases |steps|
  {
    if steps != [] {
      var front := steps[..|steps| - 1];
      NeverReleasesInFront(s, steps);
      LockoutHoldsOverRuns(s, front);
      RunKeepsInv(s, front);
      SparedStatesKeepTheBound(Run(s, front), steps[|steps| - 1]);
    }
  }

  // -------------------------------------------------------------- five bad passwords

  // A login for u's email with a wrong password, which the limiter lets through.
  ghost predicate BadLogin(s: State, step: Step, u: UserId)
    requires u in s.users
  {
    && step.request.Login? && step.request.admitted
    && step.request.email == s.users[u].email && step.request.password != s.users[u].password
  }

  lemma OneBadLogin(s: State, step: Step, u: UserId)
    requires Inv(s) && u in s.users && BadLogin(s, step, u) && CanLogIn(s.users[u].status)
    ensures Next(s, step).users == s.users[u := Failed(s.users[u])]
  {
    assert FindByEmail(s, s.users[u].email) == Some(u);
  }

  // From a clear count, four bad passwords in a row leave an account in use as it was
  // but for the count, and the fifth locks it.
  lemma {:induction false} TheFifthBadPasswordLocks(s: State, steps: seq<Step>, u: UserId)
    requires Inv(s) && u in s.users && s.users[u].failures == 0
    requires s.users[u].status in {Active, PasswordChangeRequired} && |steps| <= 5
    requires forall i | 0 <= i < |steps| :: BadLogin(s, steps[i], u)
    ensures Run(s, steps).users ==
              s.users[u := s.users[u].(failures := |steps|,
                                       status := if |steps| == 5 then Locked else s.users[u].status)]
    decreases |steps|
  {
    if steps != [] {
      var front := steps[..|steps| - 1];
      TheFifthBadPasswordLocks(s, front, u);
      RunKeepsInv(s, front);
      OneBadLogin(Run(s, front), steps[|steps| - 1], u);
    }
  }

  const FULL := State(map[1 := Account("r", "p", Active, 0, None), 2 := Account("e", "p", Locked, 5, None)],
                      {(1, SuperAdmin)}, {(SuperAdmin, USERS_MANAGE)}, [])

  // Re-activating a locked account through /status keeps its five failures.
  lemma StatusCanBreakTheBound()
    ensures Inv(FULL) && Bounded(FULL)
    ensures !Bounded(Next(FULL, Step(SetStatus(2, "active"), Signed(1, None, 1), 0)))
  {
    assert HasPermission(FULL, 1, USERS_MANAGE);
    BoundBreaksOnlyByRelease(FULL, Step(SetStatus(2, "active"), Signed(1, None, 1), 0));
  }
}
