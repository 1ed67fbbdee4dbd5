// The account requests behind the login limiter: runs in which the limiter, and not the
// caller, decides which passwords are checked at all.
module LoginLimits {
  import opened Common
  import opened AccountTypes
  import opened AccountSpec
  import opened RateLimiter

  // The stored state, and everything the limiter has been asked.
  datatype Guarded = Guarded(state: State, history: seq<Event>)

  // The request with the limiter's own decision in it.
  function Decided(history: seq<Event>, step: Step): Step {
    match step.request
    case Login(email, password, _) =>
      step.(request := Login(email, password, Admits(Admitted(history, email), step.now)))
    case _ => step
  }

  // Whose limit an accepted request lifts: an unlocked or reset account's.
  ghost function LiftedBy(s: State, step: Step): Option<string> {
    match step.request
    case Unlock(u) => if u in s.users && Apply(s, step).1.Done? then Some(s.users[u].email) else None
    case ResetPassword(u, _) => if u in s.users && Apply(s, step).1.Done? then Some(s.users[u].email) else None
    case _ => None
  }

  ghost function EventsOf(s: State, step: Step): seq<Event> {
    if step.request.Login? then [Attempt(step.request.email, step.now)]
    else if LiftedBy(s, step).Some? then [Reset(LiftedBy(s, step).value)]
    else []
  }

  ghost function NextGuarded(g: Guarded, step: Step): Guarded {
    var decided := Decided(g.history, step);
    Guarded(Next(g.state, decided), g.history + EventsOf(g.state, decided))
  }

  ghost function RunGuarded(g: Guarded, steps: seq<Step>): Guarded {
    if steps == [] then g else NextGuarded(RunGuarded(g, steps[..|steps| - 1]), steps[|steps| - 1])
  }

  // ------------------------------------------------------------- what gets checked

  // The step is a login for the email that the limiter lets through to the password check.
  ghost predicate Checked(g: Guarded, step: Step, email: string) {
    && step.request.Login? && step.request.email == email
    && Admits(Admitted(g.history, email), step.now)
  }

  // A login that is not checked answers 429 and changes nothing, whatever the password.
  lemma UncheckedLoginsDoNothing(g: Guarded, step: Step)
    requires step.request.Login? && !Checked(g, step, step.request.email)
    ensures Apply(g.state, Decided(g.history, step)) == (g.state, Refused(429))
  {
  }

  // After an accepted unlock or reset the next login for that account's email is checked,
  // however many came before.
  lemma LiftingsAdmit(g: Guarded, step: Step, login: Step)
    requires (step.request.Unlock? || step.request.ResetPassword?) && step.request.target in g.state.users
    requires Apply(g.state, step).1.Done?
    requires login.request.Login? && login.request.email == g.state.users[step.request.target].email
    ensures Checked(NextGuarded(g, step), login, login.request.email)
  {
    AdmittedNext(g.history, Reset(login.request.email), login.request.email);
  }

  // The instants at which a password for the email was checked in the run.
  ghost function Checks(g: Guarded, steps: seq<Step>, email: string): seq<int> {
    if steps == [] then []
    else
      var front, last := steps[..|steps| - 1], steps[|steps| - 1];
      Checks(g, front, email) + if Checked(RunGuarded(g, front), last, email) then [last.now] else []
  }

  ghost predicate LiftsAt(g: Guarded, steps: seq<Step>, i: nat, email: string)
    requires i < |steps|
  {
    LiftedBy(RunGuarded(g, steps[..i]).state, steps[i]) == Some(email)
  }

  // No accepted unlock or reset of an account with this email.
  ghost predicate NeverLifted(g: Guarded, steps: seq<Step>, email: string) {
    forall i | 0 <= i < |steps| :: !LiftsAt(g, steps, i, email)
  }

  lemma NeverLiftedInFront(g: Guarded, steps: seq<Step>, email: string)
    requires steps != [] && NeverLifted(g, steps, email)
    ensures NeverLifted(g, steps[..|steps| - 1], email)
    ensures LiftedBy(RunGuarded(g, steps[..|steps| - 1]).state, steps[|steps| - 1]) != Some(email)
  {
    var front := steps[..|steps| - 1];
    assert !LiftsAt(g, steps, |front|, email);
    forall i | 0 <= i < |front| ensures !LiftsAt(g, front, i, email) {
      assert front[..i] == steps[..i] && !LiftsAt(g, steps, i, email);
    }
  }

  lemma OneStepAdmits(g: Guarded, step: Step, email: string)
    requires LiftedBy(g.state, step) != Some(email)
    ensures Admitted(NextGuarded(g, step).history, email)
         == Admitted(g.history, email) + if Checked(g, step, email) then [step.now] else []
  {
    var decided := Decided(g.history, step);
    var events := EventsOf(g.state, decided);
    if events == [] {
      assert g.history + events == g.history;
    } else {
      AdmittedNext(g.history, events[0], email);
      assert events == [events[0]];
    }
  }

  // The checks of a run are the limiter's admissions in it.
  lemma {:induction false} ChecksAreAdmissions(g: Guarded, steps: seq<Step>, email: string)
    requires NeverLifted(g, steps, email)
    ensures Admitted(RunGuarded(g, steps).history, email) == Admitted(g.history, email) + Checks(g, steps, email)
    decreases |steps|
  {
    if steps != [] {
      var front := steps[..|steps| - 1];
      NeverLiftedInFront(g, steps, email);
      ChecksAreAdmissions(g, front, email);
      OneStepAdmits(RunGuarded(g, front), steps[|steps| - 1], email);
    }
  }

  // A clock that never runs backwards, from the limiter's last event on.
  ghost predicate Clocked(g: Guarded, steps: seq<Step>, start: int) {
    && Timed(g.history, start)
    && (forall i | 0 <= i < |steps| :: start <= steps[i].now)
    && (forall i, j | 0 <= i < j < |steps| :: steps[i].now <= steps[j].now)
  }

  lemma {:induction false} RunsAreTimed(g: Guarded, steps: seq<Step>, start: int)
    requires Clocked(g, steps, start)
    ensures Timed(RunGuarded(g, steps).history, if steps == [] then start else steps[|steps| - 1].now)
    decreases |steps|
  {
    if steps != [] {
      RunsAreTimed(g, steps[..|steps| - 1], start);
    }
  }

  lemma SpacedInTheTail(before: seq<int>, checks: seq<int>, history: seq<Event>, email: string, now: int, i: nat)
    requires Timed(history, now) && Admitted(history, email) == before + checks && i + 5 < |checks|
    ensures checks[i + 5] - checks[i] >= 300 * 1_000_000
  {
    AtMostFiveInAnyWindow(history, email, now, |before| + i);
    assert (before + checks)[|before| + i] == checks[i];
    assert (before + checks)[|before| + i + 5] == checks[i + 5];
  }

  // What the limiter is for, over runs of every request: between two liftings of its
  // limit, at most five passwords for an email are checked in any 300 seconds.
  lemma AtMostFiveChecksInAnyWindow(g: Guarded, steps: seq<Step>, email: string, start: int, i: nat)
    requires Clocked(g, steps, start) && NeverLifted(g, steps, email)
    requires i + 5 < |Checks(g, steps, email)|
    ensures Checks(g, steps, email)[i + 5] - Checks(g, steps, email)[i] >= 300 * 1_000_000
  {
    var before, checks := Admitted(g.history, email), Checks(g, steps, email);
    var after := RunGuarded(g, steps).history;
    ChecksAreAdmissions(g, steps, email);
    RunsAreTimed(g, steps, start);
    SpacedInTheTail(before, checks, after, email, if steps == [] then start else steps[|steps| - 1].now, i);
  }

  // ------------------------------------------- guarded runs are runs of the requests

  // The steps of a guarded run, with the limiter's decisions in them.
  ghost function DecidedSteps(g: Guarded, steps: seq<Step>): (decided: seq<Step>)
    ensures |decided| == |steps|
  {
    if steps == [] then []
    else
      var front := steps[..|steps| - 1];
      DecidedSteps(g, front) + [Decided(RunGuarded(g, front).history, steps[|steps| - 1])]
  }

  // So every theorem over runs of requests holds behind the limiter.
  lemma {:induction false} GuardedRunsAreRuns(g: Guarded, steps: seq<Step>)
    ensures RunGuarded(g, steps).state == Run(g.state, DecidedSteps(g, steps))
    decreases |steps|
  {
    if steps != [] {
      var front := steps[..|steps| - 1];
      GuardedRunsAreRuns(g, front);
      assert DecidedSteps(g, steps)[..|steps| - 1] == DecidedSteps(g, front);
    }
  }
}
