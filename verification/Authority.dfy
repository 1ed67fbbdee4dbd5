// Who may do what: every administrative request against the roles and grants of its
// actor, by the permission keys themselves.
module Authority {
  import opened Common
  import opened AccountTypes
  import opened AccountSpec
  import opened SuperAdmins

  predicate Administrative(request: Request) {
    !request.Login? && !request.Register? && !request.ChangePassword?
  }

  // Some role of the user carries the key.
  ghost predicate Holds(s: State, u: UserId, key: string) {
    exists r: Role :: (u, r) in s.roles && (r, key) in s.grants
  }

  // A signed, unexpired token under its account's present password stamp.
  ghost predicate Current(s: State, credential: Credential, now: Time) {
    && credential.Signed? && now < credential.exp * 1_000_000
    && credential.sub in s.users && credential.pwd == s.users[credential.sub].stamp
  }

  // The actor of an administrative request: active, and holding the key it asks for.
  ghost predicate MayAsk(s: State, step: Step) {
    && Current(s, step.credential, step.now)
    && s.users[step.credential.sub].status == Active
    && Holds(s, step.credential.sub, if step.request.SetRoles? then "admin.roles.manage" else "admin.users.manage")
  }

  // The check is exact: a request by anyone else is refused and changes nothing, and one
  // by such an actor is carried out in that actor's name.
  lemma AdministrationIsGranted(s: State, step: Step)
    requires Administrative(step.request)
    ensures MayAsk(s, step) ==> Apply(s, step) == Administer(s, step.credential.sub, step.now, step.request)
    ensures !MayAsk(s, step) ==>
              Apply(s, step) == (s, Refused(if Current(s, step.credential, step.now) then 403 else 401))
  {
    var key := if step.request.SetRoles? then "admin.roles.manage" else "admin.users.manage";
    assert Permission(step.request) == Some(key);
    if step.credential.Signed? {
      assert HasPermission(s, step.credential.sub, key) <==> Holds(s, step.credential.sub, key);
    }
  }

  // Whatever was accepted, or changed anything, had such an actor.
  lemma AcceptedRequestsAreGranted(s: State, step: Step)
    requires Administrative(step.request) && (Apply(s, step).1.Done? || Next(s, step) != s)
    ensures MayAsk(s, step)
  {
    AdministrationIsGranted(s, step);
  }

  lemma AdministeredRoles(s: State, actor: UserId, now: Time, request: Request, u: UserId)
    requires Inv(s) && Permission(request).Some?
    requires ((u, SuperAdmin) in s.roles) != ((u, SuperAdmin) in Administer(s, actor, now, request).0.roles)
    ensures Holds(s, actor, "admin.roles.manage_super_admin")
  {
    assert HasPermission(s, actor, MANAGE_SUPER_ADMIN) <==> Holds(s, actor, "admin.roles.manage_super_admin");
  }

  // The super-admin role changes hands only through an actor who holds the guarded key.
  lemma OnlyManagersMoveTheRole(s: State, step: Step, u: UserId)
    requires Inv(s) && ((u, SuperAdmin) in s.roles) != ((u, SuperAdmin) in Next(s, step).roles)
    ensures Administrative(step.request) && MayAsk(s, step)
    ensures Holds(s, step.credential.sub, "admin.roles.manage_super_admin")
  {
    if Administrative(step.request) {
      AdministrationIsGranted(s, step);
      AdministeredRoles(s, step.credential.sub, step.now, step.request, u);
    }
  }

  // With the guarded key in super_admin alone, only an active super-admin makes another.
  lemma SuperAdminsAreMadeBySuperAdmins(s: State, step: Step, u: UserId)
    requires Inv(s) && OnlySuperAdminManages(s.grants)
    requires (u, SuperAdmin) !in s.roles && (u, SuperAdmin) in Next(s, step).roles
    ensures step.credential.Signed? && step.credential.sub in ActiveSuperAdmins(s)
  {
    OnlyManagersMoveTheRole(s, step, u);
  }

  // So where there is none, no run of requests brings one about.
  lemma {:induction false} NoneComesFromNone(s: State, steps: seq<Step>)
    requires Inv(s) && OnlySuperAdminManages(s.grants) && forall u :: (u, SuperAdmin) !in s.roles
    ensures forall u :: (u, SuperAdmin) !in Run(s, steps).roles
    decreases |steps|
  {
    if steps != [] {
      var before, last := Run(s, steps[..|steps| - 1]), steps[|steps| - 1];
      NoneComesFromNone(s, steps[..|steps| - 1]);
      RunKeepsInv(s, steps[..|steps| - 1]);
      forall u ensures (u, SuperAdmin) !in Next(before, last).roles {
        if (u, SuperAdmin) in Next(before, last).roles {
          SuperAdminsAreMadeBySuperAdmins(before, last, u);
        }
      }
    }
  }

  // ------------------------------------------------------- what a request achieves

  ghost function Named(names: seq<string>): set<Role> {
    set r: Role | Names(names, r)
  }

  predicate AllRoles(names: seq<string>) {
    forall i | 0 <= i < |names| :: names[i] in {"super_admin", "admin", "engineer", "viewer", "guest"}
  }

  lemma ParsedAreNamed(names: seq<string>)
    ensures ParseRoles(names).Ok? <==> AllRoles(names)
    ensures ParseRoles(names).Ok? ==> Elements(ParseRoles(names).value) == Named(names)
  {
    forall r: Role ensures ParseRoles(names).Ok? ==> (r in ParseRoles(names).value <==> Names(names, r)) {
      ParsedRolesAreTheNamedOnes(names, r);
    }
    ParsedRolesAreTheNamedOnes(names, Guest);
  }

  // The names, as a request spells them.
  lemma RolesAreSpelled(names: seq<string>)
    ensures SuperAdmin in Named(names) <==> "super_admin" in names
    ensures Admin in Named(names) <==> "admin" in names
    ensures Engineer in Named(names) <==> "engineer" in names
    ensures Viewer in Named(names) <==> "viewer" in names
    ensures Guest in Named(names) <==> "guest" in names
  {
    forall r: Role ensures r in Named(names) <==> RoleName(r) in names {
      if RoleName(r) in names {
        var i :| 0 <= i < |names| && names[i] == RoleName(r);
        assert ParseRole(names[i]) == Some(r);
      }
    }
  }

  lemma StatusesAreSpelled(name: string, status: Status)
    ensures ParseStatus(name) == Some(status) <==>
              name == match status
                      case PendingApproval => "pending_approval"
                      case Active => "active"
                      case Disabled => "disabled"
                      case Locked => "locked"
                      case Rejected => "rejected"
                      case PasswordChangeRequired => "password_change_required"
  {
  }

  lemma RolesGiven(s: State, t: State, u: UserId, next: seq<Role>, v: UserId)
    requires t.roles == WithRoles(s, u, next)
    ensures RolesOf(t, v) == if v == u then Elements(next) else RolesOf(s, v)
  {
  }

  // An accepted request that names roles gives exactly the named ones, to its target
  // alone; the names are all known.
  lemma RolesAreTheNamedOnes(s: State, step: Step, v: UserId)
    requires step.request.SetRoles? || step.request.Approve? || step.request.CreateUser?
    requires Apply(s, step).1.Done?
    ensures var u := if step.request.CreateUser? then step.request.newId else step.request.target;
            && AllRoles(step.request.roles)
            && RolesOf(Next(s, step), v) == if v == u then Named(step.request.roles) else RolesOf(s, v)
  {
    AcceptedRequestsAreGranted(s, step);
    AdministrationIsGranted(s, step);
    ParsedAreNamed(step.request.roles);
    var u := if step.request.CreateUser? then step.request.newId else step.request.target;
    RolesGiven(s, Next(s, step), u, ParseRoles(step.request.roles).value, v);
  }

  // No other request moves any role.
  lemma OtherRequestsMoveNoRole(s: State, step: Step)
    requires !step.request.SetRoles? && !step.request.Approve? && !step.request.CreateUser?
    ensures Next(s, step).roles == s.roles
  {
  }

  // A role manager with the guarded key can make a super-admin of any account.
  lemma ManagersCanGiveTheRole(s: State, step: Step)
    requires step.request.SetRoles? && MayAsk(s, step) && step.request.target in s.users
    requires Holds(s, step.credential.sub, "admin.roles.manage_super_admin")
    requires AllRoles(step.request.roles) && SuperAdmin in Named(step.request.roles)
    ensures Apply(s, step).1.Done? && (step.request.target, SuperAdmin) in Next(s, step).roles
  {
    AdministrationIsGranted(s, step);
    ParsedAreNamed(step.request.roles);
    assert HasPermission(s, step.credential.sub, MANAGE_SUPER_ADMIN);
    var next := ParseRoles(step.request.roles).value;
    assert SuperAdmin in Elements(next);
    RolesGiven(s, Next(s, step), step.request.target, next, step.request.target);
    assert SuperAdmin in RolesOf(Next(s, step), step.request.target);
  }

  // No administrative request turns on its own actor: the account is not shut and the
  // super-admin role stays.
  lemma ActorsKeepTheirAccount(s: State, step: Step)
    requires Inv(s) && Administrative(step.request) && MayAsk(s, step)
    ensures var t, actor := Next(s, step), step.credential.sub;
            && actor in t.users && t.users[actor].status !in {Disabled, Locked, Rejected}
            && ((actor, SuperAdmin) in s.roles ==> (actor, SuperAdmin) in t.roles)
  {
    AdministrationIsGranted(s, step);
  }

  // A super-admin's password is reset only by a holder of the guarded key.
  lemma ResetsOfSuperAdminsAreGuarded(s: State, step: Step)
    requires step.request.ResetPassword? && (step.request.target, SuperAdmin) in s.roles && Next(s, step) != s
    ensures MayAsk(s, step) && Holds(s, step.credential.sub, "admin.roles.manage_super_admin")
  {
    AdministrationIsGranted(s, step);
    assert HasPermission(s, step.credential.sub, MANAGE_SUPER_ADMIN)
      <==> Holds(s, step.credential.sub, "admin.roles.manage_super_admin");
  }

  // ------------------------------------------------------------ the life of an account

  // The request that takes an account from one status to another.
  predicate Moves(request: Request, from: Status, to: Status) {
    match request
    case SetStatus(_, name) => ParseStatus(name) == Some(to)
    case Approve(_, _) => from == PendingApproval && to == Active
    case Reject(_) => from == PendingApproval && to == Rejected
    case Unlock(_) => from == Locked && to == Active
    case ResetPassword(_, _) => from in {Active, Disabled, Locked} && to == PasswordChangeRequired
    case ChangePassword(_, _) => from == PasswordChangeRequired && to == Active
    case Login(_, _, _) => from in {Active, PasswordChangeRequired} && to == Locked
    case _ => false
  }

  ghost predicate IsTarget(s: State, step: Step, u: UserId) {
    match step.request
    case Login(email, _, _) => u in s.users && s.users[u].email == email
    case ChangePassword(_, _) => step.credential.Signed? && step.credential.sub == u
    case Register(_, _, _, _) => false
    case CreateUser(_, _, _, _) => false
    case SetRoles(_, _) => false
    case Invite(_, _, _) => false
    case _ => step.request.target == u
  }

  lemma AdministeredStatus(s: State, step: Step, actor: UserId, u: UserId)
    requires Inv(s) && Administrative(step.request) && u in s.users
    requires u in Administer(s, actor, step.now, step.request).0.users
    requires Administer(s, actor, step.now, step.request).0.users[u].status != s.users[u].status
    ensures IsTarget(s, step, u)
    ensures Moves(step.request, s.users[u].status, Administer(s, actor, step.now, step.request).0.users[u].status)
  {
  }

  // Every change of a status is one of these, and of the request's target.
  lemma StatusesMoveAsAllowed(s: State, step: Step, u: UserId)
    requires Inv(s) && u in s.users && u in Next(s, step).users
    requires Next(s, step).users[u].status != s.users[u].status
    ensures IsTarget(s, step, u) && Moves(step.request, s.users[u].status, Next(s, step).users[u].status)
  {
    if Administrative(step.request) {
      AdministrationIsGranted(s, step);
      AdministeredStatus(s, step, step.credential.sub, u);
    }
  }

  // Where the actor may ask, an ordinary status request is carried out,
  lemma StatusRequestsSucceed(s: State, step: Step)
    requires step.request.SetStatus? && MayAsk(s, step) && step.request.target in s.users
    requires ParseStatus(step.request.status).Some? && step.request.target != step.credential.sub
    requires (step.request.target, SuperAdmin) !in s.roles
    ensures Apply(s, step).1.Done?
    ensures Next(s, step).users[step.request.target].status == ParseStatus(step.request.status).value
  {
    AdministrationIsGranted(s, step);
  }

  // and so is a request for ordinary roles,
  lemma OrdinaryRolesAreGiven(s: State, step: Step)
    requires step.request.SetRoles? || step.request.Approve? || step.request.CreateUser?
    requires MayAsk(s, step) && AllRoles(step.request.roles) && SuperAdmin !in Named(step.request.roles)
    requires match step.request
             case SetRoles(u, _) => u in s.users && (u, SuperAdmin) !in s.roles
             case Approve(u, roles) =>
               u in s.users && s.users[u].status == PendingApproval && roles != [] && (u, SuperAdmin) !in s.roles
             case CreateUser(u, email, _, roles) =>
               u !in s.users && roles != [] && forall v | v in s.users :: s.users[v].email != email
    ensures Apply(s, step).1.Done?
    ensures step.request.Approve? ==> Next(s, step).users[step.request.target].status == Active
  {
    AdministrationIsGranted(s, step);
    ParsedAreNamed(step.request.roles);
    assert SuperAdmin !in Elements(ParseRoles(step.request.roles).value);
    if !step.request.CreateUser? {
      assert SuperAdmin !in RolesOf(s, step.request.target);
    }
  }

  // and an unlock of a locked account or a rejection of a pending one.
  lemma PlainRequestsSucceed(s: State, step: Step)
    requires Administrative(step.request) && MayAsk(s, step)
    requires step.request.Unlock? || step.request.Reject?
    requires step.request.target in s.users
    requires s.users[step.request.target].status == if step.request.Unlock? then Locked else PendingApproval
    ensures var a, b := s.users[step.request.target], Next(s, step).users[step.request.target];
            && Apply(s, step).1.Done?
            && b == if step.request.Unlock? then a.(status := Active, failures := 0) else a.(status := Rejected)
  {
    AdministrationIsGranted(s, step);
  }

  // An account comes into being by self-registration, pending, without roles and only
  // while sign-up is enabled, or at the hands of a user manager, with a temporary
  // password that has to be changed. Its email was free.
  lemma AccountsAppearAsAllowed(s: State, step: Step, u: UserId)
    requires Inv(s) && u !in s.users && u in Next(s, step).users
    ensures var a := Next(s, step).users[u];
            && (forall v | v in s.users :: s.users[v].email != a.email)
            && ((&& step.request.Register? && step.request.signupEnabled
                 && a == Account(step.request.email, step.request.password, PendingApproval, 0, None)
                 && PasswordAccepted(a.password) && RolesOf(Next(s, step), u) == {})
                || (&& step.request.CreateUser? && MayAsk(s, step)
                    && a == Account(step.request.email, step.request.temporary, PasswordChangeRequired, 0,
                                    Some(step.now))
                    && step.request.roles != [] && RolesOf(Next(s, step), u) == Named(step.request.roles)))
  {
    if Administrative(step.request) {
      AdministrationIsGranted(s, step);
      if step.request.CreateUser? {
        RolesAreTheNamedOnes(s, step, u);
      }
    } else if step.request.Register? {
      forall r: Role ensures r !in RolesOf(Next(s, step), u) {
        assert (u, r) !in s.roles;
      }
    }
  }
}
