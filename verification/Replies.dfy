// How administrative requests are answered: one reply for each, by the first thing that
// stands in its way.
module Replies {
  import opened Common
  import opened AccountTypes
  import opened AccountSpec
  import opened Authority

  predicate Targeted(request: Request) {
    request.SetStatus? || request.SetRoles? || request.Approve? || request.Unlock?
    || request.ResetPassword? || request.Reject?
  }

  ghost predicate SuperAdminElsewhere(s: State, u: UserId) {
    exists v :: v != u && (v, SuperAdmin) in s.roles
  }

  ghost predicate ActiveSuperAdminElsewhere(s: State, u: UserId) {
    exists v :: v != u && v in s.users && s.users[v].status == Active && (v, SuperAdmin) in s.roles
  }

  // The request is not fit for its target, or names something unknown.
  ghost predicate Unfit(s: State, request: Request)
    requires Targeted(request) ==> request.target in s.users
  {
    match request
    case SetStatus(_, name) =>
      name !in {"pending_approval", "active", "disabled", "locked", "rejected", "password_change_required"}
    case SetRoles(_, names) => !AllRoles(names)
    case Approve(u, names) => s.users[u].status != PendingApproval || names == [] || !AllRoles(names)
    case CreateUser(_, _, _, names) => names == [] || !AllRoles(names)
    case Unlock(u) => s.users[u].status != Locked
    case ResetPassword(u, _) => s.users[u].status in {Rejected, PendingApproval}
    case Reject(u) => s.users[u].status != PendingApproval
    case _ => false
  }

  // The request gives or takes the super-admin role, or resets a super-admin.
  ghost predicate TouchesSuperAdmin(s: State, request: Request) {
    match request
    case SetRoles(u, names) => ((u, SuperAdmin) in s.roles) != ("super_admin" in names)
    case Approve(u, names) => ((u, SuperAdmin) in s.roles) != ("super_admin" in names)
    case CreateUser(_, _, _, names) => "super_admin" in names
    case ResetPassword(u, _) => (u, SuperAdmin) in s.roles
    case _ => false
  }

  // The request would shut its own actor out, or leave no super-admin.
  ghost predicate SelfInflicted(s: State, actor: UserId, request: Request) {
    match request
    case SetStatus(u, name) =>
      || (actor == u && name in {"disabled", "locked", "rejected"})
      || ((u, SuperAdmin) in s.roles && name != "active" && !ActiveSuperAdminElsewhere(s, u))
    case SetRoles(u, names) =>
      (u, SuperAdmin) in s.roles && "super_admin" !in names && (actor == u || !SuperAdminElsewhere(s, u))
    case Approve(u, names) => (u, SuperAdmin) in s.roles && "super_admin" !in names && !SuperAdminElsewhere(s, u)
    case _ => false
  }

  ghost predicate EmailTaken(s: State, request: Request) {
    request.CreateUser? && exists u :: u in s.users && s.users[u].email == request.email
  }

  ghost predicate Forbidden(s: State, actor: UserId, request: Request) {
    TouchesSuperAdmin(s, request) && !Holds(s, actor, "admin.roles.manage_super_admin")
  }

  // The reply to a user or role manager.
  ghost function Answer(s: State, actor: UserId, request: Request): Reply {
    if Targeted(request) && request.target !in s.users then Refused(404)
    else if EmailTaken(s, request) then Refused(409)
    else if request.ResetPassword? && Forbidden(s, actor, request) then Refused(403)
    else if Unfit(s, request) then Refused(400)
    else if Forbidden(s, actor, request) then Refused(403)
    else if SelfInflicted(s, actor, request) then Refused(409)
    else if request.CreateUser? && request.newId in s.users then Refused(500)
    else Done
  }

  lemma SuperAdminIsSpelled(names: seq<string>)
    requires AllRoles(names)
    ensures ParseRoles(names).Ok? && (SuperAdmin in Elements(ParseRoles(names).value) <==> "super_admin" in names)
  {
    ParsedAreNamed(names);
    RolesAreSpelled(names);
  }

  lemma OthersHold(s: State, u: UserId)
    ensures Holders(s.roles, SuperAdmin) - {u} == {} <==> !SuperAdminElsewhere(s, u)
    ensures ActiveSuperAdmins(s) - {u} == {} <==> !ActiveSuperAdminElsewhere(s, u)
  {
    if v :| v != u && (v, SuperAdmin) in s.roles {
      assert v in Holders(s.roles, SuperAdmin) - {u};
    }
    if v :| v in Holders(s.roles, SuperAdmin) - {u} {
      assert (v, SuperAdmin) in s.roles;
    }
    if v :| v != u && v in s.users && s.users[v].status == Active && (v, SuperAdmin) in s.roles {
      assert v in ActiveSuperAdmins(s) - {u};
    }
    if v :| v in ActiveSuperAdmins(s) - {u} {
      assert v != u;
    }
  }

  lemma RoleRequestsAreAnswered(s: State, actor: UserId, now: Time, request: Request)
    requires request.SetRoles? || request.Approve? || request.CreateUser?
    ensures Administer(s, actor, now, request).1 == Answer(s, actor, request)
  {
    var guard := "admin.roles.manage_super_admin";
    assert HasPermission(s, actor, MANAGE_SUPER_ADMIN) <==> Holds(s, actor, guard);
    ParsedAreNamed(request.roles);
    if AllRoles(request.roles) {
      SuperAdminIsSpelled(request.roles);
    }
    if !request.CreateUser? {
      OthersHold(s, request.target);
      assert SuperAdmin in RolesOf(s, request.target) <==> (request.target, SuperAdmin) in s.roles;
    }
  }

  lemma OtherRequestsAreAnswered(s: State, actor: UserId, now: Time, request: Request)
    requires Administrative(request) && !request.SetRoles? && !request.Approve? && !request.CreateUser?
    ensures Administer(s, actor, now, request).1 == Answer(s, actor, request)
  {
    var guard := "admin.roles.manage_super_admin";
    assert HasPermission(s, actor, MANAGE_SUPER_ADMIN) <==> Holds(s, actor, guard);
    if request.SetStatus? {
      OthersHold(s, request.target);
    }
  }

  // Every administrative request is answered by the first thing that stands in its way,
  // and Done if nothing does.
  lemma AdministrationIsAnswered(s: State, step: Step)
    requires Administrative(step.request)
    ensures Apply(s, step).1 ==
              if !Current(s, step.credential, step.now) then Refused(401)
              else if !MayAsk(s, step) then Refused(403)
              else Answer(s, step.credential.sub, step.request)
  {
    AdministrationIsGranted(s, step);
    if MayAsk(s, step) {
      if step.request.SetRoles? || step.request.Approve? || step.request.CreateUser? {
        RoleRequestsAreAnswered(s, step.credential.sub, step.now, step.request);
      } else {
        OtherRequestsAreAnswered(s, step.credential.sub, step.now, step.request);
      }
    }
  }

}
