// Which requests can leave the system without a super-admin.
module SuperAdmins {
  import opened Common
  import opened AccountTypes
  import opened AccountSpec

  // The grants after a registry sync: no other role may hand the role around.
  ghost predicate OnlySuperAdminManages(grants: set<(Role, string)>) {
    forall r: Role | (r, MANAGE_SUPER_ADMIN) in grants :: r == SuperAdmin
  }

  // The accepted requests that take the last active super-admin away: a password
  // reset, a fifth bad password, or a role change by an actor who is not one.
  ghost predicate Demotes(s: State, step: Step) {
    match step.request
    case ResetPassword(u, _) =>
      var actor := Authorize(s, step.credential, step.now, USERS_MANAGE);
      actor.Ok? && ResetRefusal(s, actor.value, u).None? && ActiveSuperAdmins(s) == {u}
    case Login(email, password, admitted) =>
      var found := FindByEmail(s, email);
      && admitted && found.Some?
      && password != s.users[found.value].password
      && s.users[found.value].failures + 1 >= MAX_FAILED_LOGINS
      && ActiveSuperAdmins(s) == {found.value}
    case SetRoles(u, names) =>
      var actor, next := Authorize(s, step.credential, step.now, ROLES_MANAGE), ParseRoles(names);
      && actor.Ok? && next.Ok? && u in s.users
      && RolesRefusal(s, actor.value, u, next.value).None?
      && RemovesSuperAdmin(s, u, next.value)
      && ActiveSuperAdmins(s) == {u}
    case _ => false
  }

  lemma UnchangedKeepsOne(s: State, t: State, u: UserId)
    requires u in ActiveSuperAdmins(s) && u in t.users
    requires t.users[u].status == Active && (u, SuperAdmin) in t.roles
    ensures ActiveSuperAdmins(t) != {}
  {
    assert u in ActiveSuperAdmins(t);
  }

  lemma SetRolesLoses(s: State, actor: UserId, u: UserId, names: seq<string>)
    requires Inv(s) && ActiveSuperAdmins(s) != {}
    ensures ActiveSuperAdmins(DoSetRoles(s, actor, u, names).0) == {} <==>
              && u in s.users && ParseRoles(names).Ok?
              && RolesRefusal(s, actor, u, ParseRoles(names).value).None?
              && RemovesSuperAdmin(s, u, ParseRoles(names).value)
              && ActiveSuperAdmins(s) == {u}
  {
    var t := DoSetRoles(s, actor, u, names).0;
    if t != s {
      var next := ParseRoles(names).value;
      assert forall r: Role :: (u, r) in t.roles <==> r in next;
      assert forall v, r: Role | v != u :: (v, r) in t.roles <==> (v, r) in s.roles;
      assert forall v | v != u :: v in ActiveSuperAdmins(t) <==> v in ActiveSuperAdmins(s);
      if ActiveSuperAdmins(s) != {u} {
        var v :| v in ActiveSuperAdmins(s) && v != u;
        assert v in ActiveSuperAdmins(t);
      } else {
        assert u in ActiveSuperAdmins(s);
        assert u in ActiveSuperAdmins(t) <==> SuperAdmin in next;
      }
    }
  }

  lemma StatusKeepsOne(s: State, actor: UserId, u: UserId, name: string)
    requires Inv(s) && ActiveSuperAdmins(s) != {}
    ensures ActiveSuperAdmins(DoSetStatus(s, actor, u, name).0) != {}
  {
    var t := DoSetStatus(s, actor, u, name).0;
    if t != s {
      if t.users[u].status == Active || !HasRole(s, u, SuperAdmin) {
        var v :| v in ActiveSuperAdmins(s);
        UnchangedKeepsOne(s, t, v);
      } else {
        var v :| v in ActiveSuperAdmins(s) - {u};
        UnchangedKeepsOne(s, t, v);
      }
    }
  }

  lemma AdministerKeepsOne(s: State, actor: UserId, now: Time, request: Request)
    requires Inv(s) && ActiveSuperAdmins(s) != {} && Permission(request).Some?
    requires !request.SetRoles? && !request.ResetPassword?
    ensures ActiveSuperAdmins(Administer(s, actor, now, request).0) != {}
  {
    var t := Administer(s, actor, now, request).0;
    var v :| v in ActiveSuperAdmins(s);
    match request
    case SetStatus(u, name) => StatusKeepsOne(s, actor, u, name);
    case _ => UnchangedKeepsOne(s, t, v);
  }

  lemma ResetLoses(s: State, actor: UserId, now: Time, u: UserId, temporary: string)
    requires Inv(s) && ActiveSuperAdmins(s) != {}
    ensures ActiveSuperAdmins(DoResetPassword(s, actor, now, u, temporary).0) == {} <==>
              ResetRefusal(s, actor, u).None? && ActiveSuperAdmins(s) == {u}
  {
    var t := DoResetPassword(s, actor, now, u, temporary).0;
    if t != s {
      assert ActiveSuperAdmins(t) == ActiveSuperAdmins(s) - {u};
    }
  }

  lemma LoginLoses(s: State, step: Step)
    requires Inv(s) && ActiveSuperAdmins(s) != {} && step.request.Login?
    ensures ActiveSuperAdmins(Next(s, step)) == {} <==> Demotes(s, step)
  {
    var t := Next(s, step);
    var found := FindByEmail(s, step.request.email);
    if found.Some? {
      var u := found.value;
      if t.users[u].status == s.users[u].status {
        assert ActiveSuperAdmins(t) == ActiveSuperAdmins(s);
      } else {
        assert ActiveSuperAdmins(t) == ActiveSuperAdmins(s) - {u};
      }
    } else {
      assert ActiveSuperAdmins(t) == ActiveSuperAdmins(s);
    }
  }

  // The exact condition, for every request in every state with an active super-admin.
  lemma LosesExactlyWhenDemoted(s: State, step: Step)
    requires Inv(s) && ActiveSuperAdmins(s) != {}
    ensures ActiveSuperAdmins(Next(s, step)) == {} <==> Demotes(s, step)
  {
    var v :| v in ActiveSuperAdmins(s);
    var t := Next(s, step);
    if step.request.Login? {
      LoginLoses(s, step);
    } else if Permission(step.request).None? {
      UnchangedKeepsOne(s, t, v);
    } else {
      var authorized := Authorize(s, step.credential, step.now, Permission(step.request).value);
      if authorized.Ok? {
        if step.request.SetRoles? {
          SetRolesLoses(s, authorized.value, step.request.target, step.request.roles);
        } else if step.request.ResetPassword? {
          ResetLoses(s, authorized.value, step.now, step.request.target, step.request.temporary);
        } else {
          AdministerKeepsOne(s, authorized.value, step.now, step.request);
        }
      }
    }
  }

  lemma ManagersAreActiveSuperAdmins(s: State, credential: Credential, now: Time, key: string)
    requires OnlySuperAdminManages(s.grants)
    requires Authorize(s, credential, now, key).Ok?
    requires HasPermission(s, Authorize(s, credential, now, key).value, MANAGE_SUPER_ADMIN)
    ensures Authorize(s, credential, now, key).value in ActiveSuperAdmins(s)
  {
  }

  // Once only super-admins may hand the role around, the actor of a removal is an
  // active super-admin other than its target, so a role change never demotes.
  lemma SyncedRoleChangesNeverDemote(s: State, step: Step)
    requires OnlySuperAdminManages(s.grants) && step.request.SetRoles?
    ensures !Demotes(s, step)
  {
    if Demotes(s, step) {
      ManagersAreActiveSuperAdmins(s, step.credential, step.now, ROLES_MANAGE);
    }
  }

  // Every request except a reset and a bad-password login.
  predicate Protected(request: Request) {
    !request.ResetPassword? && !request.Login?
  }

  ghost predicate Undemoted(s: State, steps: seq<Step>) {
    forall i | 0 <= i < |steps| && !Protected(steps[i].request) :: !Demotes(Run(s, steps[..i]), steps[i])
  }

  lemma {:induction false} ActiveSuperAdminSurvives(s: State, steps: seq<Step>)
    requires Inv(s) && OnlySuperAdminManages(s.grants) && ActiveSuperAdmins(s) != {}
    requires Undemoted(s, steps)
    ensures ActiveSuperAdmins(Run(s, steps)) != {}
    decreases |steps|
  {
    if steps != [] {
      var front, last := steps[..|steps| - 1], steps[|steps| - 1];
      assert forall i | 0 <= i < |front| :: front[i] == steps[i] && front[..i] == steps[..i];
      ActiveSuperAdminSurvives(s, front);
      RunKeepsInv(s, front);
      if last.request.SetRoles? {
        SyncedRoleChangesNeverDemote(Run(s, front), last);
      }
      LosesExactlyWhenDemoted(Run(s, front), last);
    }
  }

  // The step set of the guards: no reset, and logins with the right password only.
  lemma GuardedRunsKeepAnActiveSuperAdmin(s: State, steps: seq<Step>)
    requires Inv(s) && OnlySuperAdminManages(s.grants) && ActiveSuperAdmins(s) != {}
    requires forall i | 0 <= i < |steps| ::
               || Protected(steps[i].request)
               || (steps[i].request.Login? && Apply(Run(s, steps[..i]), steps[i]).1.Issued?)
    ensures ActiveSuperAdmins(Run(s, steps)) != {}
  {
    forall i | 0 <= i < |steps| && !Protected(steps[i].request)
      ensures !Demotes(Run(s, steps[..i]), steps[i])
    {
      assert Apply(Run(s, steps[..i]), steps[i]).1.Issued?;
    }
    ActiveSuperAdminSurvives(s, steps);
  }

  // One super-admin who has mistyped the password four times.
  const ALONE := State(map[1 := Account("r", "p", Active, 4, None)], {(1, SuperAdmin)},
                       {(SuperAdmin, USERS_MANAGE), (SuperAdmin, MANAGE_SUPER_ADMIN)}, [])

  lemma AloneIsTheOnlyOne()
    ensures Inv(ALONE) && ActiveSuperAdmins(ALONE) == {1} && OnlySuperAdminManages(ALONE.grants)
    ensures FindByEmail(ALONE, "r") == Some(1)
  {
    assert 1 in ActiveSuperAdmins(ALONE);
    assert ALONE.users[1].email == "r";
  }

  // The property fails beyond that set: the only super-admin can reset the own
  // password, and anyone's fifth bad password locks the account.
  lemma AResetCanLoseTheLastOne()
    ensures ActiveSuperAdmins(Next(ALONE, Step(ResetPassword(1, "t"), Signed(1, None, 1), 0))) == {}
  {
    AloneIsTheOnlyOne();
    assert HasPermission(ALONE, 1, USERS_MANAGE) && HasPermission(ALONE, 1, MANAGE_SUPER_ADMIN);
    LosesExactlyWhenDemoted(ALONE, Step(ResetPassword(1, "t"), Signed(1, None, 1), 0));
  }

  lemma ABadPasswordCanLoseTheLastOne()
    ensures ActiveSuperAdmins(Next(ALONE, Step(Login("r", "q", true), Undecodable, 0))) == {}
  {
    AloneIsTheOnlyOne();
    LosesExactlyWhenDemoted(ALONE, Step(Login("r", "q", true), Undecodable, 0));
  }

  lemma NewRolesKeepASuperAdminRow(s: State, u: UserId, next: seq<Role>)
    requires Holders(s.roles, SuperAdmin) != {}
    requires RemovesSuperAdmin(s, u, next) ==> Holders(s.roles, SuperAdmin) - {u} != {}
    ensures Holders(WithRoles(s, u, next), SuperAdmin) != {}
  {
    var holders := Holders(s.roles, SuperAdmin);
    var left := if RemovesSuperAdmin(s, u, next) then holders - {u} else holders;
    var v :| v in left;
    assert (v, SuperAdmin) in s.roles;
    assert (v, SuperAdmin) in WithRoles(s, u, next);
  }

  // Assignments, active or not: no request at all removes the last super-admin row.
  lemma RequestsKeepASuperAdminRow(s: State, step: Step)
    requires Inv(s) && Holders(s.roles, SuperAdmin) != {}
    ensures Holders(Next(s, step).roles, SuperAdmin) != {}
  {
    var t := Next(s, step);
    if t.roles != s.roles {
      match step.request
      case SetRoles(u, names) => NewRolesKeepASuperAdminRow(s, u, ParseRoles(names).value);
      case Approve(u, names) => NewRolesKeepASuperAdminRow(s, u, ParseRoles(names).value);
      case CreateUser(u, _, _, names) => NewRolesKeepASuperAdminRow(s, u, ParseRoles(names).value);
      case _ =>
    }
  }

  lemma {:induction false} RunsKeepASuperAdminRow(s: State, steps: seq<Step>)
    requires Inv(s) && Holders(s.roles, SuperAdmin) != {}
    ensures Holders(Run(s, steps).roles, SuperAdmin) != {}
    decreases |steps|
  {
    if steps != [] {
      RunKeepsInv(s, steps[..|steps| - 1]);
      RunsKeepASuperAdminRow(s, steps[..|steps| - 1]);
      RequestsKeepASuperAdminRow(Run(s, steps[..|steps| - 1]), steps[|steps| - 1]);
    }
  }
}
