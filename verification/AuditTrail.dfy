// What the audit rows of a request say: who asked, about whom, and what changed.
module AuditTrail {
  import opened Common
  import opened AuditMetadata
  import opened AccountTypes
  import opened AccountSpec
  import opened AuditReplay
  import opened Authority
  import opened Ordering

  // The rows a request appends.
  ghost function Appended(s: State, step: Step): seq<AuditRow>
    requires Inv(s)
  {
    NextKeepsInv(s, step);
    Next(s, step).audit[|s.audit|..]
  }

  // ------------------------------------------------------------- who asked, about whom

  ghost predicate By(row: AuditRow, actor: Option<UserId>, u: Option<UserId>) {
    row.actor == actor && row.entity == UserEntity && row.entityId == u
  }

  lemma RolesAreBy(actor: UserId, action: Action, u: UserId, roles: seq<Role>)
    ensures forall row | row in RoleRows(actor, action, u, roles) :: By(row, Some(actor), Some(u))
  {
  }

  lemma RoleChangesAreBy(s: State, actor: UserId, u: UserId, names: seq<string>, rows: seq<AuditRow>)
    requires rows == DoSetRoles(s, actor, u, names).0.audit[|s.audit|..]
    ensures forall row | row in rows :: By(row, Some(actor), Some(u))
  {
    var t := DoSetRoles(s, actor, u, names).0;
    if t != s {
      var next, previous := Elements(ParseRoles(names).value), RolesOf(s, u);
      RolesAreBy(actor, RoleAssignment, u, SortedRoles(next - previous));
      RolesAreBy(actor, RoleRemoval, u, SortedRoles(previous - next));
      assert rows == RoleRows(actor, RoleAssignment, u, SortedRoles(next - previous))
                     + RoleRows(actor, RoleRemoval, u, SortedRoles(previous - next));
    }
  }

  lemma ApprovalsAreBy(s: State, actor: UserId, u: UserId, names: seq<string>, rows: seq<AuditRow>)
    requires rows == DoApprove(s, actor, u, names).0.audit[|s.audit|..]
    ensures forall row | row in rows :: By(row, Some(actor), Some(u))
  {
    var t := DoApprove(s, actor, u, names).0;
    if t != s {
      var next := ParseRoles(names).value;
      RolesAreBy(actor, RoleAssignment, u, Fresh(next, RolesOf(s, u)));
      assert rows == RoleRows(actor, RoleAssignment, u, Fresh(next, RolesOf(s, u)))
                     + [UserRow(Some(actor), Approval, Some(u), map["roles" := RoleNames(next)])];
    }
  }

  lemma CreationsAreBy(s: State, actor: UserId, now: Time, request: Request, rows: seq<AuditRow>)
    requires request.CreateUser? && rows == Administer(s, actor, now, request).0.audit[|s.audit|..]
    ensures forall row | row in rows :: By(row, Some(actor), Some(request.newId))
  {
    var t, u := Administer(s, actor, now, request).0, request.newId;
    if t != s {
      var next := ParseRoles(request.roles).value;
      RolesAreBy(actor, RoleAssignment, u, next);
      assert rows == [UserRow(Some(actor), AdminUserCreation, Some(u),
                              map["email" := Text(request.email), "roles" := RoleNames(next)])]
                     + RoleRows(actor, RoleAssignment, u, next);
    }
  }

  lemma AdministeredRowsAreBy(s: State, actor: UserId, now: Time, request: Request, rows: seq<AuditRow>)
    requires Inv(s) && Permission(request).Some? && !request.Invite?
    requires Administer(s, actor, now, request).0.audit == s.audit + rows
    ensures var u := if request.CreateUser? then request.newId else request.target;
            forall row | row in rows :: By(row, Some(actor), Some(u))
  {
    var u := if request.CreateUser? then request.newId else request.target;
    assert rows == Administer(s, actor, now, request).0.audit[|s.audit|..];
    if request.SetRoles? {
      RoleChangesAreBy(s, actor, u, request.roles, rows);
    } else if request.Approve? {
      ApprovalsAreBy(s, actor, u, request.roles, rows);
    } else if request.CreateUser? {
      CreationsAreBy(s, actor, now, request, rows);
    }
  }

  // Every row of an administrative request names its actor and its target.
  lemma AdministrationIsAttributed(s: State, step: Step)
    requires Inv(s) && Administrative(step.request) && !step.request.Invite?
    ensures Appended(s, step) != [] ==> step.credential.Signed?
    ensures var u := if step.request.CreateUser? then step.request.newId else step.request.target;
            forall row | row in Appended(s, step) :: By(row, Some(step.credential.sub), Some(u))
  {
    NextKeepsInv(s, step);
    AdministrationIsGranted(s, step);
    if MayAsk(s, step) {
      assert Next(s, step).audit == s.audit + Appended(s, step);
      AdministeredRowsAreBy(s, step.credential.sub, step.now, step.request, Appended(s, step));
    }
  }

  predicate Bad(row: AuditRow) {
    row.action == LoginFailure && Field(row.metadata, "reason") == Text("invalid_credentials")
  }

  lemma LoginRowsAreAttributed(s: State, now: Time, email: string, password: string, admitted: bool)
    requires Inv(s)
    ensures var rows, found := DoLogin(s, now, email, password, admitted).0.audit[|s.audit|..], FindByEmail(s, email);
            forall row | row in rows ::
              && By(row, if Bad(row) then None else found, found)
              && row.action in {LoginFailure, AccountLocked, LoginSuccess}
  {
    var found := FindByEmail(s, email);
    ReasonRowReads(None, LoginFailure, found, "invalid_credentials");
    if found.Some? {
      FieldSurvives(map["reason" := Text("inactive_account"),
                        "status" := EnumMember(StatusName(s.users[found.value].status))], "reason");
    }
  }

  // So does every row of a password change and of a registration, and every one of a
  // login but the failure row for bad credentials, which names nobody as its actor.
  lemma OwnRequestsAreAttributed(s: State, step: Step)
    requires Inv(s) && !Administrative(step.request)
    ensures step.request.ChangePassword? ==>
              forall row | row in Appended(s, step) ::
                step.credential.Signed? && By(row, Some(step.credential.sub), Some(step.credential.sub))
    ensures step.request.Register? ==>
              forall row | row in Appended(s, step) :: By(row, Some(step.request.newId), Some(step.request.newId))
    ensures step.request.Login? ==>
              var found := FindByEmail(s, step.request.email);
              forall row | row in Appended(s, step) ::
                && By(row, if Bad(row) then None else found, found)
                && row.action in {LoginFailure, AccountLocked, LoginSuccess}
  {
    NextKeepsInv(s, step);
    if step.request.Login? {
      LoginRowsAreAttributed(s, step.now, step.request.email, step.request.password, step.request.admitted);
    }
  }

  // ------------------------------------------------------------------ what changed

  lemma RoleRowsHold(actor: UserId, action: Action, u: UserId, roles: seq<Role>, r: Role)
    ensures RoleRow(actor, action, u, r) in RoleRows(actor, action, u, roles) <==> r in roles
  {
    var rows := RoleRows(actor, action, u, roles);
    if r in roles {
      var i :| 0 <= i < |roles| && roles[i] == r;
      assert rows[i] == RoleRow(actor, action, u, r);
    }
    if RoleRow(actor, action, u, r) in rows {
      var i :| 0 <= i < |rows| && rows[i] == RoleRow(actor, action, u, r);
      RoleRowReads(actor, action, u, r);
      RoleRowReads(actor, action, u, roles[i]);
      assert r in {roles[i]};
    }
  }

  ghost predicate InNameOrder(roles: seq<Role>) {
    forall i, j | 0 <= i < j < |roles| :: TextLess(RoleName(roles[i]), RoleName(roles[j]))
  }

  lemma {:induction false} FilterKeepsOrder(roles: seq<Role>, keep: set<Role>)
    requires InNameOrder(roles)
    ensures InNameOrder(Filter(roles, keep))
    decreases |roles|
  {
    if roles != [] {
      var front, last := roles[..|roles| - 1], roles[|roles| - 1];
      FilterKeepsOrder(front, keep);
      FilterKeeps(front, keep);
      forall i | 0 <= i < |Filter(front, keep)| ensures TextLess(RoleName(Filter(front, keep)[i]), RoleName(last)) {
        var r := Filter(front, keep)[i];
        assert r in front;
      }
    }
  }

  // The rows of a role change come in the order of the roles' names.
  lemma SortedRolesAreInNameOrder(roles: set<Role>)
    ensures InNameOrder(SortedRoles(roles))
  {
    var initials := ['a', 'e', 'g', 's', 'v'];
    assert forall i | 0 <= i < 5 :: RoleName(ROLES_BY_NAME[i])[0] == initials[i];
    assert forall i, j | 0 <= i < j < 5 :: initials[i] < initials[j];
    FilterKeepsOrder(ROLES_BY_NAME, roles);
  }

  lemma ExchangeRowsHold(actor: UserId, u: UserId, gained: seq<Role>, lost: seq<Role>, r: Role)
    ensures var rows := RoleRows(actor, RoleAssignment, u, gained) + RoleRows(actor, RoleRemoval, u, lost);
            && (RoleRow(actor, RoleAssignment, u, r) in rows <==> r in gained)
            && (RoleRow(actor, RoleRemoval, u, r) in rows <==> r in lost)
  {
    RoleRowsHold(actor, RoleAssignment, u, gained, r);
    RoleRowsHold(actor, RoleRemoval, u, lost, r);
    assert forall row | row in RoleRows(actor, RoleAssignment, u, gained) :: row.action == RoleAssignment;
    assert forall row | row in RoleRows(actor, RoleRemoval, u, lost) :: row.action == RoleRemoval;
  }

  // A role change logs an assignment for every role gained, a removal for every role
  // lost, and nothing for the rest.
  lemma RoleChangesAreLogged(s: State, step: Step, r: Role)
    requires Inv(s) && step.request.SetRoles? && Apply(s, step).1.Done?
    ensures var actor, u := step.credential.sub, step.request.target;
            var before, after := RolesOf(s, u), RolesOf(Next(s, step), u);
            && (RoleRow(actor, RoleAssignment, u, r) in Appended(s, step) <==> r in after && r !in before)
            && (RoleRow(actor, RoleRemoval, u, r) in Appended(s, step) <==> r in before && r !in after)
  {
    AcceptedRequestsAreGranted(s, step);
    AdministrationIsGranted(s, step);
    NextKeepsInv(s, step);
    var actor, u, next := step.credential.sub, step.request.target, ParseRoles(step.request.roles).value;
    var before := RolesOf(s, u);
    RolesGiven(s, Next(s, step), u, next, u);
    var gained, lost := SortedRoles(Elements(next) - before), SortedRoles(before - Elements(next));
    SortedRolesAreTheSet(Elements(next) - before);
    SortedRolesAreTheSet(before - Elements(next));
    ExchangeRowsHold(actor, u, gained, lost, r);
    assert Appended(s, step) == RoleRows(actor, RoleAssignment, u, gained) + RoleRows(actor, RoleRemoval, u, lost);
    assert (r in gained <==> r in Elements(gained)) && (r in lost <==> r in Elements(lost));
  }

  // An approval logs an assignment for every role gained.
  lemma ApprovedRolesAreLogged(s: State, step: Step, r: Role)
    requires Inv(s) && step.request.Approve? && Apply(s, step).1.Done?
    ensures var actor, u := step.credential.sub, step.request.target;
            (RoleRow(actor, RoleAssignment, u, r) in Appended(s, step)) <==>
              (r in RolesOf(Next(s, step), u) && r !in RolesOf(s, u))
  {
    AcceptedRequestsAreGranted(s, step);
    AdministrationIsGranted(s, step);
    NextKeepsInv(s, step);
    var actor, u, next := step.credential.sub, step.request.target, ParseRoles(step.request.roles).value;
    RolesGiven(s, Next(s, step), u, next, u);
    var gained := Fresh(next, RolesOf(s, u));
    var row := UserRow(Some(actor), Approval, Some(u), map["roles" := RoleNames(next)]);
    assert Appended(s, step) == RoleRows(actor, RoleAssignment, u, gained) + [row];
    FilterKeeps(next, ALL_ROLES - RolesOf(s, u));
    assert r in ALL_ROLES;
    RoleRowsHold(actor, RoleAssignment, u, gained, r);
  }

  // The action of a status row tells enabling and disabling from other changes, and the
  // row keeps both statuses by name.
  ghost predicate Tells(row: AuditRow, from: Status, to: Status) {
    && (row.action == Enable <==> to == Active) && (row.action == Disable <==> to == Disabled)
    && row.action in {Enable, Disable, StatusChange}
    && Field(row.metadata, "old_status") == Text(StatusName(from))
    && Field(row.metadata, "new_status") == Text(StatusName(to))
  }

  lemma StatusRowsTell(actor: UserId, u: UserId, from: Status, to: Status)
    ensures Tells(StatusRow(actor, u, from, to), from, to)
  {
    var fields := map["old_status" := EnumMember(StatusName(from)), "new_status" := EnumMember(StatusName(to))];
    FieldSurvives(fields, "old_status");
    FieldSurvives(fields, "new_status");
  }

  // An accepted status request that changes something logs one such row.
  lemma StatusChangesAreLogged(s: State, step: Step)
    requires Inv(s) && step.request.SetStatus? && Next(s, step) != s
    ensures var u := step.request.target;
            && u in s.users && u in Next(s, step).users && |Appended(s, step)| == 1
            && s.users[u].status != Next(s, step).users[u].status
            && Tells(Appended(s, step)[0], s.users[u].status, Next(s, step).users[u].status)
  {
    AdministrationIsGranted(s, step);
    NextKeepsInv(s, step);
    var u, actor := step.request.target, step.credential.sub;
    var from, to := s.users[u].status, Next(s, step).users[u].status;
    StatusRowsTell(actor, u, from, to);
    assert Appended(s, step) == [StatusRow(actor, u, from, to)];
  }

  // A refused password change logs why.
  lemma PasswordRefusalsAreLogged(s: State, step: Step, row: AuditRow)
    requires Inv(s) && step.request.ChangePassword? && Apply(s, step).1.Refused? && row in Appended(s, step)
    ensures step.credential.Signed? && step.credential.sub in s.users && row.action == PasswordChangeFailure
    ensures Field(row.metadata, "reason") == Text(
              if step.request.current != s.users[step.credential.sub].password then "current_password_incorrect"
              else if !PasswordAccepted(step.request.next) then "password_policy"
              else "password_unchanged")
  {
    NextKeepsInv(s, step);
    var u := step.credential.sub;
    var reason := ChangeRefusal(s.users[u], step.request.current, step.request.next).value;
    assert Appended(s, step) == [ReasonRow(Some(u), PasswordChangeFailure, Some(u), reason)];
    ReasonRowReads(Some(u), PasswordChangeFailure, Some(u), reason);
  }

  lemma ShutRowsTell(found: Option<UserId>, status: Status, row: AuditRow)
    requires row == UserRow(found, LoginFailure, found,
                            map["reason" := Text("inactive_account"), "status" := EnumMember(StatusName(status))])
    ensures Field(row.metadata, "reason") == Text("inactive_account")
    ensures Field(row.metadata, "status") == Text(StatusName(status))
  {
    var fields := map["reason" := Text("inactive_account"), "status" := EnumMember(StatusName(status))];
    FieldSurvives(fields, "reason");
    FieldSurvives(fields, "status");
  }

  // A login with the right password on a shut account logs the account's status.
  lemma ShutLoginsAreLogged(s: State, step: Step, row: AuditRow)
    requires Inv(s) && step.request.Login? && Apply(s, step).1 == Refused(403) && row in Appended(s, step)
    ensures row.action == LoginFailure && FindByEmail(s, step.request.email).Some?
    ensures Field(row.metadata, "reason") == Text("inactive_account")
    ensures Field(row.metadata, "status") == Text(StatusName(s.users[FindByEmail(s, step.request.email).value].status))
  {
    NextKeepsInv(s, step);
    var found := FindByEmail(s, step.request.email);
    ShutRowsTell(found, s.users[found.value].status, row);
  }

  lemma CreationRowsTell(actor: UserId, u: UserId, email: string, roles: seq<Role>, row: AuditRow)
    requires row == UserRow(Some(actor), AdminUserCreation, Some(u),
                            map["email" := Text(email), "roles" := RoleNames(roles)])
    ensures Field(row.metadata, "email") == Text(email) && RolesField(row.metadata) == Elements(roles)
  {
    CreationRowReads(actor, u, email, roles);
    FieldSurvives(map["email" := Text(email), "roles" := RoleNames(roles)], "email");
  }

  lemma FirstRowOfACreation(s: State, actor: UserId, now: Time, request: Request)
    requires request.CreateUser? && Administer(s, actor, now, request).1.Done?
    ensures var t, next := Administer(s, actor, now, request).0, ParseRoles(request.roles);
            && next.Ok? && |s.audit| < |t.audit|
            && t.audit[|s.audit|] == UserRow(Some(actor), AdminUserCreation, Some(request.newId),
                                             map["email" := Text(request.email), "roles" := RoleNames(next.value)])
  {
  }

  // A creation logs the email and the roles it gave, and an invitation, as an entity of
  // its own, the email and the role it names.
  lemma CreationsAreLogged(s: State, step: Step)
    requires Inv(s) && step.request.CreateUser? && Apply(s, step).1.Done?
    ensures Appended(s, step) != []
    ensures var row := Appended(s, step)[0];
            && row.action == AdminUserCreation
            && Field(row.metadata, "email") == Text(step.request.email)
            && RolesField(row.metadata) == Named(step.request.roles)
  {
    AcceptedRequestsAreGranted(s, step);
    AdministrationIsGranted(s, step);
    NextKeepsInv(s, step);
    ParsedAreNamed(step.request.roles);
    FirstRowOfACreation(s, step.credential.sub, step.now, step.request);
    CreationRowsTell(step.credential.sub, step.request.newId, step.request.email,
                     ParseRoles(step.request.roles).value, Appended(s, step)[0]);
  }

  lemma InvitationsAreLogged(s: State, step: Step)
    requires Inv(s) && step.request.Invite? && MayAsk(s, step)
    ensures |Appended(s, step)| == 1
    ensures var row := Appended(s, step)[0];
            && row.actor == Some(step.credential.sub) && row.action == AdminUserCreation
            && row.entity == InvitationEntity && row.entityId == Some(step.request.invitation)
            && Field(row.metadata, "email") == Text(step.request.email)
            && Field(row.metadata, "role") == Text(step.request.role)
  {
    AdministrationIsGranted(s, step);
    NextKeepsInv(s, step);
    var fields := map["email" := Text(step.request.email), "role" := Text(step.request.role)];
    FieldSurvives(fields, "email");
    FieldSurvives(fields, "role");
    assert Appended(s, step)
        == [InvitationRow(step.credential.sub, step.request.invitation, step.request.email, step.request.role)];
  }
}
