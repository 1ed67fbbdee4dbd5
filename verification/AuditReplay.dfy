// The audit log is a complete account of every user's status, roles and failures.
module AuditReplay {
  import opened Common
  import opened AuditMetadata
  import opened AccountTypes
  import opened AccountSpec

  datatype Profile = Profile(status: Status, roles: set<Role>, failures: nat)

  // ------------------------------------------------- reading sanitised metadata

  function Field(metadata: Value, key: string): Value {
    if metadata.Mapping? && key in metadata.fields then metadata.fields[key] else Null
  }

  function RoleField(metadata: Value): set<Role> {
    var v := Field(metadata, "role");
    if v.Text? && ParseRole(v.text).Some? then {ParseRole(v.text).value} else {}
  }

  function RolesField(metadata: Value): set<Role> {
    var v := Field(metadata, "roles");
    if v.Items? then set i | 0 <= i < |v.items| && v.items[i].Text? && ParseRole(v.items[i].text).Some?
        :: ParseRole(v.items[i].text).value
    else {}
  }

  function StatusField(metadata: Value, otherwise: Status): Status {
    var v := Field(metadata, "new_status");
    if v.Text? && ParseStatus(v.text).Some? then ParseStatus(v.text).value else otherwise
  }

  // ------------------------------------------------------------------- the fold

  function ApplyAction(p: Profile, action: Action, metadata: Value): Profile {
    match action
    case RoleAssignment => p.(roles := p.roles + RoleField(metadata))
    case RoleRemoval => p.(roles := p.roles - RoleField(metadata))
    case Approval => p.(status := Active, roles := RolesField(metadata))
    case Enable => p.(status := StatusField(metadata, p.status))
    case Disable => p.(status := StatusField(metadata, p.status))
    case StatusChange => p.(status := StatusField(metadata, p.status))
    case AccountUnlock => p.(status := Active, failures := 0)
    case PasswordReset => p.(status := PasswordChangeRequired, failures := 0)
    case Rejection => p.(status := Rejected)
    case LoginFailure =>
      if Field(metadata, "reason") == Text("invalid_credentials") && CanLogIn(p.status)
      then p.(failures := p.failures + 1) else p
    case AccountLocked => p.(status := Locked)
    case LoginSuccess => p.(failures := 0)
    case PasswordChange => p.(status := Active, failures := 0)
    case _ => p
  }

  // Nothing is known of an account before its creation row.
  function ApplyRow(p: Option<Profile>, row: AuditRow, u: UserId): Option<Profile> {
    if row.entity != UserEntity || row.entityId != Some(u) then p
    else if row.action == Signup then Some(Profile(PendingApproval, {}, 0))
    else if row.action == AdminUserCreation then Some(Profile(PasswordChangeRequired, RolesField(row.metadata), 0))
    else if p.None? then None
    else Some(ApplyAction(p.value, row.action, row.metadata))
  }

  function Replay(p: Option<Profile>, rows: seq<AuditRow>, u: UserId): Option<Profile> {
    if rows == [] then p
    else ApplyRow(Replay(p, rows[..|rows| - 1], u), rows[|rows| - 1], u)
  }

  lemma {:induction false} ReplayAppend(p: Option<Profile>, before: seq<AuditRow>, after: seq<AuditRow>, u: UserId)
    ensures Replay(p, before + after, u) == Replay(Replay(p, before, u), after, u)
    decreases |after|
  {
    if after == [] {
      assert before + after == before;
    } else {
      ReplayAppend(p, before, after[..|after| - 1], u);
      assert (before + after)[..|before + after| - 1] == before + after[..|after| - 1];
    }
  }

  lemma ReplayOne(p: Option<Profile>, row: AuditRow, u: UserId)
    ensures Replay(p, [row], u) == ApplyRow(p, row, u)
  {
    assert [row][..0] == [];
  }

  // ------------------------------------- the sanitiser keeps what the fold needs

  lemma FieldSurvives(fields: map<string, Value>, key: string)
    requires key in fields
    requires forall i | 0 <= i < |key| :: Lower(key[i]) !in {'p', 'h', 'k', 'c'}
    ensures Field(Safe(Mapping(fields)), key) == Safe(fields[key])
  {
    PlainKeysAreKept(key);
  }

  lemma RoleRowReads(actor: UserId, action: Action, u: UserId, r: Role)
    ensures RoleField(RoleRow(actor, action, u, r).metadata) == {r}
  {
    FieldSurvives(map["role" := EnumMember(RoleName(r))], "role");
    RoleNamesRoundTrip(r, RoleName(r));
  }

  lemma StatusRowReads(actor: UserId, u: UserId, was: Status, next: Status, otherwise: Status)
    ensures StatusField(StatusRow(actor, u, was, next).metadata, otherwise) == next
  {
    FieldSurvives(map["old_status" := EnumMember(StatusName(was)), "new_status" := EnumMember(StatusName(next))],
                  "new_status");
    StatusNamesRoundTrip(next, StatusName(next));
  }

  lemma ReasonRowReads(actor: Option<UserId>, action: Action, u: Option<UserId>, reason: string)
    ensures Field(ReasonRow(actor, action, u, reason).metadata, "reason") == Text(reason)
  {
    FieldSurvives(map["reason" := Text(reason)], "reason");
  }

  lemma RolesRead(metadata: Value, roles: seq<Role>)
    requires Field(metadata, "roles") == Safe(RoleNames(roles))
    ensures RolesField(metadata) == Elements(roles)
  {
    var items := Field(metadata, "roles").items;
    assert |items| == |roles|;
    forall i | 0 <= i < |roles|
      ensures items[i] == Text(RoleName(roles[i])) && ParseRole(items[i].text) == Some(roles[i])
    {
      RoleNamesRoundTrip(roles[i], RoleName(roles[i]));
    }
    forall r | r in roles ensures r in RolesField(metadata) {
      var i :| 0 <= i < |roles| && roles[i] == r;
      assert items[i].Text? && ParseRole(items[i].text).value == r;
    }
  }

  lemma ApprovalRowReads(actor: UserId, u: UserId, roles: seq<Role>)
    ensures RolesField(UserRow(Some(actor), Approval, Some(u), map["roles" := RoleNames(roles)]).metadata)
         == Elements(roles)
  {
    FieldSurvives(map["roles" := RoleNames(roles)], "roles");
    RolesRead(UserRow(Some(actor), Approval, Some(u), map["roles" := RoleNames(roles)]).metadata, roles);
  }

  lemma CreationRowReads(actor: UserId, u: UserId, email: string, roles: seq<Role>)
    ensures RolesField(UserRow(Some(actor), AdminUserCreation, Some(u),
                               map["email" := Text(email), "roles" := RoleNames(roles)]).metadata) == Elements(roles)
  {
    FieldSurvives(map["email" := Text(email), "roles" := RoleNames(roles)], "roles");
    RolesRead(UserRow(Some(actor), AdminUserCreation, Some(u),
                      map["email" := Text(email), "roles" := RoleNames(roles)]).metadata, roles);
  }

  // ------------------------------------------------------- blocks of role rows

  function WithRoleRows(p: Option<Profile>, action: Action, roles: set<Role>): Option<Profile> {
    if p.None? then None
    else if action == RoleAssignment then Some(p.value.(roles := p.value.roles + roles))
    else Some(p.value.(roles := p.value.roles - roles))
  }

  lemma OneRoleRow(p: Option<Profile>, actor: UserId, action: Action, u: UserId, front: seq<Role>, last: Role)
    requires action == RoleAssignment || action == RoleRemoval
    ensures ApplyRow(WithRoleRows(p, action, Elements(front)), RoleRow(actor, action, u, last), u)
         == WithRoleRows(p, action, Elements(front + [last]))
  {
    RoleRowReads(actor, action, u, last);
    assert Elements(front + [last]) == Elements(front) + {last};
    if p.Some? {
      var roles := p.value.roles;
      assert roles + Elements(front + [last]) == (roles + Elements(front)) + {last};
      assert roles - Elements(front + [last]) == (roles - Elements(front)) - {last};
    }
  }

  lemma {:induction false} ReplayRoleRows(p: Option<Profile>, actor: UserId, action: Action, u: UserId,
                                          roles: seq<Role>, v: UserId)
    requires action == RoleAssignment || action == RoleRemoval
    ensures Replay(p, RoleRows(actor, action, u, roles), v) ==
              if v != u then p else WithRoleRows(p, action, Elements(roles))
    decreases |roles|
  {
    var rows := RoleRows(actor, action, u, roles);
    if roles == [] {
      assert p.Some? ==> p.value.roles + Elements(roles) == p.value.roles - Elements(roles) == p.value.roles;
    } else {
      var front, last := roles[..|roles| - 1], roles[|roles| - 1];
      ReplayRoleRows(p, actor, action, u, front, v);
      assert rows[..|rows| - 1] == RoleRows(actor, action, u, front);
      assert rows[|rows| - 1] == RoleRow(actor, action, u, last);
      assert roles == front + [last];
      OneRoleRow(p, actor, action, u, front, last);
    }
  }

  // ----------------------------------------------------------------- consistency

  ghost function Current(s: State, u: UserId): Profile
    requires u in s.users
  {
    Profile(s.users[u].status, RolesOf(s, u), s.users[u].failures)
  }

  // The log knows nothing of an account, or exactly its current profile.
  ghost predicate Consistent(s: State) {
    forall u :: Replay(None, s.audit, u).Some? ==> u in s.users && Replay(None, s.audit, u) == Some(Current(s, u))
  }

  // The rows one request appended, and what they do to each profile.
  ghost predicate ExplainsOne(s: State, t: State, rows: seq<AuditRow>, u: UserId) {
    if u in s.users then
      && u in t.users && Replay(Some(Current(s, u)), rows, u) == Some(Current(t, u))
      && Replay(None, rows, u).None?
    else Replay(None, rows, u) == if u in t.users then Some(Current(t, u)) else None
  }

  ghost predicate Explains(s: State, t: State, rows: seq<AuditRow>) {
    t.audit == s.audit + rows && forall u :: ExplainsOne(s, t, rows, u)
  }

  ghost predicate Explained(s: State, t: State) {
    exists rows :: Explains(s, t, rows)
  }

  lemma ExplainedStepsAreConsistent(s: State, t: State, rows: seq<AuditRow>)
    requires Consistent(s) && Explains(s, t, rows)
    ensures Consistent(t)
  {
    forall u | Replay(None, t.audit, u).Some?
      ensures u in t.users && Replay(None, t.audit, u) == Some(Current(t, u))
    {
      assert ExplainsOne(s, t, rows, u);
      ReplayAppend(None, s.audit, rows, u);
    }
  }

  lemma ExplainsNothing(s: State)
    ensures Explained(s, s)
  {
    assert s.audit + [] == s.audit;
    assert Explains(s, s, []);
  }

  // A request that rewrites one account and logs one row.
  lemma ExplainsOneRow(s: State, t: State, u: UserId, row: AuditRow)
    requires u in s.users && u in t.users && t.users == s.users[u := t.users[u]]
    requires t.roles == s.roles && t.audit == s.audit + [row]
    requires row.entity == UserEntity && row.entityId == Some(u)
    requires row.action != Signup && row.action != AdminUserCreation
    requires ApplyAction(Current(s, u), row.action, row.metadata) == Current(t, u)
    ensures Explained(s, t)
  {
    forall v ensures ExplainsOne(s, t, [row], v) {
      ReplayOne(None, row, v);
      if v in s.users {
        ReplayOne(Some(Current(s, v)), row, v);
        if v != u {
          assert Current(t, v) == Current(s, v);
        }
      }
    }
    assert Explains(s, t, [row]);
  }

  // A row that concerns no account.
  lemma ExplainsForeignRow(s: State, t: State, row: AuditRow)
    requires t == s.(audit := s.audit + [row])
    requires row.entity != UserEntity || row.entityId.None?
    ensures Explained(s, t)
  {
    forall v ensures ExplainsOne(s, t, [row], v) {
      ReplayOne(None, row, v);
      if v in s.users {
        ReplayOne(Some(Current(s, v)), row, v);
      }
    }
    assert Explains(s, t, [row]);
  }

  lemma NewRolesOf(s: State, t: State, u: UserId, next: seq<Role>, v: UserId)
    requires t.roles == WithRoles(s, u, next)
    ensures RolesOf(t, v) == if v == u then Elements(next) else RolesOf(s, v)
  {
  }

  lemma ExchangeExplainsOne(s: State, t: State, actor: UserId, u: UserId, next: seq<Role>, v: UserId)
    requires u in s.users && t.users == s.users && t.roles == WithRoles(s, u, next)
    ensures var previous := RolesOf(s, u);
            ExplainsOne(s, t, RoleRows(actor, RoleAssignment, u, SortedRoles(Elements(next) - previous))
                            + RoleRows(actor, RoleRemoval, u, SortedRoles(previous - Elements(next))), v)
  {
    var previous, wanted := RolesOf(s, u), Elements(next);
    var gained, lost := SortedRoles(wanted - previous), SortedRoles(previous - wanted);
    var added, removed := RoleRows(actor, RoleAssignment, u, gained), RoleRows(actor, RoleRemoval, u, lost);
    NewRolesOf(s, t, u, next, v);
    SortedRolesAreTheSet(wanted - previous);
    SortedRolesAreTheSet(previous - wanted);
    assert (previous + (wanted - previous)) - (previous - wanted) == wanted;
    ReplayAppend(None, added, removed, v);
    ReplayRoleRows(None, actor, RoleAssignment, u, gained, v);
    ReplayRoleRows(None, actor, RoleRemoval, u, lost, v);
    if v in s.users {
      var p := Some(Current(s, v));
      ReplayAppend(p, added, removed, v);
      ReplayRoleRows(p, actor, RoleAssignment, u, gained, v);
      ReplayRoleRows(Replay(p, added, v), actor, RoleRemoval, u, lost, v);
    }
  }

  lemma SetRolesIsExplained(s: State, actor: UserId, u: UserId, names: seq<string>)
    ensures Explained(s, DoSetRoles(s, actor, u, names).0)
  {
    var t := DoSetRoles(s, actor, u, names).0;
    if t == s {
      ExplainsNothing(s);
    } else {
      var next := ParseRoles(names).value;
      var previous, wanted := RolesOf(s, u), Elements(next);
      var rows := RoleRows(actor, RoleAssignment, u, SortedRoles(wanted - previous))
                  + RoleRows(actor, RoleRemoval, u, SortedRoles(previous - wanted));
      forall v ensures ExplainsOne(s, t, rows, v) {
        ExchangeExplainsOne(s, t, actor, u, next, v);
      }
      assert t.audit == s.audit + rows;
      assert Explains(s, t, rows);
    }
  }

  lemma ApprovalExplainsOne(s: State, t: State, actor: UserId, u: UserId, next: seq<Role>, v: UserId)
    requires u in s.users && t.users == s.users[u := s.users[u].(status := Active)] && t.roles == WithRoles(s, u, next)
    ensures ExplainsOne(s, t, RoleRows(actor, RoleAssignment, u, Fresh(next, RolesOf(s, u)))
                              + [UserRow(Some(actor), Approval, Some(u), map["roles" := RoleNames(next)])], v)
  {
    var gained := Fresh(next, RolesOf(s, u));
    var added := RoleRows(actor, RoleAssignment, u, gained);
    var row := UserRow(Some(actor), Approval, Some(u), map["roles" := RoleNames(next)]);
    ReplayAppend(None, added, [row], v);
    ReplayRoleRows(None, actor, RoleAssignment, u, gained, v);
    ReplayOne(None, row, v);
    if v in s.users {
      var p := Some(Current(s, v));
      NewRolesOf(s, t, u, next, v);
      ReplayAppend(p, added, [row], v);
      ReplayRoleRows(p, actor, RoleAssignment, u, gained, v);
      ReplayOne(Replay(p, added, v), row, v);
      if v == u {
        ApprovalRowReads(actor, u, next);
        assert Current(t, v) == Profile(Active, Elements(next), s.users[u].failures);
      }
    }
  }

  lemma ApproveIsExplained(s: State, actor: UserId, u: UserId, names: seq<string>)
    ensures Explained(s, DoApprove(s, actor, u, names).0)
  {
    var t := DoApprove(s, actor, u, names).0;
    if t == s {
      ExplainsNothing(s);
    } else {
      var next := ParseRoles(names).value;
      var rows := RoleRows(actor, RoleAssignment, u, Fresh(next, RolesOf(s, u)))
                  + [UserRow(Some(actor), Approval, Some(u), map["roles" := RoleNames(next)])];
      forall v ensures ExplainsOne(s, t, rows, v) {
        ApprovalExplainsOne(s, t, actor, u, next, v);
      }
      assert t.audit == s.audit + rows;
      assert Explains(s, t, rows);
    }
  }

  lemma CreationExplainsOne(s: State, t: State, actor: UserId, id: UserId, email: string, a: Account, next: seq<Role>,
                            v: UserId)
    requires id !in s.users && a.status == PasswordChangeRequired && a.failures == 0
    requires t.users == s.users[id := a] && t.roles == WithRoles(s, id, next)
    ensures ExplainsOne(s, t, [UserRow(Some(actor), AdminUserCreation, Some(id),
                                       map["email" := Text(email), "roles" := RoleNames(next)])]
                              + RoleRows(actor, RoleAssignment, id, next), v)
  {
    var row := UserRow(Some(actor), AdminUserCreation, Some(id),
                       map["email" := Text(email), "roles" := RoleNames(next)]);
    var added := RoleRows(actor, RoleAssignment, id, next);
    NewRolesOf(s, t, id, next, v);
    CreationRowReads(actor, id, email, next);
    assert Elements(next) + Elements(next) == Elements(next);
    ReplayAppend(None, [row], added, v);
    ReplayOne(None, row, v);
    ReplayRoleRows(Replay(None, [row], v), actor, RoleAssignment, id, next, v);
    if v in s.users {
      var p := Some(Current(s, v));
      ReplayAppend(p, [row], added, v);
      ReplayOne(p, row, v);
      ReplayRoleRows(p, actor, RoleAssignment, id, next, v);
    }
  }

  lemma CreateUserIsExplained(s: State, actor: UserId, now: Time, id: UserId, email: string, temporary: string,
                              names: seq<string>)
    ensures Explained(s, DoCreateUser(s, actor, now, id, email, temporary, names).0)
  {
    var t := DoCreateUser(s, actor, now, id, email, temporary, names).0;
    if t == s {
      ExplainsNothing(s);
    } else {
      var next := ParseRoles(names).value;
      var rows := [UserRow(Some(actor), AdminUserCreation, Some(id),
                           map["email" := Text(email), "roles" := RoleNames(next)])]
                  + RoleRows(actor, RoleAssignment, id, next);
      forall v ensures ExplainsOne(s, t, rows, v) {
        CreationExplainsOne(s, t, actor, id, email, t.users[id], next, v);
      }
      assert t.audit == s.audit + rows;
      assert Explains(s, t, rows);
    }
  }

  lemma RegisterIsExplained(s: State, id: UserId, email: string, password: string, enabled: bool)
    requires Inv(s)
    ensures Explained(s, DoRegister(s, id, email, password, enabled).0)
  {
    var t := DoRegister(s, id, email, password, enabled).0;
    if t == s {
      ExplainsNothing(s);
    } else {
      var row := UserRow(Some(id), Signup, Some(id), map[]);
      forall r: Role ensures r !in RolesOf(t, id) {
        assert (id, r) !in s.roles;
      }
      assert RolesOf(t, id) == {};
      forall v ensures ExplainsOne(s, t, [row], v) {
        ReplayOne(None, row, v);
        if v in s.users {
          ReplayOne(Some(Current(s, v)), row, v);
          assert Current(t, v) == Current(s, v);
        }
      }
      assert Explains(s, t, [row]);
    }
  }

  lemma LockExplainsOne(s: State, t: State, u: UserId, v: UserId)
    requires u in s.users && Failed(s.users[u]).status != s.users[u].status
    requires t.users == s.users[u := Failed(s.users[u])] && t.roles == s.roles
    ensures ExplainsOne(s, t, [ReasonRow(None, LoginFailure, Some(u), "invalid_credentials")]
                              + [UserRow(Some(u), AccountLocked, Some(u), map[])], v)
  {
    var first := ReasonRow(None, LoginFailure, Some(u), "invalid_credentials");
    var second := UserRow(Some(u), AccountLocked, Some(u), map[]);
    ReasonRowReads(None, LoginFailure, Some(u), "invalid_credentials");
    ReplayAppend(None, [first], [second], v);
    ReplayOne(None, first, v);
    ReplayOne(None, second, v);
    if v in s.users {
      var p := Some(Current(s, v));
      ReplayAppend(p, [first], [second], v);
      ReplayOne(p, first, v);
      ReplayOne(Replay(p, [first], v), second, v);
      assert RolesOf(t, v) == RolesOf(s, v);
    }
  }

  lemma BadPasswordIsExplained(s: State, t: State, u: UserId)
    requires u in s.users
    requires var a := s.users[u];
             t == s.(users := s.users[u := Failed(a)],
                     audit := s.audit + [ReasonRow(None, LoginFailure, Some(u), "invalid_credentials")]
                              + if Failed(a).status != a.status
                                then [UserRow(Some(u), AccountLocked, Some(u), map[])] else [])
    ensures Explained(s, t)
  {
    var a := s.users[u];
    var first := ReasonRow(None, LoginFailure, Some(u), "invalid_credentials");
    var second := UserRow(Some(u), AccountLocked, Some(u), map[]);
    if Failed(a).status == a.status {
      ReasonRowReads(None, LoginFailure, Some(u), "invalid_credentials");
      assert t.audit == s.audit + [first];
      ExplainsOneRow(s, t, u, first);
    } else {
      assert t.audit == s.audit + ([first] + [second]);
      forall v ensures ExplainsOne(s, t, [first] + [second], v) {
        LockExplainsOne(s, t, u, v);
      }
      assert Explains(s, t, [first] + [second]);
    }
  }

  lemma LoginIsExplained(s: State, now: Time, email: string, password: string, admitted: bool)
    ensures Explained(s, DoLogin(s, now, email, password, admitted).0)
  {
    var t := DoLogin(s, now, email, password, admitted).0;
    var found := FindByEmail(s, email);
    if !admitted {
      ExplainsNothing(s);
    } else if found.None? {
      ExplainsForeignRow(s, t, ReasonRow(None, LoginFailure, None, "invalid_credentials"));
    } else if password != s.users[found.value].password {
      BadPasswordIsExplained(s, t, found.value);
    } else {
      var row := t.audit[|s.audit|];
      if row.action == LoginFailure {
        FieldSurvives(map["reason" := Text("inactive_account"),
                          "status" := EnumMember(StatusName(s.users[found.value].status))], "reason");
      }
      assert t.users == s.users[found.value := t.users[found.value]];
      ExplainsOneRow(s, t, found.value, row);
    }
  }

  lemma ChangePasswordIsExplained(s: State, now: Time, u: UserId, current: string, next: string)
    requires u in s.users && CanLogIn(s.users[u].status)
    ensures Explained(s, DoChangePassword(s, now, u, current, next).0)
  {
    var t := DoChangePassword(s, now, u, current, next).0;
    assert t.users == s.users[u := t.users[u]];
    ExplainsOneRow(s, t, u, t.audit[|s.audit|]);
  }

  lemma SetStatusIsExplained(s: State, actor: UserId, u: UserId, name: string)
    ensures Explained(s, DoSetStatus(s, actor, u, name).0)
  {
    var t := DoSetStatus(s, actor, u, name).0;
    if t == s {
      ExplainsNothing(s);
    } else {
      StatusRowReads(actor, u, s.users[u].status, t.users[u].status, s.users[u].status);
      ExplainsOneRow(s, t, u, StatusRow(actor, u, s.users[u].status, t.users[u].status));
    }
  }

  // The other administrative requests that log one row for one existing account.
  lemma OneRowRequestIsExplained(s: State, actor: UserId, now: Time, request: Request)
    requires request.Unlock? || request.ResetPassword? || request.Reject?
    ensures Explained(s, Administer(s, actor, now, request).0)
  {
    var t := Administer(s, actor, now, request).0;
    if t == s {
      ExplainsNothing(s);
    } else {
      ExplainsOneRow(s, t, request.target, t.audit[|s.audit|]);
    }
  }

  lemma AdministerIsExplained(s: State, actor: UserId, now: Time, request: Request)
    requires Permission(request).Some?
    ensures Explained(s, Administer(s, actor, now, request).0)
  {
    var t := Administer(s, actor, now, request).0;
    if request.SetRoles? {
      SetRolesIsExplained(s, actor, request.target, request.roles);
    } else if request.Approve? {
      ApproveIsExplained(s, actor, request.target, request.roles);
    } else if request.CreateUser? {
      CreateUserIsExplained(s, actor, now, request.newId, request.email, request.temporary, request.roles);
    } else if request.SetStatus? {
      SetStatusIsExplained(s, actor, request.target, request.status);
    } else if request.Invite? {
      ExplainsForeignRow(s, t, InvitationRow(actor, request.invitation, request.email, request.role));
    } else {
      OneRowRequestIsExplained(s, actor, now, request);
    }
  }

  lemma StepIsExplained(s: State, step: Step)
    requires Inv(s)
    ensures Explained(s, Next(s, step))
  {
    if Permission(step.request).Some? {
      var authorized := Authorize(s, step.credential, step.now, Permission(step.request).value);
      if authorized.Ok? {
        AdministerIsExplained(s, authorized.value, step.now, step.request);
      } else {
        ExplainsNothing(s);
      }
    } else {
      match step.request
      case Register(id, email, password, enabled) => RegisterIsExplained(s, id, email, password, enabled);
      case Login(email, password, admitted) => LoginIsExplained(s, step.now, email, password, admitted);
      case ChangePassword(current, next) =>
        var u := Authenticate(s.users, step.credential, step.now, {Active, PasswordChangeRequired});
        if u.Ok? {
          ChangePasswordIsExplained(s, step.now, u.value, current, next);
        } else {
          ExplainsNothing(s);
          assert Next(s, step) == s;
        }
    }
  }

  // In every reachable state the log reproduces status, roles and failed-login count
  // of every account it has a creation row for.
  lemma {:induction false} ReplayReproducesEveryState(s: State, steps: seq<Step>)
    requires Inv(s) && Consistent(s)
    ensures Consistent(Run(s, steps))
    decreases |steps|
  {
    if steps != [] {
      var front, last := steps[..|steps| - 1], steps[|steps| - 1];
      ReplayReproducesEveryState(s, front);
      RunKeepsInv(s, front);
      StepIsExplained(Run(s, front), last);
      var rows :| Explains(Run(s, front), Next(Run(s, front), last), rows);
      ExplainedStepsAreConsistent(Run(s, front), Next(Run(s, front), last), rows);
    }
  }

  // A fresh log says nothing of anyone, so it is consistent with any accounts.
  lemma EmptyLogIsConsistent(s: State)
    requires s.audit == []
    ensures Consistent(s)
  {
  }

  ghost predicate Known(s: State, u: UserId) {
    Replay(None, s.audit, u).Some?
  }

  // Registered and created accounts are in the log from then on.
  lemma CreationMakesKnown(s: State, step: Step, u: UserId)
    requires Inv(s) && Consistent(s)
    ensures u !in s.users && u in Next(s, step).users ==> Known(Next(s, step), u)
    ensures Known(s, u) ==> Known(Next(s, step), u)
  {
    StepIsExplained(s, step);
    var rows :| Explains(s, Next(s, step), rows);
    assert ExplainsOne(s, Next(s, step), rows, u);
    ReplayAppend(None, s.audit, rows, u);
    ExplainedStepsAreConsistent(s, Next(s, step), rows);
  }

  lemma {:induction false} KnownStaysKnown(s: State, steps: seq<Step>, u: UserId)
    requires Inv(s) && Consistent(s) && (u !in s.users || Known(s, u))
    ensures u in Run(s, steps).users ==> Known(Run(s, steps), u)
    decreases |steps|
  {
    if steps != [] {
      var front := steps[..|steps| - 1];
      KnownStaysKnown(s, front, u);
      ReplayReproducesEveryState(s, front);
      RunKeepsInv(s, front);
      CreationMakesKnown(Run(s, front), steps[|steps| - 1], u);
    }
  }

  lemma EveryCreatedAccountIsReproduced(s: State, steps: seq<Step>, u: UserId)
    requires Inv(s) && Consistent(s)
    requires u in Run(s, steps).users && (u !in s.users || Known(s, u))
    ensures Replay(None, Run(s, steps).audit, u) == Some(Current(Run(s, steps), u))
  {
    ReplayReproducesEveryState(s, steps);
    KnownStaysKnown(s, steps, u);
  }

  // The same from a fresh log, which says nothing of the accounts that are there.
  lemma AFreshLogReproducesNewAccounts(s: State, steps: seq<Step>, u: UserId)
    requires Inv(s) && s.audit == [] && u in Run(s, steps).users
    ensures u !in s.users ==> Replay(None, Run(s, steps).audit, u) == Some(Current(Run(s, steps), u))
    ensures Known(Run(s, steps), u) ==> Replay(None, Run(s, steps).audit, u) == Some(Current(Run(s, steps), u))
  {
    EmptyLogIsConsistent(s);
    ReplayReproducesEveryState(s, steps);
    if u !in s.users {
      EveryCreatedAccountIsReproduced(s, steps, u);
    }
  }
}
