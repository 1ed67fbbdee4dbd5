// The endpoints of backend/auth.py and backend/admin_routes.py over stored rows.
// Every method is one request, and does what AccountSpec.Apply says it does.
module AccountService {
  import opened Common
  import opened AuditMetadata
  import opened AccountTypes
  import opened AccountSpec
  import opened LoginLimits
  import opened RateLimiter

  // ---------------------------------------------------------- user_roles rows

  function RoleSet(rows: seq<(UserId, Role)>): set<(UserId, Role)> {
    set p | p in rows
  }

  // SELECT COUNT(*) FROM user_roles WHERE role = r.
  function CountRole(rows: seq<(UserId, Role)>, r: Role): nat {
    if rows == [] then 0
    else CountRole(rows[..|rows| - 1], r) + if rows[|rows| - 1].1 == r then 1 else 0
  }

  // SELECT COUNT(*) FROM user_roles WHERE user_id = u AND role = r.
  function CountRoleOf(rows: seq<(UserId, Role)>, u: UserId, r: Role): nat {
    if rows == [] then 0
    else CountRoleOf(rows[..|rows| - 1], u, r) + if rows[|rows| - 1] == (u, r) then 1 else 0
  }

  // DELETE FROM user_roles WHERE user_id = u.
  function Without(rows: seq<(UserId, Role)>, u: UserId): seq<(UserId, Role)> {
    if rows == [] then []
    else
      var front, last := Without(rows[..|rows| - 1], u), rows[|rows| - 1];
      if last.0 == u then front else front + [last]
  }

  lemma {:induction false} WithoutRemoves(rows: seq<(UserId, Role)>, u: UserId)
    ensures forall p :: p in Without(rows, u) <==> p in rows && p.0 != u
    ensures Distinct(rows) ==> Distinct(Without(rows, u))
    decreases |rows|
  {
    if rows != [] {
      assert rows == rows[..|rows| - 1] + [rows[|rows| - 1]];
      WithoutRemoves(rows[..|rows| - 1], u);
    }
  }

  lemma {:induction false} CountsAreHolders(rows: seq<(UserId, Role)>, u: UserId, r: Role)
    requires Distinct(rows)
    ensures CountRole(rows, r) == |Holders(RoleSet(rows), r)|
    ensures CountRoleOf(rows, u, r) == if (u, r) in rows then 1 else 0
    decreases |rows|
  {
    if rows == [] {
      assert Holders(RoleSet(rows), r) == {};
    } else {
      var front, last := rows[..|rows| - 1], rows[|rows| - 1];
      CountsAreHolders(front, u, r);
      assert rows == front + [last];
      assert last !in front;
      assert RoleSet(rows) == RoleSet(front) + {last};
      if last.1 == r {
        assert last == (last.0, r);
        assert last.0 !in Holders(RoleSet(front), r);
        assert Holders(RoleSet(rows), r) == Holders(RoleSet(front), r) + {last.0};
      } else {
        assert Holders(RoleSet(rows), r) == Holders(RoleSet(front), r);
      }
    }
  }

  // With one row per assignment, the guards' `total - target` is the number of
  // other holders.
  lemma TotalMinusTargetCountsTheOthers(rows: seq<(UserId, Role)>, u: UserId, r: Role)
    requires Distinct(rows)
    ensures CountRole(rows, r) - CountRoleOf(rows, u, r) == |Holders(RoleSet(rows), r) - {u}|
  {
    CountsAreHolders(rows, u, r);
    var holders := Holders(RoleSet(rows), r);
    if (u, r) in rows {
      assert u in holders;
      assert holders == (holders - {u}) + {u};
    } else {
      assert holders - {u} == holders;
    }
  }

  class Service {
    var users: map<UserId, Account>
    var userRoles: seq<(UserId, Role)>
    var grants: set<(Role, string)>
    var audit: seq<AuditRow>
    const limiter: LoginLimiter

    function Model(): State
      reads this
    {
      State(users, RoleSet(userRoles), grants, audit)
    }

    // The stored state behind the limiter.
    ghost function Behind(): Guarded
      reads this, limiter
    {
      Guarded(Model(), limiter.history)
    }

    // (user, role) is a key of user_roles.
    ghost predicate Valid()
      reads this, limiter
    {
      Inv(Model()) && Distinct(userRoles) && limiter.Valid()
    }

    constructor (users: map<UserId, Account>, userRoles: seq<(UserId, Role)>, grants: set<(Role, string)>, now: Time)
      requires Inv(State(users, RoleSet(userRoles), grants, [])) && Distinct(userRoles)
      ensures Valid() && fresh(limiter)
      ensures Model() == State(users, RoleSet(userRoles), grants, []) && limiter.history == []
    {
      this.users := users;
      this.userRoles := userRoles;
      this.grants := grants;
      audit := [];
      limiter := new LoginLimiter(now);
    }

    // record_audit: appends a sanitised row.
    method RecordAudit(actor: Option<UserId>, action: Action, u: Option<UserId>, fields: map<string, Value>)
      modifies this`audit
      ensures audit == old(audit) + [UserRow(actor, action, u, fields)]
    {
      audit := audit + [AuditRow(actor, action, UserEntity, u, Safe(Mapping(fields)))];
    }

    // One audit row per role, in order.
    method RecordRoles(actor: UserId, action: Action, u: UserId, roles: seq<Role>)
      modifies this`audit
      ensures audit == old(audit) + RoleRows(actor, action, u, roles)
    {
      for i := 0 to |roles|
        invariant audit == old(audit) + RoleRows(actor, action, u, roles)[..i]
      {
        RecordAudit(Some(actor), action, Some(u), map["role" := EnumMember(RoleName(roles[i]))]);
        assert RoleRows(actor, action, u, roles)[..i + 1]
            == RoleRows(actor, action, u, roles)[..i] + [RoleRow(actor, action, u, roles[i])];
      }
      assert RoleRows(actor, action, u, roles)[..|roles|] == RoleRows(actor, action, u, roles);
    }

    // Deletes the user's assignment rows and inserts the new ones.
    method ReplaceRoles(u: UserId, next: seq<Role>)
      requires Distinct(userRoles) && Distinct(next)
      modifies this`userRoles
      ensures Distinct(userRoles)
      ensures RoleSet(userRoles) == WithRoles(old(Model()), u, next)
    {
      ghost var before := userRoles;
      userRoles := Without(userRoles, u);
      WithoutRemoves(before, u);
      for i := 0 to |next|
        invariant Distinct(userRoles)
        invariant forall p :: p in userRoles <==> (p in before && p.0 != u) || (p.0 == u && p.1 in next[..i])
      {
        assert (u, next[i]) !in userRoles;
        userRoles := userRoles + [(u, next[i])];
        assert next[..i + 1] == next[..i] + [next[i]];
      }
      assert next[..|next|] == next;
      forall p ensures p in RoleSet(userRoles) <==> p in WithRoles(old(Model()), u, next) {
        if p.0 == u && p.1 in next {
          assert p == (u, p.1);
        }
      }
    }

    // Whether taking the role from u would leave no other super-admin row.
    method NoOtherSuperAdminRow(u: UserId) returns (none: bool)
      requires Distinct(userRoles)
      ensures none <==> Holders(RoleSet(userRoles), SuperAdmin) - {u} == {}
    {
      var total := CountRole(userRoles, SuperAdmin);
      var target := CountRoleOf(userRoles, u, SuperAdmin);
      TotalMinusTargetCountsTheOthers(userRoles, u, SuperAdmin);
      none := total - target < 1;
    }

    // _require_super_admin_role_permission.
    method SuperAdminChangeForbidden(actor: UserId, previous: set<Role>, next: seq<Role>) returns (forbidden: bool)
      ensures forbidden <==> SuperAdminChangeDenied(Model(), actor, previous, Elements(next))
    {
      var changed := (SuperAdmin in previous) != (SuperAdmin in next);
      forbidden := changed && !HasPermission(Model(), actor, MANAGE_SUPER_ADMIN);
    }

    // The join of users and user_roles that counts the other active super-admins.
    method NoOtherActiveSuperAdmin(u: UserId) returns (none: bool)
      ensures none <==> ActiveSuperAdmins(Model()) - {u} == {}
    {
      var others := set v | v in users && v != u && users[v].status == Active && (v, SuperAdmin) in userRoles;
      assert others == ActiveSuperAdmins(Model()) - {u};
      none := |others| == 0;
    }

    method SwitchStatus(actor: UserId, u: UserId, next: Status)
      requires u in users
      modifies this`users, this`audit
      ensures users == old(users)[u := old(users)[u].(status := next)]
      ensures audit == old(audit) + [StatusRow(actor, u, old(users)[u].status, next)]
    {
      var was := users[u].status;
      users := users[u := users[u].(status := next)];
      var action := if next == Active then Enable else if next == Disabled then Disable else StatusChange;
      RecordAudit(Some(actor), action, Some(u),
                  map["old_status" := EnumMember(StatusName(was)), "new_status" := EnumMember(StatusName(next))]);
    }

    method UpdateUserStatus(credential: Credential, now: Time, u: UserId, name: string) returns (reply: Reply)
      requires Valid()
      modifies this`users, this`audit
      ensures Valid()
      ensures (Model(), reply) == Apply(old(Model()), Step(SetStatus(u, name), credential, now))
    {
      NextKeepsInv(Model(), Step(SetStatus(u, name), credential, now));
      var authorized := Authorize(Model(), credential, now, USERS_MANAGE);
      if authorized.Err? { return Refused(authorized.error); }
      var actor := authorized.value;
      if u !in users { return Refused(404); }
      var parsed := ParseStatus(name);
      if parsed.None? { return Refused(400); }
      var next := parsed.value;
      if actor == u && next in {Disabled, Locked, Rejected} { return Refused(409); }
      if (u, SuperAdmin) in userRoles && next != Active {
        var none := NoOtherActiveSuperAdmin(u);
        if none { return Refused(409); }
      }
      if users[u].status != next {
        SwitchStatus(actor, u, next);
      }
      reply := Done;
    }

    // The guards of update_user_roles.
    method RolesRefused(actor: UserId, u: UserId, next: seq<Role>) returns (code: Option<int>)
      requires Distinct(userRoles)
      ensures code == RolesRefusal(Model(), actor, u, next)
    {
      var previous := set r: Role | (u, r) in userRoles;
      assert previous == RolesOf(Model(), u);
      var forbidden := SuperAdminChangeForbidden(actor, previous, next);
      if forbidden { return Some(403); }
      var removes := SuperAdmin in previous && SuperAdmin !in next;
      if removes && actor == u { return Some(409); }
      if removes {
        var none := NoOtherSuperAdminRow(u);
        if none { return Some(409); }
      }
      code := None;
    }

    // Its effect: the new rows, then the assignments and the removals, by name.
    method ExchangeRoles(actor: UserId, u: UserId, next: seq<Role>)
      requires Distinct(userRoles) && Distinct(next)
      modifies this`userRoles, this`audit
      ensures Distinct(userRoles) && RoleSet(userRoles) == WithRoles(old(Model()), u, next)
      ensures var previous := RolesOf(old(Model()), u);
              audit == old(audit)
                       + RoleRows(actor, RoleAssignment, u, SortedRoles(Elements(next) - previous))
                       + RoleRows(actor, RoleRemoval, u, SortedRoles(previous - Elements(next)))
    {
      var previous := set r: Role | (u, r) in userRoles;
      assert previous == RolesOf(Model(), u);
      var wanted := set r | r in next;
      assert wanted == Elements(next);
      ReplaceRoles(u, next);
      RecordRoles(actor, RoleAssignment, u, SortedRoles(wanted - previous));
      RecordRoles(actor, RoleRemoval, u, SortedRoles(previous - wanted));
    }

    method UpdateUserRoles(credential: Credential, now: Time, u: UserId, names: seq<string>) returns (reply: Reply)
      requires Valid()
      modifies this`userRoles, this`audit
      ensures Valid()
      ensures (Model(), reply) == Apply(old(Model()), Step(SetRoles(u, names), credential, now))
    {
      NextKeepsInv(Model(), Step(SetRoles(u, names), credential, now));
      var authorized := Authorize(Model(), credential, now, ROLES_MANAGE);
      if authorized.Err? { return Refused(authorized.error); }
      var actor := authorized.value;
      if u !in users { return Refused(404); }
      var parsed := ParseRolesInOrder(names);
      if parsed.Err? { return Refused(400); }
      ParsedRolesAreTheNamedOnes(names, SuperAdmin);
      var refusal := RolesRefused(actor, u, parsed.value);
      if refusal.Some? { return Refused(refusal.value); }
      ExchangeRoles(actor, u, parsed.value);
      reply := Done;
    }

    // The guards of approve_user on the roles it is about to give.
    method ApprovalRefused(actor: UserId, u: UserId, next: seq<Role>) returns (code: Option<int>)
      requires Distinct(userRoles)
      ensures code == ApprovalRefusal(Model(), actor, u, next)
    {
      var previous := set r: Role | (u, r) in userRoles;
      assert previous == RolesOf(Model(), u);
      var forbidden := SuperAdminChangeForbidden(actor, previous, next);
      if forbidden { return Some(403); }
      if SuperAdmin in previous && SuperAdmin !in next {
        var none := NoOtherSuperAdminRow(u);
        if none { return Some(409); }
      }
      code := None;
    }

    // Its effect: the role rows, one audit row for each new role, and the approval.
    method Admit(actor: UserId, u: UserId, next: seq<Role>)
      requires u in users && Distinct(userRoles) && Distinct(next)
      modifies this`users, this`userRoles, this`audit
      ensures users == old(users)[u := old(users)[u].(status := Active)]
      ensures Distinct(userRoles) && RoleSet(userRoles) == WithRoles(old(Model()), u, next)
      ensures audit == old(audit)
                       + RoleRows(actor, RoleAssignment, u, Fresh(next, RolesOf(old(Model()), u)))
                       + [UserRow(Some(actor), Approval, Some(u), map["roles" := RoleNames(next)])]
    {
      var previous := set r: Role | (u, r) in userRoles;
      assert previous == RolesOf(Model(), u);
      ReplaceRoles(u, next);
      RecordRoles(actor, RoleAssignment, u, Fresh(next, previous));
      users := users[u := users[u].(status := Active)];
      RecordAudit(Some(actor), Approval, Some(u), map["roles" := RoleNames(next)]);
    }

    method ApproveUser(credential: Credential, now: Time, u: UserId, names: seq<string>) returns (reply: Reply)
      requires Valid()
      modifies this`users, this`userRoles, this`audit
      ensures Valid()
      ensures (Model(), reply) == Apply(old(Model()), Step(Approve(u, names), credential, now))
    {
      NextKeepsInv(Model(), Step(Approve(u, names), credential, now));
      var authorized := Authorize(Model(), credential, now, USERS_MANAGE);
      if authorized.Err? { return Refused(authorized.error); }
      var actor := authorized.value;
      if u !in users { return Refused(404); }
      if users[u].status != PendingApproval { return Refused(400); }
      if names == [] { return Refused(400); }
      var parsed := ParseRolesInOrder(names);
      if parsed.Err? { return Refused(400); }
      ParsedRolesAreTheNamedOnes(names, SuperAdmin);
      var refusal := ApprovalRefused(actor, u, parsed.value);
      if refusal.Some? { return Refused(refusal.value); }
      Admit(actor, u, parsed.value);
      reply := Done;
    }

    method FindUser(email: string) returns (found: Option<UserId>)
      requires UniqueEmails(users)
      ensures found == FindByEmail(Model(), email)
    {
      if u :| u in users && users[u].email == email {
        found := Some(u);
      } else {
        found := None;
      }
    }

    // The effect of create_admin_user: the account, its role rows and its audit rows.
    method AddAccount(actor: UserId, now: Time, id: UserId, email: string, temporary: string, next: seq<Role>)
      requires Distinct(userRoles) && Distinct(next)
      modifies this`users, this`userRoles, this`audit
      ensures users == old(users)[id := Account(email, temporary, PasswordChangeRequired, 0, Some(now))]
      ensures Distinct(userRoles) && RoleSet(userRoles) == WithRoles(old(Model()), id, next)
      ensures audit == old(audit)
                       + [UserRow(Some(actor), AdminUserCreation, Some(id),
                                  map["email" := Text(email), "roles" := RoleNames(next)])]
                       + RoleRows(actor, RoleAssignment, id, next)
    {
      users := users[id := Account(email, temporary, PasswordChangeRequired, 0, Some(now))];
      ReplaceRoles(id, next);
      RecordAudit(Some(actor), AdminUserCreation, Some(id), map["email" := Text(email), "roles" := RoleNames(next)]);
      RecordRoles(actor, RoleAssignment, id, next);
    }

    method CreateAdminUser(credential: Credential, now: Time, id: UserId, email: string, temporary: string,
                           names: seq<string>) returns (reply: Reply)
      requires Valid()
      modifies this`users, this`userRoles, this`audit
      ensures Valid()
      ensures (Model(), reply) == Apply(old(Model()), Step(CreateUser(id, email, temporary, names), credential, now))
    {
      NextKeepsInv(Model(), Step(CreateUser(id, email, temporary, names), credential, now));
      var authorized := Authorize(Model(), credential, now, USERS_MANAGE);
      if authorized.Err? { return Refused(authorized.error); }
      var actor := authorized.value;
      var found := FindUser(email);
      if found.Some? { return Refused(409); }
      if names == [] { return Refused(400); }
      var parsed := ParseRolesInOrder(names);
      if parsed.Err? { return Refused(400); }
      var next := parsed.value;
      var forbidden := SuperAdminChangeForbidden(actor, {}, next);
      if forbidden { return Refused(403); }
      if id in users { return Refused(500); }
      ParsedRolesAreTheNamedOnes(names, SuperAdmin);
      AddAccount(actor, now, id, email, temporary, next);
      reply := Done;
    }

    method UnlockUser(credential: Credential, now: Time, u: UserId) returns (reply: Reply)
      requires Valid()
      modifies this`users, this`audit, limiter
      ensures Valid()
      ensures (Model(), reply) == Apply(old(Model()), Step(Unlock(u), credential, now))
      ensures limiter.history == old(limiter.history) + if reply.Done? then [Reset(users[u].email)] else []
      ensures Behind() == NextGuarded(old(Behind()), Step(Unlock(u), credential, now))
    {
      NextKeepsInv(Model(), Step(Unlock(u), credential, now));
      var authorized := Authorize(Model(), credential, now, USERS_MANAGE);
      if authorized.Err? { return Refused(authorized.error); }
      if u !in users { return Refused(404); }
      if users[u].status != Locked { return Refused(400); }
      users := users[u := users[u].(status := Active, failures := 0)];
      RecordAudit(Some(authorized.value), AccountUnlock, Some(u), map[]);
      limiter.Clear(users[u].email);
      reply := Done;
    }

    method ResetUserPassword(credential: Credential, now: Time, u: UserId, temporary: string) returns (reply: Reply)
      requires Valid()
      modifies this`users, this`audit, limiter
      ensures Valid()
      ensures (Model(), reply) == Apply(old(Model()), Step(ResetPassword(u, temporary), credential, now))
      ensures limiter.history == old(limiter.history) + if reply.Done? then [Reset(users[u].email)] else []
      ensures Behind() == NextGuarded(old(Behind()), Step(ResetPassword(u, temporary), credential, now))
    {
      NextKeepsInv(Model(), Step(ResetPassword(u, temporary), credential, now));
      var authorized := Authorize(Model(), credential, now, USERS_MANAGE);
      if authorized.Err? { return Refused(authorized.error); }
      var actor := authorized.value;
      if u !in users { return Refused(404); }
      if (u, SuperAdmin) in userRoles && !HasPermission(Model(), actor, MANAGE_SUPER_ADMIN) { return Refused(403); }
      if users[u].status in {Rejected, PendingApproval} { return Refused(400); }
      users := users[u := users[u].(password := temporary, stamp := Some(now), failures := 0,
                                    status := PasswordChangeRequired)];
      RecordAudit(Some(actor), PasswordReset, Some(u),
                  map["target_status" := EnumMember(StatusName(PasswordChangeRequired))]);
      limiter.Clear(users[u].email);
      reply := Done;
    }

    method RejectUser(credential: Credential, now: Time, u: UserId) returns (reply: Reply)
      requires Valid()
      modifies this`users, this`audit
      ensures Valid()
      ensures (Model(), reply) == Apply(old(Model()), Step(Reject(u), credential, now))
    {
      NextKeepsInv(Model(), Step(Reject(u), credential, now));
      var authorized := Authorize(Model(), credential, now, USERS_MANAGE);
      if authorized.Err? { return Refused(authorized.error); }
      if u !in users { return Refused(404); }
      if users[u].status != PendingApproval { return Refused(400); }
      users := users[u := users[u].(status := Rejected)];
      RecordAudit(Some(authorized.value), Rejection, Some(u), map[]);
      reply := Done;
    }

    // create_invitation, as far as accounts are concerned: its audit row.
    method CreateInvitation(credential: Credential, now: Time, invitation: UserId, email: string, role: string)
      returns (reply: Reply)
      requires Valid()
      modifies this`audit
      ensures Valid()
      ensures (Model(), reply) == Apply(old(Model()), Step(Invite(invitation, email, role), credential, now))
    {
      NextKeepsInv(Model(), Step(Invite(invitation, email, role), credential, now));
      var authorized := Authorize(Model(), credential, now, USERS_MANAGE);
      if authorized.Err? { return Refused(authorized.error); }
      var actor, metadata := authorized.value, Safe(Mapping(map["email" := Text(email), "role" := Text(role)]));
      audit := audit + [AuditRow(Some(actor), AdminUserCreation, InvitationEntity, Some(invitation), metadata)];
      reply := Done;
    }

    method ChangeOwnPassword(credential: Credential, now: Time, current: string, next: string) returns (reply: Reply)
      requires Valid()
      modifies this`users, this`audit
      ensures Valid()
      ensures (Model(), reply) == Apply(old(Model()), Step(ChangePassword(current, next), credential, now))
    {
      NextKeepsInv(Model(), Step(ChangePassword(current, next), credential, now));
      var authenticated := Authenticate(users, credential, now, {Active, PasswordChangeRequired});
      if authenticated.Err? { return Refused(authenticated.error); }
      var u := authenticated.value;
      var account := users[u];
      if current != account.password {
        RecordAudit(Some(u), PasswordChangeFailure, Some(u), map["reason" := Text("current_password_incorrect")]);
        return Refused(400);
      }
      if !PasswordAccepted(next) {
        RecordAudit(Some(u), PasswordChangeFailure, Some(u), map["reason" := Text("password_policy")]);
        return Refused(400);
      }
      if next == current {
        RecordAudit(Some(u), PasswordChangeFailure, Some(u), map["reason" := Text("password_unchanged")]);
        return Refused(400);
      }
      account := account.(password := next, stamp := Some(now), failures := 0);
      if account.status == PasswordChangeRequired {
        account := account.(status := Active);
      }
      users := users[u := account];
      RecordAudit(Some(u), PasswordChange, Some(u), map[]);
      reply := Issued(IssueToken(u, users[u].stamp, now));
    }

    method RegisterUser(now: Time, id: UserId, email: string, password: string, signupEnabled: bool)
      returns (reply: Reply)
      requires Valid()
      modifies this`users, this`audit
      ensures Valid()
      ensures (Model(), reply) ==
                Apply(old(Model()), Step(Register(id, email, password, signupEnabled), Undecodable, now))
    {
      NextKeepsInv(Model(), Step(Register(id, email, password, signupEnabled), Undecodable, now));
      if !signupEnabled { return Refused(403); }
      var found := FindUser(email);
      if found.Some? { return Refused(409); }
      if !PasswordAccepted(password) { return Refused(400); }
      if id in users { return Refused(500); }
      users := users[id := Account(email, password, PendingApproval, 0, None)];
      RecordAudit(Some(id), Signup, Some(id), map[]);
      reply := Done;
    }

    // One more failure, and the lock at the fifth.
    method CountFailure(u: UserId)
      requires u in users && CanLogIn(users[u].status)
      modifies this`users, this`audit
      ensures users == old(users)[u := Failed(old(users)[u])]
      ensures audit == old(audit)
        + if Failed(old(users)[u]).status != old(users)[u].status
          then [UserRow(Some(u), AccountLocked, Some(u), map[])] else []
    {
      users := users[u := users[u].(failures := users[u].failures + 1)];
      if users[u].failures >= MAX_FAILED_LOGINS {
        users := users[u := users[u].(status := Locked)];
        RecordAudit(Some(u), AccountLocked, Some(u), map[]);
      }
    }

    // A wrong password or an unknown email: one row, and the counter if it counts.
    method RejectPassword(found: Option<UserId>)
      requires found.Some? ==> found.value in users
      modifies this`users, this`audit
      ensures users == if found.Some? then old(users)[found.value := Failed(old(users)[found.value])] else old(users)
      ensures audit == old(audit) + [ReasonRow(None, LoginFailure, found, "invalid_credentials")]
                       + if found.Some? && Failed(old(users)[found.value]).status != old(users)[found.value].status
                         then [UserRow(found, AccountLocked, found, map[])] else []
    {
      RecordAudit(None, LoginFailure, found, map["reason" := Text("invalid_credentials")]);
      if found.Some? && users[found.value].status in {Active, PasswordChangeRequired} {
        CountFailure(found.value);
      } else if found.Some? {
        assert users == users[found.value := users[found.value]];
      }
    }

    // login_for_access_token, behind the limiter.
    method LogIn(now: Time, email: string, password: string) returns (reply: Reply)
      requires Valid() && limiter.clock <= now
      modifies this`users, this`audit, limiter
      ensures Valid() && limiter.history == old(limiter.history) + [Attempt(email, now)]
      ensures (Model(), reply) == Apply(old(Model()),
                Step(Login(email, password, Admits(Admitted(old(limiter.history), email), now)), Undecodable, now))
      ensures Behind() == NextGuarded(old(Behind()), Step(Login(email, password, true), Undecodable, now))
    {
      NextKeepsInv(Model(), Step(Login(email, password, true), Undecodable, now));
      var admitted := limiter.Check(email, now);
      if !admitted { return Refused(429); }
      var found := FindUser(email);
      if found.None? || password != users[found.value].password {
        RejectPassword(found);
        if found.None? {
          assert audit == old(audit) + [ReasonRow(None, LoginFailure, found, "invalid_credentials")];
        }
        return Refused(401);
      }
      var u := found.value;
      if users[u].status !in {Active, PasswordChangeRequired} {
        RecordAudit(found, LoginFailure, found,
                    map["reason" := Text("inactive_account"), "status" := EnumMember(StatusName(users[u].status))]);
        return Refused(403);
      }
      users := users[u := users[u].(failures := 0)];
      RecordAudit(found, LoginSuccess, found, map[]);
      reply := Issued(IssueToken(u, users[u].stamp, now));
    }
  }
}
