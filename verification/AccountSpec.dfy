// One request of backend/auth.py or backend/admin_routes.py, as a function of the
// stored state. Role assignments are a relation here and rows in AccountService.
module AccountSpec {
  import opened Common
  import opened AuditMetadata
  import opened AccountTypes

  const USERS_MANAGE := "admin.users.manage"
  const ROLES_MANAGE := "admin.roles.manage"
  const MANAGE_SUPER_ADMIN := "admin.roles.manage_super_admin"
  const TOKEN_SECONDS := 604800
  const MICROSECONDS := 1_000_000
  const MAX_FAILED_LOGINS: nat := 5
  const MIN_PASSWORD_LENGTH := 12
  const MAX_PASSWORD_BYTES := 72

  datatype State = State(
    users: map<UserId, Account>,
    roles: set<(UserId, Role)>,
    grants: set<(Role, string)>,
    audit: seq<AuditRow>)

  datatype Reply =
    | Done
    | Issued(token: Credential)
    | Refused(code: int)

  datatype Request =
    | SetStatus(target: UserId, status: string)
    | SetRoles(target: UserId, roles: seq<string>)
    | Approve(target: UserId, roles: seq<string>)
    | CreateUser(newId: UserId, email: string, temporary: string, roles: seq<string>)
    | Unlock(target: UserId)
    | ResetPassword(target: UserId, temporary: string)
    | Reject(target: UserId)
    | Invite(invitation: UserId, email: string, role: string)
    | ChangePassword(current: string, next: string)
    | Register(newId: UserId, email: string, password: string, signupEnabled: bool)
    | Login(email: string, password: string, admitted: bool)

  datatype Step = Step(request: Request, credential: Credential, now: Time)

  // ---------------------------------------------------------------- queries

  ghost function RolesOf(s: State, u: UserId): set<Role> {
    set r: Role | (u, r) in s.roles
  }

  predicate HasRole(s: State, u: UserId, r: Role) {
    (u, r) in s.roles
  }

  // get_effective_permissions and has_permission: some role of the user carries the key.
  predicate HasPermission(s: State, u: UserId, key: string) {
    exists r: Role :: (u, r) in s.roles && (r, key) in s.grants
  }

  ghost function Holders(roles: set<(UserId, Role)>, r: Role): set<UserId> {
    set p | p in roles && p.1 == r :: p.0
  }

  ghost function ActiveSuperAdmins(s: State): set<UserId> {
    set u | u in s.users && s.users[u].status == Active && (u, SuperAdmin) in s.roles
  }

  ghost function FindByEmail(s: State, email: string): Option<UserId> {
    if u :| u in s.users && s.users[u].email == email then Some(u) else None
  }

  ghost predicate UniqueEmails(users: map<UserId, Account>) {
    forall u, v | u in users && v in users && users[u].email == users[v].email :: u == v
  }

  // ----------------------------------------------------------------- tokens

  function IssueToken(u: UserId, stamp: Option<Time>, now: Time): Credential {
    Signed(u, stamp, now / MICROSECONDS + TOKEN_SECONDS)
  }

  // _get_current_user_for_statuses. A token is expired from its `exp` second on
  // (section 4.1.4 of RFC 7519).
  function Authenticate(users: map<UserId, Account>, credential: Credential, now: Time, allowed: set<Status>)
    : Result<UserId, int>
  {
    if credential.Undecodable? || credential.exp * MICROSECONDS <= now then Err(401)
    else if credential.sub !in users then Err(401)
    else if credential.pwd != users[credential.sub].stamp then Err(401)
    else if users[credential.sub].status !in allowed then Err(403)
    else Ok(credential.sub)
  }

  // require_permission: an active user holding the key.
  function Authorize(s: State, credential: Credential, now: Time, key: string): Result<UserId, int> {
    match Authenticate(s.users, credential, now, {Active})
    case Err(code) => Err(code)
    case Ok(actor) => if HasPermission(s, actor, key) then Ok(actor) else Err(403)
  }

  // -------------------------------------------------------------- audit rows

  function UserRow(actor: Option<UserId>, action: Action, u: Option<UserId>, fields: map<string, Value>): AuditRow {
    AuditRow(actor, action, UserEntity, u, Safe(Mapping(fields)))
  }

  function RoleRow(actor: UserId, action: Action, u: UserId, r: Role): AuditRow {
    UserRow(Some(actor), action, Some(u), map["role" := EnumMember(RoleName(r))])
  }

  function RoleRows(actor: UserId, action: Action, u: UserId, roles: seq<Role>): seq<AuditRow> {
    seq(|roles|, i requires 0 <= i < |roles| => RoleRow(actor, action, u, roles[i]))
  }

  function StatusRow(actor: UserId, u: UserId, old_: Status, next: Status): AuditRow {
    var action := if next == Active then Enable else if next == Disabled then Disable else StatusChange;
    UserRow(Some(actor), action, Some(u),
            map["old_status" := EnumMember(StatusName(old_)), "new_status" := EnumMember(StatusName(next))])
  }

  function RoleNames(roles: seq<Role>): Value {
    Items(seq(|roles|, i requires 0 <= i < |roles| => Text(RoleName(roles[i]))))
  }

  function ReasonRow(actor: Option<UserId>, action: Action, u: Option<UserId>, reason: string): AuditRow {
    UserRow(actor, action, u, map["reason" := Text(reason)])
  }

  function Filter(roles: seq<Role>, keep: set<Role>): seq<Role> {
    if roles == [] then []
    else
      var front, last := Filter(roles[..|roles| - 1], keep), roles[|roles| - 1];
      if last in keep then front + [last] else front
  }

  const ALL_ROLES := {SuperAdmin, Admin, Engineer, Viewer, Guest}

  // The roles of `next` that `previous` lacks, in the order of `next`.
  function Fresh(next: seq<Role>, previous: set<Role>): seq<Role> {
    Filter(next, ALL_ROLES - previous)
  }

  // Roles in the order of their names, as `sorted(..., key=value)` gives them.
  const ROLES_BY_NAME := [Admin, Engineer, Guest, SuperAdmin, Viewer]

  function SortedRoles(roles: set<Role>): seq<Role> {
    Filter(ROLES_BY_NAME, roles)
  }

  lemma {:induction false} FilterKeeps(roles: seq<Role>, keep: set<Role>)
    ensures forall r :: r in Filter(roles, keep) <==> r in roles && r in keep
    ensures Distinct(roles) ==> Distinct(Filter(roles, keep))
    decreases |roles|
  {
    if roles != [] {
      var front := roles[..|roles| - 1];
      assert roles == front + [roles[|roles| - 1]];
      FilterKeeps(front, keep);
    }
  }

  lemma SortedRolesAreTheSet(roles: set<Role>)
    ensures Elements(SortedRoles(roles)) == roles
    ensures Distinct(SortedRoles(roles))
  {
    FilterKeeps(ROLES_BY_NAME, roles);
    forall r: Role ensures r in ROLES_BY_NAME {
      var at := match r case Admin => 0 case Engineer => 1 case Guest => 2 case SuperAdmin => 3 case Viewer => 4;
      assert ROLES_BY_NAME[at] == r;
    }
  }

  // ---------------------------------------------------------- password policy

  function Utf8Length(s: string): nat {
    if s == [] then 0
    else
      var c := s[|s| - 1] as int;
      Utf8Length(s[..|s| - 1]) +
      (if c < 0x80 then 1 else if c < 0x800 then 2 else if c < 0x10000 then 3 else 4)
  }

  predicate PasswordAccepted(password: string) {
    |password| >= MIN_PASSWORD_LENGTH && Utf8Length(password) <= MAX_PASSWORD_BYTES
  }

  // ------------------------------------------------------------ transitions

  ghost function WithRoles(s: State, u: UserId, next: seq<Role>): set<(UserId, Role)> {
    (set p | p in s.roles && p.0 != u) + (set r | r in next :: (u, r))
  }

  // Whether the super-admin role changes hands without the permission it needs.
  ghost predicate SuperAdminChangeDenied(s: State, actor: UserId, previous: set<Role>, next: set<Role>) {
    (SuperAdmin in previous) != (SuperAdmin in next) && !HasPermission(s, actor, MANAGE_SUPER_ADMIN)
  }

  // What stands in the way of a new status: the reply code, or None.
  ghost function StatusRefusal(s: State, actor: UserId, u: UserId, next: Status): Option<int> {
    if actor == u && next in {Disabled, Locked, Rejected} then Some(409)
    else if HasRole(s, u, SuperAdmin) && next != Active && ActiveSuperAdmins(s) - {u} == {} then Some(409)
    else None
  }

  ghost function DoSetStatus(s: State, actor: UserId, u: UserId, name: string): (State, Reply) {
    if u !in s.users then (s, Refused(404))
    else match ParseStatus(name)
      case None => (s, Refused(400))
      case Some(next) =>
        match StatusRefusal(s, actor, u, next)
        case Some(code) => (s, Refused(code))
        case None =>
          if s.users[u].status == next then (s, Done)
          else
            (s.(users := s.users[u := s.users[u].(status := next)],
                audit := s.audit + [StatusRow(actor, u, s.users[u].status, next)]), Done)
  }

  ghost predicate RemovesSuperAdmin(s: State, u: UserId, next: seq<Role>) {
    HasRole(s, u, SuperAdmin) && SuperAdmin !in next
  }

  // What stands in the way of a new role set: the reply code, or None.
  ghost function RolesRefusal(s: State, actor: UserId, u: UserId, next: seq<Role>): Option<int> {
    if SuperAdminChangeDenied(s, actor, RolesOf(s, u), Elements(next)) then Some(403)
    else if RemovesSuperAdmin(s, u, next) && actor == u then Some(409)
    else if RemovesSuperAdmin(s, u, next) && Holders(s.roles, SuperAdmin) - {u} == {} then Some(409)
    else None
  }

  ghost function DoSetRoles(s: State, actor: UserId, u: UserId, names: seq<string>): (State, Reply) {
    if u !in s.users then (s, Refused(404))
    else match ParseRoles(names)
      case Err(_) => (s, Refused(400))
      case Ok(next) =>
        match RolesRefusal(s, actor, u, next)
        case Some(code) => (s, Refused(code))
        case None =>
          var previous, wanted := RolesOf(s, u), Elements(next);
          (s.(roles := WithRoles(s, u, next),
              audit := s.audit
                       + RoleRows(actor, RoleAssignment, u, SortedRoles(wanted - previous))
                       + RoleRows(actor, RoleRemoval, u, SortedRoles(previous - wanted))), Done)
  }

  // What stands in the way of approving with these roles: the reply code, or None.
  ghost function ApprovalRefusal(s: State, actor: UserId, u: UserId, next: seq<Role>): Option<int> {
    if SuperAdminChangeDenied(s, actor, RolesOf(s, u), Elements(next)) then Some(403)
    else if RemovesSuperAdmin(s, u, next) && Holders(s.roles, SuperAdmin) - {u} == {} then Some(409)
    else None
  }

  ghost function DoApprove(s: State, actor: UserId, u: UserId, names: seq<string>): (State, Reply) {
    if u !in s.users then (s, Refused(404))
    else if s.users[u].status != PendingApproval then (s, Refused(400))
    else if names == [] then (s, Refused(400))
    else match ParseRoles(names)
      case Err(_) => (s, Refused(400))
      case Ok(next) =>
        match ApprovalRefusal(s, actor, u, next)
        case Some(code) => (s, Refused(code))
        case None =>
          (s.(users := s.users[u := s.users[u].(status := Active)],
              roles := WithRoles(s, u, next),
              audit := s.audit
                       + RoleRows(actor, RoleAssignment, u, Fresh(next, RolesOf(s, u)))
                       + [UserRow(Some(actor), Approval, Some(u), map["roles" := RoleNames(next)])]), Done)
  }

  // A primary key that is already taken fails the insert, and the request with it.
  ghost function DoCreateUser(s: State, actor: UserId, now: Time, id: UserId, email: string, temporary: string,
                              names: seq<string>): (State, Reply)
  {
    if FindByEmail(s, email).Some? then (s, Refused(409))
    else if names == [] then (s, Refused(400))
    else match ParseRoles(names)
      case Err(_) => (s, Refused(400))
      case Ok(next) =>
        if SuperAdminChangeDenied(s, actor, {}, Elements(next)) then (s, Refused(403))
        else if id in s.users then (s, Refused(500))
        else
          (s.(users := s.users[id := Account(email, temporary, PasswordChangeRequired, 0, Some(now))],
              roles := WithRoles(s, id, next),
              audit := s.audit
                       + [UserRow(Some(actor), AdminUserCreation, Some(id),
                                  map["email" := Text(email), "roles" := RoleNames(next)])]
                       + RoleRows(actor, RoleAssignment, id, next)), Done)
  }

  ghost function DoUnlock(s: State, actor: UserId, u: UserId): (State, Reply) {
    if u !in s.users then (s, Refused(404))
    else if s.users[u].status != Locked then (s, Refused(400))
    else
      (s.(users := s.users[u := s.users[u].(status := Active, failures := 0)],
          audit := s.audit + [UserRow(Some(actor), AccountUnlock, Some(u), map[])]), Done)
  }

  // What stands in the way of a reset: the reply code, or None.
  function ResetRefusal(s: State, actor: UserId, u: UserId): Option<int> {
    if u !in s.users then Some(404)
    else if HasRole(s, u, SuperAdmin) && !HasPermission(s, actor, MANAGE_SUPER_ADMIN) then Some(403)
    else if s.users[u].status in {Rejected, PendingApproval} then Some(400)
    else None
  }

  ghost function DoResetPassword(s: State, actor: UserId, now: Time, u: UserId, temporary: string): (State, Reply) {
    match ResetRefusal(s, actor, u)
    case Some(code) => (s, Refused(code))
    case None =>
      (s.(users := s.users[u := s.users[u].(password := temporary, stamp := Some(now), failures := 0,
                                            status := PasswordChangeRequired)],
          audit := s.audit + [UserRow(Some(actor), PasswordReset, Some(u),
                                      map["target_status" := EnumMember(StatusName(PasswordChangeRequired))])]), Done)
  }

  ghost function DoReject(s: State, actor: UserId, u: UserId): (State, Reply) {
    if u !in s.users then (s, Refused(404))
    else if s.users[u].status != PendingApproval then (s, Refused(400))
    else
      (s.(users := s.users[u := s.users[u].(status := Rejected)],
          audit := s.audit + [UserRow(Some(actor), Rejection, Some(u), map[])]), Done)
  }

  // An invitation's audit row reuses the creation action under another entity.
  function InvitationRow(actor: UserId, invitation: UserId, email: string, role: string): AuditRow {
    AuditRow(Some(actor), AdminUserCreation, InvitationEntity, Some(invitation),
             Safe(Mapping(map["email" := Text(email), "role" := Text(role)])))
  }

  function Changed(a: Account, next: string, now: Time): Account {
    a.(password := next, stamp := Some(now), failures := 0,
       status := if a.status == PasswordChangeRequired then Active else a.status)
  }

  function ChangeRefusal(a: Account, current: string, next: string): Option<string> {
    if current != a.password then Some("current_password_incorrect")
    else if !PasswordAccepted(next) then Some("password_policy")
    else if next == current then Some("password_unchanged")
    else None
  }

  ghost function DoChangePassword(s: State, now: Time, u: UserId, current: string, next: string): (State, Reply)
    requires u in s.users
  {
    match ChangeRefusal(s.users[u], current, next)
    case Some(reason) =>
      (s.(audit := s.audit + [ReasonRow(Some(u), PasswordChangeFailure, Some(u), reason)]), Refused(400))
    case None =>
      (s.(users := s.users[u := Changed(s.users[u], next, now)],
          audit := s.audit + [UserRow(Some(u), PasswordChange, Some(u), map[])]),
       Issued(IssueToken(u, Some(now), now)))
  }

  ghost function DoRegister(s: State, id: UserId, email: string, password: string, signupEnabled: bool)
    : (State, Reply)
  {
    if !signupEnabled then (s, Refused(403))
    else if FindByEmail(s, email).Some? then (s, Refused(409))
    else if !PasswordAccepted(password) then (s, Refused(400))
    else if id in s.users then (s, Refused(500))
    else
      (s.(users := s.users[id := Account(email, password, PendingApproval, 0, None)],
          audit := s.audit + [UserRow(Some(id), Signup, Some(id), map[])]), Done)
  }

  predicate CanLogIn(status: Status) {
    status in {Active, PasswordChangeRequired}
  }

  // The account after one more bad password.
  function Failed(a: Account): Account {
    if !CanLogIn(a.status) then a
    else if a.failures + 1 >= MAX_FAILED_LOGINS then a.(failures := a.failures + 1, status := Locked)
    else a.(failures := a.failures + 1)
  }

  ghost function DoLogin(s: State, now: Time, email: string, password: string, admitted: bool): (State, Reply) {
    if !admitted then (s, Refused(429))
    else
      var found := FindByEmail(s, email);
      if found.None? then
        (s.(audit := s.audit + [ReasonRow(None, LoginFailure, None, "invalid_credentials")]), Refused(401))
      else
        var u := found.value;
        var a := s.users[u];
        if password != a.password then
          (s.(users := s.users[u := Failed(a)],
              audit := s.audit + [ReasonRow(None, LoginFailure, found, "invalid_credentials")]
                       + if Failed(a).status != a.status then [UserRow(found, AccountLocked, found, map[])] else []),
           Refused(401))
        else if !CanLogIn(a.status) then
          (s.(audit := s.audit + [UserRow(found, LoginFailure, found,
                                          map["reason" := Text("inactive_account"),
                                              "status" := EnumMember(StatusName(a.status))])]), Refused(403))
        else
          (s.(users := s.users[u := a.(failures := 0)],
              audit := s.audit + [UserRow(found, LoginSuccess, found, map[])]),
           Issued(IssueToken(u, a.stamp, now)))
  }

  // The permission an administrative request asks for; None for the user's own requests.
  function Permission(request: Request): Option<string> {
    match request
    case SetRoles(_, _) => Some(ROLES_MANAGE)
    case ChangePassword(_, _) => None
    case Register(_, _, _, _) => None
    case Login(_, _, _) => None
    case _ => Some(USERS_MANAGE)
  }

  ghost function Administer(s: State, actor: UserId, now: Time, request: Request): (State, Reply)
    requires Permission(request).Some?
  {
    match request
    case SetStatus(u, name) => DoSetStatus(s, actor, u, name)
    case SetRoles(u, names) => DoSetRoles(s, actor, u, names)
    case Approve(u, names) => DoApprove(s, actor, u, names)
    case CreateUser(id, email, temporary, names) => DoCreateUser(s, actor, now, id, email, temporary, names)
    case Unlock(u) => DoUnlock(s, actor, u)
    case ResetPassword(u, temporary) => DoResetPassword(s, actor, now, u, temporary)
    case Reject(u) => DoReject(s, actor, u)
    case Invite(id, email, role) => (s.(audit := s.audit + [InvitationRow(actor, id, email, role)]), Done)
  }

  // One request, as one atomic step.
  ghost function Apply(s: State, step: Step): (State, Reply) {
    match step.request
    case ChangePassword(current, next) => (
      match Authenticate(s.users, step.credential, step.now, {Active, PasswordChangeRequired})
      case Err(code) => (s, Refused(code))
      case Ok(u) => DoChangePassword(s, step.now, u, current, next))
    case Register(id, email, password, enabled) => DoRegister(s, id, email, password, enabled)
    case Login(email, password, admitted) => DoLogin(s, step.now, email, password, admitted)
    case _ =>
      match Authorize(s, step.credential, step.now, Permission(step.request).value)
      case Err(code) => (s, Refused(code))
      case Ok(actor) => Administer(s, actor, step.now, step.request)
  }

  ghost function Next(s: State, step: Step): State {
    Apply(s, step).0
  }

  ghost function Run(s: State, steps: seq<Step>): State {
    if steps == [] then s else Next(Run(s, steps[..|steps| - 1]), steps[|steps| - 1])
  }

  lemma {:induction false} RunAppend(s: State, before: seq<Step>, after: seq<Step>)
    ensures Run(s, before + after) == Run(Run(s, before), after)
    decreases |after|
  {
    if after == [] {
      assert before + after == before;
    } else {
      var front := after[..|after| - 1];
      RunAppend(s, before, front);
      assert (before + after)[..|before + after| - 1] == before + front;
    }
  }

  // --------------------------------------------------------------- invariant

  // Emails are unique and every assignment belongs to an account.
  ghost predicate Inv(s: State) {
    && UniqueEmails(s.users)
    && (forall p | p in s.roles :: p.0 in s.users)
  }

  // What no request takes away.
  ghost predicate Extends(s: State, t: State) {
    s.users.Keys <= t.users.Keys && t.grants == s.grants && s.audit <= t.audit
  }

  // The two ways a request touches the accounts: one is updated, or one is added.
  lemma UpdateKeepsInv(s: State, u: UserId, a: Account, roles: set<(UserId, Role)>, audit: seq<AuditRow>)
    requires Inv(s) && u in s.users && a.email == s.users[u].email
    requires forall p | p in roles :: p.0 in s.users
    ensures Inv(State(s.users[u := a], roles, s.grants, audit))
  {
    var users := s.users[u := a];
    assert forall v | v in users :: v in s.users && users[v].email == s.users[v].email;
  }

  lemma InsertKeepsInv(s: State, u: UserId, a: Account, roles: set<(UserId, Role)>, audit: seq<AuditRow>)
    requires Inv(s) && u !in s.users && FindByEmail(s, a.email).None?
    requires forall p | p in roles :: p.0 in s.users || p.0 == u
    ensures Inv(State(s.users[u := a], roles, s.grants, audit))
  {
    var users := s.users[u := a];
    assert forall v | v in s.users :: s.users[v].email != a.email;
    assert forall v | v in users :: v == u || (v in s.users && users[v] == s.users[v]);
  }

  lemma SetRolesKeepsInv(s: State, actor: UserId, u: UserId, names: seq<string>)
    requires Inv(s)
    ensures var t := DoSetRoles(s, actor, u, names).0; Inv(t) && Extends(s, t)
  {
  }

  lemma ApproveKeepsInv(s: State, actor: UserId, u: UserId, names: seq<string>)
    requires Inv(s)
    ensures var t := DoApprove(s, actor, u, names).0; Inv(t) && Extends(s, t)
  {
    var t := DoApprove(s, actor, u, names).0;
    if t != s {
      UpdateKeepsInv(s, u, t.users[u], t.roles, t.audit);
    }
  }

  lemma CreateUserKeepsInv(s: State, actor: UserId, now: Time, id: UserId, email: string, temporary: string,
                           names: seq<string>)
    requires Inv(s)
    ensures var t := DoCreateUser(s, actor, now, id, email, temporary, names).0; Inv(t) && Extends(s, t)
  {
    var t := DoCreateUser(s, actor, now, id, email, temporary, names).0;
    if t != s {
      InsertKeepsInv(s, id, t.users[id], t.roles, t.audit);
    }
  }

  lemma AdministerKeepsInv(s: State, actor: UserId, now: Time, request: Request)
    requires Inv(s) && Permission(request).Some?
    ensures var t := Administer(s, actor, now, request).0; Inv(t) && Extends(s, t)
  {
    var t := Administer(s, actor, now, request).0;
    match request
    case SetRoles(u, names) => SetRolesKeepsInv(s, actor, u, names);
    case Approve(u, names) => ApproveKeepsInv(s, actor, u, names);
    case CreateUser(id, email, temporary, names) => CreateUserKeepsInv(s, actor, now, id, email, temporary, names);
    case Invite(_, _, _) =>
    case SetStatus(u, _) => if t != s { UpdateKeepsInv(s, u, t.users[u], t.roles, t.audit); }
    case Unlock(u) => if t != s { UpdateKeepsInv(s, u, t.users[u], t.roles, t.audit); }
    case ResetPassword(u, _) => if t != s { UpdateKeepsInv(s, u, t.users[u], t.roles, t.audit); }
    case Reject(u) => if t != s { UpdateKeepsInv(s, u, t.users[u], t.roles, t.audit); }
  }

  lemma LoginKeepsInv(s: State, now: Time, email: string, password: string, admitted: bool)
    requires Inv(s)
    ensures var t := DoLogin(s, now, email, password, admitted).0; Inv(t) && Extends(s, t)
  {
    var t := DoLogin(s, now, email, password, admitted).0;
    var found := FindByEmail(s, email);
    if t.users != s.users {
      UpdateKeepsInv(s, found.value, t.users[found.value], t.roles, t.audit);
    }
  }

  lemma NextKeepsInv(s: State, step: Step)
    requires Inv(s)
    ensures Inv(Next(s, step)) && Extends(s, Next(s, step))
  {
    var t := Next(s, step);
    match step.request
    case Register(id, email, password, enabled) =>
      if t != s {
        InsertKeepsInv(s, id, t.users[id], t.roles, t.audit);
      }
    case ChangePassword(_, _) =>
      var u := Authenticate(s.users, step.credential, step.now, {Active, PasswordChangeRequired});
      if u.Ok? && t.users != s.users {
        UpdateKeepsInv(s, u.value, t.users[u.value], t.roles, t.audit);
      }
    case Login(email, password, admitted) =>
      LoginKeepsInv(s, step.now, email, password, admitted);
    case _ =>
      var authorized := Authorize(s, step.credential, step.now, Permission(step.request).value);
      if authorized.Ok? {
        AdministerKeepsInv(s, authorized.value, step.now, step.request);
      }
  }

  lemma {:induction false} RunKeepsInv(s: State, steps: seq<Step>)
    requires Inv(s)
    ensures Inv(Run(s, steps)) && Extends(s, Run(s, steps))
    decreases |steps|
  {
    if steps != [] {
      RunKeepsInv(s, steps[..|steps| - 1]);
      NextKeepsInv(Run(s, steps[..|steps| - 1]), steps[|steps| - 1]);
    }
  }
}
