// Accounts, roles and audit rows of backend/models.py, with the parsing of role
// and status names.
module AccountTypes {
  import opened Common
  import opened AuditMetadata

  datatype Role = SuperAdmin | Admin | Engineer | Viewer | Guest

  datatype Status =
    | PendingApproval
    | Active
    | Disabled
    | Locked
    | Rejected
    | PasswordChangeRequired

  // A primary key (a uuid4, read as a number).
  type UserId = nat

  // Instants are microseconds since the epoch.
  type Time = int

  // `password` stands for the stored hash: verification is equality. `stamp` is
  // password_changed_at, whose ISO text is the `pwd` claim of every token.
  datatype Account = Account(
    email: string,
    password: string,
    status: Status,
    failures: nat,
    stamp: Option<Time>)

  datatype Action =
    | Signup
    | AdminUserCreation
    | RoleAssignment
    | RoleRemoval
    | Approval
    | Enable
    | Disable
    | StatusChange
    | AccountUnlock
    | PasswordReset
    | Rejection
    | LoginFailure
    | AccountLocked
    | LoginSuccess
    | PasswordChange
    | PasswordChangeFailure

  datatype Entity = UserEntity | InvitationEntity

  datatype AuditRow = AuditRow(
    actor: Option<UserId>,
    action: Action,
    entity: Entity,
    entityId: Option<UserId>,
    metadata: Value)

  // A bearer token whose signature checked out, or anything that did not decode.
  datatype Credential =
    | Signed(sub: UserId, pwd: Option<Time>, exp: int)
    | Undecodable

  function RoleName(role: Role): string {
    match role
    case SuperAdmin => "super_admin"
    case Admin => "admin"
    case Engineer => "engineer"
    case Viewer => "viewer"
    case Guest => "guest"
  }

  function ParseRole(name: string): Option<Role> {
    if name == "super_admin" then Some(SuperAdmin)
    else if name == "admin" then Some(Admin)
    else if name == "engineer" then Some(Engineer)
    else if name == "viewer" then Some(Viewer)
    else if name == "guest" then Some(Guest)
    else None
  }

  function StatusName(status: Status): string {
    match status
    case PendingApproval => "pending_approval"
    case Active => "active"
    case Disabled => "disabled"
    case Locked => "locked"
    case Rejected => "rejected"
    case PasswordChangeRequired => "password_change_required"
  }

  function ParseStatus(name: string): Option<Status> {
    if name == "pending_approval" then Some(PendingApproval)
    else if name == "active" then Some(Active)
    else if name == "disabled" then Some(Disabled)
    else if name == "locked" then Some(Locked)
    else if name == "rejected" then Some(Rejected)
    else if name == "password_change_required" then Some(PasswordChangeRequired)
    else None
  }

  lemma RoleNamesRoundTrip(role: Role, name: string)
    ensures ParseRole(RoleName(role)) == Some(role)
    ensures ParseRole(name) == Some(role) ==> name == RoleName(role)
  {
  }

  lemma StatusNamesRoundTrip(status: Status, name: string)
    ensures ParseStatus(StatusName(status)) == Some(status)
    ensures ParseStatus(name) == Some(status) ==> name == StatusName(status)
  {
  }

  // _parse_roles: the known roles in order of first occurrence, or the first
  // unknown name.
  function ParseRoles(names: seq<string>): Result<seq<Role>, string> {
    if names == [] then Ok([])
    else
      var last := names[|names| - 1];
      match ParseRoles(names[..|names| - 1])
      case Err(unknown) => Err(unknown)
      case Ok(roles) =>
        match ParseRole(last)
        case None => Err(last)
        case Some(role) => Ok(if role in roles then roles else roles + [role])
  }

  predicate Names(names: seq<string>, role: Role) {
    exists i | 0 <= i < |names| :: ParseRole(names[i]) == Some(role)
  }

  predicate FirstUnknown(names: seq<string>, unknown: string, i: nat) {
    && i < |names| && names[i] == unknown && ParseRole(unknown).None?
    && forall j | 0 <= j < i :: ParseRole(names[j]).Some?
  }

  lemma NamesAppend(front: seq<string>, last: string, role: Role)
    ensures Names(front + [last], role) <==> Names(front, role) || ParseRole(last) == Some(role)
  {
    var all := front + [last];
    assert all[|front|] == last;
    if Names(front, role) {
      var i :| 0 <= i < |front| && ParseRole(front[i]) == Some(role);
      assert ParseRole(all[i]) == Some(role);
    }
  }

  // What a successful parse returns, and when it succeeds.
  lemma {:induction false} ParsedRolesAreTheNamedOnes(names: seq<string>, role: Role)
    ensures ParseRoles(names).Ok? <==> forall i | 0 <= i < |names| :: ParseRole(names[i]).Some?
    ensures ParseRoles(names).Ok? ==>
              && Distinct(ParseRoles(names).value)
              && (role in ParseRoles(names).value <==> Names(names, role))
              && (ParseRoles(names).value == [] <==> names == [])
  {
    if names == [] {
    } else {
      var front, last := names[..|names| - 1], names[|names| - 1];
      assert names == front + [last];
      ParsedRolesAreTheNamedOnes(front, role);
      NamesAppend(front, last, role);
    }
  }

  // What a failed parse reports.
  lemma {:induction false} TheFirstUnknownIsReported(names: seq<string>)
    requires ParseRoles(names).Err?
    ensures exists i: nat :: FirstUnknown(names, ParseRoles(names).error, i)
  {
    var front := names[..|names| - 1];
    if ParseRoles(front).Err? {
      TheFirstUnknownIsReported(front);
      var i: nat :| FirstUnknown(front, ParseRoles(front).error, i);
      assert FirstUnknown(names, ParseRoles(names).error, i);
    } else {
      ParsedRolesAreTheNamedOnes(front, Guest);
      assert FirstUnknown(names, ParseRoles(names).error, |front|);
    }
  }

  // The loop of _parse_roles, which keeps the unknown names aside until the end.
  method ParseRolesInOrder(names: seq<string>) returns (result: Result<seq<Role>, string>)
    ensures result == ParseRoles(names)
  {
    var parsed: seq<Role> := [];
    var invalid: seq<string> := [];
    for i := 0 to |names|
      invariant invalid == [] ==> ParseRoles(names[..i]) == Ok(parsed)
      invariant invalid != [] ==> ParseRoles(names[..i]) == Err(invalid[0])
    {
      assert names[..i + 1][..i] == names[..i];
      match ParseRole(names[i])
      case None => invalid := invalid + [names[i]];
      case Some(role) =>
        if role !in parsed {
          parsed := parsed + [role];
        }
    }
    assert names[..|names|] == names;
    if invalid != [] {
      return Err(invalid[0]);
    }
    return Ok(parsed);
  }
}
