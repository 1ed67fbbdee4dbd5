// What passwords are for: who can change one, and which one logs in.
module Passwords {
  import opened Common
  import opened AccountTypes
  import opened AccountSpec
  import opened Authority
  import Utf8

  // ------------------------------------------------------------------------ the policy

  lemma {:induction false} LengthsAreInBytes(s: string)
    ensures Utf8Length(s) == |Utf8.EncodeText(s)|
    decreases |s|
  {
    if s != "" {
      LengthsAreInBytes(s[..|s| - 1]);
    }
  }

  // The policy: at least 12 characters, and at most 72 bytes of UTF-8.
  lemma ThePolicyCountsBytes(password: string)
    ensures PasswordAccepted(password) <==> |password| >= 12 && |Utf8.EncodeText(password)| <= 72
  {
    LengthsAreInBytes(password);
  }

  // ------------------------------------------------------------ changing a password

  // The one who changes a password: signed in on an account in use, with the password in
  // force, and with another one that the policy accepts.
  ghost predicate MayChange(s: State, step: Step)
    requires step.request.ChangePassword?
  {
    && Current(s, step.credential, step.now)
    && s.users[step.credential.sub].status in {Active, PasswordChangeRequired}
    && step.request.current == s.users[step.credential.sub].password
    && step.request.next != step.request.current
    && PasswordAccepted(step.request.next)
  }

  // A change is answered with a token exactly then, and then alone moves any account.
  lemma ChangesNeedTheCurrentPassword(s: State, step: Step)
    requires step.request.ChangePassword?
    ensures Apply(s, step).1.Issued? <==> MayChange(s, step)
    ensures !MayChange(s, step) ==> Next(s, step).users == s.users && Apply(s, step).1.Refused?
    ensures MayChange(s, step) ==>
              var u, a := step.credential.sub, s.users[step.credential.sub];
              Next(s, step).users == s.users[u := Account(a.email, step.request.next, Active, 0, Some(step.now))]
  {
  }

  // A reset is done for a user manager, on an account that has been let in and, if it is
  // a super-admin's, with the guarded key.
  ghost predicate MayReset(s: State, step: Step)
    requires step.request.ResetPassword?
  {
    var u := step.request.target;
    && MayAsk(s, step) && u in s.users && s.users[u].status !in {Rejected, PendingApproval}
    && ((u, SuperAdmin) in s.roles ==> Holds(s, step.credential.sub, "admin.roles.manage_super_admin"))
  }

  lemma ResetsAreDoneExactly(s: State, step: Step)
    requires step.request.ResetPassword?
    ensures Apply(s, step).1.Done? <==> MayReset(s, step)
    ensures !MayReset(s, step) ==> Next(s, step) == s
    ensures MayReset(s, step) ==>
              var u, a := step.request.target, s.users[step.request.target];
              Next(s, step).users ==
                s.users[u := Account(a.email, step.request.temporary, PasswordChangeRequired, 0, Some(step.now))]
  {
    AdministrationIsGranted(s, step);
    if MayAsk(s, step) {
      assert HasPermission(s, step.credential.sub, MANAGE_SUPER_ADMIN)
        <==> Holds(s, step.credential.sub, "admin.roles.manage_super_admin");
    }
  }

  lemma AdministeredPassword(s: State, actor: UserId, now: Time, request: Request, u: UserId)
    requires Inv(s) && u in s.users && Permission(request).Some? && !request.ResetPassword?
    ensures u in Administer(s, actor, now, request).0.users
    ensures Administer(s, actor, now, request).0.users[u].password == s.users[u].password
  {
  }

  // No other request moves a password.
  lemma OtherRequestsMoveNoPassword(s: State, step: Step, u: UserId)
    requires Inv(s) && u in s.users && !step.request.ChangePassword? && !step.request.ResetPassword?
    ensures u in Next(s, step).users && Next(s, step).users[u].password == s.users[u].password
  {
    if Administrative(step.request) {
      AdministrationIsGranted(s, step);
      if MayAsk(s, step) {
        AdministeredPassword(s, step.credential.sub, step.now, step.request, u);
      }
    }
  }

  // ---------------------------------------------------------------------- logging in

  predicate HasPassword(s: State, u: UserId, email: string, password: string) {
    u in s.users && s.users[u].email == email && s.users[u].password == password
  }

  lemma FoundIsTheOne(s: State, u: UserId)
    requires Inv(s) && u in s.users
    ensures FindByEmail(s, s.users[u].email) == Some(u)
  {
  }

  // The answer to a login that the limiter lets through: a token for the one account with
  // this email and password if its status allows, 403 if only the status does not, and
  // 401 otherwise.
  lemma LoginsAreAnswered(s: State, step: Step, u: UserId)
    requires Inv(s) && step.request.Login? && step.request.admitted
    ensures var email, password := step.request.email, step.request.password;
            && (HasPassword(s, u, email, password) && s.users[u].status in {Active, PasswordChangeRequired} ==>
                  Apply(s, step).1 == Issued(IssueToken(u, s.users[u].stamp, step.now)))
            && (HasPassword(s, u, email, password) && s.users[u].status !in {Active, PasswordChangeRequired} ==>
                  Apply(s, step).1 == Refused(403))
            && ((forall v :: !HasPassword(s, v, email, password)) ==> Apply(s, step).1 == Refused(401))
  {
    if u in s.users {
      FoundIsTheOne(s, u);
    }
    var found := FindByEmail(s, step.request.email);
    if found.Some? && s.users[found.value].password == step.request.password {
      assert HasPassword(s, found.value, step.request.email, step.request.password);
    }
  }

  lemma OnlyOneHasTheEmail(s: State, u: UserId, password: string)
    requires Inv(s) && u in s.users && s.users[u].password != password
    ensures forall v :: !HasPassword(s, v, s.users[u].email, password)
  {
  }

  // After a change the new password logs in, and the old one no more.
  lemma TheNewPasswordLogsIn(s: State, step: Step, login: Step)
    requires Inv(s) && step.request.ChangePassword? && MayChange(s, step)
    requires login.request.Login? && login.request.admitted
    requires login.request.email == s.users[step.credential.sub].email
    ensures login.request.password == step.request.next ==>
              Apply(Next(s, step), login).1 == Issued(IssueToken(step.credential.sub, Some(step.now), login.now))
    ensures login.request.password == step.request.current ==> Apply(Next(s, step), login).1 == Refused(401)
  {
    var t, u := Next(s, step), step.credential.sub;
    NextKeepsInv(s, step);
    ChangesNeedTheCurrentPassword(s, step);
    LoginsAreAnswered(t, login, u);
    if login.request.password == step.request.current {
      OnlyOneHasTheEmail(t, u, login.request.password);
    }
  }

  // After a reset the temporary password logs in, and no other one does.
  lemma TheTemporaryPasswordLogsIn(s: State, step: Step, login: Step)
    requires Inv(s) && step.request.ResetPassword? && MayReset(s, step)
    requires login.request.Login? && login.request.admitted
    requires login.request.email == s.users[step.request.target].email
    ensures Apply(Next(s, step), login).1 ==
              if login.request.password == step.request.temporary
              then Issued(IssueToken(step.request.target, Some(step.now), login.now)) else Refused(401)
  {
    var t, u := Next(s, step), step.request.target;
    NextKeepsInv(s, step);
    ResetsAreDoneExactly(s, step);
    LoginsAreAnswered(t, login, u);
    if login.request.password != step.request.temporary {
      OnlyOneHasTheEmail(t, u, login.request.password);
    }
  }

  // Self-registration is accepted exactly while it is enabled, for a free email, an
  // acceptable password and a new id.
  lemma RegistrationsAreAcceptedExactly(s: State, step: Step)
    requires step.request.Register?
    ensures Apply(s, step).1.Done? <==>
              && step.request.signupEnabled && PasswordAccepted(step.request.password)
              && (forall v | v in s.users :: s.users[v].email != step.request.email)
              && step.request.newId !in s.users
    ensures !Apply(s, step).1.Done? ==> Next(s, step) == s
  {
  }
}
