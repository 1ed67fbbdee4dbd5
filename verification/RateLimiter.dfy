// The sliding-window login limiter of backend/auth.py, against the full history of
// what it was asked.
module RateLimiter {

  const MAX_ATTEMPTS := 5
  const WINDOW := 300_000_000
  const MAX_TRACKED_LOGIN_KEYS := 10_000

  datatype Event =
    | Attempt(email: string, at: int)
    | Reset(email: string)

  // The stamps still inside the window, in order.
  function Recent(stamps: seq<int>, now: int): seq<int> {
    if stamps == [] then []
    else
      var front, last := Recent(stamps[..|stamps| - 1], now), stamps[|stamps| - 1];
      if now - last < WINDOW then front + [last] else front
  }

  predicate Admits(stamps: seq<int>, now: int) {
    |Recent(stamps, now)| < MAX_ATTEMPTS
  }

  // The ideal limiter: every attempt admitted for the email since its last reset,
  // with nothing ever forgotten.
  function Admitted(history: seq<Event>, email: string): seq<int> {
    if history == [] then []
    else
      var before, last := history[..|history| - 1], history[|history| - 1];
      if last.email != email then Admitted(before, email)
      else match last
        case Reset(_) => []
        case Attempt(_, at) =>
          if Admits(Admitted(before, email), at) then Admitted(before, email) + [at] else Admitted(before, email)
  }

  predicate Ascending(stamps: seq<int>) {
    forall i, j | 0 <= i < j < |stamps| :: stamps[i] <= stamps[j]
  }

  // A history whose attempts come with a non-decreasing clock, none later than now.
  predicate Timed(history: seq<Event>, now: int) {
    forall i | 0 <= i < |history| && history[i].Attempt? ::
      && history[i].at <= now
      && forall j | 0 <= j < i && history[j].Attempt? :: history[j].at <= history[i].at
  }

  lemma {:induction false} RecentAppend(a: seq<int>, b: seq<int>, now: int)
    ensures Recent(a + b, now) == Recent(a, now) + Recent(b, now)
    decreases |b|
  {
    if b == [] {
      assert a + b == a;
    } else {
      assert (a + b)[..|a + b| - 1] == a + b[..|b| - 1];
      RecentAppend(a, b[..|b| - 1], now);
    }
  }

  lemma {:induction false} RecentOfRecent(stamps: seq<int>, then_: int, now: int)
    requires then_ <= now
    ensures Recent(Recent(stamps, then_), now) == Recent(stamps, now)
    decreases |stamps|
  {
    if stamps != [] {
      var front, last := stamps[..|stamps| - 1], stamps[|stamps| - 1];
      RecentOfRecent(front, then_, now);
      RecentAppend(Recent(front, then_), [last], now);
      assert [last][..0] == [];
    }
  }

  lemma {:induction false} RecentBounds(stamps: seq<int>, now: int)
    ensures |Recent(stamps, now)| <= |stamps|
    ensures forall t :: t in Recent(stamps, now) <==> t in stamps && now - t < WINDOW
    decreases |stamps|
  {
    if stamps != [] {
      RecentBounds(stamps[..|stamps| - 1], now);
      assert stamps == stamps[..|stamps| - 1] + [stamps[|stamps| - 1]];
    }
  }

  // In ascending stamps, everything from the first recent one on is recent.
  lemma {:induction false} RecentCountsASuffix(stamps: seq<int>, k: nat, now: int)
    requires Ascending(stamps) && k < |stamps| && now - stamps[k] < WINDOW
    ensures |Recent(stamps, now)| >= |stamps| - k
    decreases |stamps|
  {
    if k < |stamps| - 1 {
      RecentCountsASuffix(stamps[..|stamps| - 1], k, now);
    }
  }

  lemma {:induction false} AdmittedAscends(history: seq<Event>, email: string, now: int)
    requires Timed(history, now)
    ensures Ascending(Admitted(history, email))
    ensures forall i | 0 <= i < |Admitted(history, email)| :: Admitted(history, email)[i] <= now
    decreases |history|
  {
    if history != [] {
      var before, last := history[..|history| - 1], history[|history| - 1];
      AdmittedAscends(before, email, if last.Attempt? then last.at else now);
    }
  }

  // What the limiter is for: six admissions of one email with no reset between
  // them span at least the whole window.
  lemma {:induction false} AtMostFiveInAnyWindow(history: seq<Event>, email: string, now: int, i: nat)
    requires Timed(history, now)
    requires i + 5 < |Admitted(history, email)|
    ensures Admitted(history, email)[i + 5] - Admitted(history, email)[i] >= 300 * 1_000_000
    decreases |history|
  {
    var before, last := history[..|history| - 1], history[|history| - 1];
    var stamps := Admitted(before, email);
    var then_ := if last.Attempt? then last.at else now;
    if i + MAX_ATTEMPTS < |stamps| {
      AtMostFiveInAnyWindow(before, email, then_, i);
    } else {
      AdmittedAscends(before, email, then_);
      if last.at - stamps[i] < WINDOW {
        RecentCountsASuffix(stamps, i, last.at);
      }
    }
  }

  lemma AdmittedNext(history: seq<Event>, event: Event, email: string)
    ensures Admitted(history + [event], email) ==
              if event.email != email then Admitted(history, email)
              else if event.Reset? then []
              else if Admits(Admitted(history, email), event.at) then Admitted(history, email) + [event.at]
              else Admitted(history, email)
  {
    assert (history + [event])[..|history|] == history;
  }

  // A reset forgets the email's admissions, and no other email's.
  lemma ResetsForget(history: seq<Event>, email: string, other: string)
    ensures Admitted(history + [Reset(email)], other) == if other == email then [] else Admitted(history, other)
  {
    AdmittedNext(history, Reset(email), other);
  }

  // A stored list that stands for a full one as far as the window reaches.
  predicate Agrees(stored: seq<int>, full: seq<int>, now: int) {
    Recent(stored, now) == Recent(full, now)
  }

  lemma AgreementLasts(stored: seq<int>, full: seq<int>, then_: int, now: int)
    requires then_ <= now && Agrees(stored, full, then_)
    ensures Agrees(stored, full, now)
  {
    RecentOfRecent(stored, then_, now);
    RecentOfRecent(full, then_, now);
  }

  lemma FilteringAgrees(stored: seq<int>, full: seq<int>, now: int)
    requires Agrees(stored, full, now)
    ensures Agrees(Recent(stored, now), full, now)
    ensures Agrees(Recent(stored, now) + [now], full + [now], now)
    ensures |Recent(stored, now)| <= |stored|
  {
    RecentOfRecent(stored, now, now);
    RecentAppend(Recent(stored, now), [now], now);
    RecentAppend(full, [now], now);
    RecentBounds(stored, now);
  }

  lemma ExpiredMeansNoneRecent(stamps: seq<int>, now: int)
    ensures (forall t | t in stamps :: now - t >= WINDOW) <==> Recent(stamps, now) == []
  {
    RecentBounds(stamps, now);
    if Recent(stamps, now) != [] {
      var first := Recent(stamps, now)[0];
      assert first in Recent(stamps, now);
    } else {
      forall t | t in stamps ensures now - t >= WINDOW {
        assert t !in Recent(stamps, now);
      }
    }
  }

  lemma {:induction false} OldPrefixesAreNotRecent(stamps: seq<int>, k: nat, now: int)
    requires Ascending(stamps) && k <= |stamps| && (k > 0 ==> now - stamps[k - 1] >= WINDOW)
    ensures |Recent(stamps, now)| <= |stamps| - k
    decreases |stamps|
  {
    if k == |stamps| {
      ExpiredMeansNoneRecent(stamps, now);
    } else {
      OldPrefixesAreNotRecent(stamps[..|stamps| - 1], k, now);
    }
  }

  // The decision in full: an attempt is turned down exactly when the fifth last admission
  // since the last reset is less than 300 seconds old.
  lemma AdmitsExactly(history: seq<Event>, email: string, now: int)
    requires Timed(history, now)
    ensures var stamps := Admitted(history, email);
            Admits(stamps, now) <==> |stamps| < 5 || now - stamps[|stamps| - 5] >= 300 * 1_000_000
  {
    var stamps := Admitted(history, email);
    AdmittedAscends(history, email, now);
    RecentBounds(stamps, now);
    if |stamps| >= 5 {
      if now - stamps[|stamps| - 5] >= WINDOW {
        OldPrefixesAreNotRecent(stamps, |stamps| - 4, now);
      } else {
        RecentCountsASuffix(stamps, |stamps| - 5, now);
      }
    }
  }

  // ------------------------------------------------- the table of stored stamps

  function StoredIn(attempts: map<string, seq<int>>, email: string): seq<int> {
    if email in attempts then attempts[email] else []
  }

  // A table that agrees with the full history of one email, on what the window reaches.
  predicate TracksOne(attempts: map<string, seq<int>>, history: seq<Event>, now: int, email: string) {
    && Agrees(StoredIn(attempts, email), Admitted(history, email), now)
    && |StoredIn(attempts, email)| <= MAX_ATTEMPTS
  }

  ghost predicate Tracks(attempts: map<string, seq<int>>, history: seq<Event>, now: int) {
    forall email :: TracksOne(attempts, history, now, email)
  }

  lemma TracksLater(attempts: map<string, seq<int>>, history: seq<Event>, then_: int, now: int)
    requires Tracks(attempts, history, then_) && then_ <= now
    ensures Tracks(attempts, history, now)
  {
    forall e ensures TracksOne(attempts, history, now, e) {
      assert TracksOne(attempts, history, then_, e);
      AgreementLasts(StoredIn(attempts, e), Admitted(history, e), then_, now);
    }
  }

  function Expired(attempts: map<string, seq<int>>, now: int): (expired: set<string>)
    ensures forall key :: key in expired <==> key in attempts && Recent(attempts[key], now) == []
  {
    forall key | key in attempts
      ensures (forall t | t in attempts[key] :: now - t >= WINDOW) <==> Recent(attempts[key], now) == []
    {
      ExpiredMeansNoneRecent(attempts[key], now);
    }
    set key | key in attempts && forall t | t in attempts[key] :: now - t >= WINDOW
  }

  lemma TracksWithoutExpired(attempts: map<string, seq<int>>, history: seq<Event>, now: int)
    requires Tracks(attempts, history, now)
    ensures Tracks(attempts - Expired(attempts, now), history, now)
  {
    forall e ensures TracksOne(attempts - Expired(attempts, now), history, now, e) {
      assert TracksOne(attempts, history, now, e);
    }
  }

  // What one admission decision stores.
  function Filtered(stored: seq<int>, now: int): seq<int> {
    if Admits(stored, now) then Recent(stored, now) + [now] else Recent(stored, now)
  }

  lemma OneAfterAttempt(attempts: map<string, seq<int>>, history: seq<Event>, email: string, now: int)
    requires TracksOne(attempts, history, now, email)
    ensures Admits(StoredIn(attempts, email), now) == Admits(Admitted(history, email), now)
    ensures var next := Filtered(StoredIn(attempts, email), now);
            |next| <= MAX_ATTEMPTS && Agrees(next, Admitted(history + [Attempt(email, now)], email), now)
  {
    FilteringAgrees(StoredIn(attempts, email), Admitted(history, email), now);
    AdmittedNext(history, Attempt(email, now), email);
  }

  lemma TracksAfterAttempt(attempts: map<string, seq<int>>, history: seq<Event>, email: string, now: int)
    requires Tracks(attempts, history, now)
    ensures Admits(StoredIn(attempts, email), now) == Admits(Admitted(history, email), now)
    ensures Tracks(attempts[email := Filtered(StoredIn(attempts, email), now)], history + [Attempt(email, now)], now)
  {
    assert TracksOne(attempts, history, now, email);
    OneAfterAttempt(attempts, history, email, now);
    var next := attempts[email := Filtered(StoredIn(attempts, email), now)];
    forall e ensures TracksOne(next, history + [Attempt(email, now)], now, e) {
      if e != email {
        assert TracksOne(attempts, history, now, e);
        AdmittedNext(history, Attempt(email, now), e);
      }
    }
  }

  lemma TracksAfterReset(attempts: map<string, seq<int>>, history: seq<Event>, email: string, now: int)
    requires Tracks(attempts, history, now)
    ensures Tracks(attempts - {email}, history + [Reset(email)], now)
  {
    forall e ensures TracksOne(attempts - {email}, history + [Reset(email)], now, e) {
      assert TracksOne(attempts, history, now, e);
      AdmittedNext(history, Reset(email), e);
    }
  }

  // The process-wide table of login attempts.
  class LoginLimiter {
    var attempts: map<string, seq<int>>
    ghost var history: seq<Event>
    ghost var clock: int

    // The table agrees with the full history, and no stored list exceeds the limit.
    ghost predicate Valid()
      reads this
    {
      Tracks(attempts, history, clock) && Timed(history, clock)
    }

    constructor (now: int)
      ensures Valid() && history == [] && clock == now && attempts == map[]
    {
      attempts := map[];
      history := [];
      clock := now;
    }

    // Drops every key whose stamps have all left the window.
    method PruneExpired(now: int)
      requires Tracks(attempts, history, now)
      modifies this`attempts
      ensures Tracks(attempts, history, now)
      ensures forall email :: email in attempts <==> email in old(attempts) && Recent(old(attempts)[email], now) != []
      ensures forall email | email in attempts :: attempts[email] == old(attempts)[email]
    {
      var expired := Expired(attempts, now);
      TracksWithoutExpired(attempts, history, now);
      ghost var gone: set<string> := {};
      while expired != {}
        invariant gone + expired == Expired(old(attempts), now)
        invariant attempts == old(attempts) - gone
        decreases |expired|
      {
        var key :| key in expired;
        attempts := attempts - {key};
        expired := expired - {key};
        gone := gone + {key};
      }
    }

    // _check_rate_limit: admits exactly what the ideal limiter admits.
    method Check(email: string, now: int) returns (admitted: bool)
      requires Valid() && clock <= now
      modifies this
      ensures Valid() && clock == now && history == old(history) + [Attempt(email, now)]
      ensures admitted <==> Admits(Admitted(old(history), email), now)
    {
      TracksLater(attempts, history, clock, now);
      if email !in attempts && |attempts| >= MAX_TRACKED_LOGIN_KEYS {
        PruneExpired(now);
      }
      TracksAfterAttempt(attempts, history, email, now);
      var stored := if email in attempts then attempts[email] else [];
      var kept := Recent(stored, now);
      admitted := |kept| < MAX_ATTEMPTS;
      if admitted {
        kept := kept + [now];
      }
      attempts := attempts[email := kept];
      history := history + [Attempt(email, now)];
      clock := now;
    }

    // reset_login_rate_limit: the email starts afresh.
    method Clear(email: string)
      requires Valid()
      modifies this
      ensures Valid() && clock == old(clock) && history == old(history) + [Reset(email)]
      ensures attempts == old(attempts) - {email}
    {
      TracksAfterReset(attempts, history, email, clock);
      attempts := attempts - {email};
      history := history + [Reset(email)];
    }
  }
}
