/** When the blacklist cleaner of src/database/cleanup.service.ts can be observed: exactly if some access
    token can outlive its session by more than the time for which entries are kept. */
module AuthCleaner {
  import opened Auth
  import opened AuthHistory
  import opened AuthLaws
  import Fraud
  import opened Wrappers

  /** In every run from empty tables, over any users, in which the cleaner keeps entries for at least
      `kept` milliseconds, the run without the cleaner gets the same answers. */
  ghost predicate Unobservable(c: Config, kept: nat) {
    forall users: map<Fraud.UserId, Fraud.User>, events: seq<Event>
      | IsRun(Initial(users), c, events) && (forall e | e in events :: Patient(e, Some(kept))) ::
      IsRun(Initial(users), c, WithoutCleaning(events))
      && Answers(Initial(users), c, WithoutCleaning(events)) == Answers(Initial(users), c, events)
  }

  /** The run that shows it: a log-in, all sessions revoked, and the cleaner one millisecond after it may
      delete the entry of the access token. */
  function RevivingRun(c: Config, kept: nat): seq<Event> {
    [Login("user", "family", "pair"), RevokesAll("user"), Tick(CleaningTime(c, kept)), Cleans(kept),
     ChecksAccess(Jti("pair", Access))]
  }

  function CleaningTime(c: Config, kept: nat): int { c.refreshTtl * 1000 + kept + 1 }

  function LoggedOutEverywhere(c: Config, time: int): System {
    RevokeAllStep(LoggedIn(c, "user", "family", "pair"), "user").(now := time)
  }

  /** If access tokens live longer than that, cleaning turns a revoked access token into an accepted one. */
  lemma LongAccessTokenRevives(c: Config, kept: nat)
    requires c.accessTtl * 1000 > c.refreshTtl * 1000 + kept + 1
    ensures var s := LoggedOutEverywhere(c, CleaningTime(c, kept));
      var t := s.(blacklist := Cleaned(s.blacklist, s.now - kept));
      AccessAnswer(s, Jti("pair", Access)) == Revoked && AccessAnswer(t, Jti("pair", Access)) == Accepted
  {
    var s := LoggedIn(c, "user", "family", "pair");
    assert OpenSessions(s.sessions, "user") == {"pair"};
    assert Jti("pair", Access) in TokensOf({"pair"});
  }

  lemma FirstStep(s: System, c: Config, e: Event, rest: seq<Event>)
    requires UsersKnown(s) && Enabled(s, c, e) && UsersKnown(Step(s, c, e).0) && IsRun(Step(s, c, e).0, c, rest)
    ensures var events := [e] + rest;
      && IsRun(s, c, events)
      && Answers(s, c, events) ==
           (if e.Cleans? then [] else [Step(s, c, e).1]) + Answers(Step(s, c, e).0, c, rest)
  {
    var events := [e] + rest;
    assert events[0] == e && events[1..] == rest;
  }

  /** The two ends of the run, from the time of the cleaning on. */
  lemma RevivingEnds(c: Config, kept: nat)
    requires c.accessTtl * 1000 > c.refreshTtl * 1000 + kept + 1
    ensures var s, check := LoggedOutEverywhere(c, CleaningTime(c, kept)), ChecksAccess(Jti("pair", Access));
      && UsersKnown(s)
      && IsRun(s, c, [Cleans(kept)] + [check]) && Answers(s, c, [Cleans(kept)] + [check]) == [Accepted]
      && IsRun(s, c, [check]) && Answers(s, c, [check]) == [Revoked]
  {
    var s, check := LoggedOutEverywhere(c, CleaningTime(c, kept)), ChecksAccess(Jti("pair", Access));
    RevokedTables(c, CleaningTime(c, kept));
    LongAccessTokenRevives(c, kept);
    var t := s.(blacklist := Cleaned(s.blacklist, s.now - kept));
    hide LoggedOutEverywhere, Cleaned, AccessAnswer;
    assert [check] + [] == [check];
    FirstStep(s, c, check, []);
    FirstStep(t, c, check, []);
    FirstStep(s, c, Cleans(kept), [check]);
  }

  /** Revoking all sessions leaves the tokens, the users and the time. */
  lemma RevokingLeaves(s: System, user: Fraud.UserId)
    ensures var t := RevokeAllStep(s, user);
      t.now == s.now && t.issued == s.issued && t.fraud == s.fraud && t.sessions.Keys == s.sessions.Keys
    ensures forall p | p in s.sessions :: RevokeAllStep(s, user).sessions[p].user == s.sessions[p].user
  {
  }

  lemma LoggedInTables(c: Config)
    ensures LoggedIn(c, "user", "family", "pair").now == 0 && UsersKnown(LoggedIn(c, "user", "family", "pair"))
  {
  }

  lemma RevokedTables(c: Config, time: int)
    ensures UsersKnown(LoggedOutEverywhere(c, time))
    ensures LoggedIn(c, "user", "family", "pair").now == 0 && UsersKnown(LoggedIn(c, "user", "family", "pair"))
  {
    LoggedInTables(c);
    RevokingLeaves(LoggedIn(c, "user", "family", "pair"), "user");
    hide LoggedIn, RevokeAllStep;
  }

  lemma TwoSteps(c: Config, time: nat)
    ensures var s1, s2 := LoggedIn(c, "user", "family", "pair"), LoggedOutEverywhere(c, 0);
      && UsersKnown(s1) && UsersKnown(s2)
      && Enabled(s1, c, RevokesAll("user")) && Step(s1, c, RevokesAll("user")) == (s2, LoggedOut)
      && Enabled(s2, c, Tick(time)) && Step(s2, c, Tick(time)) == (LoggedOutEverywhere(c, time), LoggedOut)
  {
    RevokedTables(c, 0);
    hide UsersKnown;
    assert RevokeAllStep(LoggedIn(c, "user", "family", "pair"), "user").now == 0;
  }

  /** From the log-in on. */
  lemma FromLogin(c: Config, time: nat, rest: seq<Event>)
    requires UsersKnown(LoggedOutEverywhere(c, time)) && IsRun(LoggedOutEverywhere(c, time), c, rest)
    ensures var s := LoggedIn(c, "user", "family", "pair");
      var events := [RevokesAll("user")] + ([Tick(time)] + rest);
      && UsersKnown(s) && IsRun(s, c, events)
      && Answers(s, c, events) == [LoggedOut] + ([LoggedOut] + Answers(LoggedOutEverywhere(c, time), c, rest))
  {
    hide LoggedOutEverywhere, LoggedIn, Step, Enabled, UsersKnown;
    TwoSteps(c, time);
    FirstStep(LoggedOutEverywhere(c, 0), c, Tick(time), rest);
    FirstStep(LoggedIn(c, "user", "family", "pair"), c, RevokesAll("user"), [Tick(time)] + rest);
  }

  lemma FromTheStart(c: Config, kept: nat, rest: seq<Event>, answers: seq<Answer>)
    requires c.maxSessions > 0
    requires var s := LoggedOutEverywhere(c, CleaningTime(c, kept));
      UsersKnown(s) && IsRun(s, c, rest) && Answers(s, c, rest) == answers
    ensures var s := Initial(map["user" := Fraud.User(false, false)]);
      var events := [Login("user", "family", "pair")]
                    + ([RevokesAll("user")] + ([Tick(CleaningTime(c, kept))] + rest));
      IsRun(s, c, events) && Answers(s, c, events) == [Pair("pair"), LoggedOut, LoggedOut] + answers
  {
    var s0 := Initial(map["user" := Fraud.User(false, false)]);
    var time := CleaningTime(c, kept);
    FromLogin(c, time, rest);
    LoginFromEmpty(c, "user", "family", "pair");
    hide LoggedOutEverywhere, LoggedIn, Initial, Step, Enabled, UsersKnown, CleaningTime;
    FirstStep(s0, c, Login("user", "family", "pair"), [RevokesAll("user")] + ([Tick(time)] + rest));
  }

  lemma DropsCleaning(c: Config, kept: nat)
    ensures WithoutCleaning(RevivingRun(c, kept)) ==
      [Login("user", "family", "pair")] + ([RevokesAll("user")] + ([Tick(CleaningTime(c, kept))]
        + [ChecksAccess(Jti("pair", Access))]))
  {
    var login, revoke, tick := Login("user", "family", "pair"), RevokesAll("user"), Tick(CleaningTime(c, kept));
    var clean, check := Cleans(kept), ChecksAccess(Jti("pair", Access));
    assert [check] + [] == [check];
    DropFirst(check, []);
    DropFirst(clean, [check]);
    DropFirst(tick, [clean] + [check]);
    DropFirst(revoke, [tick] + ([clean] + [check]));
    DropFirst(login, [revoke] + ([tick] + ([clean] + [check])));
    assert RevivingRun(c, kept) == [login] + ([revoke] + ([tick] + ([clean] + [check])));
  }

  lemma DropFirst(e: Event, rest: seq<Event>)
    ensures WithoutCleaning([e] + rest) == (if e.Cleans? then [] else [e]) + WithoutCleaning(rest)
  {
    assert ([e] + rest)[1..] == rest;
  }

  /** The run with the cleaner, and the run without it. */
  lemma RevivingAnswers(c: Config, kept: nat)
    requires c.maxSessions > 0 && c.accessTtl * 1000 > c.refreshTtl * 1000 + kept + 1
    ensures var s := Initial(map["user" := Fraud.User(false, false)]);
      var with, without := RevivingRun(c, kept), WithoutCleaning(RevivingRun(c, kept));
      && IsRun(s, c, with) && Answers(s, c, with) == [Pair("pair"), LoggedOut, LoggedOut] + [Accepted]
      && IsRun(s, c, without) && Answers(s, c, without) == [Pair("pair"), LoggedOut, LoggedOut] + [Revoked]
  {
    hide LoggedOutEverywhere, Initial, CleaningTime, WithoutCleaning, IsRun, Answers, Outlasts, UsersKnown;
    var check := ChecksAccess(Jti("pair", Access));
    RevivingEnds(c, kept);
    FromTheStart(c, kept, [Cleans(kept)] + [check], [Accepted]);
    FromTheStart(c, kept, [check], [Revoked]);
    DropsCleaning(c, kept);
    assert RevivingRun(c, kept) == [Login("user", "family", "pair")]
      + ([RevokesAll("user")] + ([Tick(CleaningTime(c, kept))] + ([Cleans(kept)] + [check])));
  }

  lemma RevivingRunDiffers(c: Config, kept: nat)
    requires c.maxSessions > 0 && c.accessTtl * 1000 > c.refreshTtl * 1000 + kept + 1
    ensures !Unobservable(c, kept)
  {
    RevivingAnswers(c, kept);
    assert forall e | e in RevivingRun(c, kept) :: Patient(e, Some(kept));
    hide RevivingRun, WithoutCleaning, IsRun, Answers, Initial, Patient;
    var first: seq<Answer> := [Pair("pair"), LoggedOut, LoggedOut];
    assert (first + [Accepted])[3] != (first + [Revoked])[3];
  }

  /** The cleaner cannot be observed exactly if no session is allowed or no access token outlives its
      session by more than the time for which entries are kept. */
  lemma CleaningUnobservable(c: Config, kept: nat)
    ensures Unobservable(c, kept) <==> Outlives(c, Some(kept))
  {
    if Outlives(c, Some(kept)) {
      forall users: map<Fraud.UserId, Fraud.User>, events: seq<Event>
        | IsRun(Initial(users), c, events) && (forall e | e in events :: Patient(e, Some(kept)))
        ensures IsRun(Initial(users), c, WithoutCleaning(events))
          && Answers(Initial(users), c, WithoutCleaning(events)) == Answers(Initial(users), c, events)
      {
        CleaningChangesNoAnswer(Initial(users), Initial(users), c, events, kept);
      }
    } else {
      RevivingRunDiffers(c, kept);
    }
  }
}
