/** The per-session state of the polling page and the actions a visitor can
    take on it: log in as admin, log out, create a poll, delete a poll, vote.
    Each button press of the page is one method call on a PollApp. */
module PollState {
  import opened OptionText
  import opened Tallies

  const AdminUsername: string := "SRMS"
  const AdminPassword: string := "SRMS@450"

  /** The session's user_role, "user" or "admin". */
  datatype Role = User | Admin

  datatype LoginOutcome = LoggedIn | InvalidCredentials | LoginFormHidden
  datatype CreateOutcome = Created | MissingInput | TooFewOptions | AdminOnly
  datatype DeleteOutcome = Deleted | NoSuchPoll | AdminOnly
  datatype VoteOutcome = Recorded | AlreadyVoted | UnknownPoll | UnknownOption

  /** What holds of one poll of a session: its tally is a well-formed dict of
      non-negative counts, at most one vote has been cast in it, and if one
      has, the session's recorded choice is the option that holds it. */
  ghost predicate PollSound(t: Tally, q: string, userVotes: map<string, string>) {
    && WellFormed(t)
    && NonNegative(t)
    && Total(t) <= 1
    && (Total(t) == 1 ==> q in userVotes && userVotes[q] in t.counts && t.counts[userVotes[q]] == 1)
  }

  /** The invariant linking the two dicts of a session: every recorded vote
      belongs to an existing poll, and every poll is sound. */
  ghost predicate SessionSound(polls: map<string, Tally>, userVotes: map<string, string>) {
    && userVotes.Keys <= polls.Keys
    && forall q :: q in polls ==> PollSound(polls[q], q, userVotes)
  }

  /** Installing an all-zero tally under any question, new or existing,
      keeps the session sound; the recorded votes are not touched. */
  lemma CreateKeepsSound(polls: map<string, Tally>, userVotes: map<string, string>, q: string, options: seq<string>)
    requires SessionSound(polls, userVotes)
    ensures SessionSound(polls[q := Zeroed(options)], userVotes)
  {
    ZeroedTotal(options);
  }

  /** A vote on a poll not yet voted on finds it with no votes, leaves it with
      exactly one, on the option chosen, and keeps the session sound. */
  lemma VoteKeepsSound(polls: map<string, Tally>, userVotes: map<string, string>, q: string, opt: string)
    requires SessionSound(polls, userVotes)
    requires q in polls && opt in polls[q].counts && q !in userVotes
    ensures Total(polls[q]) == 0
    ensures Total(Increment(polls[q], opt)) == 1
    ensures SessionSound(polls[q := Increment(polls[q], opt)], userVotes[q := opt])
  {
    var t := polls[q];
    TotalBounds(t);
    IncrementTotal(t, opt);
    var polls', userVotes' := polls[q := Increment(t, opt)], userVotes[q := opt];
    forall p | p in polls'
      ensures PollSound(polls'[p], p, userVotes')
    {
      if p != q {
        assert polls'[p] == polls[p];
        assert PollSound(polls[p], p, userVotes);
      }
    }
  }

  class PollApp {
    /** question -> tally */
    var polls: map<string, Tally>
    /** question -> the option this session voted for */
    var userVotes: map<string, string>
    var role: Role

    ghost predicate Valid()
      reads this`polls, this`userVotes
    {
      SessionSound(polls, userVotes)
    }

    /** A new session: no polls, no votes, an ordinary user. */
    constructor ()
      ensures Valid()
      ensures polls == map[] && userVotes == map[] && role == User
    {
      polls := map[];
      userVotes := map[];
      role := User;
    }

    /** The "Login as Admin" form, shown only to a user. The role becomes
        admin exactly when both credentials match; nothing else changes. */
    method Login(username: string, password: string) returns (outcome: LoginOutcome)
      modifies this`role
      ensures outcome == (if old(role) == Admin then LoginFormHidden
                          else if username == AdminUsername && password == AdminPassword then LoggedIn
                          else InvalidCredentials)
      ensures role == (if outcome == LoggedIn then Admin else old(role))
    {
      if role == Admin {
        return LoginFormHidden;
      }
      if username == AdminUsername && password == AdminPassword {
        role := Admin;
        outcome := LoggedIn;
      } else {
        outcome := InvalidCredentials;
      }
    }

    /** The "Logout" button, shown only to an admin: the session is an
        ordinary user afterwards; nothing else changes. */
    method Logout() returns (loggedOut: bool)
      modifies this`role
      ensures loggedOut == (old(role) == Admin)
      ensures role == User
    {
      loggedOut := role == Admin;
      role := User;
    }

    /** The "Create Poll" button of the admin controls. The question must be
        non-empty (it is not trimmed) and so must the options text; at least
        two options must remain after parsing, counted before duplicates
        collapse. The new all-zero tally replaces any poll with the same
        question; the recorded votes are left as they are. */
    method CreatePoll(question: string, optionsText: string) returns (outcome: CreateOutcome)
      requires Valid()
      modifies this`polls
      ensures Valid()
      ensures outcome == (if old(role) != Admin then CreateOutcome.AdminOnly
                          else if question == [] || optionsText == [] then MissingInput
                          else if |ParseOptions(optionsText)| < 2 then TooFewOptions
                          else Created)
      ensures polls == (if outcome == Created then old(polls)[question := Zeroed(ParseOptions(optionsText))]
                        else old(polls))
    {
      if role != Admin {
        return CreateOutcome.AdminOnly;
      }
      if question == [] || optionsText == [] {
        return MissingInput;
      }
      var options := ParseOptions(optionsText);
      if |options| < 2 {
        return TooFewOptions;
      }
      CreateKeepsSound(polls, userVotes, question, options);
      polls := polls[question := Zeroed(options)];
      outcome := Created;
    }

    /** A "Delete" button of the admin controls, one per existing poll: the
        poll and this session's vote on it, if any, are removed; every other
        poll and vote stays. */
    method DeletePoll(question: string) returns (outcome: DeleteOutcome)
      requires Valid()
      modifies this`polls, this`userVotes
      ensures Valid()
      ensures outcome == (if old(role) != Admin then DeleteOutcome.AdminOnly
                          else if question !in old(polls) then NoSuchPoll
                          else Deleted)
      ensures polls == (if outcome == Deleted then old(polls) - {question} else old(polls))
      ensures userVotes == (if outcome == Deleted then old(userVotes) - {question} else old(userVotes))
    {
      if role != Admin {
        return DeleteOutcome.AdminOnly;
      }
      if question !in polls {
        return NoSuchPoll;
      }
      polls := polls - {question};
      userVotes := userVotes - {question};
      outcome := Deleted;
    }

    /** An option button of a poll, offered to users and admins alike while
        the session has not voted on that poll. The vote adds exactly one to
        the chosen option's count, taking the poll's total from 0 to 1, and
        records the choice; every other count and vote stays. */
    method Vote(question: string, option: string) returns (outcome: VoteOutcome)
      requires Valid()
      modifies this`polls, this`userVotes
      ensures Valid()
      ensures outcome == (if question !in old(polls) then UnknownPoll
                          else if question in old(userVotes) then AlreadyVoted
                          else if option !in old(polls)[question].counts then UnknownOption
                          else Recorded)
      ensures outcome == Recorded ==>
                && polls == old(polls)[question := Increment(old(polls)[question], option)]
                && userVotes == old(userVotes)[question := option]
                && Total(old(polls)[question]) == 0
                && Total(polls[question]) == 1
      ensures outcome != Recorded ==> polls == old(polls) && userVotes == old(userVotes)
    {
      if question !in polls {
        return UnknownPoll;
      }
      if question in userVotes {
        return AlreadyVoted;
      }
      if option !in polls[question].counts {
        return UnknownOption;
      }
      VoteKeepsSound(polls, userVotes, question, option);
      polls := polls[question := Increment(polls[question], option)];
      userVotes := userVotes[question := option];
      outcome := Recorded;
    }
  }

  // Sessions driven through the page's buttons: a question and two
  // different options a and b, typed one per line.

  /** Only an admin can create polls, and only the right credentials make one. */
  method RoleScenario(question: string, a: string, b: string, wrongPassword: string)
    requires question != [] && a != b && wrongPassword != AdminPassword
    requires a != [] && IsStripped(a) && '\n' !in a
    requires b != [] && IsStripped(b) && '\n' !in b
  {
    var text := Join([a, b]);
    ParseOptionsOfLines([a, b]);
    var app := new PollApp();
    var created := app.CreatePoll(question, text);
    assert created == CreateOutcome.AdminOnly && app.polls == map[];

    var login := app.Login(AdminUsername, wrongPassword);
    assert login == InvalidCredentials && app.role == User;
    login := app.Login(AdminUsername, AdminPassword);
    assert login == LoggedIn && app.role == Admin;
    created := app.CreatePoll(question, text);
    assert created == Created;

    var loggedOut := app.Logout();
    assert loggedOut && app.role == User;
    created := app.CreatePoll(question, text);
    assert created == CreateOutcome.AdminOnly;
  }

  /** One vote per poll; deleting the poll clears it. */
  method VoteScenario(question: string, a: string, b: string)
    requires question != [] && a != b
    requires a != [] && IsStripped(a) && '\n' !in a
    requires b != [] && IsStripped(b) && '\n' !in b
  {
    var text := Join([a, b]);
    ParseOptionsOfLines([a, b]);
    var app := new PollApp();
    var login := app.Login(AdminUsername, AdminPassword);
    var created := app.CreatePoll(question, text);
    assert created == Created && a in app.polls[question].counts;

    var vote := app.Vote(question, a);
    assert vote == Recorded;
    vote := app.Vote(question, b);
    assert vote == AlreadyVoted && question in app.polls && app.role == Admin;

    var deleted := app.DeletePoll(question);
    assert deleted == Deleted && question !in app.polls && question !in app.userVotes;
    created := app.CreatePoll(question, text);
    assert created == Created && b in app.polls[question].counts;
    vote := app.Vote(question, b);
    assert vote == Recorded;
  }

  /** The same option typed on two lines passes the two-option check but
      gives a poll with that one option. */
  lemma SameOptionTwice(a: string)
    requires a != [] && IsStripped(a) && '\n' !in a
    ensures Join([a, a]) != [] && |ParseOptions(Join([a, a]))| == 2
    ensures Zeroed(ParseOptions(Join([a, a]))).options == [a]
  {
    ParseOptionsOfLines([a, a]);
  }

  /** Recreating a poll zeroes its tally but keeps the recorded vote, so the
      session cannot vote on it again. */
  method RecreateScenario(question: string, a: string, b: string)
    requires question != [] && a != b
    requires a != [] && IsStripped(a) && '\n' !in a
    requires b != [] && IsStripped(b) && '\n' !in b
  {
    var text := Join([a, b]);
    ParseOptionsOfLines([a, b]);
    var app := new PollApp();
    var login := app.Login(AdminUsername, AdminPassword);
    var created := app.CreatePoll(question, text);
    assert created == Created && a in app.polls[question].counts && app.role == Admin;
    var vote := app.Vote(question, a);
    assert vote == Recorded;
    assert app.role == Admin && question in app.userVotes;

    created := app.CreatePoll(question, text);
    assert created == Created;
    vote := app.Vote(question, b);
    assert vote == AlreadyVoted;
  }
}
