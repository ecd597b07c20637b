# Dynamic Polling App: session state and actions

`poll.py` is a single Streamlit page. Admins create multiple-choice polls and
delete them. Anyone may vote once per poll and see the tallies. Under the
widgets sits a small state machine held in Streamlit's per-session state:

- `polls`: question → {option → count}
- `user_votes`: question → the option this session chose
- `user_role`: `"user"` or `"admin"`

This project models that state machine in Dafny and proves what it promises.
Each button press of the page becomes one method call on the class
`PollState.PollApp`. The class has three fields: `polls`, `userVotes` and
`role`.

- `OptionText` models how the options text area is parsed:
  `[opt.strip() for opt in text.split("\n") if opt.strip()]`. It writes out
  Python's `str.split("\n")` and `str.strip()`. `strip()` removes exactly the
  characters for which `str.isspace()` holds.
- `Tallies` models one poll's dict `{option: count}`. A Python dict keeps
  insertion order, so a `Tally` holds the distinct options in that order and
  a map from option to count. `Total` is `sum(votes.values())`.
- `PollState` holds the role, the session invariant `SessionSound` with the
  lemmas that each action keeps it, and the class `PollApp`.

The session invariant `PollState.SessionSound` (with `PollState.PollSound` for
one poll) says four things. Every count is non-negative. Every
poll's total is at most 1. A total of 1 means the session has recorded a
vote for that question, on the option that holds the vote. Every recorded
vote also belongs to a poll that still exists. Every method of `PollApp`
keeps this invariant (`Valid()`).

The model keeps three behaviours of `poll.py` as written:

- The question is only checked for being non-empty. It is not trimmed, so
  `"  "` is accepted as a question.
- The "at least 2 options" check counts the parsed lines before the dict
  comprehension merges duplicates. So `"A\nA"` passes the check and gives a
  poll with the single option `A` (`SameOptionTwice` proves this).
- Creating a poll over an existing question replaces its tally but keeps
  `user_votes[question]`. The session then sees the new poll as already
  voted on, with total 0, and cannot vote on it again until the poll is
  deleted.

`poll.py` does not trim the question. It does not merge repeated options
before the two-option check. It has no flag that clears earlier votes when a
poll is overwritten. It keeps no per-participant identifiers, takes no lock,
cannot reset votes, and shows no not-found error message. The model follows
`poll.py` in each of these.

Three scenario methods at the end of `poll_state.dfy` drive one session
through the buttons: `RoleScenario`, `VoteScenario` and `RecreateScenario`.
They show what a caller can conclude from the contracts alone.

## Model

| member | source | states |
|---|---|---|
| `PollState.PollApp.constructor` | poll.py:4-9 | A new session has no polls and no recorded votes, its role is user, and it satisfies the session invariant. |
| `PollState.PollApp.Login` | poll.py:18-32 | The login form appears only while the role is user. The role becomes admin exactly when the username is `"SRMS"` and the password is `"SRMS@450"`. Otherwise it reports invalid credentials and keeps the role. Polls and votes are outside its frame. |
| `PollState.PollApp.Logout` | poll.py:35-38 | Afterwards the role is user. It reports whether the session was admin. Polls and votes are outside its frame. |
| `PollState.PollApp.CreatePoll` | poll.py:44-62 | Nothing changes unless the role is admin, the question and the options text are both non-empty, and at least 2 options parse (duplicates counted). When all of that holds, `polls[question]` becomes the all-zero tally of the parsed options, replacing any earlier poll, and every other poll stays. Recorded votes are outside its frame. The session invariant is kept. |
| `PollState.PollApp.DeletePoll` | poll.py:64-75 | Only an admin can delete, and only an existing poll. The question then leaves both `polls` and `userVotes`, whether or not it had a vote, and every other poll and vote stays. The session invariant is kept. |
| `PollState.PollApp.Vote` | poll.py:83-107 | Admins and users alike may vote. A vote is accepted exactly when the poll exists, the session has not voted on it, and the option is one of its keys. It then adds 1 to that option's count, records `userVotes[question] = option`, and takes the poll's total from 0 to 1. Every other count, poll and vote stays. A rejected vote changes nothing, so a second vote on the same poll is impossible. |
| `PollState.CreateKeepsSound` | poll.py:56 | Installing an all-zero tally under any question, new or existing, with the recorded votes untouched, keeps the session invariant. |
| `PollState.VoteKeepsSound` | poll.py:103-105 | A vote on an existing option of a poll not yet voted on finds that poll's total at 0 and leaves it at 1. The session invariant holds afterwards, with the recorded choice holding the one vote. |
| `PollState.SameOptionTwice` | poll.py:54-56 | The same option typed on two lines gives two parsed options, so the two-option check passes, and the dict comprehension turns them into a poll with that one option. |
| `OptionText.SkipSpaceForward` | poll.py:54 | The index of the first non-whitespace character from a start position, or the length when there is none. Everything skipped is whitespace. |
| `OptionText.SkipSpaceBackward` | poll.py:54 | The index just past the last non-whitespace character, scanning down to a lower bound. Everything skipped is whitespace. |
| `OptionText.Strip` | poll.py:54 | `str.strip()`. The result has no whitespace at either end. It is empty exactly when the input is all whitespace. An already stripped string is returned unchanged. |
| `OptionText.StripKeepsMiddle` | poll.py:54 | `strip()` removes only a whitespace run at the front and a whitespace run at the back. The result is the contiguous part of the input between them. |
| `OptionText.Split` | poll.py:54 | `str.split("\n")` gives at least one piece. No piece contains a newline, and every character of a piece comes from the text. |
| `OptionText.JoinSplit` | poll.py:54 | Joining the pieces of `split("\n")` with newlines gives the text back. |
| `OptionText.SplitJoin` | poll.py:54 | Splitting newline-free pieces joined with newlines gives the same pieces back. This is the other direction of the round trip. |
| `OptionText.KeepNonBlank` | poll.py:54 | The filtering comprehension yields non-empty, stripped options, no more than there are lines. Each option is the stripped form of some line, and the stripped form of every line that is not blank after stripping is among them. |
| `OptionText.KeepNonBlankLines` | poll.py:54 | The i-th option is the stripped line at the i-th of a strictly increasing list of line positions, and every line that is not blank after stripping is in that list. So every non-blank line gives exactly one option, in line order, and repeats are kept. |
| `OptionText.ParseOptions` | poll.py:54 | The parsed options are non-empty, stripped and newline-free, and there are no more of them than lines. A non-empty string is an option exactly when some line strips to it. |
| `OptionText.ParseOptionsLines` | poll.py:54 | The options are the stripped non-blank lines of `text.split("\n")`, one per line, in order, repeats included. |
| `OptionText.TwoNonBlankLinesGiveTwoOptions` | poll.py:53-55 | Any two lines that are not blank after stripping give at least two options, even when they strip to the same string. So `len(options) >= 2` counts lines before the dict merges repeats (`" A\nA "` passes). |
| `OptionText.ParseOptionsOfLines` | poll.py:54 | Options written one per line, each non-empty and already stripped, parse back exactly, in order and with repeats. |
| `OptionText.BlankTextHasNoOptions` | poll.py:53-60 | A non-empty text made only of whitespace and line breaks parses to no options, so the two-option check rejects it. |
| `Tallies.Dedup` | poll.py:56 | The keys of the dict comprehension: distinct, exactly the options given, and the same list when the options had no repeats. |
| `Tallies.DedupFirstOccurrences` | poll.py:56 | The dict's keys come in the order of their first occurrence among the options. Each key sits at a position of the options list that no earlier position repeats, and those positions increase. |
| `Tallies.Zeroed` | poll.py:56 | `{opt: 0 for opt in options}` is a well-formed tally whose keys are exactly the options given, with every count 0. |
| `Tallies.ZeroedTotal` | poll.py:56 | A newly created tally has total 0. |
| `Tallies.Total` | poll.py:85 | `sum(votes.values())`, the total shown under each poll and in the admin statistics (also poll.py:125). It is never negative while no count is. `TotalBounds` and `IncrementTotal` state the rest. |
| `Tallies.Increment` | poll.py:104 | `polls[question][opt] += 1` raises the chosen count by one and leaves the option list, the set of options and every other count as they were. A well-formed tally with no negative count stays so. `IncrementTotal` gives the effect on the total. |
| `Tallies.TotalBounds` | poll.py:85 | With no negative count, `sum(votes.values())` is non-negative and at least every single count. It is 0 exactly when every count is 0. |
| `Tallies.IncrementTotal` | poll.py:104 | `votes[opt] += 1` raises that count by 1 and leaves the option list and every other count unchanged. It raises the total by exactly 1 and keeps the tally well formed and non-negative. |

## Left out

- Streamlit rendering and control flow are not modelled. This covers the title, sidebar, forms, expanders, buttons, the success, error and info messages, and `st.rerun()`. Each button press is a method call instead, and each message is an outcome value.
- Vote percentages (`count / total_votes * 100`, formatted `:.1f`) are not modelled because they are floating point. Only the integer total is.
- The `question[:30]` button labels, the widget keys and `role.title()` are display-only strings.
- The order in which polls are listed (insertion order of `polls`) is display-only and not modelled. `polls` is a map. The option order inside a poll is kept.
- `PollState.PollApp.Vote`: the page offers a vote button only for an existing option of a poll the session has not voted on. Calls outside that set return `UnknownPoll`, `AlreadyVoted` or `UnknownOption` and change nothing. This does not model Python's `KeyError`, which the page cannot reach.
- `PollState.PollApp.Login` and `PollState.PollApp.Logout`: the login form is shown only to a user and the logout button only to an admin. A call the page would not offer (`LoginFormHidden`, or logout as user) changes nothing.
- `PollState.PollApp.DeletePoll`: the page offers a delete button only for an existing poll (poll.py:68), and `del` on a missing key would raise `KeyError`. A call for a missing question returns `NoSuchPoll` and changes nothing. This does not model the `KeyError`, which the page cannot reach.
- Streamlit's session lifetime, several browser sessions, and persistence do not exist in `poll.py`, so they are not modelled. Everything lives in one session's state.
- The hard-coded credentials are modelled only as the string comparison. Their security is out of scope.
