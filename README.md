# gerrit-reviewers in Dafny

A model of the reviewer-management core of `gerrit-reviewers`, a command-line
helper that adds and removes reviewers of a Gerrit change over SSH and keeps
named reviewer groups in a small configuration file.

The model covers:

- **Connection descriptor** (`GerritIf`, `gerrit_if.dfy`). A remote address
  becomes a `GitUrl`; the project path is normalised. `get_gerrit_change`
  falls back to a built-in address and the Change-Id `"NA"`.
- **Queries** (`GerritIf`). The exact `ssh ... gerrit query` argument vector.
  The answer is cut at the first `rowCount` object. Reviewers are collected
  from the `allReviewers` arrays, once per username for
  `get_user_recent_reviewers`.
- **Reviewer reconciliation** (`GerritIf`). `set_reviewers_over_ssh`, with
  `add_reviewer` and `delete_reviewers` on top. It drops the users already in
  the requested state, then issues at most one `gerrit set-reviewers` command.
- **Users and groups** (`Users`, `Groups`, `GroupsWriter`). Identity by
  username or by group name. The display string, username validity and JSON
  decoding of users. The shape of randomly generated groups. `write_config`.
- **Group configuration** (`Config`, `ConfigProperties`). The stateful
  `[name]` / `u1, u2` line parser, the writer, and a save-then-load round
  trip.
- **Git queries** (`Git`). Remote-address lookup, preferring the push address.
  The first `Change-Id:` trailer of a commit message.

Every external command goes through `Os.Runner`, which stands for
`os::run_command_exc` (`src/os.rs`). The runner records each argument vector in
its `log` and answers with its `respond` function. That function sees the
earlier commands, so the outside world may change between commands. Each
operation that runs commands states its new log as the old log plus exactly
the commands it issues. Pure `...Effect` functions describe those commands and
results. `Url::parse` (with `port_or_known_default`) and `serde_json::from_str`
are foreign. They are the two functions of a `GerritIf.Libraries` value. A
`panic!`, `unwrap` or `expect` of the source becomes a `Failure` carrying an
error of the module's own error type: a `GerritIf.Error` in `GerritIf`, and
`Git.GitError.RemoteUrlNotFound` for the panic of `get_remote_url`. The
`assert!` on a non-empty reviewer list is a precondition.
`LinkedHashSet` is a sequence with pairwise distinct keys (`LinkedSet`),
oldest first. Inserting appends when the key is absent. When an element with
that key is already stored, that element is kept and moved to the end. So
groups and recent reviewers are ordered by their last insertion
(`LinkedSet.ReinsertMovesToEnd`, `GerritIfProperties.DistinctReviewersLastSeenLast`).

### Behaviour worth noting

- An address without `://`, an SCP-style one included, is not rejected. It
  gives a descriptor whose scheme, host and project are empty. `raw` is kept.
  So the built-in fallback address `git@github.com:...` gives an empty
  descriptor (`GerritIfProperties.DefaultChange`).
- The query string is `project:<p> limit: 10`, with a space after `limit:`.
- Project normalisation strips at most one leading `/` and at most one
  trailing `.git`.

## Model

| member | source | states |
|---|---|---|
| Users.HashAgreesWithEqual | src/users.rs:57-66 | equal users hash alike, whatever the hasher: the hash reads the username only |
| Users.EqualIsSameKey | src/users.rs:62-66 | users are equal exactly when their usernames are; e-mail and full name never matter |
| Users.FromStr | src/users.rs:36-49 | the user's username is the input; e-mail and full name are empty |
| Users.Display | src/users.rs:51-55 | the display form is the username |
| Users.DisplayDecidesEqual | src/users.rs:51-66 | two users display alike exactly when they are equal |
| Users.AsString | src/users.rs:18-34 | the string built step by step is the display text: full name, then `(username)` or bare username, then ` [email]` |
| Users.DisplayTextLayout | src/users.rs:18-34 | the display text starts with the full name, has the username at its place, ends with ` [email]` when there is one, and its length adds up field by field |
| Users.DisplayTextFromStr | src/users.rs:18-49 | a user made from a name displays as exactly that name |
| Users.IsValidUsername | src/users.rs:68-77 | a name is valid exactly when all its characters are ASCII; the empty name is valid |
| Users.GitUser | src/users.rs:79-86 | a string stored under `username`, `email` or `name` becomes that field; each non-empty field comes from the string under its key |
| Users.GitUserOfAccountJson | src/users.rs:79-86 | decoding a user's account object gives the user back |
| Users.GitUserDefaults | src/users.rs:79-86 | for each of `username`, `email` and `name`, a missing key or a non-string value decodes as an empty field |
| Groups.EqualIgnoresUsers | src/groups.rs:20-30 | groups are equal exactly when their names are, whatever their users, and equal groups hash alike |
| Groups.IntoIter | src/groups.rs:32-38 | iterating a group yields exactly its users, in set order |
| Groups.RandomUsers | src/groups.rs:65-72 | one to `user_num` distinct users, each a 5-character alphanumeric name, exactly the drawn names |
| Groups.GenRandGroups | src/groups.rs:60-83 | one to four groups with distinct names, each with 1-4 users of 5 alphanumeric characters and a 2-character alphanumeric name; the names are exactly those drawn |
| GroupsWriter.WriteConfig | src/groups.rs:90-99 | the answer is `Ok("")`, and the text saved is that of exactly `gs`, whatever the file held before |
| Config.HeaderAt | src/config.rs:59 | a header found at a position is `[name]` occurring there, starting with `[` |
| Config.HeaderAtIff | src/config.rs:59 | a header naming `name` is found at a position exactly when `[name]` occurs there and `name` is one or more word characters |
| Config.FindHeader | src/config.rs:68-74 | a found name is word characters and occurs bracketed in the line, and is the leftmost header; no header means none at any position; a line without `[` has no header |
| Config.FindHeaderComplete | src/config.rs:59-74 | a line holding `[name]`, with `name` one or more word characters, has a header |
| Config.FindHeaderOfBracketed | src/config.rs:59-74 | the line `[name]` names the group `name` |
| Config.Candidates | src/config.rs:89-95 | every user kept is known by name only and has an ASCII username |
| Config.UserList | src/config.rs:83-95 | a user-list line gives a set of distinct, name-only users with ASCII names |
| Config.GroupsConfig.constructor | src/config.rs:31-55 | the groups are those loaded from the file's contents when it exists, and none otherwise |
| Config.GroupsConfig.Load | src/config.rs:57-100 | the line loop leaves the groups that the line-by-line parser gives, and keeps names distinct |
| Config.GroupsConfig.ParseUserList | src/config.rs:83-95 | the user set built entry by entry is the line's user list |
| Config.GroupsConfig.Clear | src/config.rs:102-104 | no groups remain |
| Config.GroupsConfig.Set | src/config.rs:106-111 | every given group is inserted; a name already present adds nothing; the names afterwards are the old ones plus the given ones |
| Config.GroupsConfig.SaveText | src/config.rs:113-118 | the text is each group's text followed by a blank line, in set order |
| Config.GroupsConfig.ToConfigString | src/config.rs:125-137 | the text is `[name]`, a line ending, two spaces, then the usernames joined by `, ` with no trailing separator |
| ConfigProperties.LoadLinesAppend | src/config.rs:67-99 | parsing two runs of lines is parsing the first, then the second from where it stopped |
| ConfigProperties.LoadSkipsLinesOutsideGroups | src/config.rs:78-80 | lines before any header, and lines after a group's user line, change nothing |
| ConfigProperties.LoadSection | src/config.rs:67-99 | after a header, exactly the next line, even a blank one, is the group's user list; later lines up to the next header are ignored |
| ConfigProperties.CandidateNames | src/config.rs:89-95 | a name is kept exactly when some entry trims to it and it is ASCII |
| ConfigProperties.UserListNames | src/config.rs:83-95 | a user line's usernames are exactly its trimmed ASCII comma-separated entries |
| ConfigProperties.LaterHeaderWins | src/config.rs:69-74 | of two headers in a row, the later one names the group |
| ConfigProperties.SaveThenLoad | src/config.rs:57-137 | loading the saved text gives back every group's name and usernames, in order, for word-character names and storable usernames; an empty user list reloads as one empty username |
| ConfigProperties.LinesOfSaved | src/config.rs:113-118 | the saved text's lines are three per group: header, user line, blank line |
| ConfigProperties.LoadChunks | src/config.rs:67-99 | parsing those lines reads every group back and leaves no group open |
| ConfigProperties.UserListOfJoined | src/config.rs:125-137 | a written user line parses back to the group's usernames |
| Git.ConfigGetArgv | src/git.rs:9-11 | the command is `git config --get <section>.<option>` |
| Git.ConfigGetValue | src/git.rs:9-16 | exactly that command is run, and its answer is returned |
| Git.PreferPushUrl | src/git.rs:25-41 | the push address when its lookup succeeds, else the fetch address, and failure exactly when both lookups fail |
| Git.GetRemoteUrl | src/git.rs:25-41 | the push-address lookup is run first; the fetch-address lookup is run only when it fails |
| Git.GetLocalCommitMessage | src/git.rs:58-64 | `git show -s --format=medium <ref>` is run; its output is the message, or "" when it fails |
| Git.ChangeIdOf | src/git.rs:96 | a captured Change-Id is non-empty ASCII letters and digits |
| Git.ChangeIdOfMatches | src/git.rs:96-108 | a line captures `id` exactly when it is white space, `Change-Id: ` and `id` up to its end |
| Git.Captures | src/git.rs:96-108 | one capture per line, each that line's Change-Id if it has one |
| Git.FirstOfEmpty | src/git.rs:104-117 | over non-empty captures, the loop gives "" exactly when no capture is present |
| Git.FirstOfIsFirst | src/git.rs:105-117 | over non-empty captures, a non-empty result is the capture at some index, and no capture before it is present |
| Git.FirstChangeIdEmpty | src/git.rs:104-118 | the result is "" exactly when no line matches |
| Git.FirstChangeIdIsFirstMatch | src/git.rs:105-117 | a non-empty result is the capture of the first matching line; later matches are ignored |
| Git.FirstChangeIdIsAlnum | src/git.rs:96-113 | the result is made of ASCII letters and digits only |
| Git.ChangeIdFromMessage | src/git.rs:100-118 | `None` exactly for an empty message, else the first Change-Id of its lines |
| Git.GetLocalCommitChangeId | src/git.rs:95-119 | one `git show` is run; `None` when its output is empty (failure included), else the first Change-Id |
| GerritIf.NormaliseProject | src/gerrit_if.rs:103-105 | the path is the result with at most one `/` before it and at most one `.git` after it, and exactly those present are removed |
| GerritIf.ParseGitUrl | src/gerrit_if.rs:56-108 | `raw` is the input; a username is never empty; an empty scheme means no `://`; only a `://` address can fail |
| GerritIf.GetGerritChange | src/gerrit_if.rs:46-54 | the given address and Change-Id, or the built-in address and "NA" |
| GerritIf.PortArg | src/gerrit_if.rs:126-131 | "" exactly without a port, otherwise `-p ` then digits whose value is the port |
| GerritIf.ResponseObjects | src/gerrit_if.rs:146-153 | the objects of the lines before the first `rowCount` object, in order; fatal only on an unparsable line before it |
| GerritIf.CollectChanges | src/gerrit_if.rs:146-158 | the loop with its `break` gives exactly those objects |
| GerritIf.GitUsers | src/gerrit_if.rs:277-281 | one decoded user per array item, in order |
| GerritIf.ReviewersIn | src/gerrit_if.rs:274-282 | no reviewers without `allReviewers`; fatal exactly when it is present and not an array |
| GerritIf.ReviewersOfAppend | src/gerrit_if.rs:271-283 | the reviewers of two runs of changes are those of the first then those of the second, and the first failure wins |
| GerritIf.ReviewersOfFailed | src/gerrit_if.rs:273-277 | a failure on some change is the failure of the whole collection |
| GerritIf.CollectReviewers | src/gerrit_if.rs:271-283 | the nested loops give the concatenated reviewers of all changes, in answer order |
| GerritIf.InsertReviewers | src/gerrit_if.rs:305-308 | one change's reviewers are inserted into the set in order |
| GerritIf.DrainFront | src/gerrit_if.rs:311-317 | draining the set from the front gives its elements in order |
| GerritIf.CollectDistinctReviewers | src/gerrit_if.rs:299-319 | the set-filling and draining loops give every collected reviewer inserted into a set |
| GerritIf.Survivors | src/gerrit_if.rs:215-238 | a user survives exactly when absent (adding) or present (removing) among the current reviewers |
| GerritIf.FlagText | src/gerrit_if.rs:232-237 | the flags are empty exactly when no user survives |
| GerritIf.FlagsSnoc | src/gerrit_if.rs:215-238 | one more user adds `FlagOf` when it survives and nothing otherwise |
| GerritIf.AlreadyHasUser | src/gerrit_if.rs:216-221 | the inner loop finds the user exactly when some current reviewer has its username |
| GerritIf.ReviewerFlags | src/gerrit_if.rs:211-238 | `option_str` is the survivors' ` --add u` / ` --remove u` flags in request order |
| GerritIf.QueryEffect | src/gerrit_if.rs:110-169 | at most one command, and it is the query for the parsed address; an HTTP address runs nothing and fails |
| GerritIf.GetReviewersEffect | src/gerrit_if.rs:265-284 | at most one command is issued |
| GerritIf.AfterQuery | src/gerrit_if.rs:211-245 | after the reviewer query, at most one more command is issued |
| GerritIf.SetReviewersEffect | src/gerrit_if.rs:191-246 | at most two commands are issued |
| GerritIf.QueryReviewsOverSsh | src/gerrit_if.rs:110-159 | the log gains exactly the query command described, and the result is that described |
| GerritIf.QueryReviews | src/gerrit_if.rs:161-169 | the same, with HTTP addresses refused before anything runs |
| GerritIf.GetReviewers | src/gerrit_if.rs:265-284 | the query on the raw address with `--all-reviewers <change-id>`, then the collected reviewers |
| GerritIf.SetReviewersOverSsh | src/gerrit_if.rs:191-246 | the log gains the reviewer query and at most one `set-reviewers` command, as `SetReviewersEffect` says |
| GerritIf.ApplyReviewers | src/gerrit_if.rs:211-245 | after the query, the log gains the `set-reviewers` command exactly when a flag survives, and the result is as `AfterQuery` says |
| GerritIf.AddReviewer | src/gerrit_if.rs:171-179 | over `ssh`, one user added by name; any other scheme runs nothing and fails |
| GerritIf.DeleteReviewers | src/gerrit_if.rs:181-188 | over `ssh`, the users removed; any other scheme runs nothing and fails |
| GerritIf.GetUserRecentReviews | src/gerrit_if.rs:286-290 | the query on the raw address with ` owner:<username>` |
| GerritIf.GetUserRecentReviewers | src/gerrit_if.rs:292-320 | the query with `--all-reviewers owner:<username>`, then each reviewer once, in the order of its last appearance |
| GerritIfProperties.NormaliseExample | src/gerrit_if.rs:103-105 | `/platform/core.git` becomes `platform/core` |
| GerritIfProperties.AddressWithoutScheme | src/gerrit_if.rs:89-101 | an address without `://` gives scheme, host and project "", no username, no port, and `raw` the input |
| GerritIfProperties.AddressWithScheme | src/gerrit_if.rs:59-88 | a `://` address: parser failure and a missing host are fatal; scheme "NA" when empty; username `None` exactly when empty; host, port and normalised path taken over |
| GerritIfProperties.DefaultUrlHasNoScheme | src/gerrit_if.rs:50 | the built-in address holds no `://` |
| GerritIfProperties.DefaultChange | src/gerrit_if.rs:46-54 | with nothing given, the descriptor is empty but for the built-in address, and the Change-Id is "NA" |
| GerritIfProperties.QueryTextValue | src/gerrit_if.rs:117-136 | the query string is `project:<p> limit: 10` |
| GerritIfProperties.QueryCommand | src/gerrit_if.rs:117-138 | nothing runs for HTTP or unparsable addresses; otherwise exactly `ssh -x P H gerrit query --format=JSON <more> "project:<p> limit: 10"`, with P the port flag or "" and H `user@host` or `host` |
| GerritIfProperties.ResponseIgnoresAfterRowCount | src/gerrit_if.rs:147-153 | lines after the first `rowCount` object never affect the result |
| GerritIfProperties.ChangeThenStats | src/gerrit_if.rs:147-153 | a change line and a statistics line, each ended by a line ending, give the one change; the empty last line is never parsed |
| GerritIfProperties.ResponseExample | src/gerrit_if.rs:147-153 | the same on a concrete answer and parser |
| GerritIfProperties.ReviewersOfOne | src/gerrit_if.rs:273-282 | one change contributes exactly its `allReviewers` users |
| GerritIfProperties.DistinctReviewersAreDistinct | src/gerrit_if.rs:299-319 | recent reviewers fail exactly when collecting fails; otherwise usernames are distinct and are exactly those of the changes' reviewers |
| GerritIfProperties.DistinctReviewersLastSeenLast | src/gerrit_if.rs:299-319 | the recent reviewer listed last among the changes' reviewers comes last |
| GerritIfProperties.FlagsEmptyIff | src/gerrit_if.rs:223-240 | no flag exactly when every requested user is already in the requested state |
| GerritIfProperties.AddIsIdempotent | src/gerrit_if.rs:223-245 | adding users who are already reviewers issues no flag |
| GerritIfProperties.RemoveIsIdempotent | src/gerrit_if.rs:223-245 | removing users who are not reviewers issues no flag |
| GerritIfProperties.FlagsExample | src/gerrit_if.rs:215-238 | adding alice and dave where alice and bob review gives ` --add dave` |
| GerritIfProperties.SetReviewersQueriesFirst | src/gerrit_if.rs:213-245 | the reviewer query comes first, is no `set-reviewers` command, and at most one command follows |
| GerritIfProperties.SetReviewersOutcome | src/gerrit_if.rs:211-245 | whatever the reviewer query gave: a failed query is fatal; no flag gives "Nothing happened" and no command; otherwise exactly `ssh -x P H gerrit set-reviewers "-p <project>" <flags> <change-id>`, whose answer is returned |
| Text.Split | src/gerrit_if.rs:147 | at least one piece, and no piece holds the separator |
| Text.SplitAround | src/gerrit_if.rs:147 | a separator ends the pieces before it and starts those after it |
| Text.Lines | src/config.rs:61 | the empty text has no lines |
| Text.TrimPadded | src/config.rs:90 | trimming removes white space put in front of a trimmed string |
| Text.NatToDecimalValue | src/gerrit_if.rs:128 | the decimal form of a port reads back as the port |
| LinkedSet.Insert | src/config.rs:97 | appends when the key is absent; otherwise the stored element with that key is moved to the end, the rest keeping their order; the last key is the new key; the keys grow by the new key only; distinct keys stay distinct |
| LinkedSet.InsertPresent | src/config.rs:97 | re-inserting the key stored at position `i` moves exactly that stored element to the end |
| LinkedSet.ReinsertMovesToEnd | src/gerrit_if.rs:300-308 | inserting `a`, `b`, then another element with `a`'s key gives `b`, `a`: the old `a` is kept and moved last |
| LinkedSet.InsertAllLast | src/gerrit_if.rs:300-308 | after inserting a run, the last element of the set has the key inserted last |
| LinkedSet.InsertAll | src/config.rs:106-111 | the keys afterwards are the old keys plus the inserted ones; distinct keys stay distinct |
| LinkedSet.InsertAllDistinct | src/config.rs:106-111 | inserting elements whose keys are all new appends them all, in order |
| Json.Get | src/gerrit_if.rs:149 | a value exactly for an object holding the key, and then the value stored under it |
| Json.StrOrEmpty | src/users.rs:81-83 | a string stored under the key is the result; a non-empty result is the string stored under the key |
| Os.Runner.Run | src/os.rs:5-24 | the command is appended to the log and the answer is the environment's reply to it |

## Left out

- Process spawning and UTF-8 decoding of the output (`src/os.rs`): a runner records commands and answers through a function instead.
- `src/tex_ui.rs`, `src/main.rs`, `src/args.rs` and `src/local_list.rs`: the interactive menu, the command line and logging setup, and a hard-coded stub. These are not part of this model.
- The foreign libraries `Url::parse` with `port_or_known_default`, `serde_json::from_str` and `rand` are inputs. The three regular expressions are explicit functions. A JSON number is kept as its text.
- File and home-directory I/O: `get_config_path`, `get_git_directories` (which takes the third output line through `nth(0)` then `nth(1)`), `Gerrit::new`, and the file write of `save`. `GroupsConfig::new` gets the file contents as a parameter. `save` gives the text it would write.
- Commented-out code (`is_change_open`, `get_unmerged_local_changes`), `println!` and log output, and the race between reading and writing the server's reviewers.
- The `count() == 0` test in `load` cannot succeed, because a split yields at least one piece. The model has no such branch.
- Git.GetRemoteUrl: the remote's name is not used, as in the source.
- The `linked_hash_set` crate is not part of this model. `LinkedSet.Insert` follows its `insert`: a present element is kept and moved to the end. That fixes the order of `Config.GroupsConfig.Set`, `Config.GroupsConfig.Load`, `GerritIf.DistinctReviewers` and `GerritIf.GetUserRecentReviewers`.
- GerritIf.GetReviewersEffect, GerritIf.SetReviewersEffect and GerritIf.AfterQuery: their own contracts bound only the number of commands. The exact commands and results are stated by `GerritIfProperties.QueryCommand`, `GerritIfProperties.SetReviewersQueriesFirst` and `GerritIfProperties.SetReviewersOutcome`.
