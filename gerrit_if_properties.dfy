/**
 * What the Gerrit operations promise: how an address becomes a connection,
 * the exact query command, where a query's answer is cut, how reviewers are
 * collected, and how an add or remove request is reconciled with the current
 * reviewers into at most one command.
 */
module GerritIfProperties {
  import opened Wrappers
  import Text
  import Json
  import Users
  import LinkedSet
  import Os
  import opened GerritIf

  // ----------------------------------------------------- connection descriptor

  /** The example of the normalisation: `/platform/core.git` names the project `platform/core`. */
  lemma NormaliseExample()
    ensures NormaliseProject("/platform/core.git") == "platform/core"
  {
    var p := "/platform/core.git";
    assert Text.StartsWith(p, "/");
    assert Text.EndsWith(p, ".git");
    var r := NormaliseProject(p);
    assert |r| == 13;
    var lead, trail :| (lead == "" || lead == "/") && (trail == "" || trail == ".git") && p == lead + r + trail;
    assert |lead| == 1 && |trail| == 4;
    assert r == p[1..14];
  }

  /** An address without `://`, an SCP-style one included, gives a descriptor empty but for `raw`. */
  lemma AddressWithoutScheme(remote: string, parseUrl: string -> Result<UrlParts, string>)
    requires !Text.Contains(remote, "://")
    ensures ParseGitUrl(remote, parseUrl) == Success(GitUrl("", "", None, None, "", remote))
  {
    assert NormaliseProject("") == "";
  }

  /**
   * An address with `://`: the parser's failure and a missing host are fatal;
   * otherwise an empty scheme reads "NA", an empty username reads as none, and
   * the host, the port and the normalised path are taken over.
   */
  lemma AddressWithScheme(remote: string, parseUrl: string -> Result<UrlParts, string>)
    requires Text.Contains(remote, "://")
    ensures var r := ParseGitUrl(remote, parseUrl);
            match parseUrl(remote)
            case Failure(reason) => r == Failure(MalformedUrl(reason))
            case Success(u) =>
              && (u.host.None? <==> r == Failure(MissingHost))
              && (u.host.Some? ==>
                    && r.Success?
                    && r.value.scheme == (if u.scheme == "" then "NA" else u.scheme)
                    && (r.value.username.None? <==> u.username == "")
                    && (r.value.username.Some? ==> r.value.username.value == u.username)
                    && r.value.hostname == u.host.value
                    && r.value.port == u.port
                    && r.value.project == NormaliseProject(u.path))
  {
  }

  /** A single `:` not followed by `/` leaves no `://` in a string. */
  lemma NoSchemeAround(a: string, b: string)
    requires ':' !in a && ':' !in b && (b == "" || b[0] != '/')
    ensures !Text.Contains(a + [':'] + b, "://")
  {
    var s := a + [':'] + b;
    forall i | 0 <= i <= |s| ensures !Text.OccursAt(s, "://", i) {
      if i + 3 <= |s| {
        if i < |a| {
          assert s[i] == a[i] && a[i] in a;
        } else if i > |a| {
          assert s[i] == b[i - |a| - 1] && b[i - |a| - 1] in b;
        } else {
          assert s[i + 1] == b[0];
        }
        assert s[i..i + 3][0] == s[i] && s[i..i + 3][1] == s[i + 1];
      }
    }
  }

  lemma DefaultPiecesHaveNoColon()
    ensures ':' !in DefaultHost && ':' !in DefaultPath && DefaultPath[0] != '/'
  {
  }

  lemma DefaultUrlHasNoScheme()
    ensures !Text.Contains(DefaultUrl, "://")
  {
    DefaultPiecesHaveNoColon();
    NoSchemeAround(DefaultHost, DefaultPath);
  }

  /** With nothing on the command line, the built-in SCP-style address gives an empty descriptor and "NA". */
  lemma DefaultChange(parseUrl: string -> Result<UrlParts, string>)
    ensures GetGerritChange(None, None, parseUrl)
              == Success(GerritChange(GitUrl("", "", None, None, "", DefaultUrl), "NA"))
  {
    DefaultUrlHasNoScheme();
    AddressWithoutScheme(DefaultUrl, parseUrl);
  }

  // ------------------------------------------------------------------ the query

  /** The query string carries the project and the limit of ten. */
  lemma QueryTextValue(project: string)
    ensures QueryText(project) == "project:" + project + " limit: 10"
  {
    assert Text.NatToDecimal(10) == "10";
  }

  /**
   * `query_reviews`: an HTTP address runs nothing; an address that does not
   * parse runs nothing; any other runs exactly the one query command
   * `ssh -x P H gerrit query --format=JSON <more-args> "project:<p> limit: 10"`,
   * whose P is "-p <port>" or "" and whose H is "user@host" or "host".
   */
  lemma QueryCommand(respond: Respond, log: seq<Os.Argv>, libs: Libraries, remote: string, moreArgs: string)
    ensures var e := QueryEffect(respond, log, libs, remote, moreArgs);
            var parsed := ParseGitUrl(remote, libs.parseUrl);
            && (IsHttp(remote) || parsed.Failure? <==> e.issued == [])
            && (e.issued != [] ==>
                  var url := parsed.value;
                  var argv := e.issued[0];
                  && |argv| == 9
                  && argv[..2] == ["ssh", "-x"]
                  && (argv[2] == "" <==> url.port.None?)
                  && (url.port.Some? ==> argv[2] == "-p " + Text.NatToDecimal(url.port.value))
                  && argv[3] == (if url.username.Some? then url.username.value + "@" + url.hostname else url.hostname)
                  && argv[4..7] == ["gerrit", "query", "--format=JSON"]
                  && argv[7] == moreArgs
                  && argv[8] == "project:" + url.project + " limit: 10")
  {
    var e := QueryEffect(respond, log, libs, remote, moreArgs);
    var parsed := ParseGitUrl(remote, libs.parseUrl);
    if !IsHttp(remote) && parsed.Success? {
      QueryTextValue(parsed.value.project);
    }
  }

  // ---------------------------------------------------------------- the answer

  /** One line of the answer: fatal, the end, or one object in front of the rest. */
  lemma ResponseObjectsHead(lines: seq<string>, parseJson: string -> Option<Json.Json>)
    requires |lines| > 0
    ensures ResponseObjects(lines, parseJson)
              == match parseJson(lines[0])
                 case None => Failure(MalformedJson(lines[0]))
                 case Some(j) => if IsRowCount(j) then Success([]) else Prepend([j], ResponseObjects(lines[1..], parseJson))
  {
  }

  /** Lines after the first `rowCount` object are never looked at. */
  lemma {:induction false} ResponseIgnoresAfterRowCount(a: seq<string>, line: string, b: seq<string>,
                                                        parseJson: string -> Option<Json.Json>)
    requires parseJson(line).Some? && IsRowCount(parseJson(line).value)
    ensures ResponseObjects(a + [line] + b, parseJson) == ResponseObjects(a + [line], parseJson)
  {
    var x := a + [line] + b;
    var y := a + [line];
    ResponseObjectsHead(x, parseJson);
    ResponseObjectsHead(y, parseJson);
    if a == [] {
      assert x[0] == line && y[0] == line;
    } else {
      assert x[0] == a[0] && y[0] == a[0];
      assert x[1..] == a[1..] + [line] + b;
      assert y[1..] == a[1..] + [line];
      ResponseIgnoresAfterRowCount(a[1..], line, b, parseJson);
    }
  }

  const ChangeLine: string := "{\"project\":\"core\"}"
  const StatsLine: string := "{\"rowCount\":1}"

  /** A JSON parser that knows one change line and one statistics line. */
  function SampleParser(s: string): Option<Json.Json> {
    if s == ChangeLine then Some(Json.Object(map["project" := Json.Str("core")]))
    else if s == StatsLine then Some(Json.Object(map["rowCount" := Json.Number("1")]))
    else None
  }

  /**
   * An answer of one change line and the statistics line, each ended by a
   * line ending, splits into a last empty line as well, which would not
   * parse; it is never parsed, because the statistics line comes first.
   */
  lemma ChangeThenStats(change: string, stats: string, parseJson: string -> Option<Json.Json>)
    requires '\n' !in change && '\n' !in stats
    requires parseJson(change).Some? && !IsRowCount(parseJson(change).value)
    requires parseJson(stats).Some? && IsRowCount(parseJson(stats).value)
    ensures ResponseObjects(Text.Split(change + "\n" + stats + "\n", '\n'), parseJson)
              == Success([parseJson(change).value])
  {
    var tail := stats + ['\n'] + "";
    assert change + "\n" + stats + "\n" == change + ['\n'] + tail;
    Text.SplitAround(change, tail, '\n');
    Text.SplitAround(stats, "", '\n');
    Text.SplitNoSeparator(change, '\n');
    Text.SplitNoSeparator(stats, '\n');
    var lines := [change, stats, ""];
    assert Text.Split(change + "\n" + stats + "\n", '\n') == lines;
    assert lines[1..] == [stats, ""];
    assert ResponseObjects(lines[1..], parseJson) == Success([]);
    assert [parseJson(change).value] + [] == [parseJson(change).value];
  }

  /** The same with a concrete parser: the one change object is the whole answer. */
  lemma ResponseExample()
    ensures ResponseObjects(Text.Split(ChangeLine + "\n" + StatsLine + "\n", '\n'), SampleParser)
              == Success([Json.Object(map["project" := Json.Str("core")])])
  {
    assert IsRowCount(SampleParser(StatsLine).value);
    assert !IsRowCount(SampleParser(ChangeLine).value);
    ChangeThenStats(ChangeLine, StatsLine, SampleParser);
  }

  // ------------------------------------------------------------- the reviewers

  /** A change's reviewers are those of its `allReviewers` array, or none without the key. */
  lemma ReviewersOfOne(review: Json.Json)
    ensures ReviewersOf([review]) == ReviewersIn(review)
  {
    assert [review][..0] == [];
    var r := ReviewersIn(review);
    if r.Success? {
      assert [] + r.value == r.value;
    }
  }

  /**
   * `get_user_recent_reviewers` fails exactly when `get_reviewers`' loop
   * would; otherwise each username comes once, and exactly the usernames of
   * the changes' reviewers come.
   */
  lemma DistinctReviewersAreDistinct(reviews: seq<Json.Json>, name: string)
    ensures DistinctReviewers(reviews).Failure? <==> ReviewersOf(reviews).Failure?
    ensures DistinctReviewers(reviews).Success? ==>
              && LinkedSet.Unique(DistinctReviewers(reviews).value, Users.Key)
              && ((name in Users.Usernames(DistinctReviewers(reviews).value))
                    <==> (name in Users.Usernames(ReviewersOf(reviews).value)))
  {
  }

  /**
   * The recent reviewers are ordered by their last appearance: the reviewer
   * listed last among the changes' reviewers comes last.
   */
  lemma DistinctReviewersLastSeenLast(reviews: seq<Json.Json>)
    ensures ReviewersOf(reviews).Success? && ReviewersOf(reviews).value != [] ==>
              var us := ReviewersOf(reviews).value;
              var d := DistinctReviewers(reviews).value;
              |d| > 0 && d[|d| - 1].username == us[|us| - 1].username
  {
    if ReviewersOf(reviews).Success? && ReviewersOf(reviews).value != [] {
      LinkedSet.InsertAllLast([], ReviewersOf(reviews).value, Users.Key);
    }
  }

  // ---------------------------------------------------------- reconciliation

  /** No flag at all exactly when every requested user is already in the target state. */
  lemma FlagsEmptyIff(users: seq<Users.User>, current: seq<Users.User>, isAdd: bool)
    ensures Flags(users, current, isAdd) == "" <==> forall u :: u in users ==> !Survives(u, current, isAdd)
  {
    var s := Survivors(users, current, isAdd);
    if s != [] {
      assert s[0] in s;
    }
  }

  /** Adding users who were just added does nothing. */
  lemma AddIsIdempotent(users: seq<Users.User>, current: seq<Users.User>)
    ensures Flags(users, current + users, true) == ""
  {
    forall u | u in users ensures HasReviewer(current + users, u) {
      LinkedSet.KeysAppend(current, users, Users.Key);
      var k :| 0 <= k < |users| && users[k] == u;
      assert Users.Usernames(current + users)[|current| + k] == u.username;
    }
    FlagsEmptyIff(users, current + users, true);
  }

  /** The current reviewers whose usernames are not among `users`. */
  function Without(current: seq<Users.User>, users: seq<Users.User>): (r: seq<Users.User>)
    ensures forall v :: v in r ==> v in current && v.username !in Users.Usernames(users)
  {
    if current == [] then []
    else
      var v := current[|current| - 1];
      Without(current[..|current| - 1], users) + if v.username in Users.Usernames(users) then [] else [v]
  }

  /** Removing users who were just removed does nothing. */
  lemma RemoveIsIdempotent(users: seq<Users.User>, current: seq<Users.User>)
    ensures Flags(users, Without(current, users), false) == ""
  {
    var rest := Without(current, users);
    forall u | u in users ensures !HasReviewer(rest, u) {
      var k :| 0 <= k < |users| && users[k] == u;
      assert Users.Usernames(users)[k] == u.username;
      HasReviewerAt(rest, u);
      assert forall j :: 0 <= j < |rest| ==> rest[j] in rest;
    }
    FlagsEmptyIff(users, rest, false);
  }

  /** Adding alice and dave to a change reviewed by alice and bob: only dave is added. */
  lemma FlagsExample()
    ensures Flags([Users.FromStr("alice"), Users.FromStr("dave")],
                  [Users.FromStr("alice"), Users.FromStr("bob")], true) == " --add dave"
  {
    var current := [Users.FromStr("alice"), Users.FromStr("bob")];
    var users := [Users.FromStr("alice"), Users.FromStr("dave")];
    var names := Users.Usernames(current);
    assert names == ["alice", "bob"];
    assert HasReviewer(current, users[0]);
    assert !HasReviewer(current, users[1]);
    assert users[..1] == [users[0]];
    assert Survivors(users[..1], current, true) == [];
    assert Survivors(users, current, true) == [users[1]];
    assert FlagText([users[1]], true) == FlagText([], true) + FlagOf(users[1], true);
  }

  /**
   * `set_reviewers_over_ssh` starts with the query for the current reviewers,
   * which is no `set-reviewers` command, and issues at most one command more.
   */
  lemma SetReviewersQueriesFirst(respond: Respond, log: seq<Os.Argv>, libs: Libraries, change: GerritChange,
                                 reviewers: seq<Users.User>, isAdd: bool)
    requires |reviewers| > 0
    ensures var e := SetReviewersEffect(respond, log, libs, change, reviewers, isAdd);
            var cur := GetReviewersEffect(respond, log, libs, change);
            && |cur.issued| <= |e.issued| <= |cur.issued| + 1
            && e.issued[..|cur.issued|] == cur.issued
            && forall k :: 0 <= k < |cur.issued| ==> !IsSetReviewersArgv(cur.issued[k])
  {
    var e := SetReviewersEffect(respond, log, libs, change, reviewers, isAdd);
    var cur := GetReviewersEffect(respond, log, libs, change);
    if e.issued != cur.issued {
      assert (cur.issued + [e.issued[|e.issued| - 1]])[..|cur.issued|] == cur.issued;
    }
  }

  /**
   * What `set_reviewers_over_ssh` does after the query `cur` (which
   * `SetReviewersEffect` takes from `GetReviewersEffect`): a failed query is
   * fatal; with no surviving flag the answer is "Nothing happened"; otherwise
   * one `set-reviewers` command for the change's project and Change-Id carries
   * the flags, and its answer is returned.
   */
  lemma SetReviewersOutcome(respond: Respond, log: seq<Os.Argv>, change: GerritChange, cur: Effect<seq<Users.User>>,
                            reviewers: seq<Users.User>, isAdd: bool)
    ensures var e := AfterQuery(respond, log, change, cur, reviewers, isAdd);
            && (cur.result.Failure? ==> e == Effect(cur.issued, Failure(cur.result.error)))
            && (cur.result.Success? ==>
                  var flags := Flags(reviewers, cur.result.value, isAdd);
                  && (flags == "" ==> e == Effect(cur.issued, Success(Success("Nothing happened"))))
                  && (flags != "" ==>
                        var argv := SetReviewersArgv(change.conn, flags, change.changeId);
                        && IsSetReviewersArgv(argv)
                        && argv[6] == "-p " + change.conn.project && argv[7] == flags && argv[8] == change.changeId
                        && e.issued == cur.issued + [argv]
                        && e.result == Success(respond(log + cur.issued, argv))))
  {
  }
}
