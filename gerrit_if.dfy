/**
 * The Gerrit side of the tool (`gerrit_if.rs`): turning a remote address into
 * an SSH connection descriptor, querying changes with `ssh ... gerrit query`,
 * collecting a change's reviewers from the answer, and reconciling a request
 * to add or remove reviewers into at most one `gerrit set-reviewers` command.
 *
 * Every command goes through an `Os.Runner`. The foreign parsers the source
 * calls (`Url::parse` with `port_or_known_default`, `serde_json::from_str`)
 * are the two functions of a `Libraries` value. Each place where the source
 * panics becomes a `Failure` carrying an `Error`; the commands issued up to
 * that point stay in the runner's log.
 */
module GerritIf {
  import opened Wrappers
  import Text
  import Json
  import Users
  import LinkedSet
  import Os

  /** `QUERY_LIMIT` */
  const QueryLimit: nat := 10

  /** A `u16` port number. */
  type Port = p: int | 0 <= p < 0x1_0000

  /**
   * What the foreign URL parser reports about an address: the scheme, the
   * username (empty when absent), the host if any, the port given or known
   * for the scheme, and the path.
   */
  datatype UrlParts = UrlParts(scheme: string, username: string, host: Option<string>,
                               port: Option<Port>, path: string)

  /** The foreign parsers: `Url::parse` and `serde_json::from_str`. */
  datatype Libraries = Libraries(parseUrl: string -> Result<UrlParts, string>,
                                 parseJson: string -> Option<Json.Json>)

  /** The connection descriptor `GitUrl`. */
  datatype GitUrl = GitUrl(scheme: string, hostname: string, username: Option<string>,
                           port: Option<Port>, project: string, raw: string)

  /** `GerritChange`: a connection and a Change-Id. */
  datatype GerritChange = GerritChange(conn: GitUrl, changeId: string)

  /** The reasons the source panics. */
  datatype Error =
    | MalformedUrl(reason: string)   // `Url::parse` failed
    | MissingHost                    // "Hostname is not found"
    | HttpNotSupported               // "HTTP not supported yet"
    | UnsupportedScheme              // "Unsupported scheme"
    | QueryFailed(stderr: string)    // `run_command_exc(..).unwrap()` on the query
    | MalformedJson(line: string)    // `serde_json::from_str(line).unwrap()`
    | ReviewersNotArray              // `r["allReviewers"].as_array().unwrap()`

  // ----------------------------------------------------- connection descriptor

  /**
   * The regex replacement `^/|(\.git$)` on the project path: one leading `/`
   * and one trailing `.git` go, nothing else does.
   */
  function NormaliseProject(p: string): (r: string)
    ensures exists lead, trail :: (lead == "" || lead == "/") && (trail == "" || trail == ".git")
                                  && p == lead + r + trail
    ensures |r| == |p| - (if Text.StartsWith(p, "/") then 1 else 0) - (if Text.EndsWith(p, ".git") then 4 else 0)
  {
    var lead := if Text.StartsWith(p, "/") then "/" else "";
    var q := p[|lead|..];
    var trail := if Text.EndsWith(q, ".git") then ".git" else "";
    var r := q[..|q| - |trail|];
    NormaliseParts(p, "/", ".git", lead, q, trail, r);
    r
  }

  /**
   * Dropping an optional one-character prefix `lead` of `p`, then an optional
   * suffix `ext` that cannot start with that character, leaves `r` between
   * them, and the suffix is found whether or not the prefix went first.
   */
  lemma NormaliseParts(p: string, slash: string, ext: string, lead: string, q: string, trail: string, r: string)
    requires |slash| == 1 && |ext| > 0 && slash[0] != ext[0]
    requires lead == (if Text.StartsWith(p, slash) then slash else "") && q == p[|lead|..]
    requires trail == (if Text.EndsWith(q, ext) then ext else "") && r == q[..|q| - |trail|]
    ensures p == lead + r + trail
    ensures Text.EndsWith(q, ext) <==> Text.EndsWith(p, ext)
  {
    assert p == lead + q by {
      assert p[..|lead|] == lead;
    }
    assert q == r + trail by {
      assert q[|q| - |trail|..] == trail;
    }
    Text.ConcatAssoc(lead, r, trail);
    if lead == slash {
      Text.EndsWithTail(p, ext);
    } else {
      assert q == p;
    }
  }

  /**
   * The address `get_gerrit_change` falls back to when none is given,
   * "git@github.com:ponsheng/gerrit-reviewers.git", written as its host part,
   * the colon and its path part.
   */
  const DefaultHost: string := "git@github.com"
  const DefaultPath: string := "ponsheng/gerrit-reviewers.git"
  const DefaultUrl: string := DefaultHost + ":" + DefaultPath

  /** The Change-Id `get_gerrit_change` falls back to when none is given. */
  const DefaultChangeId: string := "NA"

  /**
   * `parse_gerrit_ssh_params_from_git_url`. An address containing `://` goes
   * to the URL parser; any other address (an SCP-style one included) gives a
   * descriptor whose fields are all empty but `raw`.
   */
  function ParseGitUrl(remote: string, parseUrl: string -> Result<UrlParts, string>): (r: Result<GitUrl, Error>)
    ensures r.Success? ==> r.value.raw == remote
    ensures r.Success? && r.value.username.Some? ==> r.value.username.value != ""
    ensures r.Success? && r.value.scheme == "" ==> !Text.Contains(remote, "://")
    ensures r.Failure? ==> Text.Contains(remote, "://")
  {
    var parsed :=
      if !Text.Contains(remote, "://") then
        Success(GitUrl("", "", None, None, "", remote))
      else
        match parseUrl(remote)
        case Failure(reason) => Failure(MalformedUrl(reason))
        case Success(u) =>
          if u.host.None? then Failure(MissingHost)
          else Success(GitUrl(if u.scheme == "" then "NA" else u.scheme,
                              u.host.value,
                              if u.username == "" then None else Some(u.username),
                              u.port,
                              u.path,
                              remote));
    match parsed
    case Failure(e) => Failure(e)
    case Success(url) => Success(url.(project := NormaliseProject(url.project)))
  }

  /**
   * `get_gerrit_change`: the command line's address and Change-Id, or the
   * built-in fallbacks.
   */
  function GetGerritChange(url: Option<string>, change: Option<string>,
                           parseUrl: string -> Result<UrlParts, string>): (r: Result<GerritChange, Error>)
    ensures r.Success? ==> r.value.conn.raw == (if url.Some? then url.value else DefaultUrl)
    ensures r.Success? ==> r.value.changeId == (if change.Some? then change.value else DefaultChangeId)
  {
    var remote := if url.Some? then url.value else DefaultUrl;
    match ParseGitUrl(remote, parseUrl)
    case Failure(e) => Failure(e)
    case Success(conn) => Success(GerritChange(conn, if change.Some? then change.value else DefaultChangeId))
  }

  // ----------------------------------------------------------------- commands

  /** The `-p <port>` argument of `ssh`, or "" without a port. */
  function PortArg(port: Option<Port>): (r: string)
    ensures port.None? <==> r == ""
    ensures port.Some? ==> Text.StartsWith(r, "-p ")
                           && (forall i :: 3 <= i < |r| ==> '0' <= r[i] <= '9')
                           && Text.DecimalValue(r[3..]) == port.value
  {
    match port
    case None => ""
    case Some(p) =>
      var digits := Text.NatToDecimal(p);
      Text.NatToDecimalValue(p);
      assert ("-p " + digits)[3..] == digits;
      "-p " + digits
  }

  /** `user@host`, or the host alone without a username. */
  function UserHost(url: GitUrl): string {
    match url.username
    case Some(u) => u + "@" + url.hostname
    case None => url.hostname
  }

  /** The query string: the project, then the limit when there is one. */
  function QueryText(project: string): string {
    "project:" + project + (if QueryLimit > 0 then " limit: " + Text.NatToDecimal(QueryLimit) else "")
  }

  /** The argument vector of `query_reviews_over_ssh`. */
  function QueryArgv(url: GitUrl, moreArgs: string): Os.Argv {
    ["ssh", "-x", PortArg(url.port), UserHost(url), "gerrit", "query", "--format=JSON", moreArgs,
     QueryText(url.project)]
  }

  /** The argument vector of the one `set-reviewers` command. */
  function SetReviewersArgv(conn: GitUrl, flags: string, changeId: string): Os.Argv {
    ["ssh", "-x", PortArg(conn.port), UserHost(conn), "gerrit", "set-reviewers", "-p " + conn.project,
     flags, changeId]
  }

  /** A `gerrit set-reviewers` command, whatever its arguments. */
  predicate IsSetReviewersArgv(argv: Os.Argv) {
    |argv| > 5 && argv[4] == "gerrit" && argv[5] == "set-reviewers"
  }

  // ----------------------------------------------------------------- response

  /** The statistics object that ends a query's answer. */
  predicate IsRowCount(j: Json.Json) {
    Json.HasKey(j, "rowCount")
  }

  /**
   * The loop of `query_reviews_over_ssh` over the answer's lines: each line is
   * parsed, and the objects before the first one with a `rowCount` key are
   * kept in order. A line that does not parse is fatal, unless a `rowCount`
   * line came before it.
   */
  function ResponseObjects(lines: seq<string>, parseJson: string -> Option<Json.Json>)
    : (r: Result<seq<Json.Json>, Error>)
    ensures r.Success? ==>
              && |r.value| <= |lines|
              && (forall i :: 0 <= i < |r.value| ==> parseJson(lines[i]) == Some(r.value[i]) && !IsRowCount(r.value[i]))
              && (|r.value| == |lines| || (parseJson(lines[|r.value|]).Some?
                                           && IsRowCount(parseJson(lines[|r.value|]).value)))
    ensures r.Failure? ==>
              exists k :: 0 <= k < |lines| && parseJson(lines[k]).None? && r.error == MalformedJson(lines[k])
                          && forall i :: 0 <= i < k ==> parseJson(lines[i]).Some? && !IsRowCount(parseJson(lines[i]).value)
  {
    if lines == [] then Success([])
    else
      match parseJson(lines[0])
      case None => Failure(MalformedJson(lines[0]))
      case Some(j) =>
        if IsRowCount(j) then Success([])
        else
          var rest := ResponseObjects(lines[1..], parseJson);
          match rest
          case Failure(e) =>
            FailureShift(lines, parseJson, e);
            Failure(e)
          case Success(objects) =>
            SuccessShift(lines, parseJson, objects);
            Success([j] + objects)
  }

  /** A failure of the lines after an object that is not the statistics is a failure of all the lines. */
  lemma FailureShift(lines: seq<string>, parseJson: string -> Option<Json.Json>, e: Error)
    requires |lines| > 0 && parseJson(lines[0]).Some? && !IsRowCount(parseJson(lines[0]).value)
    requires exists k :: 0 <= k < |lines[1..]| && parseJson(lines[1..][k]).None? && e == MalformedJson(lines[1..][k])
                         && forall i :: 0 <= i < k ==> parseJson(lines[1..][i]).Some? && !IsRowCount(parseJson(lines[1..][i]).value)
    ensures exists k :: 0 <= k < |lines| && parseJson(lines[k]).None? && e == MalformedJson(lines[k])
                        && forall i :: 0 <= i < k ==> parseJson(lines[i]).Some? && !IsRowCount(parseJson(lines[i]).value)
  {
    var k :| 0 <= k < |lines[1..]| && parseJson(lines[1..][k]).None? && e == MalformedJson(lines[1..][k])
             && forall i :: 0 <= i < k ==> parseJson(lines[1..][i]).Some? && !IsRowCount(parseJson(lines[1..][i]).value);
    forall i | 0 <= i < k + 1 ensures parseJson(lines[i]).Some? && !IsRowCount(parseJson(lines[i]).value) {
      if i > 0 {
        assert lines[i] == lines[1..][i - 1];
      }
    }
    assert lines[k + 1] == lines[1..][k];
  }

  /** The objects of the lines after an object that is not the statistics, with that object in front. */
  lemma SuccessShift(lines: seq<string>, parseJson: string -> Option<Json.Json>, objects: seq<Json.Json>)
    requires |lines| > 0 && parseJson(lines[0]).Some? && !IsRowCount(parseJson(lines[0]).value)
    requires |objects| <= |lines[1..]|
    requires forall i :: 0 <= i < |objects| ==> parseJson(lines[1..][i]) == Some(objects[i]) && !IsRowCount(objects[i])
    requires |objects| == |lines[1..]| || (parseJson(lines[1..][|objects|]).Some?
                                           && IsRowCount(parseJson(lines[1..][|objects|]).value))
    ensures var r := [parseJson(lines[0]).value] + objects;
            && |r| <= |lines|
            && (forall i :: 0 <= i < |r| ==> parseJson(lines[i]) == Some(r[i]) && !IsRowCount(r[i]))
            && (|r| == |lines| || (parseJson(lines[|r|]).Some? && IsRowCount(parseJson(lines[|r|]).value)))
  {
    var r := [parseJson(lines[0]).value] + objects;
    forall i | 0 <= i < |r| ensures parseJson(lines[i]) == Some(r[i]) && !IsRowCount(r[i]) {
      if i > 0 {
        assert lines[i] == lines[1..][i - 1] && r[i] == objects[i - 1];
      }
    }
    if |r| < |lines| {
      assert lines[|r|] == lines[1..][|objects|];
    }
  }

  /** `objects` put in front of a result's objects; a failure stays as it is. */
  function Prepend(objects: seq<Json.Json>, r: Result<seq<Json.Json>, Error>): Result<seq<Json.Json>, Error> {
    match r
    case Success(more) => Success(objects + more)
    case Failure(e) => Failure(e)
  }

  lemma PrependTwice(a: seq<Json.Json>, b: seq<Json.Json>, r: Result<seq<Json.Json>, Error>)
    ensures Prepend(a, Prepend(b, r)) == Prepend(a + b, r)
  {
    if r.Success? {
      assert a + (b + r.value) == a + b + r.value;
    }
  }

  lemma ResponseObjectsStep(lines: seq<string>, i: nat, parseJson: string -> Option<Json.Json>)
    requires i < |lines|
    ensures var j := parseJson(lines[i]);
            j.Some? && !IsRowCount(j.value) ==>
              ResponseObjects(lines[i..], parseJson) == Prepend([j.value], ResponseObjects(lines[i + 1..], parseJson))
    ensures var j := parseJson(lines[i]);
            j.Some? && IsRowCount(j.value) ==> ResponseObjects(lines[i..], parseJson) == Success([])
  {
    assert lines[i..][1..] == lines[i + 1..];
    assert lines[i..][0] == lines[i];
  }

  /** The answer-reading loop of `query_reviews_over_ssh`, with its early `break`. */
  method CollectChanges(resp: string, parseJson: string -> Option<Json.Json>) returns (r: Result<seq<Json.Json>, Error>)
    ensures r == ResponseObjects(Text.Split(resp, '\n'), parseJson)
  {
    var lines := Text.Split(resp, '\n');
    var changes: seq<Json.Json> := [];
    var i := 0;
    assert lines[0..] == lines;
    assert Prepend([], ResponseObjects(lines, parseJson)) == ResponseObjects(lines, parseJson) by {
      var x := ResponseObjects(lines, parseJson);
      if x.Success? {
        assert [] + x.value == x.value;
      }
    }
    while i < |lines|
      invariant 0 <= i <= |lines|
      invariant ResponseObjects(lines, parseJson) == Prepend(changes, ResponseObjects(lines[i..], parseJson))
    {
      ResponseObjectsStep(lines, i, parseJson);
      var json := parseJson(lines[i]);
      if json.None? {
        return Failure(MalformedJson(lines[i]));
      }
      if IsRowCount(json.value) {
        break;
      }
      PrependTwice(changes, [json.value], ResponseObjects(lines[i + 1..], parseJson));
      changes := changes + [json.value];
      i := i + 1;
    }
    assert changes + [] == changes;
    r := Success(changes);
  }

  // ---------------------------------------------------------------- reviewers

  /** `get_git_user` over an `allReviewers` array, in order. */
  function GitUsers(items: seq<Json.Json>): (r: seq<Users.User>)
    ensures |r| == |items|
    ensures forall i :: 0 <= i < |items| ==> r[i] == Users.GitUser(items[i])
  {
    if items == [] then [] else GitUsers(items[..|items| - 1]) + [Users.GitUser(items[|items| - 1])]
  }

  /** The reviewers one change object contributes: none without the key; fatal when it is not an array. */
  function ReviewersIn(review: Json.Json): (r: Result<seq<Users.User>, Error>)
    ensures Json.Get(review, "allReviewers").None? ==> r == Success([])
    ensures r.Failure? <==> Json.Get(review, "allReviewers").Some? && !Json.Get(review, "allReviewers").value.Array?
  {
    match Json.Get(review, "allReviewers")
    case None => Success([])
    case Some(Array(items)) => Success(GitUsers(items))
    case Some(_) => Failure(ReviewersNotArray)
  }

  /** Two runs of reviewers one after the other; the first failure wins. */
  function Combine(first: Result<seq<Users.User>, Error>, second: Result<seq<Users.User>, Error>)
    : Result<seq<Users.User>, Error>
  {
    match first
    case Failure(e) => Failure(e)
    case Success(x) =>
      match second
      case Failure(e) => Failure(e)
      case Success(y) => Success(x + y)
  }

  lemma CombineAssoc(a: Result<seq<Users.User>, Error>, b: Result<seq<Users.User>, Error>,
                     c: Result<seq<Users.User>, Error>)
    ensures Combine(Combine(a, b), c) == Combine(a, Combine(b, c))
  {
    if a.Success? && b.Success? && c.Success? {
      assert a.value + b.value + c.value == a.value + (b.value + c.value);
    }
  }

  /** The reviewers of a query's changes, change after change: the loop of `get_reviewers`. */
  function ReviewersOf(reviews: seq<Json.Json>): Result<seq<Users.User>, Error> {
    if reviews == [] then Success([])
    else Combine(ReviewersOf(reviews[..|reviews| - 1]), ReviewersIn(reviews[|reviews| - 1]))
  }

  lemma ReviewersOfSnoc(reviews: seq<Json.Json>, k: nat)
    requires k < |reviews|
    ensures ReviewersOf(reviews[..k + 1]) == Combine(ReviewersOf(reviews[..k]), ReviewersIn(reviews[k]))
  {
    assert reviews[..k + 1][..k] == reviews[..k];
  }

  /** Once a prefix of the changes is fatal, so is the whole. */
  lemma ReviewersOfFailed(reviews: seq<Json.Json>, k: nat)
    requires k <= |reviews| && ReviewersOf(reviews[..k]).Failure?
    ensures ReviewersOf(reviews) == ReviewersOf(reviews[..k])
  {
    ReviewersOfAppend(reviews[..k], reviews[k..]);
    assert reviews[..k] + reviews[k..] == reviews;
  }

  /** The reviewers of two runs of changes are those of the first, then those of the second. */
  lemma {:induction false} ReviewersOfAppend(a: seq<Json.Json>, b: seq<Json.Json>)
    ensures ReviewersOf(a + b) == Combine(ReviewersOf(a), ReviewersOf(b))
  {
    if b == [] {
      assert a + b == a;
      var ra := ReviewersOf(a);
      if ra.Success? {
        assert ra.value + [] == ra.value;
      }
    } else {
      var c := b[..|b| - 1];
      var x := b[|b| - 1];
      assert (a + b)[..|a + b| - 1] == a + c;
      assert (a + b)[|a + b| - 1] == x;
      ReviewersOfAppend(a, c);
      CombineAssoc(ReviewersOf(a), ReviewersOf(c), ReviewersIn(x));
    }
  }

  lemma GitUsersSnoc(items: seq<Json.Json>, m: nat)
    requires m < |items|
    ensures GitUsers(items[..m + 1]) == GitUsers(items[..m]) + [Users.GitUser(items[m])]
  {
    assert items[..m + 1][..m] == items[..m];
  }

  /** The nested loop of `get_reviewers` that pushes every reviewer of every change. */
  method CollectReviewers(reviews: seq<Json.Json>) returns (r: Result<seq<Users.User>, Error>)
    ensures r == ReviewersOf(reviews)
  {
    var reviewerList: seq<Users.User> := [];
    for k := 0 to |reviews|
      invariant ReviewersOf(reviews[..k]) == Success(reviewerList)
    {
      ReviewersOfSnoc(reviews, k);
      var review := reviews[k];
      var field := Json.Get(review, "allReviewers");
      if field.None? {
        assert reviewerList + [] == reviewerList;
        continue;
      }
      if !field.value.Array? {
        ReviewersOfFailed(reviews, k + 1);
        return Failure(ReviewersNotArray);
      }
      var items := field.value.items;
      ghost var before := reviewerList;
      for m := 0 to |items|
        invariant reviewerList == before + GitUsers(items[..m])
      {
        GitUsersSnoc(items, m);
        Text.ConcatAssoc(before, GitUsers(items[..m]), [Users.GitUser(items[m])]);
        reviewerList := reviewerList + [Users.GitUser(items[m])];
      }
      assert items[..|items|] == items;
      assert ReviewersIn(review) == Success(GitUsers(items));
    }
    assert reviews[..|reviews|] == reviews;
    r := Success(reviewerList);
  }

  /**
   * The reviewers of `get_user_recent_reviewers`: every reviewer inserted
   * into an insertion-ordered set keyed by username.
   */
  function DistinctReviewers(reviews: seq<Json.Json>): Result<seq<Users.User>, Error> {
    match ReviewersOf(reviews)
    case Failure(e) => Failure(e)
    case Success(us) => Success(LinkedSet.InsertAll([], us, Users.Key))
  }

  /**
   * The set-filling loop of `get_user_recent_reviewers`, followed by the
   * `pop_front` loop that drains the set into a list.
   */
  method CollectDistinctReviewers(reviews: seq<Json.Json>) returns (r: Result<seq<Users.User>, Error>)
    ensures r == DistinctReviewers(reviews)
  {
    var reviewerSet: seq<Users.User> := [];
    ghost var all: seq<Users.User> := [];
    for k := 0 to |reviews|
      invariant ReviewersOf(reviews[..k]) == Success(all)
      invariant reviewerSet == LinkedSet.InsertAll([], all, Users.Key)
    {
      ReviewersOfSnoc(reviews, k);
      var field := Json.Get(reviews[k], "allReviewers");
      if field.None? {
        assert all + [] == all;
        continue;
      }
      if !field.value.Array? {
        ReviewersOfFailed(reviews, k + 1);
        return Failure(ReviewersNotArray);
      }
      var items := field.value.items;
      LinkedSet.InsertAllAppend([], all, GitUsers(items), Users.Key);
      reviewerSet := InsertReviewers(reviewerSet, items);
      all := all + GitUsers(items);
    }
    assert reviews[..|reviews|] == reviews;
    var reviewerList := DrainFront(reviewerSet);
    r := Success(reviewerList);
  }

  /** The inner loop of `get_user_recent_reviewers`: one change's reviewers into the set. */
  method InsertReviewers(reviewerSet: seq<Users.User>, items: seq<Json.Json>) returns (r: seq<Users.User>)
    ensures r == LinkedSet.InsertAll(reviewerSet, GitUsers(items), Users.Key)
  {
    r := reviewerSet;
    for m := 0 to |items|
      invariant r == LinkedSet.InsertAll(reviewerSet, GitUsers(items[..m]), Users.Key)
    {
      GitUsersSnoc(items, m);
      LinkedSet.InsertAllSnoc(reviewerSet, GitUsers(items[..m]), Users.GitUser(items[m]), Users.Key);
      r := LinkedSet.Insert(r, Users.GitUser(items[m]), Users.Key);
    }
    assert items[..|items|] == items;
  }

  /** `loop { match set.pop_front() { Some(r) => list.push(r), None => break } }` */
  method DrainFront(s: seq<Users.User>) returns (list: seq<Users.User>)
    ensures list == s
  {
    var rest := s;
    list := [];
    while |rest| > 0
      invariant list + rest == s
    {
      list := list + [rest[0]];
      rest := rest[1..];
    }
    assert rest == [];
    assert list + [] == list;
  }

  // ---------------------------------------------------------- reconciliation

  /** `already_has_user`: some current reviewer has the user's username. */
  predicate HasReviewer(current: seq<Users.User>, u: Users.User) {
    u.username in Users.Usernames(current)
  }

  lemma HasReviewerAt(current: seq<Users.User>, u: Users.User)
    ensures HasReviewer(current, u) <==> exists j :: 0 <= j < |current| && current[j].username == u.username
  {
    var names := Users.Usernames(current);
    if HasReviewer(current, u) {
      var j :| 0 <= j < |names| && names[j] == u.username;
      assert current[j].username == u.username;
    }
  }

  /** The users a request keeps: absent ones when adding, present ones when removing. */
  predicate Survives(u: Users.User, current: seq<Users.User>, isAdd: bool) {
    isAdd != HasReviewer(current, u)
  }

  /** The requested users that survive, in request order. */
  function Survivors(users: seq<Users.User>, current: seq<Users.User>, isAdd: bool): (r: seq<Users.User>)
    ensures |r| <= |users|
    ensures forall u :: u in r <==> u in users && Survives(u, current, isAdd)
  {
    if users == [] then []
    else
      var u := users[|users| - 1];
      var earlier := Survivors(users[..|users| - 1], current, isAdd);
      assert forall v :: v in users <==> v in users[..|users| - 1] || v == u by {
        assert users == users[..|users| - 1] + [u];
      }
      earlier + if Survives(u, current, isAdd) then [u] else []
  }

  /** The flag a surviving user contributes. */
  function FlagOf(u: Users.User, isAdd: bool): (r: string)
    ensures |r| > |u.username|
  {
    (if isAdd then " --add " else " --remove ") + u.username
  }

  /** The flags of a list of users, concatenated in order. */
  function FlagText(us: seq<Users.User>, isAdd: bool): (r: string)
    ensures r == "" <==> us == []
  {
    if us == [] then "" else FlagText(us[..|us| - 1], isAdd) + FlagOf(us[|us| - 1], isAdd)
  }

  /** `option_str`: the flags of the survivors, in request order. */
  function Flags(users: seq<Users.User>, current: seq<Users.User>, isAdd: bool): string {
    FlagText(Survivors(users, current, isAdd), isAdd)
  }

  lemma FlagsSnoc(users: seq<Users.User>, current: seq<Users.User>, isAdd: bool, k: nat)
    requires k < |users|
    ensures Survives(users[k], current, isAdd) ==>
              Flags(users[..k + 1], current, isAdd) == Flags(users[..k], current, isAdd) + FlagOf(users[k], isAdd)
    ensures !Survives(users[k], current, isAdd) ==>
              Flags(users[..k + 1], current, isAdd) == Flags(users[..k], current, isAdd)
  {
    assert users[..k + 1][..k] == users[..k];
    var s := Survivors(users[..k], current, isAdd);
    if Survives(users[k], current, isAdd) {
      assert (s + [users[k]])[..|s|] == s;
    } else {
      assert s + [] == s;
    }
  }

  /** The inner loop of `set_reviewers_over_ssh`: is the user among the current reviewers? */
  method AlreadyHasUser(current: seq<Users.User>, user: Users.User) returns (alreadyHasUser: bool)
    ensures alreadyHasUser == HasReviewer(current, user)
  {
    alreadyHasUser := false;
    for m := 0 to |current|
      invariant alreadyHasUser <==> exists j :: 0 <= j < m && current[j].username == user.username
    {
      if user.username == current[m].username {
        alreadyHasUser := true;
      }
    }
    HasReviewerAt(current, user);
  }

  /**
   * The loop of `set_reviewers_over_ssh` that builds `option_str`, with its
   * inner loop looking for the user among the current reviewers.
   */
  method ReviewerFlags(users: seq<Users.User>, current: seq<Users.User>, isAdd: bool) returns (optionStr: string)
    ensures optionStr == Flags(users, current, isAdd)
  {
    optionStr := "";
    for k := 0 to |users|
      invariant optionStr == Flags(users[..k], current, isAdd)
    {
      FlagsSnoc(users, current, isAdd, k);
      var user := users[k];
      var alreadyHasUser := AlreadyHasUser(current, user);
      if isAdd && alreadyHasUser {
        continue;
      } else if !isAdd && !alreadyHasUser {
        continue;
      }
      ghost var before := optionStr;
      if isAdd {
        optionStr := optionStr + " --add ";
      } else {
        optionStr := optionStr + " --remove ";
      }
      optionStr := optionStr + user.username;
      Text.ConcatAssoc(before, if isAdd then " --add " else " --remove ", user.username);
    }
    assert users[..|users|] == users;
  }

  // ------------------------------------------------------------------ effects

  /** The outside world's answers, as the runner gives them. */
  type Respond = (seq<Os.Argv>, Os.Argv) -> Result<string, string>

  /** The commands an operation issues, in order, and what it returns. */
  datatype Effect<T> = Effect(issued: seq<Os.Argv>, result: Result<T, Error>)

  predicate IsHttp(remote: string) {
    Text.StartsWith(remote, "http://") || Text.StartsWith(remote, "https://")
  }

  /**
   * `query_reviews`, issued after the commands `log`: HTTP addresses are
   * refused, others are queried over SSH with one command.
   */
  function QueryEffect(respond: Respond, log: seq<Os.Argv>, libs: Libraries, remote: string, moreArgs: string)
    : (e: Effect<seq<Json.Json>>)
    ensures |e.issued| <= 1
    ensures e.issued != [] ==> ParseGitUrl(remote, libs.parseUrl).Success?
                               && e.issued == [QueryArgv(ParseGitUrl(remote, libs.parseUrl).value, moreArgs)]
    ensures IsHttp(remote) ==> e == Effect([], Failure(HttpNotSupported))
  {
    if IsHttp(remote) then Effect([], Failure(HttpNotSupported))
    else
      match ParseGitUrl(remote, libs.parseUrl)
      case Failure(err) => Effect([], Failure(err))
      case Success(url) =>
        var argv := QueryArgv(url, moreArgs);
        match respond(log, argv)
        case Failure(stderr) => Effect([argv], Failure(QueryFailed(stderr)))
        case Success(resp) => Effect([argv], ResponseObjects(Text.Split(resp, '\n'), libs.parseJson))
  }

  /** `--all-reviewers <change-id>`: the extra query arguments of `get_reviewers`. */
  function AllReviewersArgs(changeId: string): string {
    "--all-reviewers " + changeId
  }

  /** `get_reviewers`: the query on the change's raw address, then its reviewers. */
  function GetReviewersEffect(respond: Respond, log: seq<Os.Argv>, libs: Libraries, change: GerritChange)
    : (e: Effect<seq<Users.User>>)
    ensures |e.issued| <= 1
  {
    var q := QueryEffect(respond, log, libs, change.conn.raw, AllReviewersArgs(change.changeId));
    match q.result
    case Failure(err) => Effect(q.issued, Failure(err))
    case Success(reviews) => Effect(q.issued, ReviewersOf(reviews))
  }

  /**
   * What `set_reviewers_over_ssh` does once the current reviewers are known
   * from the query `cur`: either nothing more is issued and "Nothing happened"
   * is returned, or one `set-reviewers` command carries the surviving flags
   * and its answer is returned.
   */
  function AfterQuery(respond: Respond, log: seq<Os.Argv>, change: GerritChange, cur: Effect<seq<Users.User>>,
                      reviewers: seq<Users.User>, isAdd: bool): (e: Effect<Result<string, string>>)
    ensures |cur.issued| <= |e.issued| <= |cur.issued| + 1
  {
    match cur.result
    case Failure(err) => Effect(cur.issued, Failure(err))
    case Success(current) =>
      var flags := Flags(reviewers, current, isAdd);
      if flags == "" then Effect(cur.issued, Success(Success("Nothing happened")))
      else
        var argv := SetReviewersArgv(change.conn, flags, change.changeId);
        Effect(cur.issued + [argv], Success(respond(log + cur.issued, argv)))
  }

  /** `set_reviewers_over_ssh`: the current reviewers are queried first, then as `AfterQuery` says. */
  function SetReviewersEffect(respond: Respond, log: seq<Os.Argv>, libs: Libraries, change: GerritChange,
                              reviewers: seq<Users.User>, isAdd: bool): (e: Effect<Result<string, string>>)
    requires |reviewers| > 0
    ensures |e.issued| <= 2
  {
    AfterQuery(respond, log, change, GetReviewersEffect(respond, log, libs, change), reviewers, isAdd)
  }

  // ------------------------------------------------------------ the functions

  /** `query_reviews_over_ssh` */
  method QueryReviewsOverSsh(runner: Os.Runner, libs: Libraries, remote: string, moreArgs: string)
    returns (r: Result<seq<Json.Json>, Error>)
    requires !IsHttp(remote)
    modifies runner
    ensures var e := QueryEffect(runner.respond, old(runner.log), libs, remote, moreArgs);
            runner.log == old(runner.log) + e.issued && r == e.result
  {
    var parsed := ParseGitUrl(remote, libs.parseUrl);
    if parsed.Failure? {
      assert old(runner.log) + [] == runner.log;
      return Failure(parsed.error);
    }
    var url := parsed.value;
    var argv := QueryArgv(url, moreArgs);
    var resp := runner.Run(argv);
    if resp.Failure? {
      return Failure(QueryFailed(resp.error));
    }
    r := CollectChanges(resp.value, libs.parseJson);
  }

  /** `query_reviews` */
  method QueryReviews(runner: Os.Runner, libs: Libraries, remote: string, moreArgs: string)
    returns (r: Result<seq<Json.Json>, Error>)
    modifies runner
    ensures var e := QueryEffect(runner.respond, old(runner.log), libs, remote, moreArgs);
            runner.log == old(runner.log) + e.issued && r == e.result
  {
    if IsHttp(remote) {
      assert old(runner.log) + [] == runner.log;
      return Failure(HttpNotSupported);
    }
    r := QueryReviewsOverSsh(runner, libs, remote, moreArgs);
  }

  /** `get_reviewers` */
  method GetReviewers(runner: Os.Runner, libs: Libraries, change: GerritChange)
    returns (r: Result<seq<Users.User>, Error>)
    modifies runner
    ensures var e := GetReviewersEffect(runner.respond, old(runner.log), libs, change);
            runner.log == old(runner.log) + e.issued && r == e.result
  {
    var reviews := QueryReviews(runner, libs, change.conn.raw, AllReviewersArgs(change.changeId));
    if reviews.Failure? {
      return Failure(reviews.error);
    }
    r := CollectReviewers(reviews.value);
  }

  /** `set_reviewers_over_ssh`; the `assert!` on a non-empty list is its precondition. */
  method SetReviewersOverSsh(runner: Os.Runner, libs: Libraries, change: GerritChange,
                             reviewers: seq<Users.User>, isAdd: bool)
    returns (r: Result<Result<string, string>, Error>)
    requires |reviewers| > 0
    modifies runner
    ensures var e := SetReviewersEffect(runner.respond, old(runner.log), libs, change, reviewers, isAdd);
            runner.log == old(runner.log) + e.issued && r == e.result
  {
    ghost var cur := GetReviewersEffect(runner.respond, runner.log, libs, change);
    var curReviewers := GetReviewers(runner, libs, change);
    r := ApplyReviewers(runner, change, curReviewers, reviewers, isAdd, old(runner.log), cur);
  }

  /**
   * The part of `set_reviewers_over_ssh` after the query, whose answer
   * `curReviewers` the ghost `cur` describes together with the commands it
   * issued after `log0`.
   */
  method ApplyReviewers(runner: Os.Runner, change: GerritChange, curReviewers: Result<seq<Users.User>, Error>,
                        reviewers: seq<Users.User>, isAdd: bool,
                        ghost log0: seq<Os.Argv>, ghost cur: Effect<seq<Users.User>>)
    returns (r: Result<Result<string, string>, Error>)
    requires runner.log == log0 + cur.issued && curReviewers == cur.result
    modifies runner
    ensures var e := AfterQuery(runner.respond, log0, change, cur, reviewers, isAdd);
            runner.log == log0 + e.issued && r == e.result
  {
    if curReviewers.Failure? {
      return Failure(curReviewers.error);
    }
    var optionStr := ReviewerFlags(reviewers, curReviewers.value, isAdd);
    if |optionStr| != 0 {
      var cmd := SetReviewersArgv(change.conn, optionStr, change.changeId);
      var reply := runner.Run(cmd);
      r := Success(reply);
    } else {
      r := Success(Success("Nothing happened"));
    }
  }

  /** `add_reviewer`: one user, by name, over SSH only. */
  method AddReviewer(runner: Os.Runner, libs: Libraries, change: GerritChange, name: string)
    returns (r: Result<Result<string, string>, Error>)
    modifies runner
    ensures change.conn.scheme != "ssh" ==> runner.log == old(runner.log) && r == Failure(UnsupportedScheme)
    ensures change.conn.scheme == "ssh" ==>
              var e := SetReviewersEffect(runner.respond, old(runner.log), libs, change, [Users.FromStr(name)], true);
              runner.log == old(runner.log) + e.issued && r == e.result
  {
    if change.conn.scheme == "ssh" {
      r := SetReviewersOverSsh(runner, libs, change, [Users.FromStr(name)], true);
    } else {
      r := Failure(UnsupportedScheme);
    }
  }

  /** `delete_reviewers`: over SSH only; the list must not be empty there. */
  method DeleteReviewers(runner: Os.Runner, libs: Libraries, change: GerritChange, reviewers: seq<Users.User>)
    returns (r: Result<Result<string, string>, Error>)
    requires change.conn.scheme == "ssh" ==> |reviewers| > 0
    modifies runner
    ensures change.conn.scheme != "ssh" ==> runner.log == old(runner.log) && r == Failure(UnsupportedScheme)
    ensures change.conn.scheme == "ssh" ==>
              var e := SetReviewersEffect(runner.respond, old(runner.log), libs, change, reviewers, false);
              runner.log == old(runner.log) + e.issued && r == e.result
  {
    if change.conn.scheme == "ssh" {
      r := SetReviewersOverSsh(runner, libs, change, reviewers, false);
    } else {
      r := Failure(UnsupportedScheme);
    }
  }

  /** `get_user_recent_reviews`: the changes the user owns. */
  method GetUserRecentReviews(runner: Os.Runner, libs: Libraries, conn: GitUrl, user: Users.User)
    returns (r: Result<seq<Json.Json>, Error>)
    modifies runner
    ensures var e := QueryEffect(runner.respond, old(runner.log), libs, conn.raw, " owner:" + user.username);
            runner.log == old(runner.log) + e.issued && r == e.result
  {
    r := QueryReviews(runner, libs, conn.raw, " owner:" + user.username);
  }

  /** `get_user_recent_reviewers`: each reviewer of the user's changes once, in the order of last appearance. */
  method GetUserRecentReviewers(runner: Os.Runner, libs: Libraries, conn: GitUrl, user: Users.User)
    returns (r: Result<seq<Users.User>, Error>)
    modifies runner
    ensures var e := QueryEffect(runner.respond, old(runner.log), libs, conn.raw,
                                 "--all-reviewers owner:" + user.username);
            runner.log == old(runner.log) + e.issued
            && r == match e.result
                    case Failure(err) => Failure(err)
                    case Success(reviews) => DistinctReviewers(reviews)
  {
    var reviews := QueryReviews(runner, libs, conn.raw, "--all-reviewers owner:" + user.username);
    if reviews.Failure? {
      return Failure(reviews.error);
    }
    r := CollectDistinctReviewers(reviews.value);
  }
}
