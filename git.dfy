/**
 * The git queries of the tool (`git.rs`): the remote's address, with the push
 * address preferred, and the Change-Id trailer of a local commit. Every git
 * invocation goes through the runner; what git answers is the runner's
 * `respond` function.
 */
module Git {
  import opened Wrappers
  import Text
  import Os

  // ------------------------------------------------------------ remote url

  /** `git config --get <section>.<option>` */
  function ConfigGetArgv(section: string, option: string): (argv: Os.Argv)
    ensures |argv| == 4 && argv[..3] == ["git", "config", "--get"]
    ensures argv[3] == section + "." + option
  {
    ["git", "config", "--get", section + "." + option]
  }

  const PushUrlArgv: Os.Argv := ConfigGetArgv("remote.origin", "pushurl")
  const UrlArgv: Os.Argv := ConfigGetArgv("remote.origin", "url")

  /** `git_config_get_value` */
  method ConfigGetValue(runner: Os.Runner, section: string, option: string) returns (r: Result<string, string>)
    modifies runner
    ensures runner.log == old(runner.log) + [ConfigGetArgv(section, option)]
    ensures r == runner.respond(old(runner.log), ConfigGetArgv(section, option))
  {
    r := runner.Run(ConfigGetArgv(section, option));
  }

  /** `alias_url`: no rewriting is done; the address passes through. */
  function AliasUrl(url: string, rewritePush: bool): string {
    url
  }

  /** The panic of `get_remote_url` when neither address is configured. */
  datatype GitError = RemoteUrlNotFound

  /**
   * The choice `get_remote_url` makes between the answers to the two
   * lookups: the push address when that lookup succeeds, else the fetch
   * address, else failure.
   */
  function PreferPushUrl(pushReply: Result<string, string>, urlReply: Result<string, string>)
    : (r: Result<string, GitError>)
    ensures pushReply.Success? ==> r == Success(pushReply.value)
    ensures pushReply.Failure? && urlReply.Success? ==> r == Success(urlReply.value)
    ensures r.Failure? <==> pushReply.Failure? && urlReply.Failure?
  {
    match pushReply
    case Success(s) => Success(AliasUrl(s, false))
    case Failure(_) =>
      match urlReply
      case Success(s) => Success(AliasUrl(s, true))
      case Failure(_) => Failure(RemoteUrlNotFound)
  }

  /**
   * `get_remote_url`: looks up `remote.origin.pushurl`, and only when that
   * fails `remote.origin.url`. The remote's name is not used.
   */
  method GetRemoteUrl(runner: Os.Runner, remote: string) returns (r: Result<string, GitError>)
    modifies runner
    ensures var pushReply := runner.respond(old(runner.log), PushUrlArgv);
            if pushReply.Success? then
              runner.log == old(runner.log) + [PushUrlArgv] && r == Success(pushReply.value)
            else
              var urlReply := runner.respond(old(runner.log) + [PushUrlArgv], UrlArgv);
              runner.log == old(runner.log) + [PushUrlArgv, UrlArgv] && r == PreferPushUrl(pushReply, urlReply)
  {
    var pushReply := ConfigGetValue(runner, "remote.origin", "pushurl");
    match pushReply
    case Success(s) =>
      r := Success(AliasUrl(s, false));
    case Failure(_) =>
      var urlReply := ConfigGetValue(runner, "remote.origin", "url");
      r := PreferPushUrl(pushReply, urlReply);
  }

  // ------------------------------------------------------------- Change-Id

  /** `git show -s --format=medium <ref>` */
  function ShowArgv(gitRef: string): Os.Argv {
    ["git", "show", "-s", "--format=medium", gitRef]
  }

  /** `get_local_commit_message`: the commit message, or "" when git fails. */
  method GetLocalCommitMessage(runner: Os.Runner, gitRef: string) returns (message: string)
    modifies runner
    ensures runner.log == old(runner.log) + [ShowArgv(gitRef)]
    ensures var reply := runner.respond(old(runner.log), ShowArgv(gitRef));
            message == if reply.Success? then reply.value else ""
  {
    var reply := runner.Run(ShowArgv(gitRef));
    match reply
    case Success(stdout) => message := stdout;
    case Failure(_) => message := "";
  }

  const Tag: string := "Change-Id: "

  /**
   * The reference definition of `^\s*Change-Id: ([A-Za-z0-9]+)$` matching a
   * whole line and capturing `id`: white space, the tag, then one or more
   * ASCII letters or digits up to the end of the line.
   */
  ghost predicate IsChangeIdLine(line: string, id: string) {
    && |id| > 0 && Text.AllAsciiAlnum(id)
    && exists w :: AllWhitespace(w) && line == w + Tag + id
  }

  predicate AllWhitespace(w: string) {
    forall i :: 0 <= i < |w| ==> Text.IsWhitespace(w[i])
  }

  /** The capture of the Change-Id pattern on one line, if the line matches. */
  function ChangeIdOf(line: string): (r: Option<string>)
    ensures r.Some? ==> |r.value| > 0 && Text.AllAsciiAlnum(r.value)
  {
    var t := Text.TrimStart(line);
    if Text.StartsWith(t, Tag) && |t| > |Tag| && Text.AllAsciiAlnum(t[|Tag|..]) then Some(t[|Tag|..]) else None
  }

  /** `ChangeIdOf` captures `id` exactly when the line is white space, the tag and `id`. */
  lemma ChangeIdOfMatches(line: string, id: string)
    ensures ChangeIdOf(line) == Some(id) <==> IsChangeIdLine(line, id)
  {
    if ChangeIdOf(line) == Some(id) {
      ChangeIdOfSound(line);
    }
    if IsChangeIdLine(line, id) {
      var w :| AllWhitespace(w) && line == w + Tag + id;
      ChangeIdOfComplete(w, id);
    }
  }

  lemma ChangeIdOfSound(line: string)
    requires ChangeIdOf(line).Some?
    ensures IsChangeIdLine(line, ChangeIdOf(line).value)
  {
    var t := Text.TrimStart(line);
    var id := ChangeIdOf(line).value;
    assert t == Tag + id by {
      assert Text.StartsWith(t, Tag) && id == t[|Tag|..];
    }
    WhitespaceThenTag(line, |line| - |t|, id);
  }

  /** A line whose first `n` characters are white space and whose rest is the tag and `id`. */
  lemma WhitespaceThenTag(line: string, n: nat, id: string)
    requires n <= |line| && forall i :: 0 <= i < n ==> Text.IsWhitespace(line[i])
    requires line[n..] == Tag + id && |id| > 0 && Text.AllAsciiAlnum(id)
    ensures IsChangeIdLine(line, id)
  {
    var w := line[..n];
    assert AllWhitespace(w) by {
      forall i | 0 <= i < |w| ensures Text.IsWhitespace(w[i]) {
        assert w[i] == line[i];
      }
    }
    assert line == w + (Tag + id) by {
      assert line == line[..n] + line[n..];
    }
    Text.ConcatAssoc(w, Tag, id);
  }

  lemma ChangeIdOfComplete(w: string, id: string)
    requires AllWhitespace(w) && |id| > 0 && Text.AllAsciiAlnum(id)
    ensures ChangeIdOf(w + Tag + id) == Some(id)
  {
    var u := Tag + id;
    Text.ConcatAssoc(w, Tag, id);
    assert !Text.IsWhitespace(u[0]);
    Text.TrimStartPadded(w, u);
    assert u[|Tag|..] == id;
  }

  /** The capture of each line, in order. */
  function Captures(lines: seq<string>): (r: seq<Option<string>>)
    ensures |r| == |lines|
    ensures forall k :: 0 <= k < |lines| ==> r[k] == ChangeIdOf(lines[k])
  {
    if lines == [] then [] else Captures(lines[..|lines| - 1]) + [ChangeIdOf(lines[|lines| - 1])]
  }

  /** The loop over the captures: the first one is kept; "" when there is none. */
  function FirstOf(caps: seq<Option<string>>): string {
    if caps == [] then ""
    else
      var earlier := FirstOf(caps[..|caps| - 1]);
      match caps[|caps| - 1]
      case Some(id) => if |earlier| > 0 then earlier else id
      case None => earlier
  }

  /** Every capture, when there is one, is non-empty, as the pattern's `+` demands. */
  predicate NonEmptyIds(caps: seq<Option<string>>) {
    forall k :: 0 <= k < |caps| && caps[k].Some? ==> caps[k].value != ""
  }

  lemma {:induction false} FirstOfEmpty(caps: seq<Option<string>>)
    requires NonEmptyIds(caps)
    ensures FirstOf(caps) == "" <==> forall k :: 0 <= k < |caps| ==> caps[k].None?
  {
    if caps != [] {
      var n := |caps|;
      var p := caps[..n - 1];
      assert NonEmptyIds(p) by {
        forall k | 0 <= k < n - 1 ensures p[k] == caps[k] {
          Text.PrefixIndex(caps, n - 1, k);
        }
      }
      FirstOfEmpty(p);
      forall k | 0 <= k < n - 1 ensures p[k] == caps[k] {
        Text.PrefixIndex(caps, n - 1, k);
      }
    }
  }

  lemma {:induction false} FirstOfIsFirst(caps: seq<Option<string>>)
    requires NonEmptyIds(caps) && FirstOf(caps) != ""
    ensures exists k :: 0 <= k < |caps| && caps[k] == Some(FirstOf(caps))
              && forall j :: 0 <= j < k ==> caps[j].None?
  {
    var n := |caps|;
    var p := caps[..n - 1];
    forall k | 0 <= k < n - 1 ensures p[k] == caps[k] {
      Text.PrefixIndex(caps, n - 1, k);
    }
    assert NonEmptyIds(p);
    if FirstOf(p) != "" {
      FirstOfIsFirst(p);
      var k :| 0 <= k < |p| && p[k] == Some(FirstOf(p)) && forall j :: 0 <= j < k ==> p[j].None?;
      assert caps[k] == Some(FirstOf(caps));
    } else {
      FirstOfEmpty(p);
      assert caps[n - 1] == Some(FirstOf(caps));
    }
  }

  /** The loop of `get_local_commit_change_id`: the first line's capture wins; "" when none matches. */
  function FirstChangeId(lines: seq<string>): string {
    FirstOf(Captures(lines))
  }

  lemma CapturesAreNonEmpty(lines: seq<string>)
    ensures NonEmptyIds(Captures(lines))
  {
    var caps := Captures(lines);
    forall k | 0 <= k < |caps| && caps[k].Some? ensures caps[k].value != "" {
      assert caps[k] == ChangeIdOf(lines[k]);
    }
  }

  /** `FirstChangeId` is "" exactly when no line matches. */
  lemma FirstChangeIdEmpty(lines: seq<string>)
    ensures FirstChangeId(lines) == "" <==> forall k :: 0 <= k < |lines| ==> ChangeIdOf(lines[k]).None?
  {
    CapturesAreNonEmpty(lines);
    FirstOfEmpty(Captures(lines));
  }

  /** A non-empty `FirstChangeId` is the capture of the first line that matches. */
  lemma FirstChangeIdIsFirstMatch(lines: seq<string>)
    requires FirstChangeId(lines) != ""
    ensures exists k :: 0 <= k < |lines| && ChangeIdOf(lines[k]) == Some(FirstChangeId(lines))
              && forall j :: 0 <= j < k ==> ChangeIdOf(lines[j]).None?
  {
    var caps := Captures(lines);
    CapturesAreNonEmpty(lines);
    FirstOfIsFirst(caps);
    var k :| 0 <= k < |caps| && caps[k] == Some(FirstOf(caps)) && forall j :: 0 <= j < k ==> caps[j].None?;
    assert ChangeIdOf(lines[k]) == Some(FirstChangeId(lines)) by {
      assert caps[k] == ChangeIdOf(lines[k]);
    }
    assert forall j :: 0 <= j < k ==> ChangeIdOf(lines[j]).None? by {
      forall j | 0 <= j < k ensures ChangeIdOf(lines[j]).None? {
        assert caps[j] == ChangeIdOf(lines[j]);
      }
    }
  }

  /** A Change-Id found is letters and digits only. */
  lemma FirstChangeIdIsAlnum(lines: seq<string>)
    ensures Text.AllAsciiAlnum(FirstChangeId(lines))
  {
    if FirstChangeId(lines) != "" {
      FirstChangeIdIsFirstMatch(lines);
    }
  }

  lemma FirstChangeIdSnoc(lines: seq<string>, k: nat)
    requires k < |lines|
    ensures var earlier := FirstChangeId(lines[..k]);
            FirstChangeId(lines[..k + 1])
              == match ChangeIdOf(lines[k])
                 case Some(id) => if |earlier| > 0 then earlier else id
                 case None => earlier
  {
    assert lines[..k + 1][..k] == lines[..k];
    var caps := Captures(lines[..k + 1]);
    assert caps[..k] == Captures(lines[..k]);
  }

  /**
   * The body of `get_local_commit_change_id` after the message is fetched:
   * `None` for an empty message, else the first Change-Id, "" when there is none.
   */
  method ChangeIdFromMessage(message: string) returns (r: Option<string>)
    ensures r.None? <==> message == ""
    ensures r.Some? ==> r.value == FirstChangeId(Text.Split(message, '\n'))
  {
    if |message| == 0 {
      return None;
    }
    var lines := Text.Split(message, '\n');
    var ret := "";
    for k := 0 to |lines|
      invariant ret == FirstChangeId(lines[..k])
    {
      FirstChangeIdSnoc(lines, k);
      match ChangeIdOf(lines[k])
      case Some(id) =>
        if |ret| > 0 {
          continue;
        }
        ret := id;
      case None =>
        continue;
    }
    assert lines[..|lines|] == lines;
    r := Some(ret);
  }

  /** `get_local_commit_change_id` */
  method GetLocalCommitChangeId(runner: Os.Runner, gitRef: string) returns (r: Option<string>)
    modifies runner
    ensures runner.log == old(runner.log) + [ShowArgv(gitRef)]
    ensures var reply := runner.respond(old(runner.log), ShowArgv(gitRef));
            var message := if reply.Success? then reply.value else "";
            r == if message == "" then None else Some(FirstChangeId(Text.Split(message, '\n')))
  {
    var message := GetLocalCommitMessage(runner, gitRef);
    r := ChangeIdFromMessage(message);
  }
}
