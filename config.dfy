/**
 * The reviewer-group configuration file (`GroupsConfig`): a line-oriented
 * text of sections
 *
 *     [name]
 *       user1, user2
 *
 * read by a stateful line parser (`load`) and written by a joiner (`save`,
 * `to_config_string`). Locating and reading or writing the file is not part
 * of this model: the file's contents are a parameter and the text to write
 * is a result.
 */
module Config {
  import opened Wrappers
  import Text
  import Users
  import Groups
  import LinkedSet

  // ------------------------------------------------------ the header pattern

  /** Length of the run of word characters of `s` that starts at `i`. */
  function WordRun(s: string, i: nat): (k: nat)
    requires i <= |s|
    ensures i + k <= |s|
    ensures forall m :: i <= m < i + k ==> Text.IsWordChar(s[m])
    ensures i + k == |s| || !Text.IsWordChar(s[i + k])
    decreases |s| - i
  {
    if i < |s| && Text.IsWordChar(s[i]) then 1 + WordRun(s, i + 1) else 0
  }

  /** The group name of a `[word-chars]` match that starts at `i`, if one does. */
  function HeaderAt(s: string, i: nat): (r: Option<string>)
    requires i <= |s|
    ensures r.Some? ==> Text.OccursAt(s, "[" + r.value + "]", i) && IsGroupName(r.value)
    ensures r.Some? ==> i < |s| && s[i] == '['
  {
    if i < |s| && s[i] == '[' then
      var k := WordRun(s, i + 1);
      if k > 0 && i + 1 + k < |s| && s[i + 1 + k] == ']' then
        var name := s[i + 1..i + 1 + k];
        assert s[i..i + |"[" + name + "]"|] == "[" + name + "]";
        assert IsGroupName(name) by {
          forall j | 0 <= j < |name| ensures Text.IsWordChar(name[j]) {
            assert name[j] == s[i + 1 + j];
          }
        }
        Some(name)
      else None
    else None
  }

  function FindHeaderFrom(s: string, i: nat): (r: Option<string>)
    requires i <= |s|
    ensures r.Some? ==> exists m :: i <= m <= |s| && HeaderAt(s, m) == r &&
                                    forall m' :: i <= m' < m ==> HeaderAt(s, m').None?
    ensures r.None? ==> forall m :: i <= m <= |s| ==> HeaderAt(s, m).None?
    decreases |s| - i
  {
    if i == |s| then None
    else if HeaderAt(s, i).Some? then HeaderAt(s, i)
    else FindHeaderFrom(s, i + 1)
  }

  /** A group name: one or more word characters. */
  predicate IsGroupName(name: string) {
    |name| > 0 && forall i :: 0 <= i < |name| ==> Text.IsWordChar(name[i])
  }

  /**
   * `group_name_matcher.captures(line)` for the pattern `\[([[:word:]]+)\]`:
   * the word characters of the leftmost bracketed run of word characters.
   */
  function FindHeader(line: string): (r: Option<string>)
    ensures r.Some? ==> IsGroupName(r.value) && Text.Contains(line, "[" + r.value + "]")
    ensures r.Some? ==> exists m :: 0 <= m <= |line| && HeaderAt(line, m) == r &&
                                    forall m' :: 0 <= m' < m ==> HeaderAt(line, m').None?
    ensures r.None? ==> forall m :: 0 <= m <= |line| ==> HeaderAt(line, m).None?
    ensures '[' !in line ==> r.None?
  {
    FindHeaderFromStart(line);
    FindHeaderFrom(line, 0)
  }

  lemma FindHeaderFromStart(line: string)
    ensures var r := FindHeaderFrom(line, 0);
            (r.Some? ==> IsGroupName(r.value) && Text.Contains(line, "[" + r.value + "]"))
            && ('[' !in line ==> r.None?)
  {
    var r := FindHeaderFrom(line, 0);
    if r.Some? {
      var m :| 0 <= m <= |line| && HeaderAt(line, m) == r;
      assert Text.OccursAt(line, "[" + r.value + "]", m);
      assert line[m] in line;
    }
  }

  /** A bracketed group name is a header naming that group. */
  lemma {:induction false} FindHeaderOfBracketed(name: string)
    requires IsGroupName(name)
    ensures FindHeader("[" + name + "]") == Some(name)
  {
    var s := "[" + name + "]";
    assert WordRun(s, 1) == |name| by { WordRunOfName(s, name, 1); }
    assert s[1..1 + |name|] == name;
  }

  /** A header is found at `i` exactly when `[name]` occurs there with `name` made of word characters. */
  lemma HeaderAtIff(s: string, i: nat, name: string)
    requires i <= |s|
    ensures HeaderAt(s, i) == Some(name) <==> IsGroupName(name) && Text.OccursAt(s, "[" + name + "]", i)
  {
    if IsGroupName(name) && Text.OccursAt(s, "[" + name + "]", i) {
      var p := "[" + name + "]";
      assert s[i] == p[0];
      WordRunAt(s, name, i, i + 1);
      assert s[i + 1 + |name|] == p[|name| + 1];
      var w := s[i..i + |p|];
      assert w == p;
      assert s[i + 1..i + 1 + |name|] == name by {
        forall k | 0 <= k < |name| ensures s[i + 1 + k] == name[k] {
          assert w[1 + k] == p[1 + k];
        }
      }
    }
  }

  /** A line holding a bracketed run of word characters has a header. */
  lemma FindHeaderComplete(line: string, name: string)
    requires IsGroupName(name) && Text.Contains(line, "[" + name + "]")
    ensures FindHeader(line).Some?
  {
    var m :| 0 <= m <= |line| && Text.OccursAt(line, "[" + name + "]", m);
    HeaderAtIff(line, m, name);
  }

  /** The word run after `[` at `i` stops at the `]` that closes `name`. */
  lemma {:induction false} WordRunAt(s: string, name: string, i: nat, j: nat)
    requires IsGroupName(name) && Text.OccursAt(s, "[" + name + "]", i)
    requires i + 1 <= j <= i + 1 + |name|
    ensures WordRun(s, j) == i + 1 + |name| - j
    decreases i + 1 + |name| - j
  {
    var p := "[" + name + "]";
    assert s[j] == p[j - i];
    if j <= i + |name| {
      assert p[j - i] == name[j - i - 1];
      WordRunAt(s, name, i, j + 1);
    } else {
      assert p[j - i] == ']';
    }
  }

  lemma {:induction false} WordRunOfName(s: string, name: string, i: nat)
    requires s == "[" + name + "]" && IsGroupName(name) && 1 <= i <= |name| + 1
    ensures WordRun(s, i) == |name| + 1 - i
    decreases |name| + 1 - i
  {
    if i <= |name| {
      assert s[i] == name[i - 1];
      WordRunOfName(s, name, i + 1);
    } else {
      assert s[i] == ']';
    }
  }

  // ------------------------------------------------------- the user list line

  /**
   * The users one comma-separated entry list contributes before duplicates
   * collapse: each entry trimmed, entries with a non-ASCII character dropped.
   */
  function Candidates(entries: seq<string>): (r: seq<Users.User>)
    ensures forall u :: u in r ==> u == Users.FromStr(u.username) && Text.AllAscii(u.username)
  {
    if entries == [] then []
    else
      var username := Text.Trim(entries[|entries| - 1]);
      Candidates(entries[..|entries| - 1])
        + if Users.IsValidUsername(username) then [Users.FromStr(username)] else []
  }

  lemma CandidatesSnoc(entries: seq<string>, k: nat)
    requires k < |entries|
    ensures var username := Text.Trim(entries[k]);
            Candidates(entries[..k + 1])
              == Candidates(entries[..k]) + if Users.IsValidUsername(username) then [Users.FromStr(username)] else []
  {
    assert entries[..k + 1][..k] == entries[..k];
  }

  lemma CandidatesWhole(entries: seq<string>)
    ensures Candidates(entries[..|entries|]) == Candidates(entries)
  {
    assert entries[..|entries|] == entries;
  }

  /** The set of users a user-list line holds; it starts empty for every group. */
  function UserList(line: string): (r: seq<Users.User>)
    ensures LinkedSet.Unique(r, Users.Key)
    ensures forall u :: u in r ==> u == Users.FromStr(u.username) && Text.AllAscii(u.username)
  {
    LinkedSet.InsertAll([], Candidates(Text.Split(line, ',')), Users.Key)
  }

  // ------------------------------------------------------------- the parser

  /** The variables of `load`'s loop: the groups so far, `has_cur_group`, `cur_group.name`. */
  datatype LoadState = LoadState(groups: seq<Groups.Group>, hasCurGroup: bool, curName: string)

  /**
   * One line of `load`: a header names the current group; the first line
   * after it becomes that group's user list and closes it; any other line is
   * skipped.
   */
  function LoadStep(st: LoadState, line: string): LoadState {
    match FindHeader(line)
    case Some(name) => LoadState(st.groups, true, name)
    case None =>
      if !st.hasCurGroup then st
      else LoadState(LinkedSet.Insert(st.groups, Groups.Group(UserList(line), st.curName), Groups.Key),
                     false, st.curName)
  }

  function LoadLines(st: LoadState, lines: seq<string>): LoadState {
    if lines == [] then st else LoadStep(LoadLines(st, lines[..|lines| - 1]), lines[|lines| - 1])
  }

  lemma LoadLinesPrefix(st: LoadState, lines: seq<string>, i: nat)
    requires i < |lines|
    ensures LoadLines(st, lines[..i + 1]) == LoadStep(LoadLines(st, lines[..i]), lines[i])
  {
    assert lines[..i + 1][..i] == lines[..i];
  }

  /** The groups after `load(contents)` on a configuration holding `groups`. */
  function Loaded(groups: seq<Groups.Group>, contents: string): seq<Groups.Group> {
    LoadLines(LoadState(groups, false, ""), Text.Lines(contents)).groups
  }

  // ------------------------------------------------------------- the writer

  /** `to_config_string`: the header line, then two spaces and the usernames joined by ", ". */
  function GroupText(g: Groups.Group): string {
    "[" + g.name + "]\n" + "  " + Text.Join(Users.Usernames(g.users), ", ")
  }

  /** The text `save` writes: each group's text followed by a blank line, in set order. */
  function SavedText(gs: seq<Groups.Group>): string {
    if gs == [] then "" else SavedText(gs[..|gs| - 1]) + GroupText(gs[|gs| - 1]) + "\n\n"
  }

  // ------------------------------------------------------------- the object

  class GroupsConfig {
    var groups: seq<Groups.Group>

    ghost predicate Valid()
      reads this
    {
      LinkedSet.Unique(groups, Groups.Key)
    }

    /**
     * `GroupsConfig::new`, given the contents of the configuration file
     * when it exists.
     */
    constructor (fileContents: Option<string>)
      ensures Valid()
      ensures groups == if fileContents.Some? then Loaded([], fileContents.value) else []
    {
      groups := [];
      new;
      if fileContents.Some? {
        Load(fileContents.value);
      }
    }

    /** `load`: parses the contents line by line into groups, adding them to the set. */
    method Load(contents: string)
      requires Valid()
      modifies this
      ensures Valid()
      ensures groups == Loaded(old(groups), contents)
    {
      var lines := Text.Lines(contents);
      var hasCurGroup := false;
      var curName := "";
      var curUsers: seq<Users.User> := [];
      for i := 0 to |lines|
        invariant Valid()
        invariant LoadState(groups, hasCurGroup, curName) == LoadLines(LoadState(old(groups), false, ""), lines[..i])
      {
        var line := lines[i];
        ghost var before := LoadState(groups, hasCurGroup, curName);
        LoadLinesPrefix(LoadState(old(groups), false, ""), lines, i);
        var header := FindHeader(line);
        if header.Some? {
          curName := header.value;
          hasCurGroup := true;
        } else if hasCurGroup {
          curUsers := ParseUserList(line);
          groups := LinkedSet.Insert(groups, Groups.Group(curUsers, curName), Groups.Key);
          hasCurGroup := false;
        }
        assert LoadState(groups, hasCurGroup, curName) == LoadStep(before, line);
      }
      assert lines[..|lines|] == lines;
    }

    /**
     * The user-list part of `load`'s loop body: `cur_group.users` is
     * cleared, then every trimmed ASCII entry is inserted.
     */
    method ParseUserList(line: string) returns (users: seq<Users.User>)
      ensures users == UserList(line)
    {
      var entries := Text.Split(line, ',');
      users := [];
      for k := 0 to |entries|
        invariant users == LinkedSet.InsertAll([], Candidates(entries[..k]), Users.Key)
      {
        var username := Text.Trim(entries[k]);
        ghost var before := Candidates(entries[..k]);
        CandidatesSnoc(entries, k);
        if Users.IsValidUsername(username) {
          var u := Users.FromStr(username);
          LinkedSet.InsertAllSnoc([], before, u, Users.Key);
          users := LinkedSet.Insert(users, u, Users.Key);
        } else {
          assert Candidates(entries[..k + 1]) == before + [] == before;
        }
      }
      CandidatesWhole(entries);
    }

    /** `clear` */
    method Clear()
      modifies this
      ensures Valid()
      ensures groups == []
    {
      groups := [];
    }

    /** `set`: inserts every given group; a name already present adds nothing. */
    method Set(gs: seq<Groups.Group>)
      requires Valid()
      modifies this
      ensures Valid()
      ensures groups == LinkedSet.InsertAll(old(groups), gs, Groups.Key)
      ensures |old(groups)| <= |groups| <= |old(groups)| + |gs|
      ensures forall n :: n in LinkedSet.Keys(groups, Groups.Key) <==>
                n in LinkedSet.Keys(old(groups), Groups.Key) || n in LinkedSet.Keys(gs, Groups.Key)
    {
      for k := 0 to |gs|
        invariant Valid()
        invariant groups == LinkedSet.InsertAll(old(groups), gs[..k], Groups.Key)
      {
        assert gs[..k + 1][..k] == gs[..k];
        groups := LinkedSet.Insert(groups, gs[k], Groups.Key);
      }
      assert gs[..|gs|] == gs;
    }

    /** The text-building part of `save`. */
    method SaveText() returns (s: string)
      ensures s == SavedText(groups)
    {
      s := "";
      for k := 0 to |groups|
        invariant s == SavedText(groups[..k])
      {
        assert groups[..k + 1][..k] == groups[..k];
        var t := ToConfigString(groups[k]);
        s := s + t + "\n\n";
      }
      assert groups[..|groups|] == groups;
    }

    /** `to_config_string` */
    method ToConfigString(g: Groups.Group) returns (ret: string)
      ensures ret == GroupText(g)
    {
      ghost var names := Users.Usernames(g.users);
      ghost var head := "[" + g.name + "]\n" + "  ";
      ret := "[" + g.name + "]\n";
      ret := ret + "  ";
      var num := |g.users|;
      for pos := 0 to num
        invariant ret == head + Text.Join(names[..pos], ", ") + (if 0 < pos < num then ", " else "")
      {
        ghost var joined := Text.Join(names[..pos + 1], ", ");
        if pos > 0 {
          assert names[..pos + 1] == names[..pos] + [names[pos]];
          Text.JoinSnoc(names[..pos], names[pos], ", ");
          assert ret == head + (Text.Join(names[..pos], ", ") + ", ");
          Text.ConcatAssoc(head, Text.Join(names[..pos], ", ") + ", ", names[pos]);
        } else {
          assert names[..1] == [names[0]];
          assert ret == head;
        }
        ret := ret + g.users[pos].username;
        assert ret == head + joined;
        if pos != num - 1 {
          ret := ret + ", ";
        }
      }
      assert names[..num] == names;
    }
  }
}

/**
 * What the parser and the writer of the group configuration promise about
 * each other and about the text format.
 */
module ConfigProperties {
  import opened Wrappers
  import Text
  import Users
  import Groups
  import LinkedSet
  import opened Config

  // ----------------------------------------------------- the parser's rules

  /** Splitting the input in two splits the parse: the parser keeps no other state. */
  lemma {:induction false} LoadLinesAppend(st: LoadState, a: seq<string>, b: seq<string>)
    ensures LoadLines(st, a + b) == LoadLines(LoadLines(st, a), b)
  {
    if b != [] {
      var c := b[..|b| - 1];
      var x := b[|b| - 1];
      assert a + b == (a + c) + [x] && b == c + [x];
      LoadLinesSnoc(st, a + c, x);
      LoadLinesSnoc(LoadLines(st, a), c, x);
      LoadLinesAppend(st, a, c);
    } else {
      assert a + b == a;
    }
  }

  /** Lines before the first header, and lines after a closed group, are ignored. */
  lemma {:induction false} LoadSkipsLinesOutsideGroups(st: LoadState, lines: seq<string>)
    requires !st.hasCurGroup
    requires forall k :: 0 <= k < |lines| ==> FindHeader(lines[k]).None?
    ensures LoadLines(st, lines) == st
  {
    if lines != [] {
      LoadSkipsLinesOutsideGroups(st, lines[..|lines| - 1]);
    }
  }

  lemma LoadLinesSnoc(st: LoadState, lines: seq<string>, line: string)
    ensures LoadLines(st, lines + [line]) == LoadStep(LoadLines(st, lines), line)
  {
    assert (lines + [line])[..|lines|] == lines;
  }

  lemma LoadLinesPair(st: LoadState, a: string, b: string)
    ensures LoadLines(st, [a, b]) == LoadStep(LoadStep(st, a), b)
  {
    LoadLinesSnoc(st, [], a);
    assert [] + [a] == [a];
    LoadLinesSnoc(st, [a], b);
    assert [a] + [b] == [a, b];
  }

  /** A header line opens a group under its name and keeps the groups so far. */
  lemma LoadStepHeader(st: LoadState, line: string)
    requires FindHeader(line).Some?
    ensures LoadStep(st, line) == LoadState(st.groups, true, FindHeader(line).value)
  {
  }

  /**
   * A section: exactly the one line after a header is the group's user list,
   * even a blank one, and the lines after it up to the next header are ignored.
   */
  lemma LoadSection(st: LoadState, header: string, userLine: string, rest: seq<string>)
    requires FindHeader(header).Some? && FindHeader(userLine).None?
    requires forall k :: 0 <= k < |rest| ==> FindHeader(rest[k]).None?
    ensures var name := FindHeader(header).value;
            LoadLines(st, [header, userLine] + rest)
              == LoadState(LinkedSet.Insert(st.groups, Groups.Group(UserList(userLine), name), Groups.Key),
                           false, name)
  {
    LoadLinesAppend(st, [header, userLine], rest);
    LoadLinesPair(st, header, userLine);
    LoadStepHeader(st, header);
    LoadSkipsLinesOutsideGroups(LoadLines(st, [header, userLine]), rest);
  }

  /** A name is among a candidate list's usernames exactly when some entry trims to it and it is ASCII. */
  /** The entry trims to `name`, and `name` is ASCII. */
  predicate EntryGives(entry: string, name: string) {
    Text.Trim(entry) == name && Text.AllAscii(name)
  }

  /** Some entry of `entries` gives `name`. */
  predicate SomeEntryGives(entries: seq<string>, name: string) {
    exists k :: 0 <= k < |entries| && EntryGives(entries[k], name)
  }

  lemma SomeEntryGivesSnoc(entries: seq<string>, name: string)
    requires |entries| > 0
    ensures SomeEntryGives(entries, name)
              == (SomeEntryGives(entries[..|entries| - 1], name) || EntryGives(entries[|entries| - 1], name))
  {
    var n := |entries|;
    var p := entries[..n - 1];
    if SomeEntryGives(entries, name) {
      var k :| 0 <= k < n && EntryGives(entries[k], name);
      if k < n - 1 {
        Text.PrefixIndex(entries, n - 1, k);
        assert SomeEntryGives(p, name) by {
          assert EntryGives(p[k], name);
        }
      }
    }
    if SomeEntryGives(p, name) {
      var k :| 0 <= k < n - 1 && EntryGives(p[k], name);
      Text.PrefixIndex(entries, n - 1, k);
      assert SomeEntryGives(entries, name) by {
        assert EntryGives(entries[k], name);
      }
    }
    if EntryGives(entries[n - 1], name) {
      assert SomeEntryGives(entries, name);
    }
  }

  /** A name is among a candidate list's usernames exactly when some entry trims to it and it is ASCII. */
  lemma {:induction false} CandidateNames(entries: seq<string>, name: string)
    ensures name in Users.Usernames(Candidates(entries)) <==> SomeEntryGives(entries, name)
  {
    if entries != [] {
      var n := |entries|;
      var p := entries[..n - 1];
      CandidateNames(p, name);
      var c := Candidates(p);
      var t := Text.Trim(entries[n - 1]);
      var tail := if Users.IsValidUsername(t) then [Users.FromStr(t)] else [];
      assert Candidates(entries) == c + tail;
      LinkedSet.KeysAppend(c, tail, Users.Key);
      assert name in Users.Usernames(tail) <==> t == name && Text.AllAscii(name);
      SomeEntryGivesSnoc(entries, name);
    }
  }

  /**
   * The usernames a user-list line yields: exactly the trimmed comma-separated
   * entries that are ASCII, each once.
   */
  lemma UserListNames(line: string, name: string)
    ensures name in Users.Usernames(UserList(line)) <==> SomeEntryGives(Text.Split(line, ','), name)
  {
    CandidateNames(Text.Split(line, ','), name);
  }

  /** Of two headers in a row, the later one names the group. */
  lemma LaterHeaderWins(st: LoadState, first: string, second: string)
    requires FindHeader(first).Some? && FindHeader(second).Some?
    ensures LoadLines(st, [first, second]) == LoadState(st.groups, true, FindHeader(second).value)
  {
    LoadLinesPair(st, first, second);
    LoadStepHeader(st, first);
    LoadStepHeader(LoadStep(st, first), second);
  }

  // --------------------------------------------------------- the round trip

  /** A username the text format can hold. */
  predicate IsStorableUsername(name: string) {
    && Text.AllAscii(name)
    && ',' !in name && '[' !in name && '\n' !in name && '\r' !in name
    && Text.IsTrimmed(name)
  }

  /** Groups the text format can hold: distinct word-character names, storable usernames. */
  predicate IsStorable(gs: seq<Groups.Group>) {
    && LinkedSet.Unique(gs, Groups.Key)
    && forall i :: 0 <= i < |gs| ==>
         && IsGroupName(gs[i].name)
         && LinkedSet.Unique(gs[i].users, Users.Key)
         && forall u :: u in gs[i].users ==> IsStorableUsername(u.username)
  }

  /** The usernames a group reads back with: an empty list reads back as one empty name. */
  function ReloadedUsernames(g: Groups.Group): seq<string> {
    if g.users == [] then [""] else Users.Usernames(g.users)
  }

  /** `loaded` is `gs` read back: same names in the same order, users known by name only. */
  predicate ReloadsAs(loaded: seq<Groups.Group>, gs: seq<Groups.Group>) {
    && |loaded| == |gs|
    && forall i :: 0 <= i < |gs| ==>
         && loaded[i].name == gs[i].name
         && Users.Usernames(loaded[i].users) == ReloadedUsernames(gs[i])
         && forall u :: u in loaded[i].users ==> u == Users.FromStr(u.username)
  }

  /**
   * Saving then loading recovers every group's name and usernames, in order,
   * when the names are word characters and the usernames are storable.
   */
  lemma SaveThenLoad(gs: seq<Groups.Group>)
    requires IsStorable(gs)
    ensures ReloadsAs(Loaded([], SavedText(gs)), gs)
  {
    LinesOfSaved(gs);
    LoadChunks(gs);
  }

  /** The lines of one group's saved text. */
  function Chunk(g: Groups.Group): seq<string> {
    ["[" + g.name + "]", "  " + Text.Join(Users.Usernames(g.users), ", "), ""]
  }

  function Chunks(gs: seq<Groups.Group>): seq<string> {
    if gs == [] then [] else Chunks(gs[..|gs| - 1]) + Chunk(gs[|gs| - 1])
  }

  /** No line of a storable group's text holds `c`, for a character `c` the format keeps out. */
  lemma ChunkExcludes(g: Groups.Group, c: char)
    requires IsGroupName(g.name)
    requires forall u :: u in g.users ==> IsStorableUsername(u.username)
    requires c == '\n' || c == '\r'
    ensures forall k :: 0 <= k < 3 ==> c !in Chunk(g)[k]
  {
    var names := Users.Usernames(g.users);
    forall k | 0 <= k < |names| ensures c !in names[k] {
      assert g.users[k] in g.users;
    }
    Text.JoinExcludes(names, ", ", c);
  }

  lemma NoBracketInUserLine(g: Groups.Group)
    requires forall u :: u in g.users ==> IsStorableUsername(u.username)
    ensures '[' !in Chunk(g)[1]
  {
    var names := Users.Usernames(g.users);
    forall k | 0 <= k < |names| ensures '[' !in names[k] {
      assert g.users[k] in g.users;
    }
    Text.JoinExcludes(names, ", ", '[');
  }

  /** Neither the header line nor the user line of any group holds a newline. */
  predicate NewlineFree(gs: seq<Groups.Group>) {
    forall i :: 0 <= i < |gs| ==> '\n' !in Chunk(gs[i])[0] && '\n' !in Chunk(gs[i])[1]
  }

  /** Two lines without newlines, then a blank line, split off the front of whatever follows. */
  lemma SplitThreeLines(h: string, j: string, x: string)
    requires '\n' !in h && '\n' !in j
    ensures Text.Split(h + ['\n'] + (j + ['\n'] + ("" + ['\n'] + x)), '\n') == [h, j, ""] + Text.Split(x, '\n')
  {
    var sx := Text.Split(x, '\n');
    var blank := "" + ['\n'] + x;
    var rest := j + ['\n'] + blank;
    assert Text.Split(blank, '\n') == [""] + sx by {
      Text.SplitAround("", x, '\n');
    }
    assert Text.Split(rest, '\n') == [j] + ([""] + sx) by {
      Text.SplitAround(j, blank, '\n');
      Text.SplitNoSeparator(j, '\n');
    }
    assert Text.Split(h + ['\n'] + rest, '\n') == [h] + ([j] + ([""] + sx)) by {
      Text.SplitAround(h, rest, '\n');
      Text.SplitNoSeparator(h, '\n');
    }
    assert [h] + ([j] + ([""] + sx)) == [h, j, ""] + sx;
  }

  lemma SplitGroupText(g: Groups.Group, x: string)
    requires '\n' !in Chunk(g)[0] && '\n' !in Chunk(g)[1]
    ensures Text.Split(GroupText(g) + "\n\n" + x, '\n') == Chunk(g) + Text.Split(x, '\n')
  {
    var h := Chunk(g)[0];
    var j := Chunk(g)[1];
    assert GroupText(g) + "\n\n" + x == h + ['\n'] + (j + ['\n'] + ("" + ['\n'] + x));
    SplitThreeLines(h, j, x);
  }

  lemma {:induction false} SplitSaved(gs: seq<Groups.Group>, x: string)
    requires NewlineFree(gs)
    ensures Text.Split(SavedText(gs) + x, '\n') == Chunks(gs) + Text.Split(x, '\n')
  {
    if gs != [] {
      var p := gs[..|gs| - 1];
      var g := gs[|gs| - 1];
      assert NewlineFree(p) by {
        forall i | 0 <= i < |p| ensures '\n' !in Chunk(p[i])[0] && '\n' !in Chunk(p[i])[1] {
          assert p[i] == gs[i];
        }
      }
      var y := GroupText(g) + "\n\n" + x;
      assert SavedText(gs) + x == SavedText(p) + y by {
        assert SavedText(gs) == SavedText(p) + GroupText(g) + "\n\n";
      }
      SplitSaved(p, y);
      SplitGroupText(g, x);
      assert Chunks(gs) == Chunks(p) + Chunk(g);
      Text.ConcatAssoc(Chunks(p), Chunk(g), Text.Split(x, '\n'));
    } else {
      assert SavedText(gs) + x == x;
    }
  }

  lemma StorableIsNewlineFree(gs: seq<Groups.Group>)
    requires IsStorable(gs)
    ensures NewlineFree(gs)
  {
    forall i | 0 <= i < |gs| ensures '\n' !in Chunk(gs[i])[0] && '\n' !in Chunk(gs[i])[1] {
      ChunkExcludes(gs[i], '\n');
    }
  }

  lemma {:induction false} ChunksHaveNoCr(gs: seq<Groups.Group>)
    requires IsStorable(gs)
    ensures forall k :: 0 <= k < |Chunks(gs)| ==> '\r' !in Chunks(gs)[k]
  {
    if gs != [] {
      var p := gs[..|gs| - 1];
      assert IsStorable(p);
      ChunksHaveNoCr(p);
      ChunkExcludes(gs[|gs| - 1], '\r');
    }
  }

  lemma LinesOfSaved(gs: seq<Groups.Group>)
    requires IsStorable(gs)
    ensures Text.Lines(SavedText(gs)) == Chunks(gs)
  {
    StorableIsNewlineFree(gs);
    SplitSaved(gs, "");
    assert SavedText(gs) + "" == SavedText(gs);
    var pieces := Text.Split(SavedText(gs), '\n');
    assert pieces == Chunks(gs) + [""];
    assert pieces[..|pieces| - 1] == Chunks(gs);
    ChunksHaveNoCr(gs);
    Text.StripCrAllNoCr(Chunks(gs));
  }

  lemma {:induction false} LoadChunks(gs: seq<Groups.Group>)
    requires IsStorable(gs)
    ensures var st := LoadLines(LoadState([], false, ""), Chunks(gs));
            !st.hasCurGroup && ReloadsAs(st.groups, gs)
  {
    if gs != [] {
      var p := gs[..|gs| - 1];
      var g := gs[|gs| - 1];
      assert IsStorable(p);
      LoadChunks(p);
      var st0 := LoadState([], false, "");
      var st := LoadLines(st0, Chunks(p));
      LoadLinesAppend(st0, Chunks(p), Chunk(g));
      LoadChunk(st, g);
      var l := Groups.Group(UserList(Chunk(g)[1]), g.name);
      Text.LastSplit(gs);
      NameFresh(st.groups, p, g);
      assert LoadLines(st0, Chunks(gs)).groups == st.groups + [l];
      UserListOfJoined(g);
      ReloadsAsSnoc(st.groups, p, l, g);
    }
  }

  /** Loading the three lines of one group's text inserts that group and closes its section. */
  lemma LoadChunk(st: LoadState, g: Groups.Group)
    requires IsGroupName(g.name)
    requires forall u :: u in g.users ==> IsStorableUsername(u.username)
    ensures LoadLines(st, Chunk(g))
              == LoadState(LinkedSet.Insert(st.groups, Groups.Group(UserList(Chunk(g)[1]), g.name), Groups.Key),
                           false, g.name)
  {
    var c := Chunk(g);
    FindHeaderOfBracketed(g.name);
    NoBracketInUserLine(g);
    assert FindHeader(c[1]).None?;
    assert FindHeader(c[2]).None?;
    assert c == [c[0], c[1]] + [c[2]];
    LoadSection(st, c[0], c[1], [c[2]]);
  }

  /** A group read back from distinct names does not hold the name that comes after them. */
  lemma NameFresh(loaded: seq<Groups.Group>, p: seq<Groups.Group>, g: Groups.Group)
    requires ReloadsAs(loaded, p) && LinkedSet.Unique(p + [g], Groups.Key)
    ensures g.name !in LinkedSet.Keys(loaded, Groups.Key)
  {
    var keys := LinkedSet.Keys(loaded, Groups.Key);
    forall i | 0 <= i < |keys| ensures keys[i] != g.name {
      assert (p + [g])[i] == p[i] && (p + [g])[|p|] == g;
    }
  }

  lemma ReloadsAsSnoc(loaded: seq<Groups.Group>, gs: seq<Groups.Group>, l: Groups.Group, g: Groups.Group)
    requires ReloadsAs(loaded, gs)
    requires l.name == g.name && Users.Usernames(l.users) == ReloadedUsernames(g)
    requires forall u :: u in l.users ==> u == Users.FromStr(u.username)
    ensures ReloadsAs(loaded + [l], gs + [g])
  {
  }

  /** Splitting joined names at commas gives back each name behind its padding. */
  lemma {:induction false} SplitJoinedFrom(pad: string, names: seq<string>)
    requires ',' !in pad && |names| >= 1
    requires forall k :: 0 <= k < |names| ==> ',' !in names[k]
    decreases |names|
    ensures var r := Text.Split(pad + Text.Join(names, ", "), ',');
            && |r| == |names| && r[0] == pad + names[0]
            && forall i :: 1 <= i < |names| ==> r[i] == " " + names[i]
  {
    if |names| == 1 {
      Text.SplitNoSeparator(pad + names[0], ',');
    } else {
      var rest := names[1..];
      var head := pad + names[0];
      var tail := " " + Text.Join(rest, ", ");
      assert forall k :: 0 <= k < |rest| ==> ',' !in rest[k] by {
        forall k | 0 <= k < |rest| ensures ',' !in rest[k] {
          assert rest[k] == names[k + 1];
        }
      }
      SplitJoinedFrom(" ", rest);
      var r := Text.Split(pad + Text.Join(names, ", "), ',');
      var t := Text.Split(tail, ',');
      assert r == [head] + t by {
        assert pad + Text.Join(names, ", ") == head + [','] + tail;
        Text.SplitAround(head, tail, ',');
        Text.SplitNoSeparator(head, ',');
      }
      forall i | 1 <= i < |names| ensures r[i] == " " + names[i] {
        assert r[i] == t[i - 1] && rest[i - 1] == names[i];
      }
    }
  }

  /** Entries that trim to ASCII names contribute exactly those names, in order. */
  lemma {:induction false} CandidatesOfTrimmed(entries: seq<string>, names: seq<string>)
    requires |entries| == |names|
    requires forall k :: 0 <= k < |entries| ==> Text.Trim(entries[k]) == names[k] && Text.AllAscii(names[k])
    ensures Users.Usernames(Candidates(entries)) == names
  {
    if entries != [] {
      var n := |entries|;
      var pe, pn := entries[..n - 1], names[..n - 1];
      assert forall k :: 0 <= k < |pe| ==> Text.Trim(pe[k]) == pn[k] && Text.AllAscii(pn[k]) by {
        forall k | 0 <= k < |pe| ensures Text.Trim(pe[k]) == pn[k] && Text.AllAscii(pn[k]) {
          assert pe[k] == entries[k] && pn[k] == names[k];
        }
      }
      CandidatesOfTrimmed(pe, pn);
      var c := Candidates(pe);
      var u := Users.FromStr(names[n - 1]);
      assert Candidates(entries) == c + [u] by {
        assert Text.Trim(entries[n - 1]) == names[n - 1] && Text.AllAscii(names[n - 1]);
      }
      assert Users.Usernames(c + [u]) == pn + [names[n - 1]] by {
        LinkedSet.KeysAppend(c, [u], Users.Key);
        assert LinkedSet.Keys([u], Users.Key) == [names[n - 1]];
      }
      Text.LastSplit(names);
    }
  }

  /** The user line of a group without users holds one empty name. */
  lemma UserListOfBlank()
    ensures Users.Usernames(UserList("  ")) == [""]
  {
    Text.SplitNoSeparator("  ", ',');
    Text.TrimPadded("  ", "");
    assert "  " + "" == "  ";
    assert Candidates(["  "]) == [Users.FromStr("")];
  }

  /** The entries of a written user line trim to the usernames. */
  lemma EntriesOfJoined(names: seq<string>)
    requires |names| >= 1 && forall k :: 0 <= k < |names| ==> IsStorableUsername(names[k])
    ensures var entries := Text.Split("  " + Text.Join(names, ", "), ',');
            && |entries| == |names|
            && forall k :: 0 <= k < |entries| ==> Text.Trim(entries[k]) == names[k] && Text.AllAscii(names[k])
  {
    SplitJoinedFrom("  ", names);
    var entries := Text.Split("  " + Text.Join(names, ", "), ',');
    forall k | 0 <= k < |entries| ensures Text.Trim(entries[k]) == names[k] {
      var pad := if k == 0 then "  " else " ";
      assert entries[k] == pad + names[k];
      TrimsToName(pad, names[k]);
    }
  }

  /** The padding the writer puts before a name is what trimming removes. */
  lemma TrimsToName(pad: string, name: string)
    requires pad == " " || pad == "  "
    requires IsStorableUsername(name)
    ensures Text.Trim(pad + name) == name
  {
    assert forall i :: 0 <= i < |pad| ==> Text.IsWhitespace(pad[i]);
    Text.TrimPadded(pad, name);
  }

  lemma UserListOfJoined(g: Groups.Group)
    requires LinkedSet.Unique(g.users, Users.Key)
    requires forall u :: u in g.users ==> IsStorableUsername(u.username)
    ensures Users.Usernames(UserList(Chunk(g)[1])) == ReloadedUsernames(g)
  {
    var names := Users.Usernames(g.users);
    if names == [] {
      assert Chunk(g)[1] == "  ";
      UserListOfBlank();
    } else {
      assert forall k :: 0 <= k < |names| ==> IsStorableUsername(names[k]) by {
        forall k | 0 <= k < |names| ensures IsStorableUsername(names[k]) {
          assert g.users[k] in g.users;
        }
      }
      EntriesOfJoined(names);
      var entries := Text.Split(Chunk(g)[1], ',');
      CandidatesOfTrimmed(entries, names);
      var c := Candidates(entries);
      LinkedSet.UniqueOfSameKeys(c, g.users, Users.Key);
      LinkedSet.InsertAllIntoEmpty(c, Users.Key);
    }
  }
}
