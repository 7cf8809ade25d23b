/**
 * A named reviewer group (`GerritUserGroup`): an insertion-ordered set of
 * users under a name. Its identity is its name alone.
 */
module Groups {
  import Text
  import Users
  import LinkedSet

  datatype Group = Group(users: seq<Users.User>, name: string)

  /** The identity of a group: the key of every set of groups. */
  function Key(g: Group): string {
    g.name
  }

  /** `PartialEq::eq`: compares names only. */
  predicate Equal(a: Group, b: Group) {
    a.name == b.name
  }

  /** `Hash::hash`: feeds the name, and nothing else, to the hasher. */
  function Hash(g: Group, hasher: string -> int): int {
    hasher(g.name)
  }

  /** Groups with one name are equal whatever their users, and hash alike. */
  lemma EqualIgnoresUsers(a: Group, b: Group, hasher: string -> int)
    ensures Equal(a, b) <==> Key(a) == Key(b)
    ensures Equal(a, b) ==> Equal(a.(users := b.users), b) && Hash(a, hasher) == Hash(b, hasher)
  {
  }

  /** `IntoIterator::into_iter`: the group's users, in set order. */
  function IntoIter(g: Group): (r: seq<Users.User>)
    ensures r == g.users
  {
    g.users
  }

  // ------------------------------------------------------ gen_rand_groups

  /** A value of `rand::random::<u8>()`. */
  type Byte = b: int | 0 <= b < 256

  /**
   * The random draws `gen_rand_groups` makes, in the order it would make them:
   * the group count, then per group a user count, the usernames
   * (`get_rand_string(5)`) and the group name (`get_rand_string(2)`). Enough
   * draws are supplied for the largest outcome (four groups of four users).
   */
  datatype Draws = Draws(groupCount: Byte, userCounts: seq<Byte>,
                         usernames: seq<seq<string>>, groupNames: seq<string>)

  /** What the random sources deliver: alphanumeric strings of the requested length. */
  predicate WellFormedDraws(d: Draws) {
    && |d.userCounts| >= 4 && |d.usernames| >= 4 && |d.groupNames| >= 4
    && (forall i :: 0 <= i < |d.usernames| ==> |d.usernames[i]| >= 4)
    && (forall i, k :: 0 <= i < |d.usernames| && 0 <= k < |d.usernames[i]| ==>
          |d.usernames[i][k]| == 5 && Text.AllAsciiAlnum(d.usernames[i][k]))
    && (forall i :: 0 <= i < |d.groupNames| ==> |d.groupNames[i]| == 2 && Text.AllAsciiAlnum(d.groupNames[i]))
  }

  /** The shape every generated user has. */
  predicate IsRandomUser(u: Users.User) {
    |u.username| == 5 && Text.AllAsciiAlnum(u.username) && u == Users.FromStr(u.username)
  }

  /** The shape every generated group has. */
  predicate IsRandomGroup(g: Group) {
    && 1 <= |g.users| <= 4
    && LinkedSet.Unique(g.users, Users.Key)
    && (forall u :: u in g.users ==> IsRandomUser(u))
    && |g.name| == 2 && Text.AllAsciiAlnum(g.name)
  }

  /** The inner loop of `gen_rand_groups`: `userNum` drawn usernames made into a set of users. */
  method RandomUsers(usernames: seq<string>, userNum: nat) returns (users: seq<Users.User>)
    requires 1 <= userNum <= 4 <= |usernames|
    requires forall k :: 0 <= k < |usernames| ==> |usernames[k]| == 5 && Text.AllAsciiAlnum(usernames[k])
    ensures 1 <= |users| <= userNum
    ensures LinkedSet.Unique(users, Users.Key)
    ensures forall u :: u in users ==> IsRandomUser(u)
    ensures forall n :: n in LinkedSet.Keys(users, Users.Key) <==> n in usernames[..userNum]
  {
    users := [];
    for j := 0 to userNum
      invariant |users| <= j && (j > 0 ==> |users| >= 1)
      invariant LinkedSet.Unique(users, Users.Key)
      invariant forall u :: u in users ==> IsRandomUser(u)
      invariant forall n :: n in LinkedSet.Keys(users, Users.Key) <==> n in usernames[..j]
    {
      var u := Users.FromStr(usernames[j]);
      assert usernames[..j + 1] == usernames[..j] + [usernames[j]];
      users := LinkedSet.Insert(users, u, Users.Key);
    }
  }

  /**
   * `gen_rand_groups`: one to four groups (fewer than drawn when two drawn
   * names coincide), each of one to four users.
   */
  method GenRandGroups(d: Draws) returns (groups: seq<Group>)
    requires WellFormedDraws(d)
    ensures 1 <= |groups| <= d.groupCount % 4 + 1 <= 4
    ensures LinkedSet.Unique(groups, Key)
    ensures forall g :: g in groups ==> IsRandomGroup(g)
    ensures forall n :: n in LinkedSet.Keys(groups, Key) <==> n in d.groupNames[..d.groupCount % 4 + 1]
  {
    var groupNum := d.groupCount % 4 + 1;
    groups := [];
    for i := 0 to groupNum
      invariant |groups| <= i && (i > 0 ==> |groups| >= 1)
      invariant LinkedSet.Unique(groups, Key)
      invariant forall g :: g in groups ==> IsRandomGroup(g)
      invariant forall n :: n in LinkedSet.Keys(groups, Key) <==> n in d.groupNames[..i]
    {
      var userNum := d.userCounts[i] % 4 + 1;
      var users := RandomUsers(d.usernames[i], userNum);
      var groupName := d.groupNames[i];
      var g := Group(users, groupName);
      assert d.groupNames[..i + 1] == d.groupNames[..i] + [groupName];
      groups := LinkedSet.Insert(groups, g, Key);
    }
  }
}
