/**
 * A Gerrit account as the reviewer commands see it (`GerritUser`). Its
 * identity is its username alone: equality and hashing ignore the full name
 * and the e-mail address, so two records of one account are one element of a
 * set of users.
 */
module Users {
  import opened Wrappers
  import Text
  import Json
  import LinkedSet

  datatype User = User(email: string, fullName: string, username: string)

  /** The identity of a user: the key of every set of users. */
  function Key(u: User): string {
    u.username
  }

  /** `PartialEq::eq`: compares usernames only. */
  predicate Equal(a: User, b: User) {
    a.username == b.username
  }

  /** `Hash::hash`: feeds the username, and nothing else, to the hasher. */
  function Hash(u: User, hasher: string -> int): int {
    hasher(u.username)
  }

  /** Hashing is consistent with equality, whatever the hasher. */
  lemma HashAgreesWithEqual(a: User, b: User, hasher: string -> int)
    requires Equal(a, b)
    ensures Hash(a, hasher) == Hash(b, hasher)
  {
  }

  /** Equality is decided by the identity key and is blind to the other fields. */
  lemma EqualIsSameKey(a: User, b: User)
    ensures Equal(a, b) <==> Key(a) == Key(b)
    ensures Equal(a, b) ==> Equal(a.(email := "", fullName := ""), b)
  {
  }

  /** `GerritUser::from_str` and `GerritUser::from_string`: a user known only by name. */
  function FromStr(name: string): (u: User)
    ensures Key(u) == name && u.email == "" && u.fullName == ""
  {
    User("", "", name)
  }

  /** `Display::fmt`: the username only. */
  function Display(u: User): (r: string)
    ensures r == Key(u)
  {
    u.username
  }

  /** Two users print alike exactly when they are equal. */
  lemma DisplayDecidesEqual(a: User, b: User)
    ensures Equal(a, b) <==> Display(a) == Display(b)
  {
  }

  // ------------------------------------------------------------ as_string

  function UsernamePart(u: User): string {
    if u.username == "" then ""
    else if u.fullName == "" then u.username
    else "(" + u.username + ")"
  }

  function EmailPart(email: string): string {
    if email == "" then "" else " [" + email + "]"
  }

  /**
   * The display string: the full name, then the username (in parentheses
   * after a full name, bare without one), then the e-mail address in
   * brackets; an empty field contributes nothing.
   */
  function DisplayText(u: User): string {
    u.fullName + UsernamePart(u) + EmailPart(u.email)
  }

  /** `GerritUser::as_string`, which builds the display string piece by piece. */
  method AsString(u: User) returns (s: string)
    ensures s == DisplayText(u)
  {
    s := "";
    if |u.fullName| > 0 {
      s := s + u.fullName;
    }
    assert s == u.fullName;
    if |u.username| > 0 {
      if |s| == 0 {
        s := s + u.username;
      } else {
        s := s + "(" + u.username + ")";
      }
    }
    assert s == u.fullName + UsernamePart(u);
    if |u.email| > 0 {
      s := s + " [" + u.email + "]";
    }
  }

  /** Where each field lands in the display string. */
  lemma DisplayTextLayout(u: User)
    ensures Text.StartsWith(DisplayText(u), u.fullName)
    ensures u.email != "" ==> Text.EndsWith(DisplayText(u), " [" + u.email + "]")
    ensures u.email == "" ==> Text.EndsWith(DisplayText(u), UsernamePart(u))
    ensures Text.OccursAt(DisplayText(u), u.username, |u.fullName| + (if u.fullName == "" || u.username == "" then 0 else 1))
    ensures |DisplayText(u)| == |u.fullName| + |u.username|
                                + (if u.fullName != "" && u.username != "" then 2 else 0)
                                + (if u.email != "" then |u.email| + 3 else 0)
  {
    var s := DisplayText(u);
    assert s[..|u.fullName|] == u.fullName;
    var k := |u.fullName| + (if u.fullName == "" || u.username == "" then 0 else 1);
    assert s[k..k + |u.username|] == u.username;
  }

  /** A user made from a bare name displays as that name. */
  lemma DisplayTextFromStr(name: string)
    ensures DisplayText(FromStr(name)) == name
  {
  }

  // ---------------------------------------------------------- validation

  /** `is_valid_username`: rejects a name exactly when it has a non-ASCII character. */
  function IsValidUsername(name: string): (r: bool)
    ensures r <==> Text.AllAscii(name)
  {
    |name| == 0 || (Text.IsAscii(name[0]) && IsValidUsername(name[1..]))
  }

  // ------------------------------------------------------------ decoding

  /**
   * `get_git_user`: reads `username`, `email` and `name`; a missing key or a
   * non-string value gives the empty string, so decoding never fails.
   */
  function GitUser(j: Json.Json): (u: User)
    ensures u.username != "" ==> Json.Get(j, "username") == Some(Json.Str(u.username))
    ensures u.email != "" ==> Json.Get(j, "email") == Some(Json.Str(u.email))
    ensures u.fullName != "" ==> Json.Get(j, "name") == Some(Json.Str(u.fullName))
    ensures Json.Get(j, "username").Some? && Json.Get(j, "username").value.Str? ==>
              u.username == Json.Get(j, "username").value.s
    ensures Json.Get(j, "email").Some? && Json.Get(j, "email").value.Str? ==>
              u.email == Json.Get(j, "email").value.s
    ensures Json.Get(j, "name").Some? && Json.Get(j, "name").value.Str? ==>
              u.fullName == Json.Get(j, "name").value.s
  {
    User(Json.StrOrEmpty(j, "email"), Json.StrOrEmpty(j, "name"), Json.StrOrEmpty(j, "username"))
  }

  /** The account object Gerrit sends for a user. */
  function AccountJson(u: User): Json.Json {
    Json.Object(map["username" := Json.Str(u.username), "email" := Json.Str(u.email),
                    "name" := Json.Str(u.fullName)])
  }

  /** Decoding the account object of a user gives the user back. */
  lemma GitUserOfAccountJson(u: User)
    ensures GitUser(AccountJson(u)) == u
  {
  }

  /** Keys that are missing, or not strings, decode as empty fields. */
  lemma GitUserDefaults(j: Json.Json)
    ensures !Json.HasKey(j, "username") ==> GitUser(j).username == ""
    ensures !Json.HasKey(j, "email") ==> GitUser(j).email == ""
    ensures !Json.HasKey(j, "name") ==> GitUser(j).fullName == ""
    ensures Json.HasKey(j, "username") && !j.fields["username"].Str? ==> GitUser(j).username == ""
    ensures Json.HasKey(j, "email") && !j.fields["email"].Str? ==> GitUser(j).email == ""
    ensures Json.HasKey(j, "name") && !j.fields["name"].Str? ==> GitUser(j).fullName == ""
  {
  }

  /** The usernames of a sequence of users, in order. */
  function Usernames(us: seq<User>): (r: seq<string>)
    ensures |r| == |us| && forall i :: 0 <= i < |us| ==> r[i] == us[i].username
  {
    LinkedSet.Keys(us, Key)
  }
}
