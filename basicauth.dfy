/** The basic-auth credential table of internal/tui/view/login/auth/basicauth.go:
    `Prepare` parses "user:secret" entries into a table, `Validator` checks a
    name and password against it. */
module BasicAuthTable {
  import opened Base

  datatype AuthError =
    | NotPrepared                // "basic auth not prepared"
    | InvalidCredentials         // "invalid username or password"
    | InvalidUser(entry: string) // "invalid user: %q"

  /** Compares a password with a stored secret (the hash check of the external auth
      library: MD5-crypt, {SHA}, $apr1$, bcrypt). Taken as given, nothing assumed. */
  type CheckSecret = (string, string) -> bool

  const Separator: char := ':'
  const DefaultRealm: string := "yap"

  /** strings.Split with a one-character separator: the pieces between separators,
      one more piece than there are separators (so "" gives [""]). */
  function Split(s: string, sep: char): (parts: seq<string>)
    ensures |parts| >= 1
    decreases |s|
  {
    if |s| == 0 then [""]
    else
      var rest := Split(s[1..], sep);
      if s[0] == sep then [""] + rest
      else [[s[0]] + rest[0]] + rest[1..]
  }

  /** How many times `c` occurs in `s`. */
  function Count(s: string, c: char): nat
    decreases |s|
  {
    if |s| == 0 then 0 else (if s[0] == c then 1 else 0) + Count(s[1..], c)
  }

  /** strings.Join: the pieces with the separator between them. */
  function Join(parts: seq<string>, sep: char): string
    requires |parts| >= 1
    decreases |parts|
  {
    if |parts| == 1 then parts[0] else parts[0] + [sep] + Join(parts[1..], sep)
  }

  /** Splitting yields one piece more than there are separators. */
  lemma {:induction false} SplitCount(s: string, sep: char)
    ensures |Split(s, sep)| == Count(s, sep) + 1
    decreases |s|
  {
    if |s| > 0 {
      SplitCount(s[1..], sep);
    }
  }

  /** No piece contains the separator. */
  lemma {:induction false} SplitPiecesFree(s: string, sep: char)
    ensures forall k :: 0 <= k < |Split(s, sep)| ==> sep !in Split(s, sep)[k]
    decreases |s|
  {
    if |s| > 0 {
      SplitPiecesFree(s[1..], sep);
      var rest := Split(s[1..], sep);
      if s[0] != sep {
        assert forall c :: c in [s[0]] + rest[0] ==> c == s[0] || c in rest[0];
      }
    }
  }

  /** Joining the pieces again gives back the entry. */
  lemma {:induction false} SplitJoin(s: string, sep: char)
    ensures Join(Split(s, sep), sep) == s
    decreases |s|
  {
    if |s| > 0 {
      SplitJoin(s[1..], sep);
      var rest := Split(s[1..], sep);
      if s[0] == sep {
        assert Split(s, sep)[1..] == rest;
      } else if |rest| == 1 {
        assert s == [s[0]] + s[1..];
      } else {
        var parts := Split(s, sep);
        assert parts[1..] == rest[1..];
        calc {
          Join(parts, sep);
          [s[0]] + rest[0] + [sep] + Join(rest[1..], sep);
          [s[0]] + Join(rest, sep);
          s;
        }
      }
    }
  }

  /** Text without the separator glues onto the first piece of what follows it. */
  lemma {:induction false} SplitPrefix(a: string, t: string, sep: char)
    requires sep !in a
    ensures Split(a + t, sep) == [a + Split(t, sep)[0]] + Split(t, sep)[1..]
    decreases |a|
  {
    if |a| > 0 {
      SplitPrefix(a[1..], t, sep);
      var tail := Split(t, sep);
      assert (a + t)[0] == a[0] != sep;
      assert (a + t)[1..] == a[1..] + t;
      var rest := Split(a[1..] + t, sep);
      assert rest[0] == a[1..] + tail[0] && rest[1..] == tail[1..];
      assert Split(a + t, sep) == [[a[0]] + rest[0]] + rest[1..];
      assert [a[0]] + (a[1..] + tail[0]) == a + tail[0];
    } else {
      var tail := Split(t, sep);
      assert a + t == t && a + tail[0] == tail[0];
      assert [tail[0]] + tail[1..] == tail;
    }
  }

  /** Pieces free of the separator, joined and split again, come back unchanged. */
  lemma {:induction false} JoinSplit(parts: seq<string>, sep: char)
    requires |parts| >= 1
    requires forall k :: 0 <= k < |parts| ==> sep !in parts[k]
    ensures Split(Join(parts, sep), sep) == parts
    decreases |parts|
  {
    if |parts| == 1 {
      SplitPrefix(parts[0], "", sep);
      assert parts[0] + "" == parts[0];
    } else {
      var rest := Join(parts[1..], sep);
      JoinSplit(parts[1..], sep);
      SplitPrefix(parts[0], [sep] + rest, sep);
      assert parts[0] + [sep] + rest == parts[0] + ([sep] + rest);
      assert ([sep] + rest)[1..] == rest;
      assert parts[0] + "" == parts[0];
    }
  }

  /** An entry the parser accepts: it splits into exactly two pieces. */
  predicate WellFormed(entry: string) {
    |Split(entry, Separator)| == 2
  }

  /** An entry is accepted exactly when it contains exactly one colon. */
  lemma WellFormedIffOneColon(entry: string)
    ensures WellFormed(entry) <==> Count(entry, Separator) == 1
  {
    SplitCount(entry, Separator);
  }

  /** The user part of an entry. */
  function Name(entry: string): string {
    Split(entry, Separator)[0]
  }

  /** The secret part of an accepted entry. */
  function Secret(entry: string): string
    requires WellFormed(entry)
  {
    Split(entry, Separator)[1]
  }

  /** What Prepare's loop computes: each entry in order overwrites its user's secret;
      the first entry that does not split into two pieces stops it with an error. */
  function ParseUsers(users: seq<string>): (r: Result<map<string, string>, AuthError>)
    ensures r.Ok? ==> forall i :: 0 <= i < |users| ==> WellFormed(users[i])
    decreases |users|
  {
    if |users| == 0 then Ok(map[])
    else
      var entry := users[|users| - 1];
      match ParseUsers(users[..|users| - 1])
      case Err(e) => Err(e)
      case Ok(table) =>
        if !WellFormed(entry) then Err(InvalidUser(entry))
        else Ok(table[Name(entry) := Secret(entry)])
  }

  /** Once a prefix of the entries fails, the whole list fails with the same error. */
  lemma {:induction false} ParsePrefixErr(users: seq<string>, k: nat)
    requires k <= |users| && ParseUsers(users[..k]).Err?
    ensures ParseUsers(users) == ParseUsers(users[..k])
    decreases |users| - k
  {
    if k < |users| {
      assert users[..k + 1][..k] == users[..k];
      ParsePrefixErr(users, k + 1);
    } else {
      assert users[..k] == users;
    }
  }

  /** Prepare fails exactly when some entry does not split into two pieces, and then
      with the first such entry. */
  lemma {:induction false} ParseFailsIff(users: seq<string>)
    ensures ParseUsers(users).Err? <==> exists i :: 0 <= i < |users| && !WellFormed(users[i])
    ensures ParseUsers(users).Err? ==>
      exists i :: 0 <= i < |users| && !WellFormed(users[i]) && ParseUsers(users).error == InvalidUser(users[i])
        && forall j :: 0 <= j < i ==> WellFormed(users[j])
    decreases |users|
  {
    if |users| > 0 {
      var prefix := users[..|users| - 1];
      ParseFailsIff(prefix);
      assert forall i :: 0 <= i < |prefix| ==> prefix[i] == users[i];
    }
  }

  /** Entry i is the last one naming `user`. */
  predicate LastNaming(users: seq<string>, user: string, i: int) {
    0 <= i < |users| && Name(users[i]) == user
    && forall j :: i < j < |users| ==> Name(users[j]) != user
  }

  /** After a successful parse, a user is in the table iff some entry names it, and
      then it maps to the secret of the last entry naming it. */
  lemma {:induction false} ParseLastWins(users: seq<string>, user: string)
    requires ParseUsers(users).Ok?
    ensures user in ParseUsers(users).value <==> exists i :: 0 <= i < |users| && Name(users[i]) == user
    ensures forall i :: LastNaming(users, user, i) ==>
      user in ParseUsers(users).value && ParseUsers(users).value[user] == Secret(users[i])
    decreases |users|
  {
    if |users| > 0 {
      var n := |users| - 1;
      var prefix := users[..n];
      ParseLastWins(prefix, user);
      assert forall i :: 0 <= i < n ==> prefix[i] == users[i];
      forall i | LastNaming(users, user, i)
        ensures ParseUsers(users).value[user] == Secret(users[i])
      {
        if i < n {
          assert LastNaming(prefix, user, i);
        }
      }
    }
  }

  /** The secret the prepared table holds for `user`; "" for an unknown user
      (the `Secrets` callback handed to the auth library). */
  function Lookup(table: map<string, string>, user: string): (secret: string)
    ensures user in table ==> secret == table[user]
    ensures user !in table ==> secret == ""
  {
    if user in table then table[user] else ""
  }

  class BasicAuth {
    var users: seq<string>
    var realm: string
    /** The prepared authenticator (`gAuth`): absent until Prepare succeeds, then the
        table its `Secrets` callback looks users up in. */
    var table: Option<map<string, string>>

    constructor (users: seq<string>, realm: string)
      ensures this.users == users && this.realm == realm && table == None
    {
      this.users := users;
      this.realm := realm;
      table := None;
    }

    /** Parses the entries. On a malformed entry nothing changes; on success the table
        is installed and an empty realm becomes "yap". */
    method Prepare() returns (r: Outcome<AuthError>)
      modifies this
      ensures users == old(users)
      ensures ParseUsers(users).Err? ==>
        r == Fail(ParseUsers(users).error) && table == old(table) && realm == old(realm)
      ensures ParseUsers(users).Ok? ==>
        r == Pass && table == Some(ParseUsers(users).value)
        && realm == (if old(realm) == "" then DefaultRealm else old(realm))
    {
      var v: map<string, string> := map[];
      var i := 0;
      while i < |users|
        invariant 0 <= i <= |users|
        invariant ParseUsers(users[..i]) == Ok(v)
      {
        var parts := Split(users[i], Separator);
        assert users[..i + 1][..i] == users[..i];
        if |parts| != 2 {
          ParsePrefixErr(users, i + 1);
          return Fail(InvalidUser(users[i]));
        }
        v := v[parts[0] := parts[1]];
        i := i + 1;
      }
      assert users[..i] == users;
      if realm == "" {
        realm := DefaultRealm;
      }
      table := Some(v);
      r := Pass;
    }

    /** Checks a name and password: refused before Prepare, refused for an unknown
        user or an empty stored secret, otherwise decided by the hash check. */
    function Validator(username: string, password: string, checkSecret: CheckSecret): (r: Outcome<AuthError>)
      reads this
      ensures table.None? ==> r == Fail(NotPrepared)
      ensures table.Some? ==>
        (r == Pass <==> username in table.value && table.value[username] != ""
                        && checkSecret(password, table.value[username]))
      ensures table.Some? && r != Pass ==> r == Fail(InvalidCredentials)
    {
      if table.None? then Fail(NotPrepared)
      else
        var secret := Lookup(table.value, username);
        if secret == "" || !checkSecret(password, secret) then Fail(InvalidCredentials)
        else Pass
    }
  }

  /** After a successful Prepare, a login passes exactly when the last entry naming
      the user carries a non-empty secret that the hash check accepts for the password. */
  lemma PreparedValidator(b: BasicAuth, username: string, password: string, checkSecret: CheckSecret)
    requires ParseUsers(b.users).Ok? && b.table == Some(ParseUsers(b.users).value)
    ensures b.Validator(username, password, checkSecret) == Pass <==>
      exists i :: LastNaming(b.users, username, i) && Secret(b.users[i]) != ""
                  && checkSecret(password, Secret(b.users[i]))
  {
    var users := b.users;
    ParseLastWins(users, username);
    if username in b.table.value {
      var i :| 0 <= i < |users| && Name(users[i]) == username;
      var last := LastIndexNaming(users, username, i);
      assert LastNaming(users, username, last);
      forall j | LastNaming(users, username, j) ensures j == last {
      }
    }
  }

  /** The last entry naming `user`, at or after entry i. */
  lemma {:induction false} LastIndexNaming(users: seq<string>, user: string, i: nat) returns (last: nat)
    requires i < |users| && Name(users[i]) == user
    ensures i <= last && LastNaming(users, user, last)
    decreases |users| - i
  {
    if j :| i < j < |users| && Name(users[j]) == user {
      last := LastIndexNaming(users, user, j);
    } else {
      last := i;
    }
  }
}
