/** The API layer's user value: the username check applied to request bodies and the
    conversions to and from the database record. */
module Api {
  import Records

  /** A character of the class [a-zA-Z0-9]. */
  predicate IsAsciiAlnum(c: char)
  {
    'a' <= c <= 'z' || 'A' <= c <= 'Z' || '0' <= c <= '9'
  }

  /** Whether the pattern [a-zA-Z0-9] matches somewhere in `s`. The pattern is searched
      for, not anchored, so one letter or digit anywhere suffices and the length is not
      bounded. */
  function MatchesAlnum(s: string): (b: bool)
    ensures b <==> exists i :: 0 <= i < |s| && IsAsciiAlnum(s[i])
  {
    if s == [] then false
    else
      assert forall i :: 0 < i < |s| ==> s[i] == s[1..][i - 1];
      IsAsciiAlnum(s[0]) || MatchesAlnum(s[1..])
  }

  class User {
    var id: nat
    var username: string

    constructor (id: nat, username: string)
      ensures this.id == id && this.username == username
    {
      this.id, this.username := id, username;
    }

    /** The username passes the API's check: it holds an ASCII letter or digit. */
    function Valid(): (b: bool)
      reads this
      ensures b <==> exists i :: 0 <= i < |username| && IsAsciiAlnum(username[i])
    {
      MatchesAlnum(username)
    }

    /** The database record carrying this user's id and username. */
    function ToDatabase(): (r: Records.User)
      reads this
      ensures r.id == id && r.username == username
    {
      Records.User(id, username)
    }

    /** As written: takes the id of `user` and assigns the receiver's own username back
        to itself, so the username of `user` is dropped. */
    method FromDatabase(user: Records.User)
      modifies this
      ensures id == user.id && username == old(username)
    {
      id := user.id;
      username := username;
    }

    /** As evidently intended: takes both the id and the username of `user`, which makes
        it the inverse of ToDatabase. */
    method FromDatabaseCopying(user: Records.User)
      modifies this
      ensures id == user.id && username == user.username
      ensures ToDatabase() == user
    {
      id := user.id;
      username := user.username;
    }
  }

  /** A user whose username differs from that of the record it is refreshed from keeps
      its old username: FromDatabase is not the inverse of ToDatabase. */
  method FromDatabaseDropsUsername(u: User, record: Records.User)
    requires u.username != record.username
    modifies u
    ensures u.ToDatabase() != record
  {
    u.FromDatabase(record);
  }

  /** Refreshing with the corrected conversion round-trips any record. */
  method FromDatabaseCopyingRoundTrips(record: Records.User) returns (u: User)
    ensures u.ToDatabase() == record
  {
    u := new User(0, "");
    u.FromDatabaseCopying(record);
  }
}
