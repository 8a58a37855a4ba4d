/** The user list as a value: getUser, addUser, banUser and unbanUser (lib/store.ts:205-229). */
module UserDirectory {
  import opened Records

  /** find on the username: the first position holding `username`, or -1. */
  function IndexOfUser(users: seq<User>, username: string): (k: int)
    ensures -1 <= k < |users|
    ensures k == -1 <==> forall i :: 0 <= i < |users| ==> users[i].username != username
    ensures k >= 0 ==> users[k].username == username && forall i :: 0 <= i < k ==> users[i].username != username
  {
    if users == [] then -1
    else if users[0].username == username then 0
    else
      var k := IndexOfUser(users[1..], username);
      if k == -1 then -1 else k + 1
  }

  /** getUser: the first user with that name, if any. */
  function GetUser(users: seq<User>, username: string): (r: Option<User>)
    ensures r.None? <==> forall i :: 0 <= i < |users| ==> users[i].username != username
    ensures r.Some? ==> r.value in users && r.value.username == username
    ensures r.Some? ==>
      exists k :: 0 <= k < |users| && users[k] == r.value && forall i :: 0 <= i < k ==> users[i].username != username
  {
    var k := IndexOfUser(users, username);
    if k == -1 then None else Some(users[k])
  }

  /** addUser appends without checking the name: a user whose name is already taken is
      stored but shadowed, since lookups return the first match; a new name finds the new user. */
  lemma AddUserLookup(users: seq<User>, u: User, name: string)
    ensures GetUser(users, u.username).Some? ==> GetUser(users + [u], u.username) == GetUser(users, u.username)
    ensures GetUser(users, u.username).None? ==> GetUser(users + [u], u.username) == Some(u)
    ensures name != u.username ==> GetUser(users + [u], name) == GetUser(users, name)
  {
    var r := users + [u];
    assert forall i :: 0 <= i < |users| ==> r[i] == users[i];
    assert r[|users|] == u;
    var k := IndexOfUser(users, u.username);
    if k >= 0 {
      assert IndexOfUser(r, u.username) == k;
    } else {
      assert IndexOfUser(r, u.username) == |users|;
    }
    var j := IndexOfUser(users, name);
    if name != u.username && j >= 0 {
      assert IndexOfUser(r, name) == j;
    }
  }

  /** The list after banUser (`banned` true) or unbanUser (`banned` false). */
  function BanSet(users: seq<User>, username: string, banned: bool): (r: seq<User>)
    ensures |r| == |users|
    ensures IndexOfUser(users, username) == -1 ==> r == users
    ensures forall i :: 0 <= i < |users| ==> r[i] == users[i].(isBanned := r[i].isBanned)
    ensures forall i :: 0 <= i < |users| ==>
      r[i].isBanned == (if i == IndexOfUser(users, username) then banned else users[i].isBanned)
  {
    var k := IndexOfUser(users, username);
    if k == -1 then users else users[k := users[k].(isBanned := banned)]
  }

  /** Ban and unban are idempotent, the later of two calls decides, and the looked-up user
      carries the new flag with every other field kept. */
  lemma BanSetLaws(users: seq<User>, username: string, banned: bool, banned2: bool)
    ensures BanSet(BanSet(users, username, banned), username, banned) == BanSet(users, username, banned)
    ensures BanSet(BanSet(users, username, banned), username, banned2) == BanSet(users, username, banned2)
    ensures GetUser(users, username).Some? ==>
      GetUser(BanSet(users, username, banned), username) == Some(GetUser(users, username).value.(isBanned := banned))
  {
    var k := IndexOfUser(users, username);
    if k >= 0 {
      assert IndexOfUser(BanSet(users, username, banned), username) == k;
    }
  }
}
