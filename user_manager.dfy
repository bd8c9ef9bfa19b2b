/**
 The `UserManager` registry: an ordered, in-memory table of `User` records
 and the counter that hands out their ids. `addUser` stamps a record with the
 counter and appends it, `findUserById` looks a record up, `deleteUser`
 cuts a record out, and `getAllUsers` lists the table in insertion order.
 */
module Registry {
  import opened UserTable

  class UserManager {
    /** The stored records, in insertion order. */
    var users: seq<User>
    /** The id the next `AddUser` hands out; never decreases, so ids are never reused. */
    var nextId: nat

    /** The registry's invariant: the counter starts at 1, every stored id was
        handed out by it, and ids grow with insertion order. */
    ghost predicate Valid()
      reads this
    {
      1 <= nextId && IdsBelow(users, nextId) && Increasing(users)
    }

    /** A fresh registry: no records, and the first id handed out is 1. */
    constructor ()
      ensures Valid()
      ensures users == [] && nextId == 1
    {
      users := [];
      nextId := 1;
    }

    /** Stamps a new record with the counter, appends it and advances the counter. */
    method AddUser(name: string, email: string) returns (user: User)
      requires Valid()
      modifies this
      ensures Valid()
      ensures user == User(old(nextId), name, email)
      ensures users == old(users) + [user]
      ensures nextId == old(nextId) + 1
      ensures Absent(old(users), user.id)
      ensures Find(users, user.id) == Some(user)
      ensures forall id :: id != user.id ==> Find(users, id) == Find(old(users), id)
    {
      user := User(nextId, name, email);
      assert Absent(users, user.id);
      forall id ensures Find(users + [user], id) == if id == user.id then Some(user) else Find(users, id) {
        FindAppend(users, user, id);
      }
      users := users + [user];
      nextId := nextId + 1;
    }

    /** The stored record with id `id`, or `None` when there is none. */
    method FindUserById(id: int) returns (found: Option<User>)
      requires Valid()
      ensures found == Find(users, id)
    {
      var i := 0;
      while i < |users|
        invariant 0 <= i <= |users|
        invariant forall k :: 0 <= k < i ==> users[k].id != id
      {
        if users[i].id == id {
          FindFirst(users, i, id);
          return Some(users[i]);
        }
        i := i + 1;
      }
      return None;
    }

    /** Cuts out the record with id `id`, if there is one, and says whether there was. */
    method DeleteUser(id: int) returns (deleted: bool)
      requires Valid()
      modifies this
      ensures Valid()
      ensures deleted <==> Find(old(users), id).Some?
      ensures users == Remove(old(users), id)
      ensures nextId == old(nextId)
      ensures deleted ==> exists i :: 0 <= i < |old(users)| && old(users)[i].id == id &&
                            users == old(users)[..i] + old(users)[i + 1..]
      ensures !deleted ==> users == old(users)
      ensures Find(users, id) == None
      ensures forall other :: other != id ==> Find(users, other) == Find(old(users), other)
    {
      var i := 0;
      while i < |users|
        invariant 0 <= i <= |users|
        invariant forall k :: 0 <= k < i ==> users[k].id != id
      {
        if users[i].id == id {
          FindFirst(users, i, id);
          RemoveAt(users, i);
          RemoveIncreasing(users, id);
          forall other | other != id ensures Find(Remove(users, id), other) == Find(users, other) {
            FindRemoveOther(users, id, other);
          }
          users := users[..i] + users[i + 1..];
          return true;
        }
        i := i + 1;
      }
      RemoveAbsent(users, id);
      return false;
    }

    /** The stored records, in insertion order. */
    method GetAllUsers() returns (all: seq<User>)
      requires Valid()
      ensures all == users
      ensures Increasing(all) && IdsBelow(all, nextId)
    {
      all := users;
    }
  }
}
