/**
 Client scenarios of the `UserManager`, each starting from a fresh registry
 (the suite's `beforeEach`). Most methods restate one scenario of the suite,
 with its fixed names, emails and unused id 999 turned into parameters.
 `AddInOrder` generalises the two-add scenarios to any number of adds;
 `DeleteTwice` combines the delete-existing and delete-missing scenarios;
 `NoIdReuse` and `DeletedIdNotReused` do not come from the suite at all but
 from reading `addUser`'s ids as a counter that deletion does not touch.
 */
module RegistrySuite {
  import opened UserTable
  import opened Registry

  /** addUser on a fresh registry returns id 1 with exactly the given name and email. */
  method AddToFresh(name: string, email: string) returns (user: User)
    ensures user == User(1, name, email)
  {
    var m := new UserManager();
    user := m.AddUser(name, email);
  }

  /** Two addUser calls on a fresh registry get ids 1 and 2. */
  method AddTwice(name1: string, email1: string, name2: string, email2: string)
    returns (user1: User, user2: User)
    ensures user1 == User(1, name1, email1) && user2 == User(2, name2, email2)
  {
    var m := new UserManager();
    user1 := m.AddUser(name1, email1);
    user2 := m.AddUser(name2, email2);
  }

  /** Any number of addUser calls on a fresh registry: the k-th (from 0) gets id k + 1,
      and the listing afterwards holds exactly those records in that order. */
  method AddInOrder(people: seq<(string, string)>) returns (added: seq<User>, listed: seq<User>)
    ensures |added| == |people|
    ensures forall k :: 0 <= k < |people| ==> added[k] == User(k + 1, people[k].0, people[k].1)
    ensures listed == added
  {
    var m := new UserManager();
    added := [];
    for k := 0 to |people|
      invariant m.Valid()
      invariant m.nextId == k + 1
      invariant m.users == added
      invariant |added| == k
      invariant forall j :: 0 <= j < k ==> added[j] == User(j + 1, people[j].0, people[j].1)
    {
      var user := m.AddUser(people[k].0, people[k].1);
      added := added + [user];
    }
    listed := m.GetAllUsers();
  }

  /** findUserById on the id addUser returned yields the very record returned. */
  method FindAfterAdd(name: string, email: string) returns (added: User, found: Option<User>)
    ensures found == Some(added)
  {
    var m := new UserManager();
    added := m.AddUser(name, email);
    found := m.FindUserById(added.id);
  }

  /** findUserById on a fresh registry finds nothing, whatever the id. */
  method FindOnFresh(id: int) returns (found: Option<User>)
    ensures found == None
  {
    var m := new UserManager();
    found := m.FindUserById(id);
  }

  /** deleteUser on an added record's id returns true, after which the id is not found. */
  method DeleteAfterAdd(name: string, email: string) returns (result: bool, found: Option<User>)
    ensures result
    ensures found == None
  {
    var m := new UserManager();
    var user := m.AddUser(name, email);
    result := m.DeleteUser(user.id);
    found := m.FindUserById(user.id);
  }

  /** deleteUser on an id no record carries returns false. */
  method DeleteOnFresh(id: int) returns (result: bool)
    ensures !result
  {
    var m := new UserManager();
    result := m.DeleteUser(id);
  }

  /** A second deleteUser of the same id returns false: each id is deleted at most once. */
  method DeleteTwice(name: string, email: string) returns (first: bool, second: bool)
    ensures first && !second
  {
    var m := new UserManager();
    var user := m.AddUser(name, email);
    first := m.DeleteUser(user.id);
    second := m.DeleteUser(user.id);
  }

  /** Deleting the first of two records leaves the second findable and unchanged,
      and the listing holds the second record alone. */
  method DeleteKeepsOthers(name1: string, email1: string, name2: string, email2: string)
    returns (user2: User, found: Option<User>, listed: seq<User>)
    ensures user2 == User(2, name2, email2)
    ensures found == Some(user2)
    ensures listed == [user2]
  {
    var m := new UserManager();
    var user1 := m.AddUser(name1, email1);
    user2 := m.AddUser(name2, email2);
    var deleted := m.DeleteUser(user1.id);
    found := m.FindUserById(user2.id);
    listed := m.GetAllUsers();
  }

  /** Under the counter model of addUser, a deleted id is not handed out again:
      on any valid registry, deleting a stored id and then adding a record gives
      the new record an id other than the deleted one, and the deleted id stays absent. */
  method DeletedIdNotReused(m: UserManager, id: int, name: string, email: string)
    returns (deleted: bool, user: User)
    requires m.Valid() && Find(m.users, id).Some?
    modifies m
    ensures m.Valid()
    ensures deleted
    ensures user.id != id
    ensures Find(m.users, id) == None
    ensures Find(m.users, user.id) == Some(user)
  {
    deleted := m.DeleteUser(id);
    user := m.AddUser(name, email);
  }

  /** The same on a fresh registry: after the record with id 1 is deleted,
      the next record added gets id 2. */
  method NoIdReuse(name1: string, email1: string, name2: string, email2: string)
    returns (user1: User, user2: User)
    ensures user1.id == 1 && user2.id == 2
  {
    var m := new UserManager();
    user1 := m.AddUser(name1, email1);
    var deleted := m.DeleteUser(user1.id);
    user2 := m.AddUser(name2, email2);
  }

  /** getAllUsers on a fresh registry is empty. */
  method ListFresh() returns (listed: seq<User>)
    ensures listed == []
  {
    var m := new UserManager();
    listed := m.GetAllUsers();
  }

  /** getAllUsers after two addUser calls lists exactly those two records, in order. */
  method ListAfterTwo(name1: string, email1: string, name2: string, email2: string)
    returns (user1: User, user2: User, listed: seq<User>)
    ensures user1 == User(1, name1, email1) && user2 == User(2, name2, email2)
    ensures listed == [user1, user2]
  {
    var m := new UserManager();
    user1 := m.AddUser(name1, email1);
    user2 := m.AddUser(name2, email2);
    listed := m.GetAllUsers();
  }
}
