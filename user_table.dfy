/**
 The value side of the in-memory user registry: the `User` record, the
 optional result of a lookup, and the two pure operations on an ordered
 table of records that the registry's methods are specified against —
 lookup by id and removal by id.
 */
module UserTable {

  /** A stored record: a numeric id handed out by the registry, a name and an email. */
  datatype User = User(id: nat, name: string, email: string)

  /** The result of a lookup: `None` plays the part of `undefined`. */
  datatype Option<T> = None | Some(value: T)

  /** No record of the table carries the id `id`. */
  predicate Absent(users: seq<User>, id: int)
  {
    forall u :: u in users ==> u.id != id
  }

  /** Ids grow strictly with insertion order (so in particular they are distinct). */
  predicate Increasing(users: seq<User>)
  {
    forall i, j :: 0 <= i < j < |users| ==> users[i].id < users[j].id
  }

  /** Every id of the table lies in [1, bound). */
  predicate IdsBelow(users: seq<User>, bound: nat)
  {
    forall u :: u in users ==> 1 <= u.id < bound
  }

  /** The first record of the table whose id is `id`, or `None`. */
  function Find(users: seq<User>, id: int): (r: Option<User>)
    ensures r.Some? ==> r.value in users && r.value.id == id
    ensures r.None? <==> Absent(users, id)
  {
    if users == [] then None
    else if users[0].id == id then Some(users[0])
    else Find(users[1..], id)
  }

  /** The table without its records whose id is `id`, the others in their order. */
  function Remove(users: seq<User>, id: int): (r: seq<User>)
    ensures forall u :: u in r <==> u in users && u.id != id
    ensures |r| <= |users|
  {
    if users == [] then []
    else (if users[0].id == id then [] else [users[0]]) + Remove(users[1..], id)
  }

  /** With increasing ids, the record at position `i` is the one found by its id. */
  lemma FindAt(users: seq<User>, i: nat)
    requires Increasing(users)
    requires i < |users|
    ensures Find(users, users[i].id) == Some(users[i])
  {
  }

  /** A lookup stops at the first record carrying the id. */
  lemma {:induction false} FindFirst(users: seq<User>, i: nat, id: int)
    requires i < |users| && users[i].id == id
    requires forall k :: 0 <= k < i ==> users[k].id != id
    ensures Find(users, id) == Some(users[i])
  {
    if i > 0 {
      assert users[1..][i - 1] == users[i];
      FindFirst(users[1..], i - 1, id);
    }
  }

  /** Appending a record does not change the lookups that already succeeded,
      and makes the new record findable when its id was absent. */
  lemma {:induction false} FindAppend(users: seq<User>, u: User, id: int)
    ensures Find(users + [u], id) ==
              if Find(users, id).Some? then Find(users, id)
              else if u.id == id then Some(u)
              else None
  {
    if users == [] {
      assert users + [u] == [u];
    } else {
      assert (users + [u])[1..] == users[1..] + [u];
      FindAppend(users[1..], u, id);
    }
  }

  /** Removing the records of one id leaves every lookup of another id as it was. */
  lemma {:induction false} FindRemoveOther(users: seq<User>, id: int, other: int)
    requires other != id
    ensures Find(Remove(users, id), other) == Find(users, other)
  {
    if users != [] {
      var rest := Remove(users[1..], id);
      FindRemoveOther(users[1..], id, other);
      if users[0].id == id {
        assert Remove(users, id) == rest;
      } else {
        var r := [users[0]] + rest;
        assert Remove(users, id) == r;
        assert r[0] == users[0] && r[1..] == rest;
      }
    }
  }

  /** In an increasing table, the head's id is below every later id. */
  lemma IncreasingHead(users: seq<User>)
    requires Increasing(users) && users != []
    ensures Increasing(users[1..])
    ensures forall u :: u in users[1..] ==> users[0].id < u.id
  {
  }

  /** A record below every id of an increasing table can be put in front of it. */
  lemma IncreasingCons(x: User, rest: seq<User>)
    requires Increasing(rest)
    requires forall u :: u in rest ==> x.id < u.id
    ensures Increasing([x] + rest)
  {
  }

  /** Removal keeps the relative order of the remaining records, so it keeps ids increasing. */
  lemma {:induction false} RemoveIncreasing(users: seq<User>, id: int)
    requires Increasing(users)
    ensures Increasing(Remove(users, id))
  {
    if users != [] {
      var rest := Remove(users[1..], id);
      IncreasingHead(users);
      RemoveIncreasing(users[1..], id);
      if users[0].id == id {
        assert Remove(users, id) == rest;
      } else {
        assert Remove(users, id) == [users[0]] + rest;
        IncreasingCons(users[0], rest);
      }
    }
  }

  /** Removal distributes over concatenation. */
  lemma {:induction false} RemoveConcat(a: seq<User>, b: seq<User>, id: int)
    ensures Remove(a + b, id) == Remove(a, id) + Remove(b, id)
  {
    if a == [] {
      assert a + b == b;
    } else {
      assert (a + b)[1..] == a[1..] + b;
      RemoveConcat(a[1..], b, id);
    }
  }

  /** Removing an id that no record carries changes nothing. */
  lemma {:induction false} RemoveAbsent(users: seq<User>, id: int)
    requires Absent(users, id)
    ensures Remove(users, id) == users
  {
    if users != [] {
      assert users[0] in users;
      assert forall u :: u in users[1..] ==> u in users;
      RemoveAbsent(users[1..], id);
      assert users == [users[0]] + users[1..];
    }
  }

  /** In an increasing table, the id of the record at `i` occurs nowhere else. */
  lemma IncreasingUnique(users: seq<User>, i: nat)
    requires Increasing(users)
    requires i < |users|
    ensures Absent(users[..i], users[i].id)
    ensures Absent(users[i + 1..], users[i].id)
  {
  }

  /** With increasing ids, removing the id of the record at `i` cuts out exactly
      that record: every other record keeps its relative position. */
  lemma RemoveAt(users: seq<User>, i: nat)
    requires Increasing(users)
    requires i < |users|
    ensures Remove(users, users[i].id) == users[..i] + users[i + 1..]
  {
    IncreasingUnique(users, i);
    RemoveOnly(users[..i], users[i], users[i + 1..]);
    assert users == users[..i] + ([users[i]] + users[i + 1..]);
  }

  /** Removing an id carried by one record only cuts out that record. */
  lemma RemoveOnly(before: seq<User>, u: User, after: seq<User>)
    requires Absent(before, u.id) && Absent(after, u.id)
    ensures Remove(before + ([u] + after), u.id) == before + after
  {
    RemoveAbsent(before, u.id);
    RemoveAbsent(after, u.id);
    RemoveSingle(u);
    RemoveConcat(before, [u] + after, u.id);
    RemoveConcat([u], after, u.id);
    assert [] + after == after;
  }

  /** Removing a record's own id from a one-record table empties it. */
  lemma RemoveSingle(u: User)
    ensures Remove([u], u.id) == []
  {
  }

  /** With increasing ids, removing a present id shortens the table by exactly one. */
  lemma RemoveShrinksByOne(users: seq<User>, id: int)
    requires Increasing(users)
    requires Find(users, id).Some?
    ensures |Remove(users, id)| == |users| - 1
  {
    var i :| 0 <= i < |users| && users[i] == Find(users, id).value;
    RemoveAt(users, i);
  }
}
