/** Properties of the user store that relate several handler calls: what a
    later call observes after an earlier one changed the store.
 */
module Properties {
  import opened Values
  import opened Models
  import opened Store
  import opened Api

  /** A user created under an id in get's range is what get then returns. */
  lemma GetAfterCreate(s: UserStore, id: int, u: User)
    requires id !in s.users && 0 < id < 100
    ensures GetUser(CreateUser(s, id, u).store, id).result == Ok(Dump(u))
  {
  }

  /** create accepts any integer id, but get rejects ids outside 1..99: a user
      created under such an id can never be read back by id. */
  lemma CreatedOutOfRangeUnreadable(s: UserStore, id: int, u: User)
    requires id !in s.users && (id <= 0 || 100 <= id)
    ensures CreateUser(s, id, u).result == Ok(u)
    ensures GetUser(CreateUser(s, id, u).store, id).result == Err(InvalidId)
  {
  }

  /** After delete, the id is gone: get and a second delete both fail, and
      every other id reads as before. */
  lemma GetAfterDelete(s: UserStore, id: int)
    requires id in s.users
    ensures GetUser(DeleteUser(s, id).store, id).result.Err?
    ensures DeleteUser(DeleteUser(s, id).store, id).result == Err(NotFound)
    ensures forall j :: j != id ==> GetUser(DeleteUser(s, id).store, j).result == GetUser(s, j).result
  {
  }

  /** get after a successful update returns what update replied. */
  lemma GetAfterUpdate(s: UserStore, id: int, p: UserUpdate)
    requires id in s.users && 0 < id < 100
    ensures GetUser(UpdateUser(s, id, p).store, id).result == UpdateUser(s, id, p).result
  {
  }

  lemma BindThenUnbind(m: map<int, Record>, k: int, v: Record)
    requires k !in m
    ensures m[k := v] - {k} == m
  {
  }

  lemma CreateThenDeleteOrder(s: UserStore, id: int, u: User)
    requires id !in s.users
    ensures DeleteUser(CreateUser(s, id, u).store, id).store.order == s.order
  {
    var t := CreateUser(s, id, u).store;
    var o := DeleteUser(t, id);
    var n := |s.order|;
    assert t.order == s.order + [id];
    var k :| 0 <= k < |t.order| && t.order[k] == id && o.store.order == t.order[..k] + t.order[k + 1..];
    DistinctIndex(t.order, k, n);
    assert t.order[..n] == s.order;
  }

  lemma CreateThenDeleteUsers(s: UserStore, id: int, u: User)
    requires id !in s.users
    ensures DeleteUser(CreateUser(s, id, u).store, id).store.users == s.users
  {
    var t := CreateUser(s, id, u).store;
    assert t.users == s.users[id := Dump(u)];
    assert DeleteUser(t, id).store.users == t.users - {id};
    BindThenUnbind(s.users, id, Dump(u));
  }

  /** Deleting a user just created restores the store exactly, insertion
      order included, and hands back the record create stored. */
  lemma CreateThenDelete(s: UserStore, id: int, u: User)
    requires id !in s.users
    ensures DeleteUser(CreateUser(s, id, u).store, id) == Step(s, Ok(Deleted(DeletedMessage, Dump(u))))
  {
    CreateThenDeleteOrder(s, id, u);
    CreateThenDeleteUsers(s, id, u);
    var o := DeleteUser(CreateUser(s, id, u).store, id);
    assert o.store == s;
  }

  /** Update changes the record in place: iteration sees the updated record
      at the position the old one held, and everything else as before. */
  lemma UpdateInPlace(s: UserStore, id: int, p: UserUpdate)
    requires id in s.users
    ensures exists k :: && 0 <= k < |s.order| && s.order[k] == id
                        && InOrder(UpdateUser(s, id, p).store) == InOrder(s)[k := ApplyUpdate(s.users[id], p)]
  {
    var k := IndexOf(s.order, id).value;
    InOrderReplace(s, UpdateUser(s, id, p).store, k, ApplyUpdate(s.users[id], p));
  }

  /** Delete keeps the remaining users in their insertion order. */
  lemma DeleteKeepsOrder(s: UserStore, id: int)
    requires id in s.users
    ensures exists k :: && 0 <= k < |s.order| && s.order[k] == id
                        && InOrder(DeleteUser(s, id).store) == InOrder(s)[..k] + InOrder(s)[k + 1..]
  {
    var t := DeleteUser(s, id).store;
    var k :| 0 <= k < |s.order| && s.order[k] == id && t.order == s.order[..k] + s.order[k + 1..];
    InOrderRemove(s, t, k);
  }

  /** An update that supplies no field changes nothing. */
  lemma UpdateNoChange(s: UserStore, id: int)
    requires id in s.users
    ensures UpdateUser(s, id, NoChange) == Step(s, Ok(s.users[id]))
  {
    ApplyNoChange(s.users[id]);
    assert s.users[id := s.users[id]] == s.users;
  }

  /** Applying the same update twice leaves the same store, and the same
      reply, as applying it once. */
  lemma UpdateIdempotent(s: UserStore, id: int, p: UserUpdate)
    ensures UpdateUser(UpdateUser(s, id, p).store, id, p) == UpdateUser(s, id, p)
  {
    if id in s.users {
      ApplyIdempotent(s.users[id], p);
    }
  }

  /** Updating the website of a seeded user adds a separate "website" key:
      the seeded "webiste" entry is kept beside it. */
  lemma SeededWebsiteUpdate(w: string)
    ensures
      var o := UpdateUser(Seed, 1, WebsiteOnly(w));
      && o.result.Ok?
      && o.result.value["webiste"] == Str("queensdev.com")
      && o.result.value["website"] == Str(w)
      && o.result.value.Keys == {"name", "email", "age", "webiste", "website", "role", "photo"}
  {
    assert Seed.users[1] == Queens;
    WebsiteUpdateKeepsWebiste(Queens, w);
  }

  /** Search compares lower-cased names, so queries that lower-case alike
      give the same reply. */
  lemma SearchCaseInsensitive(s: UserStore, q1: string, q2: string)
    requires Lower(q1) == Lower(q2)
    ensures SearchUserByName(s, Some(q1)) == SearchUserByName(s, Some(q2))
  {
    var vs := InOrder(s);
    assert forall r :: NameMatches(r, q1) == NameMatches(r, q2);
    if q1 != "" && FirstMatch(vs, q1).Some? {
      FirstMatchUnique(vs, q1, FirstMatch(vs, q1).value, FirstMatch(vs, q2).value);
    }
  }

  /** Creating a user never changes which user a successful search finds:
      the new user comes last in insertion order. */
  lemma CreateKeepsSearchResult(s: UserStore, id: int, u: User, q: string)
    requires SearchUserByName(s, Some(q)).result.Ok?
    ensures SearchUserByName(CreateUser(s, id, u).store, Some(q)).result == SearchUserByName(s, Some(q)).result
  {
    if id !in s.users && q != "" {
      var vs := InOrder(s);
      var ws := InOrder(CreateUser(s, id, u).store);
      assert ws == vs + [Dump(u)];
      assert forall i :: 0 <= i < |vs| ==> ws[i] == vs[i];
      FirstMatchPrefix(vs, ws, q);
    }
  }

  /** Search on the seeded store ignores case and finds the first seeded user;
      an empty name is answered with the message. */
  lemma SeedSearch()
    ensures SearchUserByName(Seed, Some("QUEENS")).result == Ok(Found(Queens))
    ensures SearchUserByName(Seed, Some("")).result == Ok(Message(NameRequired))
  {
    assert Lower("QUEENS") == "queens";
    assert Lower("Queens") == "queens";
    assert InOrder(Seed)[0] == Queens;
    assert IsFirstMatch(InOrder(Seed), "QUEENS", 0);
  }
}
