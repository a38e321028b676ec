/** The five handlers of the user store, each a pure transition: it takes
    the store and the request, and returns the store afterwards together
    with either the handler's reply or the error it raises.
 */
module Api {
  import opened Values
  import opened Models
  import opened Store

  /** The errors the handlers raise: a missing user, a duplicate id on
      create, and an id outside the range get accepts. */
  datatype Error = NotFound | AlreadyExists | InvalidId

  datatype Result<T> = Ok(value: T) | Err(error: Error)

  /** The store after a handler ran, and what the handler answered. */
  datatype Step<T> = Step(store: UserStore, result: Result<T>)

  /** The reply of delete: a fixed message and the record removed. */
  datatype Deleted = Deleted(message: string, deletedUser: Record)

  /** The reply of search: a message when no name was given, otherwise the
      user found. */
  datatype SearchReply = Message(text: string) | Found(user: Record)

  const DeletedMessage := "User deleted successfully"
  const NameRequired := "Name is required"

  /** get accepts only ids strictly between 0 and 100 (hardcodedapi.py:62). */
  predicate IdInRange(id: int) {
    0 < id < 100
  }

  /** get: an id outside 1..99 is rejected before lookup, whether or not it
      is stored; otherwise the stored record, or NotFound. The store never
      changes. */
  function GetUser(s: UserStore, id: int): (o: Step<Record>)
    ensures o.store == s
    ensures !IdInRange(id) ==> o.result == Err(InvalidId)
    ensures IdInRange(id) && id !in s.users ==> o.result == Err(NotFound)
    ensures IdInRange(id) && id in s.users ==> o.result == Ok(s.users[id]) && o.result.value in InOrder(s)
  {
    if !IdInRange(id) then Step(s, Err(InvalidId))
    else if id !in s.users then Step(s, Err(NotFound))
    else Step(s, Ok(s.users[id]))
  }

  /** create: fails with AlreadyExists on a present id, leaving the store
      alone; otherwise binds the id to the dumped user, leaves every other
      binding alone, puts the new user last in iteration order, and replies
      with the user. */
  function CreateUser(s: UserStore, id: int, u: User): (o: Step<User>)
    ensures id in s.users ==> o == Step(s, Err(AlreadyExists))
    ensures id !in s.users ==> o.result == Ok(u)
    ensures id !in s.users ==> o.store.users.Keys == s.users.Keys + {id}
    ensures id !in s.users ==> o.store.users[id] == Dump(u) && Load(o.store.users[id]) == Some(u)
    ensures forall x :: x in s.users ==> x in o.store.users && o.store.users[x] == s.users[x]
    ensures id !in s.users ==> o.store.order == s.order + [id]
    ensures id !in s.users ==> InOrder(o.store) == InOrder(s) + [Dump(u)]
  {
    if id in s.users then Step(s, Err(AlreadyExists))
    else
      var t := Dict(s.users[id := Dump(u)], s.order + [id]);
      AppendValid(s, id, Dump(u));
      LoadDump(u);
      Step(t, Ok(u))
  }

  /** update: fails with NotFound on an absent id, leaving the store alone;
      otherwise overwrites the supplied fields of that record in place,
      leaves every other record and the iteration order alone, and replies
      with the updated record. */
  function UpdateUser(s: UserStore, id: int, p: UserUpdate): (o: Step<Record>)
    ensures id !in s.users ==> o == Step(s, Err(NotFound))
    ensures id in s.users ==> o.result == Ok(ApplyUpdate(s.users[id], p))
    ensures id in s.users ==> o.store.users == s.users[id := ApplyUpdate(s.users[id], p)]
    ensures o.store.order == s.order
  {
    if id !in s.users then Step(s, Err(NotFound))
    else
      var rec := ApplyUpdate(s.users[id], p);
      ApplyKeepsName(s.users[id], p);
      Step(Dict(s.users[id := rec], s.order), Ok(rec))
  }

  /** delete: fails with NotFound on an absent id, leaving the store alone;
      otherwise removes exactly that binding, keeps the order of the rest,
      and replies with the removed record. */
  function DeleteUser(s: UserStore, id: int): (o: Step<Deleted>)
    ensures id !in s.users ==> o == Step(s, Err(NotFound))
    ensures id in s.users ==> o.result == Ok(Deleted(DeletedMessage, s.users[id]))
    ensures id in s.users ==> o.store.users == s.users - {id}
    ensures id in s.users ==> exists k :: 0 <= k < |s.order| && s.order[k] == id && o.store.order == s.order[..k] + s.order[k + 1..]
  {
    if id !in s.users then Step(s, Err(NotFound))
    else
      var k := IndexOf(s.order, id).value;
      RemoveAt(s.order, k);
      var t := Dict(s.users - {id}, s.order[..k] + s.order[k + 1..]);
      Step(t, Ok(Deleted(DeletedMessage, s.users[id])))
  }

  /** search: a missing or empty name yields the "Name is required" message;
      otherwise the first user, in insertion order, whose lower-cased name
      equals the lower-cased query, or NotFound when there is none. The
      store never changes. */
  function SearchUserByName(s: UserStore, name: Option<string>): (o: Step<SearchReply>)
    ensures o.store == s
    ensures name.None? || name.value == "" ==> o.result == Ok(Message(NameRequired))
    ensures o.result.Err? ==> o.result.error == NotFound
    ensures name.Some? && name.value != "" ==>
      (o.result.Ok? <==> exists j :: 0 <= j < |InOrder(s)| && NameMatches(InOrder(s)[j], name.value))
    ensures name.Some? && name.value != "" ==>
      (o.result == Err(NotFound) <==> forall j :: 0 <= j < |InOrder(s)| ==> !NameMatches(InOrder(s)[j], name.value))
    ensures name.Some? && name.value != "" && o.result.Ok? ==>
      o.result.value.Found? && exists k :: IsFirstMatch(InOrder(s), name.value, k) && o.result.value.user == InOrder(s)[k]
  {
    if name.None? || name.value == "" then Step(s, Ok(Message(NameRequired)))
    else
      var vs := InOrder(s);
      match FirstMatch(vs, name.value)
      case None => Step(s, Err(NotFound))
      case Some(k) => Step(s, Ok(Found(vs[k])))
  }
}
