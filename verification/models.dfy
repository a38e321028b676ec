/** The two request models of the user store: the full user accepted by
    create, and the partial user accepted by update, where every field is
    optional. Request validation and coercion happen before the handlers
    run and are represented only by the field types.
 */
module Models {
  import opened Values

  /** The full user accepted by create (hardcodedapi.py:37-43). */
  datatype User = User(name: string, email: string, website: string, age: int, role: string, photo: string)

  /** The partial user accepted by update (hardcodedapi.py:46-52);
      `None` means the field was not supplied. */
  datatype UserUpdate = UserUpdate(
    name: Option<string>,
    email: Option<string>,
    website: Option<string>,
    age: Option<int>,
    role: Option<string>,
    photo: Option<string>)

  /** The update that supplies no field at all. */
  const NoChange := UserUpdate(None, None, None, None, None, None)

  /** The keys of a record produced from a full user. */
  const UserKeys: set<string> := {"name", "email", "website", "age", "role", "photo"}

  /** The dictionary create stores for a full user: the six declared fields
      under their declared names, age as an integer. */
  function Dump(u: User): (r: Record)
    ensures r.Keys == UserKeys
  {
    map["name" := Str(u.name), "email" := Str(u.email), "website" := Str(u.website),
        "age" := Int(u.age), "role" := Str(u.role), "photo" := Str(u.photo)]
  }

  /** Reads a full user back out of a record, when the record holds the six
      fields with the expected value kinds. */
  function Load(r: Record): (u: Option<User>)
    ensures u.Some? ==> UserKeys <= r.Keys
    ensures u.Some? ==> forall k :: k in UserKeys ==> r[k] == Dump(u.value)[k]
  {
    if && "name" in r && r["name"].Str?
       && "email" in r && r["email"].Str?
       && "website" in r && r["website"].Str?
       && "age" in r && r["age"].Int?
       && "role" in r && r["role"].Str?
       && "photo" in r && r["photo"].Str?
    then Some(User(r["name"].s, r["email"].s, r["website"].s, r["age"].i, r["role"].s, r["photo"].s))
    else None
  }

  /** Dumping a user loses nothing: the user can be read back from its record. */
  lemma LoadDump(u: User)
    ensures Load(Dump(u)) == Some(u)
  {
  }

  /** Two different users are never stored as the same record. */
  lemma DumpInjective(u: User, v: User)
    requires Dump(u) == Dump(v)
    ensures u == v
  {
    LoadDump(u);
    LoadDump(v);
  }

  function StrField(o: Option<string>): Option<Value> {
    match o
    case None => None
    case Some(x) => Some(Str(x))
  }

  function IntField(o: Option<int>): Option<Value> {
    match o
    case None => None
    case Some(x) => Some(Int(x))
  }

  /** The value an update supplies for key `k`, if any. */
  function FieldOf(p: UserUpdate, k: string): Option<Value> {
    if k == "name" then StrField(p.name)
    else if k == "email" then StrField(p.email)
    else if k == "website" then StrField(p.website)
    else if k == "age" then IntField(p.age)
    else if k == "role" then StrField(p.role)
    else if k == "photo" then StrField(p.photo)
    else None
  }

  /** Reference semantics of an update: the supplied fields, as a dictionary
      keyed by the names update writes. */
  function Supplied(p: UserUpdate): (m: map<string, Value>)
    ensures m.Keys <= UserKeys
    ensures forall k :: k in m <==> FieldOf(p, k).Some?
  {
    map k | k in UserKeys && FieldOf(p, k).Some? :: FieldOf(p, k).value
  }

  /** Key `k` is present in `r` exactly when in `rec`, with the same value. */
  predicate Kept(rec: Record, r: Record, k: string) {
    (k in r <==> k in rec) && (k in rec ==> k in r && r[k] == rec[k])
  }

  /** After a write of `v` under `k`: `k` holds the written value, or is kept
      when nothing was written. */
  predicate Overlaid(rec: Record, r: Record, k: string, v: Option<Value>) {
    match v
    case None => Kept(rec, r, k)
    case Some(x) => k in r && r[k] == x
  }

  /** One conditional write of update: a supplied field overwrites the key,
      an absent one leaves the record alone. */
  function Write(rec: Record, key: string, v: Option<Value>): Record {
    match v
    case None => rec
    case Some(x) => rec[key := x]
  }

  /** The six conditional writes of update, in the order the handler performs
      them (hardcodedapi.py:83-94). */
  function ApplyUpdate(rec: Record, p: UserUpdate): Record {
    var r1 := Write(rec, "name", StrField(p.name));
    var r2 := Write(r1, "email", StrField(p.email));
    var r3 := Write(r2, "website", StrField(p.website));
    var r4 := Write(r3, "age", IntField(p.age));
    var r5 := Write(r4, "role", StrField(p.role));
    Write(r5, "photo", StrField(p.photo))
  }

  lemma KeptTrans(a: Record, b: Record, c: Record, k: string)
    requires Kept(a, b, k) && Kept(b, c, k)
    ensures Kept(a, c, k)
  {
  }

  lemma OverlaidThenKept(a: Record, b: Record, c: Record, k: string, v: Option<Value>)
    requires Overlaid(a, b, k, v) && Kept(b, c, k)
    ensures Overlaid(a, c, k, v)
  {
  }

  /** What update leaves under one key: the value the update supplies for
      it, or the old presence and value when it supplies none. */
  lemma {:induction false} ApplyAt(rec: Record, p: UserUpdate, k: string)
    ensures Overlaid(rec, ApplyUpdate(rec, p), k, FieldOf(p, k))
  {
    var r1 := Write(rec, "name", StrField(p.name));
    var r2 := Write(r1, "email", StrField(p.email));
    var r3 := Write(r2, "website", StrField(p.website));
    var r4 := Write(r3, "age", IntField(p.age));
    var r5 := Write(r4, "role", StrField(p.role));
    var r6 := Write(r5, "photo", StrField(p.photo));
    if k == "name" {
      OverlaidThenKept(rec, r1, r2, k, FieldOf(p, k));
      OverlaidThenKept(rec, r2, r3, k, FieldOf(p, k));
      OverlaidThenKept(rec, r3, r4, k, FieldOf(p, k));
      OverlaidThenKept(rec, r4, r5, k, FieldOf(p, k));
      OverlaidThenKept(rec, r5, r6, k, FieldOf(p, k));
    } else if k == "email" {
      OverlaidThenKept(rec, r2, r3, k, FieldOf(p, k));
      OverlaidThenKept(rec, r3, r4, k, FieldOf(p, k));
      OverlaidThenKept(rec, r4, r5, k, FieldOf(p, k));
      OverlaidThenKept(rec, r5, r6, k, FieldOf(p, k));
    } else if k == "website" {
      KeptTrans(rec, r1, r2, k);
      OverlaidThenKept(rec, r3, r4, k, FieldOf(p, k));
      OverlaidThenKept(rec, r4, r5, k, FieldOf(p, k));
      OverlaidThenKept(rec, r5, r6, k, FieldOf(p, k));
    } else if k == "age" {
      KeptTrans(rec, r1, r2, k);
      KeptTrans(rec, r2, r3, k);
      OverlaidThenKept(rec, r4, r5, k, FieldOf(p, k));
      OverlaidThenKept(rec, r5, r6, k, FieldOf(p, k));
    } else if k == "role" {
      KeptTrans(rec, r1, r2, k);
      KeptTrans(rec, r2, r3, k);
      KeptTrans(rec, r3, r4, k);
      OverlaidThenKept(rec, r5, r6, k, FieldOf(p, k));
    } else if k == "photo" {
      KeptTrans(rec, r1, r2, k);
      KeptTrans(rec, r2, r3, k);
      KeptTrans(rec, r3, r4, k);
      KeptTrans(rec, r4, r5, k);
    } else {
      KeptTrans(rec, r1, r2, k);
      KeptTrans(rec, r2, r3, k);
      KeptTrans(rec, r3, r4, k);
      KeptTrans(rec, r4, r5, k);
      KeptTrans(rec, r5, r6, k);
    }
  }

  /** Update overwrites exactly the fields supplied as non-`None`: each key
      holds the value supplied for it, and every key the update does not
      supply keeps its old presence and value. */
  lemma ApplyFrame(rec: Record, p: UserUpdate)
    ensures forall k :: Overlaid(rec, ApplyUpdate(rec, p), k, FieldOf(p, k))
  {
    forall k ensures Overlaid(rec, ApplyUpdate(rec, p), k, FieldOf(p, k)) {
      ApplyAt(rec, p, k);
    }
  }

  /** The sequential writes agree with the reference: the stored record
      overlaid with exactly the supplied fields. */
  lemma ApplyIsOverlay(rec: Record, p: UserUpdate)
    ensures ApplyUpdate(rec, p) == rec + Supplied(p)
  {
    ApplyFrame(rec, p);
  }

  /** Update keeps a string name a string name. */
  lemma ApplyKeepsName(rec: Record, p: UserUpdate)
    requires HasName(rec)
    ensures HasName(ApplyUpdate(rec, p))
  {
    ApplyAt(rec, p, "name");
  }

  /** An update that supplies nothing leaves the record as it was. */
  lemma ApplyNoChange(rec: Record)
    ensures ApplyUpdate(rec, NoChange) == rec
  {
    forall k ensures Kept(rec, ApplyUpdate(rec, NoChange), k) {
      ApplyAt(rec, NoChange, k);
    }
    KeptEverywhere(rec, ApplyUpdate(rec, NoChange));
  }

  /** Two records that agree on every key are the same record. */
  lemma KeptEverywhere(a: Record, b: Record)
    requires forall k :: Kept(a, b, k)
    ensures a == b
  {
    forall k | k in a ensures k in b && b[k] == a[k] {
      assert Kept(a, b, k);
    }
    forall k | k in b ensures k in a {
      assert Kept(a, b, k);
    }
  }

  /** Applying the same update twice is the same as applying it once. */
  lemma ApplyIdempotent(rec: Record, p: UserUpdate)
    ensures ApplyUpdate(ApplyUpdate(rec, p), p) == ApplyUpdate(rec, p)
  {
    var r := ApplyUpdate(rec, p);
    var r2 := ApplyUpdate(r, p);
    forall k ensures Kept(r, r2, k) {
      ApplyAt(rec, p, k);
      ApplyAt(r, p, k);
    }
    KeptEverywhere(r, r2);
  }

  /** Update never removes a key, adds only keys it was given, and every
      key it was given is present afterwards. */
  lemma ApplyKeys(rec: Record, p: UserUpdate)
    ensures rec.Keys <= ApplyUpdate(rec, p).Keys
    ensures ApplyUpdate(rec, p).Keys - rec.Keys <= Supplied(p).Keys
    ensures Supplied(p).Keys <= ApplyUpdate(rec, p).Keys
  {
    ApplyFrame(rec, p);
  }

  /** The update that supplies only a website. */
  function WebsiteOnly(w: string): UserUpdate {
    UserUpdate(None, None, Some(w), None, None, None)
  }

  /** A website update writes the key "website" and nothing else; a record
      that carries its website under another key keeps that key as it was. */
  lemma WebsiteUpdateKeepsWebiste(rec: Record, w: string)
    ensures ApplyUpdate(rec, WebsiteOnly(w))["website"] == Str(w)
    ensures "webiste" in rec ==> ApplyUpdate(rec, WebsiteOnly(w))["webiste"] == rec["webiste"]
    ensures ApplyUpdate(rec, WebsiteOnly(w)).Keys == rec.Keys + {"website"}
  {
    ApplyFrame(rec, WebsiteOnly(w));
  }
}
