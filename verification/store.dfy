/** The in-memory user store: a dictionary from integer ids to user records
    that remembers insertion order, as the program's dictionary does. It is
    represented by the dictionary itself together with the sequence of its
    ids in insertion order.
 */
module Store {
  import opened Values

  datatype Dict = Dict(users: map<int, Record>, order: seq<int>)

  predicate Distinct(xs: seq<int>) {
    forall i, j :: 0 <= i < j < |xs| ==> xs[i] != xs[j]
  }

  /** The order lists every id of the dictionary exactly once, and every
      stored record carries a string name. */
  predicate Valid(d: Dict) {
    && Distinct(d.order)
    && (forall x :: x in d.users ==> x in d.order)
    && (forall i :: 0 <= i < |d.order| ==> d.order[i] in d.users)
    && (forall x :: x in d.users ==> HasName(d.users[x]))
  }

  type UserStore = d: Dict | Valid(d) witness Dict(map[], [])

  /** The stored records in insertion order: what iterating over the
      dictionary's values yields. */
  function InOrder(s: UserStore): (vs: seq<Record>)
    ensures |vs| == |s.order|
    ensures forall x :: x in s.users ==> s.users[x] in vs
  {
    var vs := seq(|s.order|, i requires 0 <= i < |s.order| => s.users[s.order[i]]);
    assert forall x :: x in s.users ==> exists i :: 0 <= i < |s.order| && s.order[i] == x && vs[i] == s.users[x];
    vs
  }

  /** The position of `x` in `xs`, if it is there. */
  function IndexOf(xs: seq<int>, x: int): (r: Option<nat>)
    ensures r.Some? ==> r.value < |xs| && xs[r.value] == x && x !in xs[..r.value]
    ensures r.None? <==> x !in xs
    decreases |xs|
  {
    if |xs| == 0 then None
    else if xs[0] == x then Some(0)
    else
      match IndexOf(xs[1..], x)
      case None => None
      case Some(k) =>
        assert xs[..k + 1] == [xs[0]] + xs[1..][..k];
        Some(k + 1)
  }

  /** In a sequence without repetitions, an element sits at exactly one
      position. */
  lemma DistinctIndex(xs: seq<int>, i: int, j: int)
    requires Distinct(xs)
    requires 0 <= i < |xs| && 0 <= j < |xs|
    ensures xs[i] == xs[j] <==> i == j
  {
  }

  /** Removing the element at one position from a sequence without
      repetitions removes exactly that element and keeps the others' order. */
  lemma RemoveAt(xs: seq<int>, k: int)
    requires Distinct(xs)
    requires 0 <= k < |xs|
    ensures Distinct(xs[..k] + xs[k + 1..])
    ensures forall y :: y in xs[..k] + xs[k + 1..] <==> y in xs && y != xs[k]
  {
    var ys := xs[..k] + xs[k + 1..];
    assert forall i :: 0 <= i < k ==> ys[i] == xs[i];
    assert forall i :: k < i < |xs| ==> ys[i - 1] == xs[i];
    forall y | y in xs && y != xs[k] ensures y in ys {
      var i :| 0 <= i < |xs| && xs[i] == y;
      if i < k {
        assert ys[i] == y;
      } else {
        assert ys[i - 1] == y;
      }
    }
  }

  /** Binding a fresh id appends its record to the iteration order. */
  lemma AppendValid(s: UserStore, id: int, rec: Record)
    requires id !in s.users && HasName(rec)
    ensures Valid(Dict(s.users[id := rec], s.order + [id]))
    ensures InOrder(Dict(s.users[id := rec], s.order + [id])) == InOrder(s) + [rec]
  {
    var order := s.order + [id];
    assert forall i :: 0 <= i < |s.order| ==> order[i] == s.order[i];
    assert Distinct(order);
  }

  /** Rebinding the id at position `k` replaces the record iteration yields
      at that position and nothing else. */
  lemma InOrderReplace(s: UserStore, t: UserStore, k: int, rec: Record)
    requires 0 <= k < |s.order|
    requires t.order == s.order && t.users == s.users[s.order[k] := rec]
    ensures InOrder(t) == InOrder(s)[k := rec]
  {
    var vs := InOrder(s)[k := rec];
    forall i | 0 <= i < |s.order| ensures InOrder(t)[i] == vs[i] {
      DistinctIndex(s.order, i, k);
    }
  }

  /** Unbinding the id at position `k` drops the record iteration yields at
      that position and keeps the others in order. */
  lemma InOrderRemove(s: UserStore, t: UserStore, k: int)
    requires 0 <= k < |s.order|
    requires t.order == s.order[..k] + s.order[k + 1..] && t.users == s.users - {s.order[k]}
    ensures InOrder(t) == InOrder(s)[..k] + InOrder(s)[k + 1..]
  {
    var vs := InOrder(s);
    var rest := vs[..k] + vs[k + 1..];
    forall i | 0 <= i < |t.order| ensures InOrder(t)[i] == rest[i] {
      var j := if i < k then i else i + 1;
      InOrderRemoveAt(s, t, k, i, j);
    }
  }

  lemma InOrderRemoveAt(s: UserStore, t: UserStore, k: int, i: int, j: int)
    requires 0 <= k < |s.order|
    requires t.order == s.order[..k] + s.order[k + 1..] && t.users == s.users - {s.order[k]}
    requires 0 <= i < |t.order| && j == (if i < k then i else i + 1)
    ensures InOrder(t)[i] == InOrder(s)[j]
  {
    assert t.order[i] == s.order[j];
    DistinctIndex(s.order, j, k);
  }

  /** Name comparison of search: both names lower-cased. */
  predicate NameMatches(r: Record, query: string) {
    HasName(r) && Lower(r["name"].s) == Lower(query)
  }

  /** Record `k` is the first record, in insertion order, whose name matches. */
  predicate IsFirstMatch(vs: seq<Record>, query: string, k: int) {
    && 0 <= k < |vs|
    && NameMatches(vs[k], query)
    && forall j :: 0 <= j < k ==> !NameMatches(vs[j], query)
  }

  /** Linear scan in insertion order for the first record whose name matches. */
  function FirstMatch(vs: seq<Record>, query: string): (r: Option<nat>)
    ensures r.Some? ==> IsFirstMatch(vs, query, r.value)
    ensures r.None? <==> forall j :: 0 <= j < |vs| ==> !NameMatches(vs[j], query)
    decreases |vs|
  {
    if |vs| == 0 then None
    else if NameMatches(vs[0], query) then Some(0)
    else
      match FirstMatch(vs[1..], query)
      case None =>
        assert forall j :: 1 <= j < |vs| ==> vs[j] == vs[1..][j - 1];
        None
      case Some(k) =>
        assert forall j :: 1 <= j <= k + 1 ==> vs[j] == vs[1..][j - 1];
        Some(k + 1)
  }

  /** At most one record is the first match. */
  lemma FirstMatchUnique(vs: seq<Record>, query: string, k1: int, k2: int)
    requires IsFirstMatch(vs, query, k1) && IsFirstMatch(vs, query, k2)
    ensures k1 == k2
  {
  }

  /** A first match in a prefix stays the first match once records are
      appended after it. */
  lemma FirstMatchPrefix(vs: seq<Record>, ws: seq<Record>, query: string)
    requires |vs| <= |ws| && forall i :: 0 <= i < |vs| ==> ws[i] == vs[i]
    requires FirstMatch(vs, query).Some?
    ensures FirstMatch(ws, query) == FirstMatch(vs, query)
  {
    var k := FirstMatch(vs, query).value;
    assert IsFirstMatch(ws, query, k);
    var k' := FirstMatch(ws, query).value;
    FirstMatchUnique(ws, query, k, k');
  }

  /** The three users the store starts with (hardcodedapi.py:9-34). Their
      website is stored under the key "webiste", and their age as a string. */
  function SeedUser(name: string, email: string, age: string, site: string, role: string): (r: Record)
    ensures HasName(r) && r["name"] == Str(name)
    ensures "webiste" in r && "website" !in r
    ensures "age" in r && r["age"].Str?
  {
    map["name" := Str(name), "email" := Str(email), "age" := Str(age),
        "webiste" := Str(site), "role" := Str(role), "photo" := Str("url")]
  }

  const Queens := SeedUser("Queens", "queens@example.com", "65", "queensdev.com", "Developer")
  const Nafsan := SeedUser("Nafsan", "nafsan@example.com", "25", "nafsan.com", "Admin")
  const Kings := SeedUser("Kings", "kings@example.com", "24", "kingsconsumers.com", "Subscriber")

  /** The store the program starts with: the three users under ids 1, 2
      and 3. */
  const Seed: UserStore := Dict(map[1 := Queens, 2 := Nafsan, 3 := Kings], [1, 2, 3])

  /** Iterating the seed yields Queens, Nafsan and Kings in that order; each
      holds a website under "webiste", none under "website", and its age as
      a string. */
  lemma SeedContents()
    ensures InOrder(Seed) == [Queens, Nafsan, Kings]
    ensures forall r: Record :: r in InOrder(Seed) ==> "webiste" in r && "website" !in r && "age" in r && r["age"].Str?
  {
    assert InOrder(Seed)[0] == Queens && InOrder(Seed)[1] == Nafsan && InOrder(Seed)[2] == Kings;
  }
}
