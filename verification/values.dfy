/** Field values and user records of the in-memory user store.

    A stored user is a dictionary from field names to values. The seeded
    users hold every field, age included, as a string; users written from
    the request models hold age as an integer. A record is therefore a
    string-keyed map over a small sum type, so that a misspelled key such
    as "webiste" is an ordinary, distinct key.
 */
module Values {

  datatype Option<+T> = None | Some(value: T)

  /** A value held under one key of a user record. */
  datatype Value = Str(s: string) | Int(i: int)

  type Record = map<string, Value>

  /** Every record the program ever stores carries its name as a string:
      the seeded users do, create writes the declared `name` field, and
      update only ever writes a string there. Search reads this field. */
  predicate HasName(r: Record) {
    "name" in r && r["name"].Str?
  }

  predicate IsUpper(c: char) {
    'A' <= c <= 'Z'
  }

  /** ASCII lower-casing of one character; every other character is kept. */
  function LowerChar(c: char): char {
    if IsUpper(c) then (c as int + ('a' as int - 'A' as int)) as char else c
  }

  /** Lower-casing of a whole string, character by character. */
  function Lower(s: string): (r: string)
    ensures |r| == |s|
    ensures forall i :: 0 <= i < |r| ==> !IsUpper(r[i])
    ensures forall i :: 0 <= i < |s| && IsUpper(s[i]) ==> r[i] as int == s[i] as int + 32
    ensures forall i :: 0 <= i < |s| && !IsUpper(s[i]) ==> r[i] == s[i]
  {
    seq(|s|, i requires 0 <= i < |s| => LowerChar(s[i]))
  }

  /** Lower-casing a lower-cased string changes nothing. */
  lemma LowerIdempotent(s: string)
    ensures Lower(Lower(s)) == Lower(s)
  {
    var t := Lower(s);
    assert forall i :: 0 <= i < |t| ==> LowerChar(t[i]) == t[i];
  }

  /** Two strings that differ only in the case of ASCII letters lower-case
      to the same string. */
  lemma LowerIgnoresCase(a: string, b: string)
    requires |a| == |b|
    requires forall i :: 0 <= i < |a| ==> a[i] == b[i] || LowerChar(a[i]) == b[i] || a[i] == LowerChar(b[i])
    ensures Lower(a) == Lower(b)
  {
    forall i | 0 <= i < |a|
      ensures Lower(a)[i] == Lower(b)[i]
    {
      if a[i] != b[i] && LowerChar(a[i]) == b[i] {
        assert !IsUpper(b[i]);
      }
    }
  }

  /** Conversely, two strings that lower-case to the same string differ at
      most in the case of ASCII letters. */
  lemma LowerSameCase(a: string, b: string)
    requires Lower(a) == Lower(b)
    ensures |a| == |b|
    ensures forall i :: 0 <= i < |a| ==> a[i] == b[i] || LowerChar(a[i]) == b[i] || a[i] == LowerChar(b[i])
  {
    forall i | 0 <= i < |a|
      ensures a[i] == b[i] || LowerChar(a[i]) == b[i] || a[i] == LowerChar(b[i])
    {
      assert Lower(a)[i] == Lower(b)[i];
    }
  }
}
