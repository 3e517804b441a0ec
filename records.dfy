/** The record type of the student form and the string operations the search uses. */
module Records {

  datatype Option<T> = None | Some(value: T)

  /** One row of the table: the four text fields of the form, stored as free text. */
  datatype UserData = UserData(fname: string, lname: string, email: string, number: string)

  /** The `name` attribute of the input that fired a change event. */
  datatype Field = FName | LName | Email | Number

  /** The draft the form starts with and is reset to after an add. */
  const EmptyRecord := UserData("", "", "", "")

  function Get(u: UserData, f: Field): string
  {
    match f
    case FName => u.fname
    case LName => u.lname
    case Email => u.email
    case Number => u.number
  }

  /** `{ ...u, [name]: value }`: a copy of `u` with one field replaced. */
  function WithField(u: UserData, name: Field, value: string): (r: UserData)
    ensures Get(r, name) == value
    ensures forall g :: g != name ==> Get(r, g) == Get(u, g)
  {
    match name
    case FName => u.(fname := value)
    case LName => u.(lname := value)
    case Email => u.(email := value)
    case Number => u.(number := value)
  }

  /** `toLowerCase` restricted to ASCII letters. */
  function LowerChar(c: char): char
  {
    if 'A' <= c <= 'Z' then (c as int + 32) as char else c
  }

  /** `s.toLowerCase()`: no upper-case letter is left, and only upper-case letters change. */
  function Lower(s: string): (r: string)
    ensures |r| == |s|
    ensures forall i :: 0 <= i < |r| ==> !('A' <= r[i] <= 'Z')
    ensures forall i :: 0 <= i < |s| && r[i] != s[i] ==> 'A' <= s[i] <= 'Z'
    ensures forall i :: 0 <= i < |s| ==> r[i] == LowerChar(s[i])
  {
    seq(|s|, i requires 0 <= i < |s| => LowerChar(s[i]))
  }

  /** Lower-casing twice is lower-casing once. */
  lemma LowerIdempotent(s: string)
    ensures Lower(Lower(s)) == Lower(s)
  {
  }

  /** `s.includes(t)`: `t` occurs in `s` as a contiguous substring. */
  predicate Includes(s: string, t: string)
    decreases |s|
  {
    |t| <= |s| && (s[..|t|] == t || Includes(s[1..], t))
  }

  /** `t` occurs in `s` starting at position `k`. */
  predicate OccursAt(s: string, t: string, k: int)
  {
    0 <= k && k + |t| <= |s| && s[k..k + |t|] == t
  }

  /** `Includes` is substring search: `t` occurs in `s` at some position. */
  lemma {:induction false} IncludesIffOccurs(s: string, t: string)
    ensures Includes(s, t) <==> exists k :: OccursAt(s, t, k)
  {
    if |t| <= |s| {
      if s[..|t|] == t {
        assert OccursAt(s, t, 0);
      } else {
        IncludesIffOccurs(s[1..], t);
        if exists k :: OccursAt(s, t, k) {
          var k :| OccursAt(s, t, k);
          assert k != 0;
          assert s[1..][k - 1..k - 1 + |t|] == s[k..k + |t|];
          assert OccursAt(s[1..], t, k - 1);
        }
        if Includes(s[1..], t) {
          var k :| OccursAt(s[1..], t, k);
          assert s[k + 1..k + 1 + |t|] == s[1..][k..k + |t|];
          assert OccursAt(s, t, k + 1);
        }
      }
    } else {
      forall k | OccursAt(s, t, k) ensures false { }
    }
  }

  /** Every string includes the empty string. */
  lemma IncludesEmpty(s: string)
    ensures Includes(s, "")
  {
  }
}
