/** Texts that end at a terminator. */
module CStrings {
  const NUL := 0 as char

  /** strlen */
  function Length(s: string): (n: nat)
    ensures n <= |s| && forall i :: 0 <= i < n ==> s[i] != NUL
    ensures n < |s| ==> s[n] == NUL
  {
    if s == "" || s[0] == NUL then 0 else 1 + Length(s[1..])
  }

  lemma {:induction false} LengthIs(s: string)
    requires NUL !in s
    ensures Length(s) == |s|
  {
    if s != "" { LengthIs(s[1..]); }
  }
}
