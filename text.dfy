/** The two String operations the keyword search uses: toLowerCase and contains.
    Lowering is per character and covers the ASCII letters only. */
module Text {

  /** Character.toLowerCase restricted to ASCII: 'A'..'Z' map to 'a'..'z', all else is kept. */
  function LowerChar(c: char): (r: char)
    ensures !('A' <= r <= 'Z')
    ensures 'A' <= c <= 'Z' ==> r as int == c as int + ('a' as int - 'A' as int)
    ensures !('A' <= c <= 'Z') ==> r == c
  {
    if 'A' <= c <= 'Z' then (c as int + 32) as char else c
  }

  /** String.toLowerCase: lowers each character in place, keeping the length. */
  function Lower(s: string): (r: string)
    ensures |r| == |s|
    ensures forall i :: 0 <= i < |s| ==> r[i] == LowerChar(s[i])
  {
    if s == [] then [] else [LowerChar(s[0])] + Lower(s[1..])
  }

  /** Lowering leaves no upper-case ASCII letter behind and is idempotent. */
  lemma LowerIdempotent(s: string)
    ensures forall i :: 0 <= i < |s| ==> !('A' <= Lower(s)[i] <= 'Z')
    ensures Lower(Lower(s)) == Lower(s)
  {
    var l := Lower(s);
    forall i | 0 <= i < |s|
      ensures !('A' <= l[i] <= 'Z') && Lower(l)[i] == l[i]
    {
      assert l[i] == LowerChar(s[i]);
    }
  }

  ghost predicate OccursAt(s: string, sub: string, i: int)
  {
    0 <= i && i + |sub| <= |s| && s[i..i + |sub|] == sub
  }

  /** sub occurs somewhere in s: the textbook substring relation. */
  ghost predicate Occurs(s: string, sub: string)
  {
    exists i :: OccursAt(s, sub, i)
  }

  /** Dropping the first character moves every occurrence one position to the left. */
  lemma OccursShift(s: string, sub: string, i: int)
    requires s != [] && 0 <= i
    ensures OccursAt(s[1..], sub, i) <==> OccursAt(s, sub, i + 1)
  {
    if i + |sub| <= |s| - 1 {
      assert s[1..][i..i + |sub|] == s[i + 1..i + 1 + |sub|];
    }
  }

  /** When sub is not a prefix of s, it occurs in s exactly when it occurs in s without its
      first character. */
  lemma ContainsStep(s: string, sub: string)
    requires s != [] && !(sub <= s)
    ensures Occurs(s, sub) <==> Occurs(s[1..], sub)
  {
    if i :| OccursAt(s, sub, i) {
      assert i != 0;
      OccursShift(s, sub, i - 1);
    }
    if i :| OccursAt(s[1..], sub, i) {
      OccursShift(s, sub, i);
    }
  }

  /** String.contains: sub is tried at each start position from the left, so it holds
      exactly when sub occurs somewhere in s. */
  predicate Contains(s: string, sub: string): (r: bool)
    ensures r <==> Occurs(s, sub)
  {
    if sub <= s then
      assert OccursAt(s, sub, 0);
      true
    else if s == [] then
      false
    else
      ContainsStep(s, sub);
      Contains(s[1..], sub)
  }

  /** The empty string is contained in every string. */
  lemma ContainsEmpty(s: string)
    ensures Contains(s, "")
  {
  }
}
