/** The two string operations the search filter uses: `toLowerCase` and `includes`. */
module Text {

  predicate IsUpper(c: char) {
    'A' <= c <= 'Z'
  }

  /** Lower-cases one ASCII letter; every other character is left as it is. */
  function LowerChar(c: char): char {
    if IsUpper(c) then (c as int + 32) as char else c
  }

  /** `String.prototype.toLowerCase`, restricted to ASCII letters. */
  function Lower(s: string): (r: string)
    ensures |r| == |s|
    ensures forall i :: 0 <= i < |r| ==> !IsUpper(r[i])
    ensures forall i :: 0 <= i < |s| && !IsUpper(s[i]) ==> r[i] == s[i]
    ensures forall i :: 0 <= i < |s| && IsUpper(s[i]) ==> r[i] as int == s[i] as int + ('a' as int - 'A' as int)
  {
    seq(|s|, i requires 0 <= i < |s| => LowerChar(s[i]))
  }

  /** `sub` occurs in `s` starting at position `k`. */
  predicate OccursAt(s: string, sub: string, k: int) {
    0 <= k && k + |sub| <= |s| && s[k..k + |sub|] == sub
  }

  /** `String.prototype.includes`: does `sub` occur somewhere in `s`? */
  function Includes(s: string, sub: string): (r: bool)
    ensures r <==> exists k :: OccursAt(s, sub, k)
    decreases |s|
  {
    if |sub| > |s| then false
    else if s[..|sub|] == sub then
      assert OccursAt(s, sub, 0);
      true
    else
      var t := s[1..];
      var r := Includes(t, sub);
      if r then
        var k :| OccursAt(t, sub, k);
        assert OccursAt(s, sub, k + 1) by { assert s[k + 1..k + 1 + |sub|] == t[k..k + |sub|]; }
        r
      else
        assert forall k :: OccursAt(s, sub, k) ==> OccursAt(t, sub, k - 1) by {
          forall k | OccursAt(s, sub, k) ensures OccursAt(t, sub, k - 1) {
            if k != 0 {
              assert t[k - 1..k - 1 + |sub|] == s[k..k + |sub|];
            }
          }
        }
        r
  }
}
