/** The two string operations the script relies on: Python's `sub in s`
    and `s.lower()`. */
module Text {

  /** `sub` sits in `s` starting at position `i`. */
  ghost predicate OccursAt(sub: string, s: string, i: int)
  {
    0 <= i && i + |sub| <= |s| && s[i..i + |sub|] == sub
  }

  /** The meaning of Python's `sub in s`: some position of `s` starts a copy of `sub`. */
  ghost predicate Occurs(sub: string, s: string)
  {
    exists i :: OccursAt(sub, s, i)
  }

  /** Python's `sub in s`, computed by scanning `s` from the left. */
  function Contains(s: string, sub: string): bool
    decreases |s|
  {
    if |sub| > |s| then false
    else if s[..|sub|] == sub then true
    else Contains(s[1..], sub)
  }

  /** The scan finds `sub` exactly when `sub` occurs somewhere in `s`. */
  lemma {:induction false} ContainsIffOccurs(s: string, sub: string)
    ensures Contains(s, sub) <==> Occurs(sub, s)
    decreases |s|
  {
    if |sub| > |s| {
    } else if s[..|sub|] == sub {
      assert OccursAt(sub, s, 0);
    } else {
      ContainsIffOccurs(s[1..], sub);
      if Contains(s[1..], sub) {
        var i :| OccursAt(sub, s[1..], i);
        assert s[1..][i..i + |sub|] == s[i + 1..i + 1 + |sub|];
        assert OccursAt(sub, s, i + 1);
      }
      if Occurs(sub, s) {
        var i :| OccursAt(sub, s, i);
        assert i != 0;
        assert s[1..][i - 1..i - 1 + |sub|] == s[i..i + |sub|];
        assert OccursAt(sub, s[1..], i - 1);
      }
    }
  }

  /** `c.lower()` for the ASCII letters; every other character is left alone. */
  function LowerChar(c: char): char
  {
    if 'A' <= c <= 'Z' then (c as int - 'A' as int + 'a' as int) as char else c
  }

  /** `s.lower()`, character by character. */
  function Lower(s: string): string
  {
    seq(|s|, i requires 0 <= i < |s| => LowerChar(s[i]))
  }

  /** `sub` sits in `s` at `i` when upper and lower case letters are not told apart. */
  ghost predicate OccursIgnoringCaseAt(sub: string, s: string, i: int)
  {
    0 <= i && i + |sub| <= |s| && forall k :: 0 <= k < |sub| ==> LowerChar(s[i + k]) == LowerChar(sub[k])
  }

  ghost predicate OccursIgnoringCase(sub: string, s: string)
  {
    exists i :: OccursIgnoringCaseAt(sub, s, i)
  }

  /** `sub.lower() in s.lower()` is a case-blind search for `sub` in `s`. */
  lemma LowerContainsIgnoresCase(s: string, sub: string)
    ensures Contains(Lower(s), Lower(sub)) <==> OccursIgnoringCase(sub, s)
  {
    ContainsIffOccurs(Lower(s), Lower(sub));
    if Occurs(Lower(sub), Lower(s)) {
      var i :| OccursAt(Lower(sub), Lower(s), i);
      forall k | 0 <= k < |sub|
        ensures LowerChar(s[i + k]) == LowerChar(sub[k])
      {
        assert Lower(s)[i..i + |sub|][k] == Lower(s)[i + k];
      }
      assert OccursIgnoringCaseAt(sub, s, i);
    }
    if OccursIgnoringCase(sub, s) {
      var i :| OccursIgnoringCaseAt(sub, s, i);
      assert Lower(s)[i..i + |sub|] == Lower(sub);
      assert OccursAt(Lower(sub), Lower(s), i);
    }
  }
}
