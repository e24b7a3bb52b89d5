/** String helpers for the few Python string operations the link logic uses:
    slicing with `[:n]` and `[-n:]`, substring search with `in`, and `str.lower()`
    restricted to ASCII. */
module Strings {

  /** `s.startswith(p)` */
  predicate StartsWith(s: string, p: string) {
    |p| <= |s| && s[..|p|] == p
  }

  /** `s.endswith(p)` */
  predicate EndsWith(s: string, p: string) {
    |p| <= |s| && s[|s| - |p|..] == p
  }

  /** Python's `s[:n]` for a non-negative `n`: the whole string when it is shorter than `n`. */
  function Head(s: string, n: nat): (r: string)
    ensures |r| <= n && StartsWith(s, r)
    ensures |r| == n || r == s
  {
    if |s| <= n then s else s[..n]
  }

  /** Python's `s[-n:]` for a positive `n`: the whole string when it is shorter than `n`. */
  function Tail(s: string, n: nat): (r: string)
    requires n > 0
    ensures |r| <= n && EndsWith(s, r)
    ensures |r| == n || r == s
  {
    if |s| <= n then s else s[|s| - n..]
  }

  /** Comparing a slice `s[:len(p)]` with `p` is exactly the prefix test. */
  lemma HeadIsPrefixTest(s: string, p: string)
    ensures Head(s, |p|) == p <==> StartsWith(s, p)
  {
  }

  /** Comparing a slice `s[-len(p):]` with a non-empty `p` is exactly the suffix test. */
  lemma TailIsSuffixTest(s: string, p: string)
    requires p != []
    ensures Tail(s, |p|) == p <==> EndsWith(s, p)
  {
  }

  /** `sub in s` for strings, by scanning the start positions left to right. */
  function HasSubstring(s: string, sub: string): bool
    decreases |s|
  {
    if |sub| > |s| then false
    else if s[..|sub|] == sub then true
    else HasSubstring(s[1..], sub)
  }

  /** `sub` occurs in `s` starting at position `k`. */
  predicate OccursAt(s: string, sub: string, k: int) {
    0 <= k <= |s| - |sub| && s[k..k + |sub|] == sub
  }

  /** The scan finds `sub` exactly when `sub` occurs at some position of `s`. */
  lemma {:induction false} HasSubstringIff(s: string, sub: string)
    ensures HasSubstring(s, sub) <==> exists k :: OccursAt(s, sub, k)
    decreases |s|
  {
    if |sub| > |s| {
    } else if s[..|sub|] == sub {
      assert OccursAt(s, sub, 0);
    } else {
      HasSubstringIff(s[1..], sub);
      if HasSubstring(s, sub) {
        var k :| OccursAt(s[1..], sub, k);
        assert s[k + 1..k + 1 + |sub|] == s[1..][k..k + |sub|];
        assert OccursAt(s, sub, k + 1);
      } else {
        assert !OccursAt(s, sub, 0) by {
          assert s[0..0 + |sub|] == s[..|sub|];
        }
        forall k | 0 < k && OccursAt(s, sub, k)
          ensures false
        {
          var rest := s[1..];
          assert |rest| == |s| - 1;
          assert rest[k - 1..k - 1 + |sub|] == s[k..k + |sub|];
          assert OccursAt(rest, sub, k - 1);
        }
      }
    }
  }

  /** `c.lower()` for an ASCII character; every other character is left as it is. */
  function LowerChar(c: char): (r: char)
    ensures 'A' <= c <= 'Z' ==> 'a' <= r <= 'z'
    ensures 'A' <= c <= 'Z' ==> r == "abcdefghijklmnopqrstuvwxyz"[c as int - 'A' as int]
    ensures !('A' <= c <= 'Z') ==> r == c
  {
    if 'A' <= c <= 'Z' then (c as int - 'A' as int + 'a' as int) as char else c
  }

  /** `s.lower()` restricted to ASCII letters. */
  function Lower(s: string): (r: string)
    ensures |r| == |s|
  {
    if s == [] then [] else [LowerChar(s[0])] + Lower(s[1..])
  }

  /** Lowering works character by character. */
  lemma {:induction false} LowerAt(s: string)
    ensures forall i :: 0 <= i < |s| ==> Lower(s)[i] == LowerChar(s[i])
  {
    if s != [] {
      LowerAt(s[1..]);
    }
  }
}
