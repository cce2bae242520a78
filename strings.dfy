/**
 The two operations of java.lang.String that the sentiment classifier relies on:
 `contains` (substring search) and `toLowerCase` (case normalisation, ASCII only).
 */
module Strings {

  type String = seq<char>

  /** True iff `s` begins with `prefix`. */
  predicate StartsWith(s: String, prefix: String) {
    |prefix| <= |s| && s[..|prefix|] == prefix
  }

  /** `s.contains(sub)`: `sub` occurs in `s`, trying each start position from the left. */
  predicate Contains(s: String, sub: String)
    ensures Contains(s, sub) ==> |sub| <= |s|
    ensures sub == [] ==> Contains(s, sub)
    decreases |s|
  {
    StartsWith(s, sub) || (|s| > 0 && Contains(s[1..], sub))
  }

  /** Reference definition of an occurrence: `sub` sits in `s` at index `i`. */
  ghost predicate OccursAt(s: String, sub: String, i: int) {
    0 <= i && i + |sub| <= |s| && s[i..i + |sub|] == sub
  }

  /** The search finds exactly the occurrences of the reference definition. */
  lemma {:induction false} ContainsIffOccurs(s: String, sub: String)
    ensures Contains(s, sub) <==> exists i :: OccursAt(s, sub, i)
    decreases |s|
  {
    if Contains(s, sub) {
      if StartsWith(s, sub) {
        assert OccursAt(s, sub, 0);
      } else {
        ContainsIffOccurs(s[1..], sub);
        var i :| OccursAt(s[1..], sub, i);
        assert s[1..][i..i + |sub|] == s[i + 1..i + 1 + |sub|];
        assert OccursAt(s, sub, i + 1);
      }
    } else {
      forall i | OccursAt(s, sub, i) ensures false {
        OccurrenceFound(s, sub, i);
      }
    }
  }

  /** An occurrence at any index is found by the search. */
  lemma {:induction false} OccurrenceFound(s: String, sub: String, i: int)
    requires OccursAt(s, sub, i)
    ensures Contains(s, sub)
    decreases i
  {
    if i == 0 {
      assert StartsWith(s, sub);
    } else {
      assert s[1..][i - 1..i - 1 + |sub|] == s[i..i + |sub|];
      OccurrenceFound(s[1..], sub, i - 1);
    }
  }

  /** `sub` is found when it is embedded anywhere, whatever surrounds it. */
  lemma ContainsInfix(pre: String, sub: String, post: String)
    ensures Contains(pre + sub + post, sub)
  {
    var s := pre + sub + post;
    assert s[|pre|..|pre| + |sub|] == sub;
    OccurrenceFound(s, sub, |pre|);
  }

  /** Every character of `sub` occurs in any string that contains `sub`. */
  lemma ContainsNeedsChar(s: String, sub: String, c: char)
    requires c in sub
    ensures Contains(s, sub) ==> c in s
  {
    if Contains(s, sub) {
      ContainsIffOccurs(s, sub);
      var i :| OccursAt(s, sub, i);
      var k :| 0 <= k < |sub| && sub[k] == c;
      assert s[i + k] == sub[k];
    }
  }

  /** An upper-case ASCII letter. */
  predicate IsUpper(c: char) {
    'A' <= c <= 'Z'
  }

  /** Character-wise lowercasing: 'A'..'Z' become 'a'..'z', every other character is kept. */
  function LowerChar(c: char): char {
    if IsUpper(c) then (c as int - 'A' as int + 'a' as int) as char else c
  }

  /** `s.toLowerCase()` restricted to ASCII case mapping. */
  function ToLower(s: String): (r: String)
    ensures |r| == |s|
    ensures forall i :: 0 <= i < |s| ==> r[i] == LowerChar(s[i])
  {
    if s == [] then [] else [LowerChar(s[0])] + ToLower(s[1..])
  }

  /** No upper-case ASCII letter is left, and nothing else is altered. */
  lemma ToLowerSpec(s: String)
    ensures forall i :: 0 <= i < |s| ==> !IsUpper(ToLower(s)[i])
    ensures forall i :: 0 <= i < |s| && !IsUpper(s[i]) ==> ToLower(s)[i] == s[i]
    ensures forall i :: 0 <= i < |s| && IsUpper(s[i]) ==> ToLower(s)[i] as int == s[i] as int + 32
  {
  }

  /** Lowercasing twice is lowercasing once. */
  lemma ToLowerIdempotent(s: String)
    ensures ToLower(ToLower(s)) == ToLower(s)
  {
  }

  /** Lowercasing works character by character, so it distributes over concatenation. */
  lemma ToLowerAppend(a: String, b: String)
    ensures ToLower(a + b) == ToLower(a) + ToLower(b)
  {
  }

  /** A lower-case letter in the lowercased string comes from that letter or its upper-case form. */
  lemma ToLowerLetterOrigin(s: String, c: char)
    requires 'a' <= c <= 'z'
    ensures c in ToLower(s) ==> c in s || (c as int - 32) as char in s
  {
  }
}
