/**
 * The parts of Ruby's String that the library relies on: ASCII case mapping
 * (upcase, downcase, capitalize, swapcase), case-insensitive comparison,
 * substring search (`include?`) and `delete_suffix`.
 */
module Text {

  function UpperChar(c: char): char {
    if 'a' <= c <= 'z' then (c as int - 32) as char else c
  }

  function LowerChar(c: char): char {
    if 'A' <= c <= 'Z' then (c as int + 32) as char else c
  }

  function SwapChar(c: char): char {
    if 'a' <= c <= 'z' then UpperChar(c) else if 'A' <= c <= 'Z' then LowerChar(c) else c
  }

  /** String#upcase */
  function Upcase(s: string): (r: string)
    ensures |r| == |s|
    ensures forall i :: 0 <= i < |s| ==> r[i] == UpperChar(s[i])
  {
    if s == [] then [] else [UpperChar(s[0])] + Upcase(s[1..])
  }

  /** String#downcase */
  function Downcase(s: string): (r: string)
    ensures |r| == |s|
    ensures forall i :: 0 <= i < |s| ==> r[i] == LowerChar(s[i])
  {
    if s == [] then [] else [LowerChar(s[0])] + Downcase(s[1..])
  }

  /** String#swapcase */
  function Swapcase(s: string): (r: string)
    ensures |r| == |s|
    ensures forall i :: 0 <= i < |s| ==> r[i] == SwapChar(s[i])
  {
    if s == [] then [] else [SwapChar(s[0])] + Swapcase(s[1..])
  }

  /** String#capitalize: the first character upper-cased, all others lower-cased. */
  function Capitalize(s: string): (r: string)
    ensures |r| == |s|
    ensures |s| > 0 ==> r[0] == UpperChar(s[0])
    ensures forall i :: 0 < i < |s| ==> r[i] == LowerChar(s[i])
  {
    if s == [] then [] else [UpperChar(s[0])] + Downcase(s[1..])
  }

  lemma DowncaseAppend(a: string, b: string)
    ensures Downcase(a + b) == Downcase(a) + Downcase(b)
  {
    var l, r := Downcase(a + b), Downcase(a) + Downcase(b);
    forall i | 0 <= i < |a + b|
      ensures l[i] == r[i]
    {
      if i < |a| {
        assert (a + b)[i] == a[i];
      } else {
        assert (a + b)[i] == b[i - |a|];
      }
    }
  }

  /** Case-insensitivity of the transforms: every one of them folds to the same lower-case text. */
  lemma TransformsFoldAlike(s: string)
    ensures Downcase(Upcase(s)) == Downcase(s)
    ensures Downcase(Capitalize(s)) == Downcase(s)
    ensures Downcase(Swapcase(s)) == Downcase(s)
  {
  }

  /**
   * String#<=>: lexicographic by character code, a proper prefix sorting first.
   * (By code point agrees with Ruby's byte order on UTF-8 text.)
   */
  function Compare(a: string, b: string): (r: int)
    ensures -1 <= r <= 1
    ensures r == 0 <==> a == b
    ensures r == -1 <==> LexLess(a, b)
    ensures r == 1 <==> LexLess(b, a)
  {
    if a == [] then (if b == [] then 0 else -1)
    else if b == [] then 1
    else
      LexLessFirst(a, b);
      LexLessFirst(b, a);
      if a[0] < b[0] then -1
      else if a[0] > b[0] then 1
      else
        assert a == [a[0]] + a[1..] && b == [b[0]] + b[1..];
        Compare(a[1..], b[1..])
  }

  /** `a` sorts before `b` by code point: a proper prefix of `b`, or smaller at the first difference. */
  ghost predicate LexLess(a: string, b: string) {
    (|a| < |b| && a == b[..|a|])
    || exists k :: 0 <= k < |a| && k < |b| && a[..k] == b[..k] && a[k] < b[k]
  }

  /** The order is decided by the first characters, and by the rests when those agree. */
  lemma LexLessFirst(a: string, b: string)
    requires a != [] && b != []
    ensures LexLess(a, b) <==> a[0] < b[0] || (a[0] == b[0] && LexLess(a[1..], b[1..]))
  {
    if LexLess(a, b) {
      LexLessHead(a, b);
    }
    if a[0] == b[0] && LexLess(a[1..], b[1..]) {
      LexLessCons(a, b);
    }
    if a[0] < b[0] {
      assert a[..0] == b[..0];
    }
  }

  lemma LexLessHead(a: string, b: string)
    requires a != [] && b != [] && LexLess(a, b)
    ensures a[0] < b[0] || (a[0] == b[0] && LexLess(a[1..], b[1..]))
  {
    if !(|a| < |b| && a == b[..|a|]) {
      var k :| 0 <= k < |a| && k < |b| && a[..k] == b[..k] && a[k] < b[k];
      if k > 0 {
        assert a[0] == a[..k][0] == b[..k][0] == b[0];
        assert a[1..][..k - 1] == a[1..k] == b[1..k] == b[1..][..k - 1];
        assert a[1..][k - 1] < b[1..][k - 1];
      }
    } else {
      assert a[0] == b[..|a|][0];
      assert a[1..] == b[1..][..|a[1..]|];
    }
  }

  lemma LexLessCons(a: string, b: string)
    requires a != [] && b != [] && a[0] == b[0] && LexLess(a[1..], b[1..])
    ensures LexLess(a, b)
  {
    if |a[1..]| < |b[1..]| && a[1..] == b[1..][..|a[1..]|] {
      assert a == [a[0]] + a[1..] == [b[0]] + b[1..][..|a[1..]|] == b[..|a|];
    } else {
      var k :| 0 <= k < |a[1..]| && k < |b[1..]| && a[1..][..k] == b[1..][..k] && a[1..][k] < b[1..][k];
      assert a[..k + 1] == [a[0]] + a[1..][..k];
      assert b[..k + 1] == [b[0]] + b[1..][..k];
    }
  }

  lemma {:induction false} CompareAntisymmetric(a: string, b: string)
    ensures Compare(a, b) == -Compare(b, a)
  {
    if a != [] && b != [] && a[0] == b[0] {
      CompareAntisymmetric(a[1..], b[1..]);
    }
  }

  /** String#casecmp: three-way comparison of the lower-cased texts. */
  function CaseCompare(a: string, b: string): (r: int)
    ensures -1 <= r <= 1
    ensures r == 0 <==> Downcase(a) == Downcase(b)
    ensures r == -1 <==> LexLess(Downcase(a), Downcase(b))
  {
    Compare(Downcase(a), Downcase(b))
  }

  /** `t` occurs in `s` starting at index `i`. */
  ghost predicate OccursAt(s: string, t: string, i: nat) {
    i + |t| <= |s| && s[i..i + |t|] == t
  }

  /** String#include?: `t` is a substring of `s` (the empty string is a substring of every string). */
  function Includes(s: string, t: string): (r: bool)
    ensures r <==> exists i: nat :: OccursAt(s, t, i)
  {
    if t <= s then
      assert OccursAt(s, t, 0);
      true
    else if s == [] then
      assert forall i: nat :: !OccursAt(s, t, i);
      false
    else
      var r := Includes(s[1..], t);
      if r then
        assert exists i: nat :: OccursAt(s, t, i) by {
          var i: nat :| OccursAt(s[1..], t, i);
          assert s[i + 1..i + 1 + |t|] == s[1..][i..i + |t|];
          assert OccursAt(s, t, i + 1);
        }
        true
      else
        assert forall i: nat :: !OccursAt(s, t, i) by {
          forall i: nat | OccursAt(s, t, i) ensures false {
            if i > 0 {
              assert s[1..][i - 1..i - 1 + |t|] == s[i..i + |t|];
              assert OccursAt(s[1..], t, i - 1);
            }
          }
        }
        false
  }

  /** String#delete_suffix */
  function DeleteSuffix(s: string, suffix: string): (r: string)
    ensures EndsWith(s, suffix) ==> r + suffix == s
    ensures !EndsWith(s, suffix) ==> r == s
  {
    if EndsWith(s, suffix) then s[..|s| - |suffix|] else s
  }

  /** String#end_with? */
  predicate EndsWith(s: string, suffix: string) {
    |suffix| <= |s| && s[|s| - |suffix|..] == suffix
  }

  /** Concatenation regroups freely. */
  lemma ConcatAssoc<T>(a: seq<T>, b: seq<T>, c: seq<T>)
    ensures (a + b) + c == a + (b + c)
  {
  }
}
