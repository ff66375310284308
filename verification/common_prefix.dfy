/** The project prefix: the longest common prefix of the unit tests' class
    names, which the call-tree traversal uses to stay inside the project. */
module CommonPrefix {
  import opened Common
  import opened MethodId

  /** `p` starts every string of `strs`. */
  ghost predicate IsCommonPrefix(p: string, strs: seq<string>) {
    forall i | 0 <= i < |strs| :: IsPrefix(p, strs[i])
  }

  /** `p` is a common prefix of `strs` no other common prefix outgrows. */
  ghost predicate IsLongestCommonPrefix(p: string, strs: seq<string>) {
    IsCommonPrefix(p, strs) && forall q | IsCommonPrefix(q, strs) :: |q| <= |p|
  }

  /** `longest_common_prefix`: start from the first string and, for every
      further string, drop the last character while the prefix does not
      start that string. An empty list gives the empty string. */
  method LongestCommonPrefix(strs: seq<string>) returns (prefix: string)
    ensures |strs| == 0 ==> prefix == ""
    ensures |strs| > 0 ==> IsLongestCommonPrefix(prefix, strs)
  {
    if |strs| == 0 {
      return "";
    }
    prefix := strs[0];
    var k := 1;
    while k < |strs|
      invariant 1 <= k <= |strs|
      invariant IsPrefix(prefix, strs[0])
      invariant IsLongestCommonPrefix(prefix, strs[..k])
    {
      prefix := ShrinkToNext(strs, k, prefix);
      k := k + 1;
    }
    assert strs[..k] == strs;
  }

  /** The inner loop of `longest_common_prefix`: shorten the longest common
      prefix of the first `k` strings until it also starts string `k`, which
      gives the longest common prefix of the first `k + 1` strings. */
  method ShrinkToNext(strs: seq<string>, k: nat, prefix0: string) returns (prefix: string)
    requires 1 <= k < |strs|
    requires IsPrefix(prefix0, strs[0]) && IsLongestCommonPrefix(prefix0, strs[..k])
    ensures IsPrefix(prefix, strs[0]) && IsLongestCommonPrefix(prefix, strs[..k + 1])
  {
    prefix := prefix0;
    var s := strs[k];
    assert forall q | IsCommonPrefix(q, strs[..k + 1]) :: |q| <= |prefix| by {
      forall q | IsCommonPrefix(q, strs[..k + 1]) ensures IsCommonPrefix(q, strs[..k]) {
        assert forall i | 0 <= i < k :: strs[..k][i] == strs[..k + 1][i];
      }
    }
    while Take(s, |prefix|) != prefix && prefix != ""
      invariant IsPrefix(prefix, strs[0])
      invariant IsCommonPrefix(prefix, strs[..k])
      invariant forall q | IsCommonPrefix(q, strs[..k + 1]) :: |q| <= |prefix|
      decreases |prefix|
    {
      TakeIsPrefix(s, prefix);
      NoLongerCommonPrefix(strs, k, prefix);
      prefix := prefix[..|prefix| - 1];
    }
    TakeIsPrefix(s, prefix);
    ExtendCommonPrefix(strs, k, prefix);
  }

  /** A common prefix of the first `k + 1` strings is one of the first `k`
      that also starts the next string. */
  lemma ExtendCommonPrefix(strs: seq<string>, k: nat, p: string)
    requires k < |strs|
    requires IsCommonPrefix(p, strs[..k])
    requires IsPrefix(p, strs[k])
    ensures IsCommonPrefix(p, strs[..k + 1])
  {
    var t := strs[..k + 1];
    forall i | 0 <= i < |t|
      ensures IsPrefix(p, t[i])
    {
      if i < k {
        assert strs[..k][i] == t[i];
      }
    }
  }

  /** Python's `s[:len(p)] != p` is `not s.startswith(p)`. */
  lemma TakeIsPrefix(s: string, p: string)
    ensures Take(s, |p|) == p <==> IsPrefix(p, s)
  {
  }

  /** When a prefix of the first string does not start the next string, no
      common prefix of the strings seen so far reaches its length. */
  lemma NoLongerCommonPrefix(strs: seq<string>, k: nat, p: string)
    requires 1 <= k < |strs|
    requires IsPrefix(p, strs[0]) && !IsPrefix(p, strs[k])
    ensures forall q | IsCommonPrefix(q, strs[..k + 1]) :: |q| < |p|
  {
    LongCommonPrefixForces(strs, k, p);
  }

  /** Any common prefix of the strings seen so far at least as long as a
      prefix `p` of the first string forces `p` to start the next string
      too: when it does not, every common prefix is shorter than `p`. */
  lemma LongCommonPrefixForces(strs: seq<string>, k: nat, p: string)
    requires 1 <= k < |strs|
    requires IsPrefix(p, strs[0])
    ensures forall q | IsCommonPrefix(q, strs[..k + 1]) && |q| >= |p| :: IsPrefix(p, strs[k])
  {
    forall q | IsCommonPrefix(q, strs[..k + 1]) && |q| >= |p|
      ensures IsPrefix(p, strs[k])
    {
      assert IsPrefix(q, strs[..k + 1][0]) && IsPrefix(q, strs[..k + 1][k]);
      assert p == q[..|p|];
    }
  }

  /** The longest common prefix is determined by the set of strings alone:
      neither their order nor repetitions matter. */
  lemma LongestCommonPrefixUnique(p1: string, s1: seq<string>, p2: string, s2: seq<string>)
    requires |s1| > 0
    requires forall x :: x in s1 <==> x in s2
    requires IsLongestCommonPrefix(p1, s1) && IsLongestCommonPrefix(p2, s2)
    ensures p1 == p2
  {
    assert forall q :: IsCommonPrefix(q, s1) <==> IsCommonPrefix(q, s2) by {
      forall q
        ensures IsCommonPrefix(q, s1) <==> IsCommonPrefix(q, s2)
      {
        SameCommonPrefixes(q, s1, s2);
      }
    }
    assert |p1| == |p2|;
    assert IsPrefix(p1, s1[0]) && IsPrefix(p2, s1[0]);
  }

  lemma SameCommonPrefixes(q: string, s1: seq<string>, s2: seq<string>)
    requires forall x :: x in s1 <==> x in s2
    ensures IsCommonPrefix(q, s1) <==> IsCommonPrefix(q, s2)
  {
    if IsCommonPrefix(q, s1) {
      forall i | 0 <= i < |s2| ensures IsPrefix(q, s2[i]) {
        assert s2[i] in s1;
      }
    }
    if IsCommonPrefix(q, s2) {
      forall i | 0 <= i < |s1| ensures IsPrefix(q, s1[i]) {
        assert s1[i] in s2;
      }
    }
  }

  /** The class names of a list of methods, in order. */
  function ClassNames(ms: seq<Method>): (r: seq<string>)
    ensures |r| == |ms|
    ensures forall i | 0 <= i < |ms| :: r[i] == ms[i].className
  {
    seq(|ms|, i requires 0 <= i < |ms| => ms[i].className)
  }

  /** `extract_project_prefix`: the longest common prefix of the unit
      tests' class names; every unit test's class starts with it. */
  method ExtractProjectPrefix(uts: seq<Method>) returns (prefix: string)
    ensures |uts| == 0 ==> prefix == ""
    ensures |uts| > 0 ==> IsLongestCommonPrefix(prefix, ClassNames(uts))
    ensures forall i | 0 <= i < |uts| :: IsPrefix(prefix, uts[i].className)
  {
    prefix := LongestCommonPrefix(ClassNames(uts));
    if |uts| > 0 {
      assert forall i | 0 <= i < |uts| :: IsPrefix(prefix, ClassNames(uts)[i]);
    }
  }
}
