/** Sequences of addresses and indices, as linked structures use them. */
module Lists {

  /** Item `i` of a list, or 0, the null address, beyond its ends. */
  function At(s: seq<nat>, i: int): nat {
    if 0 <= i < |s| then s[i] else 0
  }

  /** The list without its item `i`. */
  function Without(s: seq<nat>, i: nat): seq<nat>
    requires i < |s|
  {
    s[..i] + s[i + 1..]
  }

  lemma WithoutMember(s: seq<nat>, i: nat, a: nat)
    requires i < |s| && forall j, k :: 0 <= j < k < |s| ==> s[j] != s[k]
    ensures a in Without(s, i) <==> a in s && a != s[i]
  {
    assert s == s[..i] + [s[i]] + s[i + 1..];
  }

  ghost function Upward(lo: nat, hi: nat): seq<nat>
    requires lo <= hi
  {
    seq(hi - lo, i requires 0 <= i < hi - lo => lo + i)
  }

  /** The list without `c`. */
  ghost function Less(s: seq<nat>, c: nat): seq<nat> {
    if s == [] then [] else if s[0] == c then s[1..] else [s[0]] + Less(s[1..], c)
  }

  lemma {:induction false} LessIsWithout(s: seq<nat>, i: nat)
    requires i < |s| && forall j, k :: 0 <= j < k < |s| ==> s[j] != s[k]
    ensures Less(s, s[i]) == Without(s, i)
  {
    if i > 0 {
      LessIsWithout(s[1..], i - 1);
      assert s[0] != s[i] && s[1..][i - 1] == s[i];
      assert Without(s, i) == [s[0]] + Without(s[1..], i - 1);
    }
  }

  lemma {:induction false} NothingLess(s: seq<nat>, c: nat)
    requires c !in s
    ensures Less(s, c) == s
  {
    if s != [] {
      NothingLess(s[1..], c);
    }
  }

  lemma {:induction false} LessKeeps(s: seq<nat>, c: nat, a: nat)
    requires a in s && a != c
    ensures a in Less(s, c)
  {
    if s[0] != c && s[0] != a {
      LessKeeps(s[1..], c, a);
    }
  }
}
