/** Taking white space, or whatever counts as it, off the ends of a text. */
module Trimming {

  function TrimLeft<T>(s: seq<T>, space: T -> bool): seq<T> {
    if s != [] && space(s[0]) then TrimLeft(s[1..], space) else s
  }

  function TrimRight<T>(s: seq<T>, space: T -> bool): seq<T> {
    if s != [] && space(s[|s| - 1]) then TrimRight(s[..|s| - 1], space) else s
  }

  function Trimmed<T>(s: seq<T>, space: T -> bool): seq<T> {
    TrimRight(TrimLeft(s, space), space)
  }

  lemma {:induction false} TrimLeftSplits<T>(s: seq<T>, space: T -> bool) returns (k: nat)
    ensures k <= |s| && TrimLeft(s, space) == s[k..] && forall j :: 0 <= j < k ==> space(s[j])
  {
    if s != [] && space(s[0]) {
      var rest := TrimLeftSplits(s[1..], space);
      assert forall j :: 0 < j < rest + 1 ==> s[j] == s[1..][j - 1];
      return rest + 1;
    }
    return 0;
  }

  lemma {:induction false} TrimRightSplits<T>(s: seq<T>, space: T -> bool) returns (k: nat)
    ensures k <= |s| && TrimRight(s, space) == s[..k] && forall j :: k <= j < |s| ==> space(s[j])
  {
    if s != [] && space(s[|s| - 1]) {
      k := TrimRightSplits(s[..|s| - 1], space);
      return;
    }
    return |s|;
  }

  /** Trimming takes spaces off both ends and nothing else. */
  lemma TrimSplits<T>(s: seq<T>, space: T -> bool) returns (i: nat, j: nat)
    ensures i <= j <= |s| && Trimmed(s, space) == s[i..j]
    ensures forall k :: 0 <= k < i || j <= k < |s| ==> space(s[k])
  {
    i := TrimLeftSplits(s, space);
    var left := s[i..];
    var n := TrimRightSplits(left, space);
    j := i + n;
    assert forall k :: n <= k < |left| ==> left[k] == s[i + k];
    assert forall k :: j <= k < |s| ==> s[k] == left[k - i];
  }

  /** One more space at the end makes no difference. */
  lemma {:induction false} TrimWithSpace<T>(s: seq<T>, space: T -> bool, last: T)
    requires space(last)
    ensures Trimmed(s + [last], space) == Trimmed(s, space)
  {
    if s == [] {
      assert [last][1..] == [] && [] + [last] == [last];
    } else if space(s[0]) {
      assert (s + [last])[1..] == s[1..] + [last];
      TrimWithSpace(s[1..], space, last);
    } else {
      assert (s + [last])[..|s|] == s;
    }
  }

  lemma {:induction false} TrimLeftFinds<T>(pre: seq<T>, core: seq<T>, space: T -> bool)
    requires (forall k :: 0 <= k < |pre| ==> space(pre[k])) && (core == [] || !space(core[0]))
    ensures TrimLeft(pre + core, space) == core
  {
    if pre == [] {
      assert pre + core == core;
    } else {
      TrimLeftFinds(pre[1..], core, space);
      assert (pre + core)[1..] == pre[1..] + core;
    }
  }

  lemma {:induction false} TrimRightFinds<T>(core: seq<T>, post: seq<T>, space: T -> bool)
    requires (forall k :: 0 <= k < |post| ==> space(post[k])) && (core == [] || !space(core[|core| - 1]))
    ensures TrimRight(core + post, space) == core
  {
    if post == [] {
      assert core + post == core;
    } else {
      TrimRightFinds(core, post[..|post| - 1], space);
      assert (core + post)[..|core + post| - 1] == core + post[..|post| - 1];
    }
  }

  /** Between spaces, a text that neither starts nor ends with one is what trimming finds. */
  lemma TrimFinds<T>(pre: seq<T>, core: seq<T>, post: seq<T>, space: T -> bool)
    requires forall k :: 0 <= k < |pre| ==> space(pre[k])
    requires forall k :: 0 <= k < |post| ==> space(post[k])
    requires core != [] && !space(core[0]) && !space(core[|core| - 1])
    ensures Trimmed(pre + core + post, space) == core
  {
    assert pre + core + post == pre + (core + post);
    TrimLeftFinds(pre, core + post, space);
    TrimRightFinds(core, post, space);
  }
}
