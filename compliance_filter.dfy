/** `get_compliant`: the masks of a sequence that satisfy a policy, in input order. */
module ComplianceFilter {
  import opened MaskCounts
  import opened Policy

  /** The elements of `masks` that `keep` accepts, in their input order, duplicates kept. */
  function Filter(keep: string -> bool, masks: seq<string>): (r: seq<string>)
    ensures |r| <= |masks|
    ensures forall n :: 0 <= n < |r| ==> keep(r[n])
  {
    if masks == [] then []
    else (if keep(masks[0]) then [masks[0]] else []) + Filter(keep, masks[1..])
  }

  /** The test `get_compliant` applies to each mask. */
  function Compliance(p: PolicyMatcher, u: Categories): (keep: string -> bool) {
    m => IsCompliant(p, u, m)
  }

  /** Filtering a concatenation filters each part: the output keeps the input order. */
  lemma {:induction false} FilterAppend(keep: string -> bool, a: seq<string>, b: seq<string>)
    ensures Filter(keep, a + b) == Filter(keep, a) + Filter(keep, b)
  {
    if a == [] {
      assert a + b == b;
    } else {
      assert (a + b)[1..] == a[1..] + b;
      FilterAppend(keep, a[1..], b);
    }
  }

  /** An element is output exactly as often as it occurs in the input if it is accepted, and
      never otherwise. */
  lemma {:induction false} FilterMultiplicity(keep: string -> bool, masks: seq<string>, m: string)
    ensures multiset(Filter(keep, masks))[m] == if keep(m) then multiset(masks)[m] else 0
  {
    if masks != [] {
      FilterMultiplicity(keep, masks[1..], m);
      assert masks == [masks[0]] + masks[1..];
    }
  }

  /** Hence an element is in the output if and only if it is in the input and accepted. */
  lemma FilterMembership(keep: string -> bool, masks: seq<string>, m: string)
    ensures m in Filter(keep, masks) <==> m in masks && keep(m)
  {
    FilterMultiplicity(keep, masks, m);
    assert m in multiset(Filter(keep, masks)) <==> m in Filter(keep, masks);
  }

  /** `sub` is obtained from `s` by deleting elements. */
  predicate IsSubsequence(sub: seq<string>, s: seq<string>)
    decreases |s|
  {
    if sub == [] then true
    else if s == [] then false
    else if sub[0] == s[0] then IsSubsequence(sub[1..], s[1..])
    else IsSubsequence(sub, s[1..])
  }

  /** Dropping the head of `s` keeps a subsequence of `s[1..]` a subsequence of `s`. */
  lemma {:induction false} SubsequenceOfTail(sub: seq<string>, s: seq<string>)
    requires s != []
    requires IsSubsequence(sub, s[1..])
    ensures IsSubsequence(sub, s)
    decreases |s|, |sub|
  {
    if sub != [] && sub[0] == s[0] {
      SubsequenceDropHead(sub, s[1..]);
    }
  }

  lemma {:induction false} SubsequenceDropHead(sub: seq<string>, s: seq<string>)
    requires sub != []
    requires IsSubsequence(sub, s)
    ensures IsSubsequence(sub[1..], s)
    decreases |s|, |sub|
  {
    if s != [] {
      if sub[0] == s[0] {
        if sub[1..] != [] {
          SubsequenceOfTail(sub[1..], s);
        }
      } else {
        SubsequenceDropHead(sub, s[1..]);
        SubsequenceOfTail(sub[1..], s);
      }
    }
  }

  /** The output is a subsequence of the input. */
  lemma {:induction false} FilterIsSubsequence(keep: string -> bool, masks: seq<string>)
    ensures IsSubsequence(Filter(keep, masks), masks)
  {
    if masks != [] {
      FilterIsSubsequence(keep, masks[1..]);
      if !keep(masks[0]) {
        assert Filter(keep, masks) == Filter(keep, masks[1..]);
        SubsequenceOfTail(Filter(keep, masks[1..]), masks);
      }
    }
  }

  /** `get_compliant` passes on exactly the input masks that the policy accepts. */
  lemma CompliantOutput(p: PolicyMatcher, u: Categories, masks: seq<string>, m: string)
    ensures m in Filter(Compliance(p, u), masks) <==> m in masks && IsCompliant(p, u, m)
  {
    FilterMembership(Compliance(p, u), masks, m);
  }

  /** The generator's loop: each mask is tested once, in order, and the compliant ones are
      passed on. */
  method GetCompliant(p: PolicyMatcher, u: Categories, masks: seq<string>) returns (compliant: seq<string>)
    ensures compliant == Filter(Compliance(p, u), masks)
  {
    compliant := [];
    for n := 0 to |masks|
      invariant compliant == Filter(Compliance(p, u), masks[..n])
    {
      var m := masks[n];
      FilterAppend(Compliance(p, u), masks[..n], [m]);
      assert masks[..n + 1] == masks[..n] + [m];
      if IsCompliant(p, u, m) {
        compliant := compliant + [m];
      }
    }
    assert masks[..|masks|] == masks;
  }
}
