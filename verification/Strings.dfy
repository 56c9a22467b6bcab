/** std::string::find, as the code uses it. */
module Strings {
  import opened Wrappers

  /** `needle` stands at position i of s. */
  predicate OccursAt(s: string, needle: string, i: nat) {
    i + |needle| <= |s| && s[i..i + |needle|] == needle
  }

  /** The first position at or after `from` where `needle` stands. */
  function Find(s: string, needle: string, from: nat): (r: Option<nat>)
    ensures r.Some? ==> from <= r.value && OccursAt(s, needle, r.value)
    ensures r.Some? ==> forall i :: from <= i < r.value ==> !OccursAt(s, needle, i)
    ensures r.None? ==> forall i :: from <= i ==> !OccursAt(s, needle, i)
    decreases |s| - from
  {
    if from + |needle| > |s| then None
    else if OccursAt(s, needle, from) then Some(from)
    else Find(s, needle, from + 1)
  }

  /** Whether `needle` stands anywhere in s. */
  ghost predicate Contains(s: string, needle: string) {
    exists i: nat :: OccursAt(s, needle, i)
  }

  lemma FindContains(s: string, needle: string, from: nat)
    ensures Find(s, needle, from).Some? ==> Contains(s, needle)
    ensures Contains(s, needle) ==> Find(s, needle, 0).Some?
  {
  }

  lemma FindIs(s: string, needle: string, from: nat, at: nat)
    requires from <= at && OccursAt(s, needle, at)
    requires forall i :: from <= i < at ==> !OccursAt(s, needle, i)
    ensures Find(s, needle, from) == Some(at)
  {
  }
}
