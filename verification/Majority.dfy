/** The majority element of a sequence, found in one pass with one counter. */
module Majority {

  /** x takes more than half of the positions. */
  ghost predicate IsMajority(s: seq<int>, x: int) {
    2 * multiset(s)[x] > |s|
  }

  /**
   * What the pass knows after i positions: the candidate may exceed half of them by count halves, any other value falls
   * short of half of them by as many.
   */
  ghost predicate Candidate(s: seq<int>, major: int, count: nat) {
    forall x :: 2 * multiset(s)[x] <= if x == major then |s| + count else |s| - count
  }

  lemma OneMore(s: seq<int>, major: int, count: nat, v: int)
    requires Candidate(s, major, count)
    ensures count == 0 ==> Candidate(s + [v], v, 1)
    ensures v == major ==> Candidate(s + [v], major, count + 1)
    ensures count > 0 && v != major ==> Candidate(s + [v], major, count - 1)
  {
    forall x ensures multiset(s + [v])[x] == multiset(s)[x] + if x == v then 1 else 0 {}
    forall x ensures 2 * multiset(s)[x] <= if x == major then |s| + count else |s| - count {}
  }

  /** The value returned is the majority whenever there is one, and only then. */
  method MajorityElement(nums: seq<int>) returns (major: int)
    ensures forall x :: IsMajority(nums, x) ==> x == major
    ensures IsMajority(nums, major) <==> exists x :: IsMajority(nums, x)
  {
    major := 0;
    var count := 0;
    for i := 0 to |nums|
      invariant count >= 0 && Candidate(nums[..i], major, count)
    {
      var v := nums[i];
      OneMore(nums[..i], major, count, v);
      assert nums[..i + 1] == nums[..i] + [v];
      if count == 0 {
        major := v;
        count := 1;
      } else if v == major {
        count := count + 1;
      } else {
        count := count - 1;
      }
    }
    assert nums[..|nums|] == nums;
  }
}
