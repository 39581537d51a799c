/**
 * The client's search filter: the activities whose type or repository name
 * contains the search term, ignoring (ASCII) case. An empty term returns the
 * list as it is.
 */
module ActivityFilter {
  import opened Text
  import opened Events

  /** `activity.type.toLowerCase().includes(term) || activity.repo.name.toLowerCase().includes(term)`, for an already lower-cased `term`. */
  predicate Matches(a: Activity, term: string) {
    Includes(Lower(a.eventType), term) || Includes(Lower(a.repo.name), term)
  }

  /** `activities.filter(...)` with the predicate above. */
  function KeepMatching(activities: seq<Activity>, term: string): (r: seq<Activity>)
    ensures |r| <= |activities|
    ensures forall a :: a in r ==> a in activities && Matches(a, term)
    decreases |activities|
  {
    if activities == [] then []
    else
      var rest := KeepMatching(activities[1..], term);
      if Matches(activities[0], term) then [activities[0]] + rest else rest
  }

  /** `filterActivities(activities, searchTerm)`. */
  function FilterActivities(activities: seq<Activity>, searchTerm: string): (r: seq<Activity>)
    ensures searchTerm == "" ==> r == activities
  {
    if searchTerm == "" then activities else KeepMatching(activities, Lower(searchTerm))
  }

  /** Whether the filter keeps `a`: always for an empty term, otherwise when the lower-cased term occurs in its lower-cased type or repository name. */
  predicate Kept(a: Activity, searchTerm: string) {
    searchTerm == "" || Matches(a, Lower(searchTerm))
  }

  // ---------------------------------------------------------------------------
  // Subsequences

  /** `r` is `s` with some elements left out, the rest in their order. */
  predicate IsSubsequence<T(==)>(r: seq<T>, s: seq<T>)
    decreases |s|
  {
    if r == [] then true
    else if s == [] then false
    else if r[0] == s[0] then IsSubsequence(r[1..], s[1..])
    else IsSubsequence(r, s[1..])
  }

  lemma {:induction false} SubsequenceOfSelf<T>(s: seq<T>)
    ensures IsSubsequence(s, s)
    decreases |s|
  {
    if s != [] {
      SubsequenceOfSelf(s[1..]);
    }
  }

  // ---------------------------------------------------------------------------
  // Properties

  /** The result is the input with some activities left out: nothing added, order kept. */
  lemma {:induction false} KeepMatchingSubsequence(activities: seq<Activity>, term: string)
    ensures IsSubsequence(KeepMatching(activities, term), activities)
    decreases |activities|
  {
    if activities != [] {
      KeepMatchingSubsequence(activities[1..], term);
      var rest := KeepMatching(activities[1..], term);
      if Matches(activities[0], term) {
        assert ([activities[0]] + rest)[1..] == rest;
      } else if rest != [] {
        // rest[0] matches and activities[0] does not, so the scan skips activities[0]
        assert Matches(rest[0], term);
      }
    }
  }

  lemma FilterSubsequence(activities: seq<Activity>, searchTerm: string)
    ensures IsSubsequence(FilterActivities(activities, searchTerm), activities)
    ensures |FilterActivities(activities, searchTerm)| <= |activities|
  {
    if searchTerm == "" {
      SubsequenceOfSelf(activities);
    } else {
      KeepMatchingSubsequence(activities, Lower(searchTerm));
    }
  }

  /** Each activity is kept as often as it occurs when it matches, and dropped altogether when it does not. */
  lemma {:induction false} KeepMatchingCounts(activities: seq<Activity>, term: string, a: Activity)
    ensures multiset(KeepMatching(activities, term))[a] ==
      if Matches(a, term) then multiset(activities)[a] else 0
    decreases |activities|
  {
    if activities != [] {
      var head, rest := activities[0], KeepMatching(activities[1..], term);
      KeepMatchingCounts(activities[1..], term, a);
      assert activities == [head] + activities[1..];
      assert multiset(activities) == multiset([head]) + multiset(activities[1..]);
      if Matches(head, term) {
        assert multiset(KeepMatching(activities, term)) == multiset([head]) + multiset(rest);
      } else {
        assert KeepMatching(activities, term) == rest;
      }
    }
  }

  /** An activity is in the result exactly when it is in the input and the filter keeps it, with the same multiplicity. */
  lemma FilterKeepsExactly(activities: seq<Activity>, searchTerm: string, a: Activity)
    ensures multiset(FilterActivities(activities, searchTerm))[a] ==
      if Kept(a, searchTerm) then multiset(activities)[a] else 0
    ensures a in FilterActivities(activities, searchTerm) <==> a in activities && Kept(a, searchTerm)
  {
    if searchTerm != "" {
      KeepMatchingCounts(activities, Lower(searchTerm), a);
    }
  }

  /** Keeping the matches of what was already kept changes nothing. */
  lemma {:induction false} KeepMatchingIdempotent(activities: seq<Activity>, term: string)
    ensures KeepMatching(KeepMatching(activities, term), term) == KeepMatching(activities, term)
    decreases |activities|
  {
    if activities != [] {
      KeepMatchingIdempotent(activities[1..], term);
      var rest := KeepMatching(activities[1..], term);
      if Matches(activities[0], term) {
        assert ([activities[0]] + rest)[1..] == rest;
      }
    }
  }

  /** Filtering twice with the same term is filtering once. */
  lemma FilterIdempotent(activities: seq<Activity>, searchTerm: string)
    ensures FilterActivities(FilterActivities(activities, searchTerm), searchTerm) == FilterActivities(activities, searchTerm)
  {
    if searchTerm != "" {
      KeepMatchingIdempotent(activities, Lower(searchTerm));
    }
  }

  /** The term's case does not matter: a term and its upper-cased form select the same activities. */
  lemma FilterIgnoresCase(activities: seq<Activity>, searchTerm: string)
    ensures FilterActivities(activities, Upper(searchTerm)) == FilterActivities(activities, searchTerm)
  {
    LowerOfUpper(searchTerm);
  }

  /** The early return for an empty term agrees with the general predicate: every string includes the empty string. */
  lemma {:induction false} EmptyTermMatchesAll(activities: seq<Activity>)
    ensures KeepMatching(activities, Lower("")) == activities
    decreases |activities|
  {
    if activities != [] {
      IncludesEmpty(Lower(activities[0].eventType));
      EmptyTermMatchesAll(activities[1..]);
      assert [activities[0]] + activities[1..] == activities;
    }
  }
}
