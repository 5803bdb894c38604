// RequestController: the admin's master list of requests, filtered by
// status, and the dashboard summary counting the requests per status.

module RequestController {

  import opened Wrappers
  import opened Text
  import opened Seminars

  /** The status filter of getRequests: the stored status, upper-cased,
      equals the trimmed, upper-cased filter; a null status never matches. */
  predicate StatusIs(s: Seminar, normalized: string) {
    s.status.Some? && Upper(s.status.value) == normalized
  }

  /** getRequests: with a non-blank filter the matching requests, otherwise
      all of them, in the order the repository returns them. */
  function Requests(all: seq<Seminar>, status: Option<string>): (r: seq<Seminar>)
    ensures NullOrBlank(status) ==> r == all
    ensures !NullOrBlank(status) ==>
      forall x :: x in r <==> x in all && StatusIs(x, Upper(Trim(status.value)))
    ensures |r| <= |all|
  {
    if !NullOrBlank(status) then
      var normalized := Upper(Trim(status.value));
      Filter(all, s => StatusIs(s, normalized))
    else all
  }

  /** `a` is `b` with some elements left out, the rest in their order. */
  predicate Subsequence(a: seq<Seminar>, b: seq<Seminar>)
    decreases |b|
  {
    if a == [] then true
    else if b == [] then false
    else if a[0] == b[0] then Subsequence(a[1..], b[1..])
    else Subsequence(a, b[1..])
  }

  lemma {:induction false} FilterIsSubsequence(all: seq<Seminar>, p: Seminar -> bool)
    ensures Subsequence(Filter(all, p), all)
  {
    if all != [] {
      FilterIsSubsequence(all[1..], p);
    }
  }

  /** The filtered list keeps the repository's order. */
  lemma RequestsKeepOrder(all: seq<Seminar>, status: Option<string>)
    ensures Subsequence(Requests(all, status), all)
  {
    if !NullOrBlank(status) {
      var normalized := Upper(Trim(status.value));
      FilterIsSubsequence(all, s => StatusIs(s, normalized));
    } else {
      SubsequenceRefl(all);
    }
  }

  lemma {:induction false} SubsequenceRefl(a: seq<Seminar>)
    ensures Subsequence(a, a)
  {
    if a != [] {
      SubsequenceRefl(a[1..]);
    }
  }

  // ---------------------------------------------------------------------
  // getSummary

  /** The group a request is counted in. */
  function StatusKey(s: Seminar): string {
    if s.status.None? then "UNKNOWN" else Upper(s.status.value)
  }

  /** The number of requests in one group. */
  function Count(all: seq<Seminar>, key: string): nat {
    if all == [] then 0
    else (if StatusKey(all[0]) == key then 1 else 0) + Count(all[1..], key)
  }

  lemma {:induction false} CountAbsent(all: seq<Seminar>, key: string)
    requires forall i :: 0 <= i < |all| ==> StatusKey(all[i]) != key
    ensures Count(all, key) == 0
  {
    if all != [] {
      CountAbsent(all[1..], key);
    }
  }

  /** `groupingBy(status key, counting())`: every group that occurs, with
      its size. */
  function Summary(all: seq<Seminar>): (m: map<string, nat>)
    ensures forall k :: k in m <==> exists i :: 0 <= i < |all| && StatusKey(all[i]) == k
    ensures forall k :: k in m ==> m[k] == Count(all, k) && m[k] > 0
  {
    if all == [] then map[]
    else
      var rest := Summary(all[1..]);
      var key := StatusKey(all[0]);
      assert forall i :: 1 <= i < |all| ==> all[i] == all[1..][i - 1];
      assert key !in rest ==> Count(all[1..], key) == 0 by {
        if key !in rest {
          CountAbsent(all[1..], key);
        }
      }
      rest[key := (if key in rest then rest[key] else 0) + 1]
  }

  /** The groups, each once, in an order of their first appearance from the
      end. */
  function Groups(all: seq<Seminar>): (ks: seq<string>)
    ensures forall k :: k in ks <==> exists i :: 0 <= i < |all| && StatusKey(all[i]) == k
    ensures forall i, j :: 0 <= i < j < |ks| ==> ks[i] != ks[j]
  {
    if all == [] then []
    else
      var rest := Groups(all[1..]);
      assert forall i :: 1 <= i < |all| ==> all[i] == all[1..][i - 1];
      if StatusKey(all[0]) in rest then rest else [StatusKey(all[0])] + rest
  }

  /** The sum of the counts of the groups `ks`. */
  function SumCounts(all: seq<Seminar>, ks: seq<string>): nat {
    if ks == [] then 0 else Count(all, ks[0]) + SumCounts(all, ks[1..])
  }

  /** The number of times `key` occurs in `ks`. */
  function Occurrences(ks: seq<string>, key: string): nat {
    if ks == [] then 0 else (if ks[0] == key then 1 else 0) + Occurrences(ks[1..], key)
  }

  lemma {:induction false} OccurrencesDistinct(ks: seq<string>, key: string)
    requires forall i, j :: 0 <= i < j < |ks| ==> ks[i] != ks[j]
    ensures Occurrences(ks, key) == (if key in ks then 1 else 0)
  {
    if ks != [] {
      OccurrencesDistinct(ks[1..], key);
      if ks[0] == key {
        assert key !in ks[1..] by {
          forall i | 0 <= i < |ks[1..]| ensures ks[1..][i] != key {
            assert ks[1..][i] == ks[i + 1];
          }
        }
      }
    }
  }

  /** Counting one more request adds one to exactly the group it is in. */
  lemma {:induction false} SumCountsCons(all: seq<Seminar>, ks: seq<string>)
    requires all != []
    ensures SumCounts(all, ks) == SumCounts(all[1..], ks) + Occurrences(ks, StatusKey(all[0]))
  {
    if ks != [] {
      SumCountsCons(all, ks[1..]);
    }
  }

  /** The counts of the summary add up to the number of requests. */
  lemma {:induction false} SummaryAddsUp(all: seq<Seminar>)
    ensures SumCounts(all, Groups(all)) == |all|
  {
    if all != [] {
      var rest := all[1..];
      var key := StatusKey(all[0]);
      SummaryAddsUp(rest);
      var ks := Groups(rest);
      SumCountsCons(all, ks);
      OccurrencesDistinct(ks, key);
      if key !in ks {
        CountAbsent(rest, key);
      }
    }
  }

  /** The groups are exactly the keys of the summary. */
  lemma GroupsAreSummaryKeys(all: seq<Seminar>)
    ensures forall k :: k in Summary(all) <==> k in Groups(all)
  {
  }

  lemma {:induction false} CountIsFilterLength(all: seq<Seminar>, normalized: string)
    requires normalized != "UNKNOWN"
    ensures |Filter(all, s => StatusIs(s, normalized))| == Count(all, normalized)
  {
    if all != [] {
      CountIsFilterLength(all[1..], normalized);
    }
  }

  /** The list filtered by a status holds as many requests as the summary
      counts for it, except for "unknown": the summary counts a null status
      as UNKNOWN, and the filter never keeps one. */
  lemma FilterAgreesWithSummary(all: seq<Seminar>, status: string)
    requires !IsBlank(status) && Upper(Trim(status)) != "UNKNOWN"
    ensures |Requests(all, Some(status))| == Count(all, Upper(Trim(status)))
  {
    CountIsFilterLength(all, Upper(Trim(status)));
  }

  lemma UnknownFilterMissesNullStatus(s: Seminar)
    requires s.status.None?
    ensures Requests([s], Some("unknown")) == []
    ensures Summary([s]) == map["UNKNOWN" := 1]
  {
    assert Upper(Trim("unknown")) == "UNKNOWN";
    assert !IsBlank("unknown") by { assert !IsJavaWhitespace("unknown"[0]); }
  }
}
