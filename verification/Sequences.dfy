/** Sequences without repetitions. */
module Sequences {
  predicate NoRepeats<T(==)>(s: seq<T>) {
    forall i, j :: 0 <= i < j < |s| ==> s[i] != s[j]
  }

  ghost function Members<T>(s: seq<T>): set<T> {
    set x | x in s
  }

  lemma {:induction false} MembersSize<T>(s: seq<T>)
    requires NoRepeats(s)
    ensures |Members(s)| == |s|
  {
    if s == [] {
    } else {
      var most, last := s[..|s| - 1], s[|s| - 1];
      MembersSize(most);
      assert s == most + [last];
      assert Members(s) == Members(most) + {last};
      assert last !in Members(most);
    }
  }

  lemma {:induction false} SubsetSize<T>(a: set<T>, b: set<T>)
    requires a <= b
    ensures |a| <= |b|
    decreases a
  {
    if x :| x in a {
      SubsetSize(a - {x}, b - {x});
    }
  }

  /** Pigeonhole: distinct values from a range are at most as many as the range. */
  lemma {:induction false} AtMost(s: seq<nat>, lo: nat, hi: nat)
    requires NoRepeats(s) && lo <= hi && forall i :: 0 <= i < |s| ==> lo <= s[i] < hi
    ensures |s| <= hi - lo
    decreases hi - lo
  {
    assert |s| == 0 || lo <= s[0] < hi;
    if hi == lo {
    } else if exists i :: 0 <= i < |s| && s[i] == hi - 1 {
      var i :| 0 <= i < |s| && s[i] == hi - 1;
      var rest := s[..i] + s[i + 1..];
      forall j | 0 <= j < |rest| ensures rest[j] == s[if j < i then j else j + 1] {
      }
      AtMost(rest, lo, hi - 1);
    } else {
      AtMost(s, lo, hi - 1);
    }
  }
}
