/** Small value types shared by the whole model. */
module Common {

  /** A value that may be absent: Python's `None` at the language boundary. */
  datatype Option<+T> = None | Some(value: T)

  /** One key of a serialised record: absent from the dictionary, or present with a value. */
  datatype Field<+T> = Missing | Present(value: T) {
    /** `dict.get(key, default)` */
    function GetOr(default: T): T {
      match this
      case Present(v) => v
      case Missing => default
    }
  }

  /** The result of a validated assignment: it took effect, or it raised a ValueError with this message. */
  datatype Outcome = Pass | Fail(message: string)

  /**
   * The index of the first element of `s` that satisfies `matches`, or |s| when there is none:
   * the position a `for x in s: if ...: return` loop stops at.
   */
  function FirstIndex<T>(s: seq<T>, matches: T -> bool): (k: nat)
    ensures k <= |s|
    ensures k < |s| ==> matches(s[k])
    ensures forall j :: 0 <= j < k ==> !matches(s[j])
  {
    if s == [] then 0
    else if matches(s[0]) then 0
    else 1 + FirstIndex(s[1..], matches)
  }

  /**
   * No element of `s` occurs twice: each entry is its own object. Stated entry by entry
   * from the back, so that it unfolds only as far as a proof asks; `DistinctIff` gives
   * the pairwise reading.
   */
  predicate Distinct<T(==)>(s: seq<T>)
    decreases |s|
  {
    s == [] || (Distinct(s[..|s| - 1]) && s[|s| - 1] !in s[..|s| - 1])
  }

  /** A list is without repeats exactly when any two of its positions hold different elements. */
  lemma {:induction false} DistinctIff<T>(s: seq<T>)
    ensures Distinct(s) <==> forall j, k | 0 <= j < k < |s| :: s[j] != s[k]
    decreases |s|
  {
    if s != [] {
      var front := s[..|s| - 1];
      DistinctIff(front);
      if forall j, k | 0 <= j < k < |s| :: s[j] != s[k] {
        forall x | x in front ensures x != s[|s| - 1] {
          var j :| 0 <= j < |front| && front[j] == x;
          assert s[j] == x;
        }
      }
      if Distinct(s) {
        forall j, k | 0 <= j < k < |s| ensures s[j] != s[k] {
          if k < |s| - 1 {
            assert s[j] == front[j] && s[k] == front[k];
          } else {
            assert s[j] == front[j] && s[j] in front;
          }
        }
      }
    }
  }

  /** Two lists without repeats and without a common element join into one without repeats. */
  lemma DistinctConcat<T>(a: seq<T>, b: seq<T>)
    requires Distinct(a) && Distinct(b)
    requires forall x | x in a :: x !in b
    ensures Distinct(a + b)
  {
    DistinctIff(a);
    DistinctIff(b);
    DistinctIff(a + b);
    forall j, k | 0 <= j < k < |a + b| ensures (a + b)[j] != (a + b)[k] {
      if j < |a| && |a| <= k {
        assert (a + b)[j] in a && (a + b)[k] == b[k - |a|];
      }
    }
  }

  /** And back: the two parts of a list without repeats have none, and share no element. */
  lemma DistinctParts<T>(a: seq<T>, b: seq<T>)
    requires Distinct(a + b)
    ensures Distinct(a) && Distinct(b)
    ensures forall x | x in a :: x !in b
  {
    DistinctIff(a);
    DistinctIff(b);
    DistinctIff(a + b);
    forall j, k | 0 <= j < k < |a| ensures a[j] != a[k] {
      assert a[j] == (a + b)[j] && a[k] == (a + b)[k];
    }
    forall j, k | 0 <= j < k < |b| ensures b[j] != b[k] {
      assert b[j] == (a + b)[|a| + j] && b[k] == (a + b)[|a| + k];
    }
    forall j, k | 0 <= j < |a| && 0 <= k < |b| ensures a[j] != b[k] {
      assert a[j] == (a + b)[j] && b[k] == (a + b)[|a| + k];
    }
  }

  /** The sequence `s` with the element at index `k` taken out: Python's `list.pop(k)`. */
  function RemoveAt<T>(s: seq<T>, k: nat): (r: seq<T>)
    requires k < |s|
    ensures |r| == |s| - 1
    ensures forall j :: 0 <= j < k ==> r[j] == s[j]
    ensures forall j :: k <= j < |r| ==> r[j] == s[j + 1]
  {
    s[..k] + s[k + 1..]
  }

  /** The union of `f` over the elements of `s`: the ids found anywhere in a list of records. */
  function Gather<T>(s: seq<T>, f: T -> set<int>): set<int> {
    GatherFirst(s, |s|, f)
  }

  /** The union of `f` over the first `n` elements of `s`. */
  function GatherFirst<T>(s: seq<T>, n: nat, f: T -> set<int>): set<int>
    requires n <= |s|
  {
    if n == 0 then {} else GatherFirst(s, n - 1, f) + f(s[n - 1])
  }

  /**
   * A set that held `base` plus the ids of the first `i` elements, and has just taken in
   * the ids of element `i`, holds `base` plus the ids of the first `i + 1`.
   */
  lemma GatherStep<T>(base: set<int>, s: seq<T>, i: nat, f: T -> set<int>, before: set<int>, after: set<int>)
    requires i < |s|
    requires before == base + GatherFirst(s, i, f)
    requires after == before + f(s[i])
    ensures after == base + GatherFirst(s, i + 1, f)
  {
  }
}
