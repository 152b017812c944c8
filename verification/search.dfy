/** The linear first-match and last-match scans that every table lookup of the
    file system is built from. */
module Search {

  /** `for (i = from; i < |s|; i++) if (p(s[i])) return i; return -1;` */
  function FirstFrom<T>(s: seq<T>, p: T -> bool, from: nat): (r: int)
    requires from <= |s|
    decreases |s| - from
    ensures r == -1 || from <= r < |s|
    ensures r == -1 ==> forall k | from <= k < |s| :: !p(s[k])
    ensures r != -1 ==> p(s[r]) && forall k | from <= k < r :: !p(s[k])
  {
    if from == |s| then -1
    else if p(s[from]) then from
    else FirstFrom(s, p, from + 1)
  }

  /** The index of the first element satisfying `p`, or -1. */
  function First<T>(s: seq<T>, p: T -> bool): (r: int)
    ensures r == -1 || 0 <= r < |s|
    ensures r == -1 <==> forall k | 0 <= k < |s| :: !p(s[k])
    ensures r != -1 ==> p(s[r]) && forall k | 0 <= k < r :: !p(s[k])
  {
    FirstFrom(s, p, 0)
  }

  /** A forward scan that remembers the most recent match:
      `for (i = from; i < |s|; i++) if (p(s[i])) found = i;` */
  function LastFrom<T>(s: seq<T>, p: T -> bool, from: nat, found: int): (r: int)
    requires from <= |s|
    decreases |s| - from
    ensures (forall k | from <= k < |s| :: !p(s[k])) ==> r == found
    ensures r != found ==> from <= r < |s| && p(s[r]) && forall k | r < k < |s| :: !p(s[k])
    ensures (exists k | from <= k < |s| :: p(s[k])) ==> from <= r < |s| && p(s[r])
  {
    if from == |s| then found
    else LastFrom(s, p, from + 1, if p(s[from]) then from else found)
  }

  /** The index of the last element satisfying `p`, or -1. */
  function Last<T>(s: seq<T>, p: T -> bool): (r: int)
    ensures r == -1 || 0 <= r < |s|
    ensures r == -1 <==> forall k | 0 <= k < |s| :: !p(s[k])
    ensures r != -1 ==> p(s[r]) && forall k | r < k < |s| :: !p(s[k])
  {
    LastFrom(s, p, 0, -1)
  }
}
