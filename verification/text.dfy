/**
 * The string tests the classifier applies to play descriptions: Python's
 * truthiness of an optional string, the substring test `p in s`, and the
 * parse of the attempt total out of a free-throw description "... X of Y ...".
 */
module Text {
  import opened Common

  /** Python's `bool(d)` for a description cell: `None` and the empty string are false. */
  predicate Truthy(d: Option<string>)
  {
    d.Some? && d.value != ""
  }

  /** Reference meaning of a substring occurrence: `p` appears in `s` starting at index `k`. */
  ghost predicate OccursAt(s: string, p: string, k: nat)
  {
    k + |p| <= |s| && s[k..k + |p|] == p
  }

  lemma OccursShift(s: string, p: string, k: nat)
    requires |s| > 0
    ensures OccursAt(s[1..], p, k) <==> OccursAt(s, p, k + 1)
  {
    if k + |p| <= |s[1..]| {
      assert s[1..][k..k + |p|] == s[k + 1..k + 1 + |p|];
    }
  }

  /** The index of the leftmost occurrence of `p` in `s` (where `str.find` and `str.split` find it), if any. */
  function IndexOf(s: string, p: string): Option<nat>
    decreases |s|
  {
    if |s| < |p| then None
    else if s[..|p|] == p then Some(0)
    else
      match IndexOf(s[1..], p)
      case None => None
      case Some(k) => Some(k + 1)
  }

  /** `IndexOf` finds an occurrence, the leftmost one, and finds none only when there is none. */
  lemma {:induction false} IndexOfLeftmost(s: string, p: string)
    ensures IndexOf(s, p).Some? ==> OccursAt(s, p, IndexOf(s, p).value)
    ensures IndexOf(s, p).Some? ==> forall j: nat :: j < IndexOf(s, p).value ==> !OccursAt(s, p, j)
    ensures IndexOf(s, p).None? ==> forall j: nat :: !OccursAt(s, p, j)
    decreases |s|
  {
    if |s| < |p| {
    } else if s[..|p|] == p {
    } else {
      IndexOfLeftmost(s[1..], p);
      assert !OccursAt(s, p, 0);
      forall j: nat ensures OccursAt(s[1..], p, j) <==> OccursAt(s, p, j + 1) {
        OccursShift(s, p, j);
      }
      assert forall j: nat :: j > 0 ==> OccursAt(s, p, j) == OccursAt(s[1..], p, j - 1);
    }
  }

  /** Python's `p in s`. */
  predicate Contains(s: string, p: string)
  {
    IndexOf(s, p).Some?
  }

  /** `Contains` agrees with the reference meaning of an occurrence. */
  lemma ContainsMeaning(s: string, p: string)
    ensures Contains(s, p) <==> exists k: nat :: OccursAt(s, p, k)
  {
    IndexOfLeftmost(s, p);
    var r := IndexOf(s, p);
    if r.Some? {
      assert OccursAt(s, p, r.value);
    }
  }

  predicate IsDigit(c: char)
  {
    '0' <= c <= '9'
  }

  /**
   * The attempt total Y of a free-throw description "... X of Y ...": the
   * first character after the leftmost " of ", read as a decimal digit.
   * `None` where `pbp_calc_next`'s `int(desc.split(' of ')[1][0])` raises: no
   * " of " at all, nothing after it, or a character that is not a digit.
   */
  function AttemptTotal(desc: string): (r: Option<nat>)
    ensures r.Some? ==> r.value <= 9
  {
    match IndexOf(desc, " of ")
    case None => None
    case Some(k) =>
      if k + 4 < |desc| && IsDigit(desc[k + 4]) then Some(desc[k + 4] as int - '0' as int) else None
  }

  /**
   * `AttemptTotal` succeeds exactly when the leftmost " of " is followed by a
   * digit, and then it is that digit's value.
   */
  lemma AttemptTotalMeaning(desc: string)
    ensures AttemptTotal(desc).Some? <==>
              exists k: nat ::
                OccursAt(desc, " of ", k) && k + 4 < |desc| && IsDigit(desc[k + 4])
                && forall j: nat :: j < k ==> !OccursAt(desc, " of ", j)
    ensures AttemptTotal(desc).Some? ==>
              exists k: nat ::
                OccursAt(desc, " of ", k) && k + 4 < |desc|
                && (forall j: nat :: j < k ==> !OccursAt(desc, " of ", j))
                && AttemptTotal(desc).value == desc[k + 4] as int - '0' as int
  {
    IndexOfLeftmost(desc, " of ");
  }
}
