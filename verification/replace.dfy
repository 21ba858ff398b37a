/**
 * `s.replace(p, "")`: delete every occurrence of `p`, scanning left to right
 * and never letting two deleted occurrences overlap. This is how the router
 * prefix drops "viewset" from a lower-cased class name.
 */
module Replace {

  /** `p` occurs in `s` starting at index `i`. */
  predicate OccursAt(s: string, p: string, i: int) {
    0 <= i && i + |p| <= |s| && s[i..i + |p|] == p
  }

  predicate Occurs(s: string, p: string) {
    exists i :: 0 <= i <= |s| - |p| && OccursAt(s, p, i)
  }

  /**
   * No proper suffix of `p` is also a prefix of `p`, so two occurrences of
   * `p` can never overlap.
   */
  predicate Unbordered(p: string) {
    forall k :: 0 < k < |p| ==> p[k..] != p[..|p| - k]
  }

  /**
   * Left-to-right, non-overlapping removal. As in Python, an empty pattern
   * leaves the string unchanged.
   */
  function RemoveAll(s: string, p: string): (r: string)
    ensures |r| <= |s|
    decreases |s|
  {
    if |p| == 0 || |s| < |p| then s
    else if s[..|p|] == p then RemoveAll(s[|p|..], p)
    else [s[0]] + RemoveAll(s[1..], p)
  }

  /** The same removal written as the scanning loop a library would use. */
  method RemoveAllScan(s: string, p: string) returns (r: string)
    ensures r == RemoveAll(s, p)
  {
    if |p| == 0 {
      return s;
    }
    r := [];
    var i := 0;
    while i < |s|
      invariant 0 <= i <= |s|
      invariant r + RemoveAll(s[i..], p) == RemoveAll(s, p)
      decreases |s| - i
    {
      if i + |p| <= |s| && s[i..i + |p|] == p {
        ScanDeletes(s, p, i);
        i := i + |p|;
      } else {
        ScanKeeps(s, p, i);
        assert r + ([s[i]] + RemoveAll(s[i + 1..], p)) == (r + [s[i]]) + RemoveAll(s[i + 1..], p);
        r := r + [s[i]];
        i := i + 1;
      }
    }
  }

  /** At an occurrence, the scan deletes it and moves past it. */
  lemma ScanDeletes(s: string, p: string, i: int)
    requires |p| > 0 && 0 <= i && i + |p| <= |s| && s[i..i + |p|] == p
    ensures RemoveAll(s[i..], p) == RemoveAll(s[i + |p|..], p)
  {
    var rest := s[i..];
    assert rest[..|p|] == s[i..i + |p|];
    assert rest[|p|..] == s[i + |p|..];
  }

  /** Anywhere else, the scan keeps one character and moves on. */
  lemma ScanKeeps(s: string, p: string, i: int)
    requires |p| > 0 && 0 <= i < |s| && !(i + |p| <= |s| && s[i..i + |p|] == p)
    ensures RemoveAll(s[i..], p) == [s[i]] + RemoveAll(s[i + 1..], p)
  {
    var rest := s[i..];
    assert rest[0] == s[i] && rest[1..] == s[i + 1..];
    if |rest| >= |p| {
      assert rest[..|p|] == s[i..i + |p|];
    }
    RemoveAllStep(rest, p);
  }

  /** One step of the scan: delete the occurrence at the front, or keep the first character. */
  lemma RemoveAllStep(s: string, p: string)
    requires |p| > 0 && |s| > 0
    ensures |s| >= |p| && s[..|p|] == p ==> RemoveAll(s, p) == RemoveAll(s[|p|..], p)
    ensures !(|s| >= |p| && s[..|p|] == p) ==> RemoveAll(s, p) == [s[0]] + RemoveAll(s[1..], p)
  {
    if |s| < |p| {
      assert RemoveAll(s[1..], p) == s[1..];
      assert [s[0]] + s[1..] == s;
    }
  }

  /** Removal leaves the string unchanged exactly when the pattern does not occur in it. */
  lemma {:induction false} RemoveAllFixedIff(s: string, p: string)
    requires |p| > 0
    ensures RemoveAll(s, p) == s <==> !Occurs(s, p)
    ensures Occurs(s, p) ==> |RemoveAll(s, p)| < |s|
    decreases |s|
  {
    if !Occurs(s, p) {
      NoOccurrenceUnchanged(s, p);
    } else {
      var i :| OccursAt(s, p, i);
      OccurrenceShortens(s, p, i);
    }
  }

  lemma {:induction false} NoOccurrenceUnchanged(s: string, p: string)
    requires |p| > 0 && !Occurs(s, p)
    ensures RemoveAll(s, p) == s
    decreases |s|
  {
    if |s| >= |p| {
      assert !OccursAt(s, p, 0);
      assert s[..|p|] != p;
      forall i | OccursAt(s[1..], p, i)
        ensures false
      {
        assert s[1..][i..i + |p|] == s[i + 1..i + 1 + |p|];
        assert OccursAt(s, p, i + 1);
      }
      NoOccurrenceUnchanged(s[1..], p);
      assert [s[0]] + s[1..] == s;
    }
  }

  lemma {:induction false} OccurrenceShortens(s: string, p: string, i: int)
    requires |p| > 0 && OccursAt(s, p, i)
    ensures |RemoveAll(s, p)| < |s|
    decreases |s|
  {
    if s[..|p|] != p {
      assert i != 0;
      assert s[1..][i - 1..i - 1 + |p|] == s[i..i + |p|];
      OccurrenceShortens(s[1..], p, i - 1);
    }
  }

  /**
   * Appending one more copy of an unbordered pattern changes nothing after
   * removal: the scan reaches the appended copy exactly and deletes it.
   */
  lemma {:induction false} RemoveAllTrailingPattern(x: string, p: string)
    requires |p| > 0 && Unbordered(p)
    ensures RemoveAll(x + p, p) == RemoveAll(x, p)
    decreases |x|
  {
    var s := x + p;
    if |x| == 0 {
      assert s == p;
      assert s[..|p|] == p && s[|p|..] == [];
    } else if |x| < |p| {
      StraddleImpossible(x, p);
      assert s[1..] == x[1..] + p;
      assert RemoveAll(x[1..], p) == x[1..];
      RemoveAllTrailingPattern(x[1..], p);
      assert [x[0]] + x[1..] == x;
    } else {
      assert s[..|p|] == x[..|p|];
      if s[..|p|] == p {
        assert s[|p|..] == x[|p|..] + p;
        RemoveAllTrailingPattern(x[|p|..], p);
      } else {
        assert s[1..] == x[1..] + p;
        RemoveAllTrailingPattern(x[1..], p);
      }
    }
  }

  /** An occurrence of `p` that begins inside `x` and runs into a following `p` is a border of `p`. */
  lemma OverlapIsBorder(x: string, p: string)
    requires |x| < |p| && (x + p)[..|p|] == p
    ensures p[|x|..] == p[..|p| - |x|]
  {
    var s := x + p;
    var k := |x|;
    assert s[..|p|][k..] == s[k..|p|];
    assert s[k..|p|] == p[..|p| - k];
  }

  /** An occurrence of an unbordered pattern cannot start inside a shorter string it follows. */
  lemma StraddleImpossible(x: string, p: string)
    requires Unbordered(p) && 0 < |x| < |p|
    ensures (x + p)[..|p|] != p
  {
    if (x + p)[..|p|] == p {
      OverlapIsBorder(x, p);
    }
  }

  lemma OccurrenceStartsWith(s: string, p: string, i: int)
    requires |p| >= 2 && OccursAt(s, p, i)
    ensures i < |s| - 1 && s[i] == p[0] && s[i + 1] == p[1]
  {
    assert s[i..i + |p|][0] == s[i] && s[i..i + |p|][1] == s[i + 1];
  }

  /**
   * A cheap test for absence: if the first two characters of `p` never occur
   * side by side in `s`, then `p` does not occur in `s`.
   */
  lemma NoOccurrenceFromPair(s: string, p: string)
    requires |p| >= 2
    requires forall i :: 0 <= i < |s| - 1 ==> !(s[i] == p[0] && s[i + 1] == p[1])
    ensures !Occurs(s, p)
  {
    forall i | OccursAt(s, p, i)
      ensures false
    {
      OccurrenceStartsWith(s, p, i);
    }
  }
}
