/** String helpers the renderer relies on: substring search (the
    `includes` test used for highlighting) and joining strings with a
    separator, together with the facts that pin down their meaning. */
module Text {

  /** `s.includes(t)`: scans `s` from the left for a copy of `t`. */
  function Contains(s: string, t: string): bool
    decreases |s|
  {
    |t| <= |s| && (s[..|t|] == t || Contains(s[1..], t))
  }

  /** `t` is found in `s` starting at position `k`. */
  ghost predicate OccursAt(s: string, t: string, k: int) {
    0 <= k && k + |t| <= |s| && s[k..k + |t|] == t
  }

  /** The scan finds `t` exactly when `t` occurs somewhere in `s`. */
  lemma {:induction false} ContainsIff(s: string, t: string)
    ensures Contains(s, t) <==> exists k :: OccursAt(s, t, k)
    decreases |s|
  {
    if |t| > |s| {
      forall k ensures !OccursAt(s, t, k) { }
    } else if s[..|t|] == t {
      assert OccursAt(s, t, 0);
    } else {
      ContainsIff(s[1..], t);
      if Contains(s[1..], t) {
        var k :| OccursAt(s[1..], t, k);
        assert s[1..][k..k + |t|] == s[k + 1..k + 1 + |t|];
        assert OccursAt(s, t, k + 1);
      } else {
        forall k | 0 <= k && k + |t| <= |s| ensures !OccursAt(s, t, k) {
          if k == 0 {
            assert s[k..k + |t|] == s[..|t|];
          } else {
            assert s[1..][k - 1..k - 1 + |t|] == s[k..k + |t|];
            assert !OccursAt(s[1..], t, k - 1);
          }
        }
      }
    }
  }

  /** The parts of `parts` with one `sep` between each consecutive pair. */
  function Join(parts: seq<string>, sep: string): string {
    if |parts| == 0 then ""
    else if |parts| == 1 then parts[0]
    else Join(parts[..|parts| - 1], sep) + sep + parts[|parts| - 1]
  }

  /** Where part `i` starts in `Join(parts, sep)`: after each earlier part
      and the separator that follows it. */
  function Offset(parts: seq<string>, sep: string, i: nat): nat
    requires i <= |parts|
  {
    if i == 0 then 0 else Offset(parts, sep, i - 1) + |parts[i - 1]| + |sep|
  }

  /** Offsets depend only on the parts before them. */
  lemma {:induction false} OffsetPrefix(parts: seq<string>, sep: string, m: nat, i: nat)
    requires i <= m <= |parts|
    ensures Offset(parts[..m], sep, i) == Offset(parts, sep, i)
  {
    if i > 0 {
      OffsetPrefix(parts, sep, m, i - 1);
    }
  }

  /** The last part ends the join. */
  lemma {:induction false} JoinEnd(parts: seq<string>, sep: string)
    requires |parts| > 0
    ensures Offset(parts, sep, |parts| - 1) + |parts[|parts| - 1]| == |Join(parts, sep)|
  {
    var n := |parts|;
    if n > 1 {
      JoinEnd(parts[..n - 1], sep);
      OffsetPrefix(parts, sep, n - 1, n - 2);
    }
  }

  /** Slicing within the left operand of a concatenation. */
  lemma SliceOfAppend(a: string, b: string, x: nat, y: nat)
    requires x <= y <= |a|
    ensures (a + b)[x..y] == a[x..y]
  {
  }

  /** Part `i` sits at `Offset(parts, sep, i)` in the join. */
  lemma {:induction false} JoinPart(parts: seq<string>, sep: string, i: nat)
    requires i < |parts|
    ensures Offset(parts, sep, i) + |parts[i]| <= |Join(parts, sep)|
    ensures Join(parts, sep)[Offset(parts, sep, i)..Offset(parts, sep, i) + |parts[i]|] == parts[i]
  {
    var n := |parts|;
    JoinEnd(parts, sep);
    if n > 1 {
      var init := parts[..n - 1];
      var front := Join(init, sep);
      assert Join(parts, sep) == front + (sep + parts[n - 1]);
      JoinEnd(init, sep);
      OffsetPrefix(parts, sep, n - 1, n - 2);
      if i < n - 1 {
        JoinPart(init, sep, i);
        OffsetPrefix(parts, sep, n - 1, i);
        SliceOfAppend(front, sep + parts[n - 1], Offset(parts, sep, i), Offset(parts, sep, i) + |parts[i]|);
      } else {
        assert Join(parts, sep) == (front + sep) + parts[n - 1];
      }
    }
  }

  /** Exactly one separator follows every part but the last. */
  lemma {:induction false} JoinSeparator(parts: seq<string>, sep: string, i: nat)
    requires i + 1 < |parts|
    ensures Offset(parts, sep, i + 1) <= |Join(parts, sep)|
    ensures Join(parts, sep)[Offset(parts, sep, i) + |parts[i]|..Offset(parts, sep, i + 1)] == sep
  {
    var n := |parts|;
    var init := parts[..n - 1];
    var front := Join(init, sep);
    JoinEnd(parts, sep);
    JoinEnd(init, sep);
    OffsetPrefix(parts, sep, n - 1, n - 2);
    OffsetPrefix(parts, sep, n - 1, i);
    if i + 1 < n - 1 {
      assert Join(parts, sep) == front + (sep + parts[n - 1]);
      JoinSeparator(init, sep, i);
      OffsetPrefix(parts, sep, n - 1, i + 1);
      SliceOfAppend(front, sep + parts[n - 1], Offset(parts, sep, i) + |parts[i]|, Offset(parts, sep, i + 1));
    } else {
      assert Join(parts, sep) == (front + sep) + parts[n - 1];
      SliceOfAppend(front + sep, parts[n - 1], |front|, |front| + |sep|);
    }
  }

  /** The layout of a join: part `i` sits at `Offset(parts, sep, i)`,
      exactly one separator follows every part but the last, the first part
      starts at 0 and the last one ends the string. So n parts are joined
      with exactly n - 1 separators, none leading and none trailing. */
  lemma JoinLayout(parts: seq<string>, sep: string, i: nat)
    requires i < |parts|
    ensures Offset(parts, sep, 0) == 0
    ensures Offset(parts, sep, i) + |parts[i]| <= |Join(parts, sep)|
    ensures Join(parts, sep)[Offset(parts, sep, i)..Offset(parts, sep, i) + |parts[i]|] == parts[i]
    ensures i + 1 < |parts| ==>
      Offset(parts, sep, i + 1) == Offset(parts, sep, i) + |parts[i]| + |sep| <= |Join(parts, sep)|
    ensures i + 1 < |parts| ==>
      Join(parts, sep)[Offset(parts, sep, i) + |parts[i]|..Offset(parts, sep, i + 1)] == sep
    ensures i + 1 == |parts| ==> Offset(parts, sep, i) + |parts[i]| == |Join(parts, sep)|
  {
    JoinPart(parts, sep, i);
    JoinEnd(parts, sep);
    if i + 1 < |parts| {
      JoinSeparator(parts, sep, i);
    }
  }
}
