/** The list of received byte ranges kept for a datagram under reassembly (`ranges_insert`). */
module Ranges {
  const MAX_RANGES: nat := 32

  /** The half-open byte range from `start` to `end`. */
  datatype Range = Range(start: nat, end: nat)

  // ---------------------------------------------------------------- specification

  predicate NonEmpty(rs: seq<Range>) {
    forall i :: 0 <= i < |rs| ==> rs[i].start < rs[i].end
  }

  predicate Sorted(rs: seq<Range>) {
    NonEmpty(rs) && forall i, j :: 0 <= i < j < |rs| ==> rs[i].end <= rs[j].start
  }

  /** From index `lo` on, the ranges do not even touch. */
  predicate Separated(rs: seq<Range>, lo: nat) {
    forall i, j :: lo <= i < j < |rs| ==> rs[i].end < rs[j].start
  }

  /** Sorted, non-empty and fully coalesced. */
  predicate Canonical(rs: seq<Range>) {
    NonEmpty(rs) && Separated(rs, 0)
  }

  ghost predicate Covered(rs: seq<Range>, x: int) {
    exists i :: 0 <= i < |rs| && rs[i].start <= x < rs[i].end
  }

  /** No range overlaps the one from `start` to `end`. */
  predicate Clear(rs: seq<Range>, start: nat, end: nat) {
    forall i :: 0 <= i < |rs| ==> rs[i].end <= start || end <= rs[i].start
  }

  /** `after` covers what `before` covers and the bytes from `start` to `end`, in canonical form. */
  ghost predicate IsInsertion(before: seq<Range>, start: nat, end: nat, after: seq<Range>) {
    Canonical(after) && forall x :: Covered(after, x) <==> Covered(before, x) || start <= x < end
  }

  /** A canonical list is determined by the bytes it covers. */
  lemma {:induction false} CanonicalUnique(a: seq<Range>, b: seq<Range>)
    requires Canonical(a) && Canonical(b) && forall x :: Covered(a, x) <==> Covered(b, x)
    ensures a == b
    decreases |a|
  {
    if |a| == 0 || |b| == 0 {
      assert |a| > 0 ==> Covered(a, a[0].start);
      assert |b| > 0 ==> Covered(b, b[0].start);
    } else {
      FirstRange(a, b);
      FirstRange(b, a);
      forall x
        ensures Covered(a[1..], x) <==> Covered(b[1..], x)
      {
        CoveredTail(a, x);
        CoveredTail(b, x);
      }
      CanonicalUnique(a[1..], b[1..]);
      assert a == [a[0]] + a[1..] && b == [b[0]] + b[1..];
    }
  }

  lemma FirstRange(a: seq<Range>, b: seq<Range>)
    requires Canonical(a) && Canonical(b) && |a| > 0 && |b| > 0
    requires forall x :: Covered(a, x) <==> Covered(b, x)
    ensures a[0].start >= b[0].start && (a[0].start == b[0].start ==> a[0].end <= b[0].end)
  {
    assert Covered(a, a[0].start);
    if a[0].start == b[0].start && a[0].end > b[0].end {
      assert Covered(a, b[0].end);
      assert false;
    }
  }

  lemma CoveredTail(a: seq<Range>, x: int)
    requires Canonical(a) && |a| > 0
    ensures Covered(a[1..], x) <==> Covered(a, x) && x >= a[0].end
  {
    if Covered(a, x) && x >= a[0].end {
      var i :| 0 <= i < |a| && a[i].start <= x < a[i].end;
      assert a[1..][i - 1] == a[i];
    }
    if Covered(a[1..], x) {
      var i :| 0 <= i < |a[1..]| && a[1..][i].start <= x < a[1..][i].end;
      assert a[i + 1] == a[1..][i];
    }
  }

  // ---------------------------------------------------------------- list steps

  /** `rs` with the ranges at `i` and `i + 1` joined. */
  function Joined(rs: seq<Range>, i: nat): (r: seq<Range>)
    requires i + 1 < |rs|
    ensures |r| == |rs| - 1
  {
    rs[..i] + [Range(rs[i].start, rs[i + 1].end)] + rs[i + 2..]
  }

  lemma JoinKeeps(rs: seq<Range>, i: nat)
    requires Sorted(rs) && Separated(rs, i + 1) && i + 1 < |rs| && rs[i].end == rs[i + 1].start
    ensures Sorted(Joined(rs, i)) && Separated(Joined(rs, i), i)
  {
  }

  lemma JoinCovers(rs: seq<Range>, i: nat, x: int)
    requires i + 1 < |rs| && rs[i].start <= rs[i].end == rs[i + 1].start <= rs[i + 1].end
    ensures Covered(Joined(rs, i), x) <==> Covered(rs, x)
  {
    if Covered(rs, x) {
      JoinKeepsByte(rs, i, x);
    }
    if Covered(Joined(rs, i), x) {
      JoinAddsNoByte(rs, i, x);
    }
  }

  lemma JoinKeepsByte(rs: seq<Range>, i: nat, x: int)
    requires i + 1 < |rs| && rs[i].start <= rs[i].end == rs[i + 1].start <= rs[i + 1].end && Covered(rs, x)
    ensures Covered(Joined(rs, i), x)
  {
    var k :| 0 <= k < |rs| && rs[k].start <= x < rs[k].end;
    var m := if k <= i then k else k - 1;
    assert Joined(rs, i)[m].start <= x < Joined(rs, i)[m].end;
  }

  lemma JoinAddsNoByte(rs: seq<Range>, i: nat, x: int)
    requires i + 1 < |rs| && rs[i].start <= rs[i].end == rs[i + 1].start <= rs[i + 1].end && Covered(Joined(rs, i), x)
    ensures Covered(rs, x)
  {
    var js := Joined(rs, i);
    var k :| 0 <= k < |js| && js[k].start <= x < js[k].end;
    var m := if k < i then k else if k > i then k + 1 else if x < rs[i].end then i else i + 1;
    assert rs[m].start <= x < rs[m].end;
  }

  /** `rs` with a range placed at `pos`. */
  function Placed(rs: seq<Range>, pos: nat, r: Range): seq<Range>
    requires pos <= |rs|
  {
    rs[..pos] + [r] + rs[pos..]
  }

  lemma PlaceKeeps(rs: seq<Range>, pos: nat, r: Range)
    requires Canonical(rs) && pos <= |rs| && r.start < r.end
    requires forall i :: 0 <= i < pos ==> rs[i].end <= r.start
    requires forall i :: pos <= i < |rs| ==> r.end <= rs[i].start
    ensures Sorted(Placed(rs, pos, r))
  {
  }

  lemma PlaceCovers(rs: seq<Range>, pos: nat, r: Range, x: int)
    requires pos <= |rs|
    ensures Covered(Placed(rs, pos, r), x) <==> Covered(rs, x) || r.start <= x < r.end
  {
    var ps := Placed(rs, pos, r);
    if Covered(ps, x) {
      var k :| 0 <= k < |ps| && ps[k].start <= x < ps[k].end;
      if k != pos {
        var m := if k < pos then k else k - 1;
        assert rs[m].start <= x < rs[m].end;
      }
    }
    if Covered(rs, x) {
      var k :| 0 <= k < |rs| && rs[k].start <= x < rs[k].end;
      var m := if k < pos then k else k + 1;
      assert ps[m].start <= x < ps[m].end;
    }
    assert ps[pos] == r;
  }

  // ---------------------------------------------------------------- in place

  /** The scan at the head of `ranges_insert`. */
  method Position(a: array<Range>, n: nat, start: nat, end: nat) returns (clear: bool, pos: nat)
    requires n <= a.Length && Canonical(a[..n]) && start < end
    ensures clear <==> Clear(a[..n], start, end)
    ensures clear ==> pos <= n && (forall i :: 0 <= i < pos ==> a[i].end <= start)
    ensures clear ==> forall i :: pos <= i < n ==> end <= a[i].start
  {
    for i := 0 to n
      invariant forall j :: 0 <= j < i ==> a[j].end <= start
    {
      if start < a[i].end && a[i].start < end {
        assert a[..n][i] == a[i];
        return false, 0;
      }
      if end <= a[i].start {
        assert forall j :: i < j < n ==> a[i].end <= a[..n][j].start;
        return true, i;
      }
    }
    return true, n;
  }

  /** The move up and the store. */
  method Place(a: array<Range>, n: nat, pos: nat, r: Range)
    requires n < a.Length && pos <= n
    modifies a
    ensures a[..n + 1] == Placed(old(a[..n]), pos, r)
  {
    forall i | pos < i <= n { a[i] := a[i - 1]; }
    a[pos] := r;
  }

  /** One coalescing step with its move down. */
  method Join(a: array<Range>, n: nat, i: nat)
    requires i + 1 < n <= a.Length
    modifies a
    ensures a[..n - 1] == Joined(old(a[..n]), i)
  {
    ghost var rs := a[..n];
    var joined := Range(a[i].start, a[i + 1].end);
    a[i] := joined;
    forall k | i + 1 <= k < n - 1 { a[k] := a[k + 1]; }
    assert forall k :: i + 1 <= k < n - 1 ==> a[k] == rs[k + 1];
    assert a[..n - 1] == a[..i] + [joined] + a[i + 1..n - 1];
    assert a[..i] == rs[..i];
    assert a[i + 1..n - 1] == rs[i + 2..];
  }

  /** The coalescing loop. */
  method Coalesce(a: array<Range>, n: nat) returns (m: nat)
    requires 0 < n <= a.Length && Sorted(a[..n])
    modifies a
    ensures 0 < m <= n && Canonical(a[..m])
    ensures forall x :: Covered(a[..m], x) <==> Covered(old(a[..n]), x)
  {
    hide Covered, Joined;
    m := n;
    var i := n - 2;
    while i >= 0
      invariant 0 < m <= n && -1 <= i <= m - 2 && Sorted(a[..m]) && Separated(a[..m], i + 1)
      invariant forall x :: Covered(a[..m], x) <==> Covered(old(a[..n]), x)
    {
      ghost var rs := a[..m];
      assert rs[i] == a[i] && rs[i + 1] == a[i + 1];
      if a[i].end == a[i + 1].start {
        JoinKeeps(rs, i);
        forall x ensures Covered(Joined(rs, i), x) <==> Covered(rs, x) { JoinCovers(rs, i, x); }
        Join(a, m, i);
        m := m - 1;
      }
      i := i - 1;
    }
  }

  /**
   * `ranges_insert`. It refuses exactly when the new range overlaps or all slots are taken; otherwise the
   * list stays canonical and covers exactly the new bytes in addition.
   */
  method Insert(a: array<Range>, n: nat, start: nat, end: nat) returns (ok: bool, m: nat)
    requires a.Length == MAX_RANGES && n <= MAX_RANGES && Canonical(a[..n]) && start < end
    modifies a
    ensures ok <==> Clear(old(a[..n]), start, end) && n < MAX_RANGES
    ensures !ok ==> m == n && a[..] == old(a[..])
    ensures ok ==> m <= n + 1 && IsInsertion(old(a[..n]), start, end, a[..m])
  {
    hide Covered, Placed;
    ghost var rs := a[..n];
    var clear, pos := Position(a, n, start, end);
    if !clear || n >= MAX_RANGES {
      return false, n;
    }
    PlaceKeeps(rs, pos, Range(start, end));
    forall x ensures Covered(Placed(rs, pos, Range(start, end)), x) <==> Covered(rs, x) || start <= x < end {
      PlaceCovers(rs, pos, Range(start, end), x);
    }
    Place(a, n, pos, Range(start, end));
    m := Coalesce(a, n + 1);
    ok := true;
  }
}
