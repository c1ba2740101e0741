/** The Robin Hood invariant of the table, on the decoded rows `t` of a table of `|t|` rows, and
    the facts about single writes and probe walks that the map's methods use to keep it.

    A row is occupied when its hash is not `NONE`, and live (`Row.populated`) when it is also not
    a tombstone. Every live row must be reachable from its home row: each row it passes on the way
    is occupied and lies at least as far from its own home as it lies from the live row's home.
    This is what lets a lookup stop at the first empty row, or at the first row that is closer to
    its home than the probe is to the searched hash's home. */
module RobinHoodInvariant {
  import opened Bits
  import opened Rows
  import opened Probing

  predicate Occupied(r: Row)
  {
    r.hash != NONE
  }

  /** `Row.populated`. */
  predicate Live(r: Row)
  {
    r.hash != NONE && !r.tombstone
  }

  function Home(t: seq<Row>, p: nat): (h: nat)
    requires p < |t|
    ensures h < |t|
  {
    Rem(t[p].hash, |t|)
  }

  /** The probe distance of the row at `p`. */
  function D(t: seq<Row>, p: nat): (d: nat)
    requires p < |t|
    ensures d < |t|
  {
    Dist(t[p].hash, p, |t|)
  }

  /** The first `s` rows of the probe walk from row `e` are occupied and none of them is closer to
      its own home than the walk is to `e`. */
  predicate Walked(t: seq<Row>, e: nat, s: nat)
    requires e < |t| && s <= |t|
  {
    forall j :: 0 <= j < s ==> Occupied(t[Pos(e, j, |t|)]) && D(t, Pos(e, j, |t|)) >= j
  }

  predicate Reachable(t: seq<Row>, p: nat)
    requires p < |t|
  {
    Walked(t, Home(t, p), D(t, p))
  }

  predicate RobinHood(t: seq<Row>)
  {
    |t| > 0 && forall p :: 0 <= p < |t| && Live(t[p]) ==> Reachable(t, p)
  }

  /** No live row other than the one at `q` passes over `q` at a distance greater than `d`. A
      row whose probe distance at `q` is `d` may then be written at `q`. */
  predicate Supports(t: seq<Row>, q: nat, d: nat)
    requires q < |t|
  {
    forall p, c :: 0 <= p < |t| && Live(t[p]) && p != q && 0 <= c < D(t, p) && Pos(Home(t, p), c, |t|) == q
      ==> c <= d
  }

  predicate HasEmptyRow(t: seq<Row>)
  {
    exists p :: 0 <= p < |t| && !Occupied(t[p])
  }

  predicate NoTombstones(t: seq<Row>)
  {
    forall p :: 0 <= p < |t| ==> !t[p].tombstone
  }

  /** Between walk steps `a` and `s` (both excluded) no live row is farther from its home than the
      walk is from `e`: a walk that passed a tombstone at step `a` has not since seen a reason to
      forget it. */
  predicate NoResetBetween(t: seq<Row>, e: nat, a: nat, s: nat)
    requires e < |t| && s <= |t|
  {
    forall j :: a < j < s ==> !(Live(t[Pos(e, j, |t|)]) && D(t, Pos(e, j, |t|)) > j)
  }

  /** The walk from `e` stops at step `s`: the row there is empty or closer to its home than the
      walk is to `e` (a walk of `|t|` steps stops, as every distance is below `|t|`). */
  predicate StopsAt(t: seq<Row>, e: nat, s: nat)
    requires e < |t| && s <= |t|
  {
    s < |t| ==> !Occupied(t[Pos(e, s, |t|)]) || D(t, Pos(e, s, |t|)) < s
  }

  lemma {:induction false} PosOff(b: nat, j: nat, n: nat)
    requires b < n && j < n
    ensures Off(b, Pos(b, j, n), n) == j
  {
  }

  /** Writing row `r` at `q` keeps the invariant when no live row passing over `q` is farther
      from its home there than `r` is, and `r`, when live, is reachable. */
  lemma {:induction false} WriteKeepsRobinHood(t: seq<Row>, q: nat, r: Row)
    requires RobinHood(t) && q < |t| && Occupied(r)
    requires Supports(t, q, Dist(r.hash, q, |t|))
    requires Live(r) ==> Walked(t, Rem(r.hash, |t|), Dist(r.hash, q, |t|))
    ensures RobinHood(t[q := r])
  {
    var n := |t|;
    var t' := t[q := r];
    forall p | 0 <= p < n && Live(t'[p])
      ensures Reachable(t', p)
    {
      if p == q {
        var e := Rem(r.hash, n);
        forall j | 0 <= j < D(t', p)
          ensures Occupied(t'[Pos(e, j, n)]) && D(t', Pos(e, j, n)) >= j
        {
          PosOff(e, j, n);
          assert Pos(e, j, n) != q;
        }
      } else {
        assert Reachable(t, p);
        var e := Home(t, p);
        forall j | 0 <= j < D(t', p)
          ensures Occupied(t'[Pos(e, j, n)]) && D(t', Pos(e, j, n)) >= j
        {
          if Pos(e, j, n) == q {
            assert j <= Dist(r.hash, q, n);
          }
        }
      }
    }
  }

  /** A row at least as far from its home as the occupant of `q` may replace it. */
  lemma {:induction false} BetterSupports(t: seq<Row>, q: nat, d: nat)
    requires RobinHood(t) && q < |t| && Occupied(t[q]) && D(t, q) <= d
    ensures Supports(t, q, d)
  {
    forall p, c | 0 <= p < |t| && Live(t[p]) && p != q && 0 <= c < D(t, p) && Pos(Home(t, p), c, |t|) == q
      ensures c <= d
    {
      assert Reachable(t, p);
    }
  }

  /** No live row passes over an empty row. */
  lemma {:induction false} EmptySupports(t: seq<Row>, q: nat, d: nat)
    requires RobinHood(t) && q < |t| && !Occupied(t[q])
    ensures Supports(t, q, d)
  {
    forall p, c | 0 <= p < |t| && Live(t[p]) && 0 <= c < D(t, p)
      ensures Pos(Home(t, p), c, |t|) != q
    {
      assert Reachable(t, p);
    }
  }

  /** A walk from `e` recorded a row at step `a`, saw no reason to forget it up to step `s`, and
      stopped at `s`. Then no live row passes over the recorded row farther from its home than
      `a`. This is the justification for reusing the first tombstone of a probe walk. */
  lemma {:induction false} RecordedRowSupports(t: seq<Row>, e: nat, a: nat, s: nat)
    requires RobinHood(t) && e < |t| && a < s <= |t| && a < |t|
    requires NoResetBetween(t, e, a, s) && StopsAt(t, e, s)
    ensures Supports(t, Pos(e, a, |t|), a)
  {
    var n := |t|;
    var q := Pos(e, a, n);
    forall p, c | 0 <= p < n && Live(t[p]) && p != q && 0 <= c < D(t, p) && Pos(Home(t, p), c, n) == q
      ensures c <= a
    {
      // A row whose walk started after q and wrapped around to pass q would end between q and
      // the stop (where the walk would have been told to forget q), at the stop, or beyond it
      // (passing over the stop row, which is too close to its home for that).
      var b := Home(t, p);
      assert Reachable(t, p);
      PosOff(b, c, n);
      var o := Off(e, p, n);
      var u := Pos(e, s, n);
      var c' := Off(b, u, n);
      assert Pos(e, o, n) == p;
    }
  }

  /** A walk from `e` that stops at `s` has passed every live row whose home is `e`. */
  lemma {:induction false} HomeRowsVisited(t: seq<Row>, e: nat, s: nat, p: nat)
    requires RobinHood(t) && e < |t| && s <= |t| && StopsAt(t, e, s)
    requires p < |t| && Live(t[p]) && Home(t, p) == e
    ensures D(t, p) < s && Pos(e, D(t, p), |t|) == p
  {
    assert Reachable(t, p);
    if D(t, p) >= s {
      assert false;
    }
  }

  /** A walk over every row of the table leaves no row empty. */
  lemma {:induction false} FullWalkHasNoEmptyRow(t: seq<Row>, e: nat)
    requires e < |t| && Walked(t, e, |t|)
    ensures !HasEmptyRow(t)
  {
    forall p | 0 <= p < |t|
      ensures Occupied(t[p])
    {
      assert Pos(e, Off(e, p, |t|), |t|) == p;
    }
  }

  /** The number of live rows. */
  function CountLive(t: seq<Row>): (c: nat)
    ensures c <= |t|
  {
    if |t| == 0 then 0 else CountLive(t[..|t| - 1]) + (if Live(t[|t| - 1]) then 1 else 0)
  }

  /** Writing one row changes the count of live rows by what it replaced. */
  lemma {:induction false} CountLiveUpdate(t: seq<Row>, q: nat, r: Row)
    requires q < |t|
    ensures CountLive(t[q := r]) == CountLive(t) - (if Live(t[q]) then 1 else 0) + (if Live(r) then 1 else 0)
  {
    var t' := t[q := r];
    var k := |t| - 1;
    if q < k {
      assert t'[..k] == t[..k][q := r];
      CountLiveUpdate(t[..k], q, r);
    } else {
      assert t'[..k] == t[..k];
    }
  }

  /** A table without tombstones that has fewer live rows than rows has an empty row (the
      pigeonhole principle). */
  lemma {:induction false} CountLiveEmptyRow(t: seq<Row>)
    requires NoTombstones(t) && CountLive(t) < |t|
    ensures HasEmptyRow(t)
  {
    var k := |t| - 1;
    if Occupied(t[k]) {
      assert NoTombstones(t[..k]);
      CountLiveEmptyRow(t[..k]);
      var p :| 0 <= p < k && !Occupied(t[..k][p]);
      assert !Occupied(t[p]);
    }
  }

  /** A table of empty rows has no live row. */
  lemma {:induction false} CountLiveEmpty(t: seq<Row>)
    requires forall p :: 0 <= p < |t| ==> t[p] == EMPTY
    ensures CountLive(t) == 0
  {
    if |t| > 0 {
      CountLiveEmpty(t[..|t| - 1]);
    }
  }

  /** Counting a prefix one row further. */
  lemma {:induction false} CountLivePrefix(t: seq<Row>, i: nat)
    requires i < |t|
    ensures CountLive(t[..i + 1]) == CountLive(t[..i]) + (if Live(t[i]) then 1 else 0)
  {
    assert t[..i + 1][..i] == t[..i];
  }

  /** A prefix has no more live rows than the whole table. */
  lemma {:induction false} CountLivePrefixBound(t: seq<Row>, i: nat)
    requires i <= |t|
    ensures CountLive(t[..i]) <= CountLive(t)
    decreases |t| - i
  {
    if i < |t| {
      CountLivePrefix(t, i);
      CountLivePrefixBound(t, i + 1);
    } else {
      assert t[..i] == t;
    }
  }

  /** A set of live rows is no larger than the count of live rows. */
  lemma {:induction false} LiveSetBound(t: seq<Row>, rows: set<nat>)
    requires forall p :: p in rows ==> p < |t| && Live(t[p])
    ensures |rows| <= CountLive(t)
    decreases |t|
  {
    if |t| > 0 {
      var k := |t| - 1;
      var rows' := rows - {k};
      forall p | p in rows'
        ensures p < k && Live(t[..k][p])
      {
      }
      LiveSetBound(t[..k], rows');
      if k in rows {
        assert rows == rows' + {k};
      } else {
        assert rows == rows';
      }
    }
  }

  /** The first `m` rows of a walk are `m` different rows. */
  lemma {:induction false} WalkRowsCount(e: nat, m: nat, n: nat)
    requires e < n && m <= n
    ensures |set j | 0 <= j < m :: Pos(e, j, n)| == m
  {
    if m > 0 {
      WalkRowsCount(e, m - 1, n);
      var rows := set j | 0 <= j < m - 1 :: Pos(e, j, n);
      assert (set j | 0 <= j < m :: Pos(e, j, n)) == rows + {Pos(e, m - 1, n)};
      forall j | 0 <= j < m - 1
        ensures Pos(e, j, n) != Pos(e, m - 1, n)
      {
        PosOff(e, j, n);
        PosOff(e, m - 1, n);
      }
    }
  }

  /** In a table without tombstones, a walk of `m` steps passes `m` live rows. */
  lemma {:induction false} WalkedCount(t: seq<Row>, e: nat, m: nat)
    requires e < |t| && m <= |t| && Walked(t, e, m) && NoTombstones(t)
    ensures m <= CountLive(t)
  {
    var rows := set j | 0 <= j < m :: Pos(e, j, |t|);
    WalkRowsCount(e, m, |t|);
    LiveSetBound(t, rows);
  }

  /** In a table without tombstones, a live row and the rows it passes are live rows: its probe
      distance is below the count of live rows. */
  lemma {:induction false} ReachableCount(t: seq<Row>, p: nat)
    requires RobinHood(t) && NoTombstones(t) && p < |t| && Live(t[p])
    ensures D(t, p) < CountLive(t)
  {
    var n := |t|;
    var e := Home(t, p);
    assert Reachable(t, p);
    PosOff(e, D(t, p), n);
    assert Walked(t, e, D(t, p) + 1);
    WalkedCount(t, e, D(t, p) + 1);
  }
}
