/**
  The segment layout routine of the bulls-eye radar app
  (`calculate_segment_positions`): the distinct values of the grouping column,
  in order of first appearance and capped at `max_segments`, each get an equal
  wedge of the full turn; the rows of a segment are spread over its wedge, and
  every row whose key kept a wedge gets one angle, in row order.

  Angles are reals in radians; the full turn 2π is the parameter `tau`.
*/
module SegmentLayout {
  import opened Wrappers
  import opened Frame

  /** One entry of `segment_positions`: `base_angle`, `end_angle` and `positions`. */
  datatype SegmentInfo = SegmentInfo(baseAngle: real, endAngle: real, positions: seq<real>)

  /**
    What the routine returns: the angle list and the `segment_positions` dict.
    A Python dict remembers insertion order, so the order of its keys is kept
    beside the map as `order`.
  */
  datatype Layout = Layout(angles: seq<real>, order: seq<Cell>, segments: map<Cell, SegmentInfo>)

  /** `2 * np.pi / num_segments` with `num_segments == 0` raises ZeroDivisionError. */
  datatype LayoutError = ZeroDivision

  function Min(a: nat, b: nat): nat {
    if a <= b then a else b
  }

  /** `num_segments`: the number of distinct keys that get a wedge. */
  function SegmentCount(keys: seq<Cell>, maxSegments: nat): (k: nat)
    ensures k <= maxSegments && k <= |Unique(keys)|
    ensures k == maxSegments || k == |Unique(keys)|
    ensures k == 0 <==> keys == [] || maxSegments == 0
  {
    assert keys != [] ==> keys[0] in Unique(keys);
    Min(|Unique(keys)|, maxSegments)
  }

  /** `segment_angle`: the width of each of `k` equal wedges of the full turn. */
  function SegmentAngle(tau: real, k: nat): real
    requires k > 0
  {
    tau / k as real
  }

  /** `base_angle` of the wedge with index `i`. */
  function BaseAngle(i: nat, span: real): real {
    i as real * span
  }

  /** `end_angle` of the wedge with index `i`. */
  function EndAngle(i: nat, span: real): real {
    BaseAngle(i, span) + span
  }

  /**
    The angles given to the `n` rows of a segment whose wedge starts at `base`
    and is `span` wide: the midpoint for a single row, otherwise evenly spaced
    from 10% into the wedge to 10% before its end.
  */
  function Positions(base: real, span: real, n: nat): (ps: seq<real>)
    ensures |ps| == n
  {
    if n == 1 then [base + span / 2.0]
    else
      var padding := span * 0.1;
      var available := span - 2.0 * padding;
      seq(n, j requires 0 <= j < n => MemberAngle(base, padding, available, n, j))
  }

  /** `base_angle + padding + j * available_angle / (assets_in_segment - 1)`. */
  function MemberAngle(base: real, padding: real, available: real, n: nat, j: nat): real
    requires n != 1
  {
    base + padding + (j as real) * available / ((n - 1) as real)
  }

  /** `np.linspace(0, 2π, n, endpoint=False)`: n angles a step of tau / n apart. */
  function EvenAngles(n: nat, tau: real): (angles: seq<real>)
    ensures |angles| == n
    ensures n > 0 ==> angles[0] == 0.0
  {
    seq(n, i requires 0 <= i < n => i as real * (tau / n as real))
  }

  // ---------------------------------------------------------------------------
  // Arithmetic helpers

  lemma MulMonotone(x: real, y: real, c: real)
    requires x <= y && c >= 0.0
    ensures x * c <= y * c
  {
  }

  lemma MulStrictMonotone(x: real, y: real, c: real)
    requires x < y && c > 0.0
    ensures x * c < y * c
  {
  }

  lemma MulCancelStrict(x: real, y: real, c: real)
    requires x * c < y * c && c > 0.0
    ensures x < y
  {
  }

  lemma MulSucc(i: nat, x: real)
    ensures (i + 1) as real * x == i as real * x + x
  {
  }

  lemma MulAddOne(x: real, c: real)
    ensures (x + 1.0) * c == x * c + c
  {
  }

  lemma DivCancel(a: real, m: real)
    requires m != 0.0
    ensures (a / m) * m == a
  {
  }

  /** The j-th of n > 1 positions is the member angle with 10% padding and 80% available. */
  lemma PositionIsMember(base: real, span: real, n: nat, j: nat)
    requires 1 < n && j < n
    ensures Positions(base, span, n)[j] == MemberAngle(base, span * 0.1, 0.8 * span, n, j)
  {
    assert span - 2.0 * (span * 0.1) == 0.8 * span;
  }

  lemma MemberEnds(base: real, padding: real, available: real, n: nat)
    requires 1 < n
    ensures MemberAngle(base, padding, available, n, 0) == base + padding
    ensures MemberAngle(base, padding, available, n, n - 1) == base + padding + available
  {
    var m := (n - 1) as real;
    assert m * available / m == available;
  }

  lemma MemberStep(base: real, padding: real, available: real, n: nat, j: nat)
    requires 1 < n
    ensures MemberAngle(base, padding, available, n, j + 1) - MemberAngle(base, padding, available, n, j)
      == available / (n - 1) as real
  {
    var m := (n - 1) as real;
    assert ((j + 1) as real) * available == (j as real) * available + available;
    assert ((j as real) * available + available) / m == (j as real) * available / m + available / m;
  }

  lemma MemberWithinAvailable(base: real, padding: real, available: real, n: nat, j: nat)
    requires 1 < n && j < n && available > 0.0
    ensures base + padding <= MemberAngle(base, padding, available, n, j) <= base + padding + available
  {
    var m := (n - 1) as real;
    var q := (j as real) / m;
    assert (j as real) * available / m == q * available;
    assert 0.0 <= q <= 1.0;
    MulMonotone(0.0, q, available);
    MulMonotone(q, 1.0, available);
  }

  lemma MemberIncreasing(base: real, padding: real, available: real, n: nat, i: nat, j: nat)
    requires 1 < n && i < j && available > 0.0
    ensures MemberAngle(base, padding, available, n, i) < MemberAngle(base, padding, available, n, j)
  {
    var m := (n - 1) as real;
    MulStrictMonotone(i as real, j as real, available);
    assert (i as real) * available / m < (j as real) * available / m;
  }

  // ---------------------------------------------------------------------------
  // Geometry of one segment

  /** A single row sits exactly at the midpoint of its wedge. */
  lemma SingleMemberAtMidpoint(base: real, span: real)
    ensures Positions(base, span, 1) == [(base + (base + span)) / 2.0]
  {
  }

  /**
    With n > 1 rows: the first sits at base + 0.1 span, the last at
    end - 0.1 span, and consecutive rows are 0.8 span / (n - 1) apart.
  */
  lemma PositionsSpread(base: real, span: real, n: nat)
    requires n > 1
    ensures Positions(base, span, n)[0] == base + 0.1 * span
    ensures Positions(base, span, n)[n - 1] == (base + span) - 0.1 * span
    ensures forall j :: 0 <= j < n - 1 ==>
      Positions(base, span, n)[j + 1] - Positions(base, span, n)[j] == 0.8 * span / (n - 1) as real
  {
    PositionIsMember(base, span, n, 0);
    PositionIsMember(base, span, n, n - 1);
    MemberEnds(base, span * 0.1, 0.8 * span, n);
    forall j | 0 <= j < n - 1
      ensures Positions(base, span, n)[j + 1] - Positions(base, span, n)[j] == 0.8 * span / (n - 1) as real
    {
      PositionIsMember(base, span, n, j);
      PositionIsMember(base, span, n, j + 1);
      MemberStep(base, span * 0.1, 0.8 * span, n, j);
    }
  }

  /** Every row of a segment lies strictly inside its wedge, in strictly increasing order. */
  lemma PositionsInsideWedge(base: real, span: real, n: nat)
    requires span > 0.0
    ensures forall j :: 0 <= j < n ==> base < Positions(base, span, n)[j] < base + span
    ensures forall i, j :: 0 <= i < j < n ==> Positions(base, span, n)[i] < Positions(base, span, n)[j]
  {
    if n > 1 {
      forall j | 0 <= j < n
        ensures base < Positions(base, span, n)[j] < base + span
      {
        PositionIsMember(base, span, n, j);
        MemberWithinAvailable(base, span * 0.1, 0.8 * span, n, j);
      }
      forall i, j | 0 <= i < j < n
        ensures Positions(base, span, n)[i] < Positions(base, span, n)[j]
      {
        PositionIsMember(base, span, n, i);
        PositionIsMember(base, span, n, j);
        MemberIncreasing(base, span * 0.1, 0.8 * span, n, i, j);
      }
    }
  }

  // ---------------------------------------------------------------------------
  // Geometry of the wedges

  /**
    The k wedges tile the full turn: the first starts at 0, each ends where the
    next starts, the last ends at tau, and all lie within [0, tau].
  */
  lemma WedgesTileTurn(tau: real, k: nat)
    requires tau > 0.0 && k > 0
    ensures BaseAngle(0, SegmentAngle(tau, k)) == 0.0
    ensures forall i :: 0 <= i < k - 1 ==>
      EndAngle(i, SegmentAngle(tau, k)) == BaseAngle(i + 1, SegmentAngle(tau, k))
    ensures EndAngle(k - 1, SegmentAngle(tau, k)) == tau
    ensures forall i :: 0 <= i < k ==>
      0.0 <= BaseAngle(i, SegmentAngle(tau, k)) && EndAngle(i, SegmentAngle(tau, k)) <= tau
  {
    forall i | 0 <= i < k
      ensures 0.0 <= BaseAngle(i, SegmentAngle(tau, k)) && EndAngle(i, SegmentAngle(tau, k)) <= tau
    {
      WedgeBounds(tau, k, i);
    }
    forall i | 0 <= i < k - 1
      ensures EndAngle(i, SegmentAngle(tau, k)) == BaseAngle(i + 1, SegmentAngle(tau, k))
    {
      WedgeBounds(tau, k, i);
    }
    WedgeBounds(tau, k, k - 1);
    FullTurn(tau, k);
  }

  /** Wedge i of k starts at or after 0, ends where wedge i + 1 starts, and not after tau. */
  lemma WedgeBounds(tau: real, k: nat, i: nat)
    requires tau > 0.0 && i < k
    ensures 0.0 <= BaseAngle(i, SegmentAngle(tau, k))
    ensures EndAngle(i, SegmentAngle(tau, k)) == BaseAngle(i + 1, SegmentAngle(tau, k))
    ensures EndAngle(i, SegmentAngle(tau, k)) <= tau
  {
    var span := SegmentAngle(tau, k);
    assert span > 0.0;
    MulMonotone(0.0, i as real, span);
    MulSucc(i, span);
    MulMonotone((i + 1) as real, k as real, span);
    FullTurn(tau, k);
  }

  /** k wedges of width tau / k make up the full turn. */
  lemma FullTurn(tau: real, k: nat)
    requires k > 0
    ensures BaseAngle(k, SegmentAngle(tau, k)) == tau
  {
    DivCancel(tau, k as real);
  }

  /** The wedge that holds an angle of [0, tau). */
  function WedgeOf(tau: real, k: nat, a: real): (i: nat)
    requires tau > 0.0 && k > 0 && 0.0 <= a < tau
    ensures i < k
    ensures BaseAngle(i, SegmentAngle(tau, k)) <= a < EndAngle(i, SegmentAngle(tau, k))
  {
    var q := a / SegmentAngle(tau, k);
    TurnIsSpans(tau, k);
    DivCancel(a, SegmentAngle(tau, k));
    QuotientWedge(tau, k, a, q);
    q.Floor
  }

  /** The whole number of wedge widths below an angle of [0, tau) names the wedge that holds it. */
  lemma QuotientWedge(tau: real, k: nat, a: real, q: real)
    requires tau > 0.0 && k > 0 && 0.0 <= a < tau && q * SegmentAngle(tau, k) == a
    ensures 0 <= q.Floor < k
    ensures BaseAngle(q.Floor, SegmentAngle(tau, k)) <= a < EndAngle(q.Floor, SegmentAngle(tau, k))
  {
    var span := SegmentAngle(tau, k);
    TurnIsSpans(tau, k);
    MulCommutes(k as real, span);
    MulCancelStrict(q, k as real, span);
    MulCancel(0.0, q, span);
    ScaledBetween(q.Floor as real, q, span, a);
  }

  lemma TurnIsSpans(tau: real, k: nat)
    requires tau > 0.0 && k > 0
    ensures SegmentAngle(tau, k) > 0.0
    ensures (k as real) * SegmentAngle(tau, k) == tau
  {
    DivCancel(tau, k as real);
    MulCommutes(tau / k as real, k as real);
  }

  lemma MulCancel(x: real, y: real, c: real)
    requires x * c <= y * c && c > 0.0
    ensures x <= y
  {
  }

  /** Scaling by c > 0 keeps q between f and f + 1. */
  lemma ScaledBetween(f: real, q: real, c: real, a: real)
    requires f <= q < f + 1.0 && c > 0.0 && q * c == a
    ensures f * c <= a < f * c + c
  {
    ScaledBelow(f, q, c, a);
    ScaledAbove(f, q, c, a);
  }

  lemma ScaledBelow(f: real, q: real, c: real, a: real)
    requires f <= q && c > 0.0 && q * c == a
    ensures f * c <= a
  {
    MulMonotone(f, q, c);
  }

  lemma ScaledAbove(f: real, q: real, c: real, a: real)
    requires q < f + 1.0 && c > 0.0 && q * c == a
    ensures a < f * c + c
  {
    MulStrictMonotone(q, f + 1.0, c);
    MulAddOne(f, c);
  }

  lemma MulCommutes(x: real, y: real)
    ensures x * y == y * x
  {
  }

  /** No angle lies in two different wedges. */
  lemma WedgesDisjoint(tau: real, k: nat, i: nat, j: nat, a: real)
    requires tau > 0.0 && k > 0 && i < j < k
    requires BaseAngle(i, SegmentAngle(tau, k)) <= a < EndAngle(i, SegmentAngle(tau, k))
    ensures !(BaseAngle(j, SegmentAngle(tau, k)) <= a)
  {
    var span := SegmentAngle(tau, k);
    MulMonotone((i + 1) as real, j as real, span);
  }

  /**
    The fallback spacing: starts at 0, excludes tau, and consecutive angles are
    tau / n apart.
  */
  lemma EvenAnglesSpacing(n: nat, tau: real)
    requires n > 0 && tau > 0.0
    ensures EvenAngles(n, tau)[0] == 0.0
    ensures forall i :: 0 <= i < n ==> 0.0 <= EvenAngles(n, tau)[i] < tau
    ensures forall i :: 0 <= i < n - 1 ==> EvenAngles(n, tau)[i + 1] - EvenAngles(n, tau)[i] == tau / n as real
  {
    var step := tau / n as real;
    DivCancel(tau, n as real);
    forall i | 0 <= i < n
      ensures 0.0 <= EvenAngles(n, tau)[i] < tau
    {
      MulMonotone(0.0, i as real, step);
      MulStrictMonotone(i as real, n as real, step);
    }
  }

  // ---------------------------------------------------------------------------
  // The layout of a frame that has the grouping column

  /** The wedge index of a key that kept a wedge. */
  function SegmentIndex(keys: seq<Cell>, k: nat, key: Cell): (i: nat)
    requires k <= |Unique(keys)| && key in Unique(keys)[..k]
    ensures i < k && Unique(keys)[i] == key
  {
    IndexOf(Unique(keys), key)
  }

  /** The `segment_positions` entry of the i-th surviving key. */
  function SegmentFor(keys: seq<Cell>, k: nat, tau: real, i: nat): (seg: SegmentInfo)
    requires i < k <= |Unique(keys)|
    ensures |seg.positions| == Count(keys, Unique(keys)[i]) > 0
  {
    var span := SegmentAngle(tau, k);
    var base := BaseAngle(i, span);
    SegmentInfo(base, base + span, Positions(base, span, Count(keys, Unique(keys)[i])))
  }

  /** `segment_positions` after the first m rounds of the loop over the kept keys. */
  function SegmentMap(keys: seq<Cell>, k: nat, tau: real, m: nat): map<Cell, SegmentInfo>
    requires m <= k <= |Unique(keys)|
  {
    if m == 0 then map[]
    else SegmentMap(keys, k, tau, m - 1)[Unique(keys)[m - 1] := SegmentFor(keys, k, tau, m - 1)]
  }

  /**
    Whether every segment has a position for each of its rows: the condition
    under which the bound check before appending a row's angle never fails.
  */
  predicate PositionsFit(keys: seq<Cell>, segs: map<Cell, SegmentInfo>) {
    forall key :: key in segs ==> |segs[key].positions| == Count(keys, key)
  }

  /** The angle list after the first n rounds of the loop over the rows. */
  function PlacedAngles(keys: seq<Cell>, segs: map<Cell, SegmentInfo>, n: nat): (angles: seq<real>)
    requires n <= |keys|
    ensures |angles| <= PlacedCount(keys, segs, n)
  {
    if n == 0 then []
    else
      var segment := keys[n - 1];
      var rest := PlacedAngles(keys, segs, n - 1);
      if segment in segs && Rank(keys, n - 1) < |segs[segment].positions| then
        rest + [segs[segment].positions[Rank(keys, n - 1)]]
      else rest
  }

  /** How many of the first n rows have a key that owns a segment. */
  function PlacedCount(keys: seq<Cell>, segs: map<Cell, SegmentInfo>, n: nat): (c: nat)
    requires n <= |keys|
    ensures c <= n
  {
    if n == 0 then 0
    else PlacedCount(keys, segs, n - 1) + (if keys[n - 1] in segs then 1 else 0)
  }

  /** What `calculate_segment_positions` returns when the grouping column is present. */
  function GroupedLayout(keys: seq<Cell>, maxSegments: nat, tau: real): (layout: Layout)
    requires keys != [] && maxSegments > 0
    ensures 0 < |layout.order| <= maxSegments
  {
    var k := SegmentCount(keys, maxSegments);
    var segs := SegmentMap(keys, k, tau, k);
    Layout(PlacedAngles(keys, segs, |keys|), Unique(keys)[..k], segs)
  }

  /** One round of the loop over the kept keys. */
  lemma SegmentMapStep(keys: seq<Cell>, k: nat, tau: real, i: nat)
    requires i < k <= |Unique(keys)|
    ensures SegmentMap(keys, k, tau, i + 1) == SegmentMap(keys, k, tau, i)[Unique(keys)[i] := SegmentFor(keys, k, tau, i)]
  {
  }

  /** After m rounds, the i-th surviving key (i < m) has its own entry. */
  lemma {:induction false} SegmentMapHas(keys: seq<Cell>, k: nat, tau: real, m: nat, i: nat)
    requires i < m <= k <= |Unique(keys)|
    ensures Unique(keys)[i] in SegmentMap(keys, k, tau, m)
    ensures SegmentMap(keys, k, tau, m)[Unique(keys)[i]] == SegmentFor(keys, k, tau, i)
  {
    SegmentMapStep(keys, k, tau, m - 1);
    if i < m - 1 {
      SegmentMapHas(keys, k, tau, m - 1, i);
      assert Unique(keys)[i] != Unique(keys)[m - 1];
    }
  }

  /** After m rounds, only the first m surviving keys have entries. */
  lemma {:induction false} SegmentMapOnly(keys: seq<Cell>, k: nat, tau: real, m: nat, key: Cell)
    requires m <= k <= |Unique(keys)| && key in SegmentMap(keys, k, tau, m)
    ensures key in Unique(keys)[..m]
  {
    if m > 0 {
      SegmentMapStep(keys, k, tau, m - 1);
      var u := Unique(keys);
      assert u[..m] == u[..m - 1] + [u[m - 1]];
      if key != u[m - 1] {
        SegmentMapOnly(keys, k, tau, m - 1, key);
      }
    }
  }

  /** `segment_positions` holds exactly the first m surviving keys, each with its own entry. */
  lemma SegmentMapEntries(keys: seq<Cell>, k: nat, tau: real, m: nat)
    requires m <= k <= |Unique(keys)|
    ensures forall key :: key in SegmentMap(keys, k, tau, m) <==> key in Unique(keys)[..m]
    ensures forall i :: 0 <= i < m ==> SegmentMap(keys, k, tau, m)[Unique(keys)[i]] == SegmentFor(keys, k, tau, i)
    ensures PositionsFit(keys, SegmentMap(keys, k, tau, m))
  {
    var u := Unique(keys);
    var segs := SegmentMap(keys, k, tau, m);
    forall i | 0 <= i < m
      ensures u[i] in segs && segs[u[i]] == SegmentFor(keys, k, tau, i)
    {
      SegmentMapHas(keys, k, tau, m, i);
    }
    forall key | key in segs
      ensures key in u[..m] && |segs[key].positions| == Count(keys, key)
    {
      SegmentMapOnly(keys, k, tau, m, key);
      var i := IndexOf(u[..m], key);
      assert u[i] == key;
    }
  }

  /** With a position per row, every row whose key owns a segment adds one angle. */
  lemma {:induction false} PlacedAnglesLength(keys: seq<Cell>, segs: map<Cell, SegmentInfo>, n: nat)
    requires n <= |keys| && PositionsFit(keys, segs)
    ensures |PlacedAngles(keys, segs, n)| == PlacedCount(keys, segs, n)
  {
    if n > 0 {
      PlacedAnglesLength(keys, segs, n - 1);
      var key := keys[n - 1];
      assert key in segs ==> Rank(keys, n - 1) < |segs[key].positions|;
    }
  }

  /**
    With a position per row, row r (whose key owns a segment) receives position
    Rank(keys, r) of its segment, at index PlacedCount(keys, segs, r) of the
    angle list: after the angles of all earlier placed rows.
  */
  lemma {:induction false} PlacedAngleOfRow(keys: seq<Cell>, segs: map<Cell, SegmentInfo>, n: nat, r: nat)
    requires r < n <= |keys| && keys[r] in segs && PositionsFit(keys, segs)
    ensures PlacedCount(keys, segs, r) < |PlacedAngles(keys, segs, n)|
    ensures PlacedAngles(keys, segs, n)[PlacedCount(keys, segs, r)] == segs[keys[r]].positions[Rank(keys, r)]
  {
    var prev := PlacedAngles(keys, segs, n - 1);
    PlacedAnglesStep(keys, segs, n);
    if r < n - 1 {
      PlacedAngleOfRow(keys, segs, n - 1, r);
      assert PlacedAngles(keys, segs, n)[..|prev|] == prev;
    } else {
      PlacedAnglesLength(keys, segs, n - 1);
    }
  }

  /** One more row appends its segment's position when its key owns a segment, and nothing otherwise. */
  lemma PlacedAnglesStep(keys: seq<Cell>, segs: map<Cell, SegmentInfo>, n: nat)
    requires 0 < n <= |keys| && PositionsFit(keys, segs)
    ensures keys[n - 1] in segs ==>
      PlacedAngles(keys, segs, n) == PlacedAngles(keys, segs, n - 1) + [segs[keys[n - 1]].positions[Rank(keys, n - 1)]]
    ensures keys[n - 1] !in segs ==> PlacedAngles(keys, segs, n) == PlacedAngles(keys, segs, n - 1)
  {
    var key := keys[n - 1];
    assert key in segs ==> Rank(keys, n - 1) < |segs[key].positions|;
  }

  /**
    When every segment has a position per row, the angle list follows row
    order: it has one entry per row whose key owns a segment, and the entry of
    such a row r is position Rank(keys, r) of its segment, at index
    PlacedCount(keys, segs, r), after those of all earlier placed rows.
  */
  lemma PlacedAnglesFollowRows(keys: seq<Cell>, segs: map<Cell, SegmentInfo>, n: nat)
    requires n <= |keys| && PositionsFit(keys, segs)
    ensures |PlacedAngles(keys, segs, n)| == PlacedCount(keys, segs, n)
    ensures forall r :: 0 <= r < n && keys[r] in segs ==>
      PlacedCount(keys, segs, r) < PlacedCount(keys, segs, n)
      && PlacedAngles(keys, segs, n)[PlacedCount(keys, segs, r)] == segs[keys[r]].positions[Rank(keys, r)]
  {
    PlacedAnglesLength(keys, segs, n);
    forall r | 0 <= r < n && keys[r] in segs
      ensures PlacedCount(keys, segs, r) < PlacedCount(keys, segs, n)
      ensures PlacedAngles(keys, segs, n)[PlacedCount(keys, segs, r)] == segs[keys[r]].positions[Rank(keys, r)]
    {
      PlacedAngleOfRow(keys, segs, n, r);
    }
  }

  lemma {:induction false} PlacedCountMonotone(keys: seq<Cell>, segs: map<Cell, SegmentInfo>, m: nat, n: nat)
    requires m <= n <= |keys|
    ensures PlacedCount(keys, segs, m) <= PlacedCount(keys, segs, n)
    ensures m < n && keys[m] in segs ==> PlacedCount(keys, segs, m) < PlacedCount(keys, segs, n)
  {
    if m < n {
      PlacedCountMonotone(keys, segs, m, n - 1);
    }
  }

  /** Every one of the first n rows is placed exactly when each of their keys owns a segment. */
  lemma {:induction false} PlacedCountAll(keys: seq<Cell>, segs: map<Cell, SegmentInfo>, n: nat)
    requires n <= |keys|
    ensures PlacedCount(keys, segs, n) == n <==> forall r :: 0 <= r < n ==> keys[r] in segs
  {
    if n > 0 {
      PlacedCountAll(keys, segs, n - 1);
    }
  }

  /**
    Every position of segment i lies strictly inside its wedge, which lies in
    [0, tau], and positions increase strictly.
  */
  lemma SegmentForInWedge(keys: seq<Cell>, k: nat, tau: real, i: nat)
    requires tau > 0.0 && i < k <= |Unique(keys)|
    ensures var seg := SegmentFor(keys, k, tau, i);
      && seg.baseAngle == BaseAngle(i, SegmentAngle(tau, k))
      && seg.endAngle == EndAngle(i, SegmentAngle(tau, k))
      && 0.0 <= seg.baseAngle && seg.endAngle <= tau
      && (forall j :: 0 <= j < |seg.positions| ==> seg.baseAngle < seg.positions[j] < seg.endAngle)
      && (forall j1, j2 :: 0 <= j1 < j2 < |seg.positions| ==> seg.positions[j1] < seg.positions[j2])
  {
    var span := SegmentAngle(tau, k);
    TurnIsSpans(tau, k);
    WedgeBounds(tau, k, i);
    PositionsInsideWedge(BaseAngle(i, span), span, Count(keys, Unique(keys)[i]));
  }

  /** An angle strictly inside wedge i of k lies in wedge i and in no other. */
  lemma InsideWedgeIsWedgeOf(tau: real, k: nat, i: nat, a: real)
    requires tau > 0.0 && i < k
    requires BaseAngle(i, SegmentAngle(tau, k)) < a < EndAngle(i, SegmentAngle(tau, k))
    ensures 0.0 <= a < tau && WedgeOf(tau, k, a) == i
  {
    WedgesTileTurn(tau, k);
    var w := WedgeOf(tau, k, a);
    if w < i {
      WedgesDisjoint(tau, k, w, i, a);
    } else if i < w {
      WedgesDisjoint(tau, k, i, w, a);
    }
  }

  // ---------------------------------------------------------------------------
  // The grouped layout

  /**
    Segment i of the grouped layout: the i-th distinct key owns wedge i of
    k = min(#distinct keys, maxSegments), holds one position per row with that
    key, and those positions increase strictly inside the wedge.
  */
  lemma GroupedSegment(keys: seq<Cell>, maxSegments: nat, tau: real, i: nat)
    requires keys != [] && maxSegments > 0 && tau > 0.0 && i < SegmentCount(keys, maxSegments)
    ensures var layout := GroupedLayout(keys, maxSegments, tau);
      var k := SegmentCount(keys, maxSegments);
      var key := layout.order[i];
      && key == Unique(keys)[i]
      && key in layout.segments
      && layout.segments[key].baseAngle == BaseAngle(i, SegmentAngle(tau, k))
      && layout.segments[key].endAngle == EndAngle(i, SegmentAngle(tau, k))
      && |layout.segments[key].positions| == Count(keys, key)
      && (forall j :: 0 <= j < |layout.segments[key].positions| ==>
            layout.segments[key].baseAngle < layout.segments[key].positions[j] < layout.segments[key].endAngle)
      && (forall j1, j2 :: 0 <= j1 < j2 < |layout.segments[key].positions| ==>
            layout.segments[key].positions[j1] < layout.segments[key].positions[j2])
  {
    var k := SegmentCount(keys, maxSegments);
    SegmentMapHas(keys, k, tau, k, i);
    SegmentForInWedge(keys, k, tau, i);
  }

  /**
    The segments of the grouped layout: there are k = min(#distinct keys,
    maxSegments) > 0 of them, `order` lists the first k distinct keys in
    first-appearance order, exactly those keys own an entry, and the entry of
    the i-th one is wedge i with one position per row of that key.
  */
  lemma GroupedLayoutSegments(keys: seq<Cell>, maxSegments: nat, tau: real)
    requires keys != [] && maxSegments > 0 && tau > 0.0
    ensures var layout := GroupedLayout(keys, maxSegments, tau);
      var k := SegmentCount(keys, maxSegments);
      && 0 < k == |layout.order|
      && layout.order == Unique(keys)[..k]
      && (forall key :: key in layout.segments <==> key in layout.order)
      && (forall i :: 0 <= i < k ==>
            layout.order[i] in layout.segments
            && layout.segments[layout.order[i]].baseAngle == BaseAngle(i, SegmentAngle(tau, k))
            && layout.segments[layout.order[i]].endAngle == EndAngle(i, SegmentAngle(tau, k))
            && |layout.segments[layout.order[i]].positions| == Count(keys, layout.order[i]))
  {
    var k := SegmentCount(keys, maxSegments);
    var layout := GroupedLayout(keys, maxSegments, tau);
    SegmentMapEntries(keys, k, tau, k);
    forall i | 0 <= i < k
      ensures layout.order[i] in layout.segments
      ensures layout.segments[layout.order[i]].baseAngle == BaseAngle(i, SegmentAngle(tau, k))
      ensures layout.segments[layout.order[i]].endAngle == EndAngle(i, SegmentAngle(tau, k))
      ensures |layout.segments[layout.order[i]].positions| == Count(keys, layout.order[i])
    {
      GroupedSegment(keys, maxSegments, tau, i);
    }
  }

  /** In the grouped layout every segment has exactly one position per row of its key. */
  lemma GroupedPositionsFit(keys: seq<Cell>, maxSegments: nat, tau: real)
    requires keys != [] && maxSegments > 0
    ensures PositionsFit(keys, GroupedLayout(keys, maxSegments, tau).segments)
  {
    var k := SegmentCount(keys, maxSegments);
    SegmentMapEntries(keys, k, tau, k);
  }

  /**
    Row r of the grouped layout, when its key owns a segment: the bound check
    before appending passes, and the row's angle, found after those of the earlier
    placed rows, is the position of its segment at the row's place among the
    segment's rows. It lies strictly between 0 and tau, in the wedge of its
    own segment.
  */
  lemma GroupedRow(keys: seq<Cell>, maxSegments: nat, tau: real, r: nat)
    requires keys != [] && maxSegments > 0 && tau > 0.0 && r < |keys|
    requires keys[r] in GroupedLayout(keys, maxSegments, tau).segments
    ensures var layout := GroupedLayout(keys, maxSegments, tau);
      var k := SegmentCount(keys, maxSegments);
      var at := PlacedCount(keys, layout.segments, r);
      && Rank(keys, r) < |layout.segments[keys[r]].positions|
      && at < |layout.angles|
      && layout.angles[at] == layout.segments[keys[r]].positions[Rank(keys, r)]
      && 0.0 < layout.angles[at] < tau
      && keys[r] in Unique(keys)[..k]
      && WedgeOf(tau, k, layout.angles[at]) == SegmentIndex(keys, k, keys[r])
  {
    var layout := GroupedLayout(keys, maxSegments, tau);
    var k := SegmentCount(keys, maxSegments);
    var segs := layout.segments;
    SegmentMapEntries(keys, k, tau, k);
    assert Rank(keys, r) < |segs[keys[r]].positions|;
    PlacedAngleOfRow(keys, segs, |keys|, r);
    var i := SegmentIndex(keys, k, keys[r]);
    assert segs[keys[r]] == SegmentFor(keys, k, tau, i);
    SegmentForInWedge(keys, k, tau, i);
    var a := layout.angles[PlacedCount(keys, segs, r)];
    assert BaseAngle(i, SegmentAngle(tau, k)) < a < EndAngle(i, SegmentAngle(tau, k));
    InsideWedgeIsWedgeOf(tau, k, i, a);
  }

  /** The angle list of the grouped layout holds one angle per row whose key owns a segment. */
  lemma GroupedAnglesLength(keys: seq<Cell>, maxSegments: nat, tau: real)
    requires keys != [] && maxSegments > 0
    ensures var layout := GroupedLayout(keys, maxSegments, tau);
      |layout.angles| == PlacedCount(keys, layout.segments, |keys|)
  {
    GroupedPositionsFit(keys, maxSegments, tau);
    PlacedAnglesLength(keys, GroupedLayout(keys, maxSegments, tau).segments, |keys|);
  }

  /**
    Every row gets an angle exactly when the number of distinct keys does not
    exceed the cap; otherwise the rows of the keys past the cap are dropped.
  */
  lemma AllRowsPlacedIff(keys: seq<Cell>, maxSegments: nat, tau: real)
    requires keys != [] && maxSegments > 0
    ensures |GroupedLayout(keys, maxSegments, tau).angles| == |keys| <==> |Unique(keys)| <= maxSegments
  {
    var layout := GroupedLayout(keys, maxSegments, tau);
    var k := SegmentCount(keys, maxSegments);
    var u := Unique(keys);
    var segs := layout.segments;
    SegmentMapEntries(keys, k, tau, k);
    GroupedAnglesLength(keys, maxSegments, tau);
    PlacedCountAll(keys, segs, |keys|);
    if |u| <= maxSegments {
      assert u[..k] == u;
      forall r | 0 <= r < |keys|
        ensures keys[r] in segs
      {
        assert keys[r] in u;
      }
    } else {
      var r := IndexOf(keys, u[k]);
      assert u[k] !in u[..k];
      assert keys[r] !in segs;
    }
  }

  /** Two rows of the same segment get angles in row order. */
  lemma RowAnglesIncreaseWithinSegment(keys: seq<Cell>, maxSegments: nat, tau: real, r1: nat, r2: nat)
    requires keys != [] && maxSegments > 0 && tau > 0.0
    requires r1 < r2 < |keys| && keys[r1] == keys[r2]
    requires keys[r1] in GroupedLayout(keys, maxSegments, tau).segments
    ensures var layout := GroupedLayout(keys, maxSegments, tau);
      && PlacedCount(keys, layout.segments, r1) < PlacedCount(keys, layout.segments, r2) < |layout.angles|
      && layout.angles[PlacedCount(keys, layout.segments, r1)] < layout.angles[PlacedCount(keys, layout.segments, r2)]
  {
    var layout := GroupedLayout(keys, maxSegments, tau);
    var k := SegmentCount(keys, maxSegments);
    GroupedRow(keys, maxSegments, tau, r1);
    GroupedRow(keys, maxSegments, tau, r2);
    PlacedCountMonotone(keys, layout.segments, r1, r2);
    RankInjective(keys, r1, r2);
    var i := SegmentIndex(keys, k, keys[r1]);
    assert layout.segments[keys[r1]] == SegmentFor(keys, k, tau, i) by {
      SegmentMapEntries(keys, k, tau, k);
    }
    SegmentForInWedge(keys, k, tau, i);
  }

  // ---------------------------------------------------------------------------
  // The routine

  /**
    `calculate_segment_positions(data, segment_column, max_segments)`.
    Without the grouping column every row gets an evenly spaced angle and no
    segment is made; with it, the two loops of the source fill
    `segment_positions` and the angle list. `2π / num_segments` fails exactly
    when the column is present and the frame is empty or the cap is 0.
  */
  method CalculateSegmentPositions(data: Frame, segmentColumn: string, maxSegments: nat, tau: real)
    returns (result: Result<Layout, LayoutError>)
    requires data.Valid()
    ensures segmentColumn !in data.columns ==>
      result == Success(Layout(EvenAngles(data.length, tau), [], map[]))
    ensures segmentColumn in data.columns ==>
      (result.Failure? <==> data.length == 0 || maxSegments == 0)
    ensures segmentColumn in data.columns && result.Success? ==>
      data.length > 0 && maxSegments > 0
      && result.value == GroupedLayout(data.columns[segmentColumn], maxSegments, tau)
  {
    if segmentColumn !in data.columns {
      return Success(Layout(EvenAngles(data.length, tau), [], map[]));
    }
    var keys := data.columns[segmentColumn];
    var segments := Unique(keys);
    var numSegments := Min(|segments|, maxSegments);
    assert numSegments == SegmentCount(keys, maxSegments);
    if numSegments == 0 {
      return Failure(ZeroDivision);
    }
    var order, segmentPositions := LayOutSegments(keys, numSegments, tau);
    var angles := AssignAngles(keys, segmentPositions);
    return Success(Layout(angles, order, segmentPositions));
  }

  /**
    The loop over the kept keys: each of the first numSegments distinct keys, in
    first-appearance order, gets its wedge and the positions of its rows.
  */
  method LayOutSegments(keys: seq<Cell>, numSegments: nat, tau: real)
    returns (order: seq<Cell>, segmentPositions: map<Cell, SegmentInfo>)
    requires 0 < numSegments <= |Unique(keys)|
    ensures order == Unique(keys)[..numSegments]
    ensures segmentPositions == SegmentMap(keys, numSegments, tau, numSegments)
  {
    var segments := Unique(keys);
    var segmentAngle := SegmentAngle(tau, numSegments);
    order := [];
    segmentPositions := map[];
    var i := 0;
    while i < numSegments
      invariant i <= numSegments
      invariant order == segments[..i]
      invariant segmentPositions == SegmentMap(keys, numSegments, tau, i)
    {
      var segment := segments[i];
      var baseAngle := BaseAngle(i, segmentAngle);
      var assetsInSegment := Count(keys, segment);
      var positions := Positions(baseAngle, segmentAngle, assetsInSegment);
      SegmentMapStep(keys, numSegments, tau, i);
      segmentPositions := segmentPositions[segment := SegmentInfo(baseAngle, baseAngle + segmentAngle, positions)];
      assert segments[..i + 1] == segments[..i] + [segment];
      order := order + [segment];
      i := i + 1;
    }
  }

  /**
    The loop over the rows: in row order, each row whose key owns a segment
    receives the position of its segment at the row's place among that
    segment's rows, provided the segment has that many positions.
  */
  method AssignAngles(keys: seq<Cell>, segmentPositions: map<Cell, SegmentInfo>) returns (angles: seq<real>)
    ensures angles == PlacedAngles(keys, segmentPositions, |keys|)
  {
    angles := [];
    var row := 0;
    while row < |keys|
      invariant row <= |keys|
      invariant angles == PlacedAngles(keys, segmentPositions, row)
    {
      var segment := keys[row];
      if segment in segmentPositions {
        var assetIdx := Rank(keys, row);
        var positions := segmentPositions[segment].positions;
        if assetIdx < |positions| {
          angles := angles + [positions[assetIdx]];
        }
      }
      row := row + 1;
    }
  }
}
