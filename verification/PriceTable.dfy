/** The price table: halving edges, chords of the quote between them, and their suffix maxima. */
module PriceTable {
  import opened Arith
  import opened Outcome
  import opened Fixed

  const PRICE_FLOOR: nat := 100_000

  datatype Part = Part(start: u64, slope: real)

  type Sampler = u64 -> Option<u64>

  predicate Halves(c: u64, lb: u64) {
    c / 2 > PRICE_FLOOR && c / 2 > lb
  }

  /** The edges up to `c`, ascending: `lb`, then every halving of `c` above both floors, then `c`. */
  function EdgesTo(c: u64, lb: u64): (edges: seq<u64>)
    requires lb < c
    ensures |edges| >= 2 && edges[0] == lb && edges[|edges| - 1] == c
    ensures forall i, j :: 0 <= i < j < |edges| ==> edges[i] < edges[j]
    decreases c
  {
    if Halves(c, lb) then EdgesTo(c / 2, lb) + [c] else [lb, c]
  }

  lemma HalvedAgain(c: nat, k: nat)
    ensures Pow(2, k) > 0 && c / 2 / Pow(2, k) == c / Pow(2, k + 1) <= c / 2
  {
    PowPositive(2, k);
    DivDiv(c, 2, Pow(2, k));
    DivBounds(c / 2, Pow(2, k));
    MulMono(1, Pow(2, k), c / 2 / Pow(2, k));
  }

  /** A halving of `c`, rounded down, above both floors. */
  ghost predicate Halving(c: nat, lb: nat, e: nat, k: nat) {
    k > 0 && Pow(2, k) > 0 && e == c / Pow(2, k) && e > PRICE_FLOOR && e > lb
  }

  /** The edges are the two bounds and every halving of the upper one above the floor and the lower. */
  lemma {:induction false} EdgesAre(c: u64, lb: u64, e: u64)
    requires lb < c
    ensures e in EdgesTo(c, lb) <==> e == lb || e == c || exists k: nat :: Halving(c, lb, e, k)
    decreases c
  {
    HalvedAgain(c, 0);
    assert Pow(2, 1) == 2;
    if Halves(c, lb) {
      EdgesAre(c / 2, lb, e);
      assert Halving(c, lb, c / 2, 1);
      if k: nat :| Halving(c / 2, lb, e, k) {
        HalvedAgain(c, k);
        assert Halving(c, lb, e, k + 1);
      }
      if k: nat :| Halving(c, lb, e, k) {
        HalvedAgain(c, k - 1);
        assert k > 1 ==> Halving(c / 2, lb, e, k - 1);
      }
    } else if k: nat :| Halving(c, lb, e, k) {
      HalvedAgain(c, k - 1);
    }
  }

  function Reversed(s: seq<u64>): seq<u64> {
    if s == [] then [] else Reversed(s[1..]) + [s[0]]
  }

  /** The halving loop collects the edges downwards; they are distinct, so sorting reverses them. */
  method Edges(lb: u64, ub: u64) returns (edges: seq<u64>)
    requires lb < ub
    ensures edges == EdgesTo(ub, lb)
  {
    var down := [ub];
    var c := ub;
    while Halves(c, lb)
      invariant down != [] && down[|down| - 1] == c && lb < c
      invariant EdgesTo(ub, lb) == EdgesTo(c, lb) + Reversed(down[..|down| - 1])
      decreases c
    {
      c := c / 2;
      ReversedAppend(down[..|down| - 1], down[|down| - 1]);
      assert down == down[..|down| - 1] + [down[|down| - 1]];
      down := down + [c];
      assert down[..|down| - 1] == down[..|down| - 2] + [down[|down| - 2]];
    }
    ReversedAppend(down[..|down| - 1], c);
    assert down == down[..|down| - 1] + [c];
    ReversedAppend(down, lb);
    edges := Reversed(down + [lb]);
  }

  lemma {:induction false} ReversedAppend(s: seq<u64>, x: u64)
    ensures Reversed(s + [x]) == [x] + Reversed(s)
  {
    if s != [] {
      ReversedAppend(s[1..], x);
      assert (s + [x])[1..] == s[1..] + [x];
    }
  }

  /** Output atoms per input atom across a window. */
  function Slope(gain: nat, width: nat): (r: real)
    requires width > 0
    ensures r * width as real == gain as real
    ensures gain > 0 ==> r > 0.0
  {
    gain as real / width as real
  }

  /** The chord between two edges, kept when both ends quote and the output rises. */
  function Chord(a: u64, b: u64, quote: Sampler): seq<Part>
    requires a < b
  {
    match (quote(a), quote(b))
    case (Some(oa), Some(ob)) =>
      if ob > oa then [Part(a, Slope(ob - oa, b - a))] else []
    case _ => []
  }

  ghost predicate Ascending(edges: seq<u64>) {
    forall i, j :: 0 <= i < j < |edges| ==> edges[i] < edges[j]
  }

  function Chords(edges: seq<u64>, quote: Sampler): seq<Part>
    requires Ascending(edges)
  {
    if |edges| < 2 then [] else Chord(edges[0], edges[1], quote) + Chords(edges[1..], quote)
  }

  function Steeper(a: real, b: real): real {
    if a < b then b else a
  }

  /** Every slope raised to the largest at or after it. */
  function SuffixMaxima(parts: seq<Part>): (r: seq<Part>)
    ensures |r| == |parts|
  {
    if |parts| <= 1 then parts
    else
      var rest := SuffixMaxima(parts[1..]);
      [Part(parts[0].start, Steeper(parts[0].slope, rest[0].slope))] + rest
  }

  /** The in-place pass from the back. */
  method RaiseToSuffixMaxima(a: array<Part>)
    modifies a
    ensures a[..] == SuffixMaxima(old(a[..]))
  {
    var i := a.Length - 1;
    ghost var was := a[..];
    assert a.Length > 0 ==> a[i..] == was[i..];
    while i > 0
      invariant a.Length == 0 || 0 <= i < a.Length
      invariant a.Length > 0 ==> a[i..] == SuffixMaxima(was[i..])
      invariant a.Length > 0 ==> a[..i] == was[..i]
    {
      i := i - 1;
      assert was[i..][1..] == was[i + 1..];
      assert a[i] == a[..i + 1][i] == was[i];
      var next := a[i + 1].slope;
      if a[i].slope < next {
        a[i] := Part(a[i].start, next);
      }
      assert a[i..] == [a[i]] + a[i + 1..];
    }
    assert a.Length > 0 ==> a[0..] == a[..] && was[0..] == was;
  }

  /** Collects the chords window by window. */
  method CollectChords(edges: seq<u64>, quote: Sampler) returns (parts: seq<Part>)
    requires Ascending(edges) && |edges| >= 2
    ensures parts == Chords(edges, quote)
  {
    hide Chord, Chords, Ascending;
    parts := [];
    AscendingFrom(edges, 0);
    assert edges[0..] == edges;
    for i := 0 to |edges| - 1
      invariant Ascending(edges[i..]) && parts + Chords(edges[i..], quote) == Chords(edges, quote)
    {
      ChordsStep(edges, quote, i);
      Regroup(parts, Chord(edges[i], edges[i + 1], quote), Chords(edges[i + 1..], quote));
      parts := parts + Chord(edges[i], edges[i + 1], quote);
    }
    ChordsEnd(edges[|edges| - 1..], quote);
  }

  lemma AscendingFrom(edges: seq<u64>, i: nat)
    requires Ascending(edges) && i <= |edges|
    ensures Ascending(edges[i..])
    ensures i + 1 < |edges| ==> edges[i] < edges[i + 1]
  {
  }

  lemma ChordsStep(edges: seq<u64>, quote: Sampler, i: nat)
    requires Ascending(edges) && i + 1 < |edges|
    ensures Ascending(edges[i..]) && Ascending(edges[i + 1..]) && edges[i] < edges[i + 1]
    ensures Chords(edges[i..], quote) == Chord(edges[i], edges[i + 1], quote) + Chords(edges[i + 1..], quote)
  {
    AscendingFrom(edges, i);
    AscendingFrom(edges, i + 1);
    hide Chord, Ascending;
    assert edges[i..][1..] == edges[i + 1..];
  }

  lemma ChordsEnd(edges: seq<u64>, quote: Sampler)
    requires Ascending(edges) && |edges| == 1
    ensures Chords(edges, quote) == []
  {
  }

  lemma Regroup(a: seq<Part>, b: seq<Part>, c: seq<Part>)
    ensures a + (b + c) == a + b + c
  {
  }

  method PriceParts(bounds: Option<(u64, u64)>, quote: Sampler) returns (parts: seq<Part>)
    ensures parts == Table(bounds, quote)
  {
    if bounds.None? || bounds.value.1 <= bounds.value.0 {
      return [];
    }
    hide Chords, SuffixMaxima;
    var edges := Edges(bounds.value.0, bounds.value.1);
    var raw := CollectChords(edges, quote);
    var a := new Part[|raw|](i requires 0 <= i < |raw| => raw[i]);
    assert a[..] == raw;
    RaiseToSuffixMaxima(a);
    return a[..];
  }

  function Table(bounds: Option<(u64, u64)>, quote: Sampler): seq<Part> {
    if bounds.None? || bounds.value.1 <= bounds.value.0 then []
    else SuffixMaxima(Chords(EdgesTo(bounds.value.1, bounds.value.0), quote))
  }

  /** The price reported for an amount: that of the last part starting at or before it, else the first. */
  function PriceAt(parts: seq<Part>, amount: u64): real {
    if parts == [] then 0.0
    else if |parts| == 1 || amount >= parts[|parts| - 1].start then parts[|parts| - 1].slope
    else PriceAt(parts[..|parts| - 1], amount)
  }

  // ---------------------------------------------------------------- properties

  /** Ascending starts, positive slopes that never rise. */
  ghost predicate WellShaped(parts: seq<Part>) {
    && (forall i :: 0 <= i < |parts| ==> parts[i].slope > 0.0)
    && (forall i, j :: 0 <= i < j < |parts| ==>
          parts[i].start < parts[j].start && parts[i].slope >= parts[j].slope)
  }

  lemma ChordShape(a: u64, b: u64, quote: Sampler)
    requires a < b
    ensures |Chord(a, b, quote)| <= 1
    ensures Chord(a, b, quote) != [] ==> Chord(a, b, quote)[0].start == a && Chord(a, b, quote)[0].slope > 0.0
  {
  }

  ghost predicate RisingFrom(parts: seq<Part>, start: u64) {
    && (forall i :: 0 <= i < |parts| ==> parts[i].slope > 0.0 && start <= parts[i].start)
    && (forall i, j :: 0 <= i < j < |parts| ==> parts[i].start < parts[j].start)
  }

  lemma Prepend(head: seq<Part>, tail: seq<Part>, start: u64)
    requires |head| <= 1 && (head != [] ==> head[0].start == start && head[0].slope > 0.0)
    requires forall i :: 0 <= i < |tail| ==> start < tail[i].start
    requires RisingFrom(tail, start)
    ensures RisingFrom(head + tail, start)
  {
  }

  lemma {:induction false} ChordsShape(edges: seq<u64>, quote: Sampler)
    requires Ascending(edges)
    ensures edges != [] ==> RisingFrom(Chords(edges, quote), edges[0])
  {
    hide Slope;
    if |edges| >= 2 {
      ChordsShape(edges[1..], quote);
      assert forall i :: 0 <= i < |edges[1..]| ==> edges[1..][i] == edges[i + 1];
      ChordShape(edges[0], edges[1], quote);
      Prepend(Chord(edges[0], edges[1], quote), Chords(edges[1..], quote), edges[0]);
    }
  }

  /** Slope `i` of the result is a slope of the raw table at or after `i`. */
  ghost predicate Attained(slope: real, parts: seq<Part>, i: nat) {
    exists j :: i <= j < |parts| && slope == parts[j].slope
  }

  ghost predicate AllAttained(r: seq<Part>, parts: seq<Part>) {
    forall i {:trigger Attained(r[i].slope, parts, i)} :: 0 <= i < |r| ==> Attained(r[i].slope, parts, i)
  }

  /** Slopes that never rise and are nowhere below those of the raw table from there on. */
  ghost predicate Covers(r: seq<Part>, parts: seq<Part>)
    requires |r| == |parts|
  {
    forall i, j :: 0 <= i <= j < |r| ==> r[i].slope >= parts[j].slope && r[i].slope >= r[j].slope
  }

  /** Starts are unchanged, slopes are maxima over what follows, and each maximum is attained. */
  ghost predicate AreSuffixMaxima(r: seq<Part>, parts: seq<Part>) {
    && |r| == |parts|
    && (forall i :: 0 <= i < |r| ==> r[i].start == parts[i].start)
    && AllAttained(r, parts) && Covers(r, parts)
  }

  lemma {:induction false} SuffixMaximaAre(parts: seq<Part>)
    ensures AreSuffixMaxima(SuffixMaxima(parts), parts)
  {
    if |parts| == 1 {
      assert Attained(parts[0].slope, parts, 0);
    } else if |parts| > 1 {
      SuffixMaximaAre(parts[1..]);
      var rest := SuffixMaxima(parts[1..]);
      hide AreSuffixMaxima;
      ExtendMaxima(rest, parts[1..], parts[0]);
      assert [parts[0]] + parts[1..] == parts;
    }
  }

  function Extended(rest: seq<Part>, first: Part): seq<Part>
    requires rest != []
  {
    [Part(first.start, Steeper(first.slope, rest[0].slope))] + rest
  }

  lemma ExtendMaxima(rest: seq<Part>, tail: seq<Part>, first: Part)
    requires AreSuffixMaxima(rest, tail) && rest != []
    ensures AreSuffixMaxima(Extended(rest, first), [first] + tail)
  {
    ExtendAttained(rest, tail, first);
    ExtendCovers(rest, tail, first);
    hide AllAttained, Covers;
  }

  lemma ExtendAttained(rest: seq<Part>, tail: seq<Part>, first: Part)
    requires |rest| == |tail| && AllAttained(rest, tail) && rest != []
    ensures AllAttained(Extended(rest, first), [first] + tail)
  {
    var r, parts := Extended(rest, first), [first] + tail;
    forall i | 0 <= i < |r|
      ensures Attained(r[i].slope, parts, i)
    {
      if i == 0 && r[0].slope == first.slope {
        assert parts[0].slope == first.slope;
      } else {
        hide AllAttained;
        StillAttained(rest, tail, first, Max(i - 1, 0), i);
      }
    }
  }

  lemma ExtendCovers(rest: seq<Part>, tail: seq<Part>, first: Part)
    requires |rest| == |tail| && Covers(rest, tail) && rest != []
    ensures Covers(Extended(rest, first), [first] + tail)
  {
    var r, parts := Extended(rest, first), [first] + tail;
    forall i, j | 0 <= i <= j < |r|
      ensures r[i].slope >= parts[j].slope && r[i].slope >= r[j].slope
    {
      if 0 < i {
        assert rest[i - 1].slope >= tail[j - 1].slope;
      } else if 0 < j {
        assert rest[0].slope >= tail[j - 1].slope;
      }
    }
  }

  lemma StillAttained(rest: seq<Part>, tail: seq<Part>, first: Part, k: nat, i: nat)
    requires |rest| == |tail| && AllAttained(rest, tail) && k < |rest| && i <= k + 1
    ensures Attained(rest[k].slope, [first] + tail, i)
  {
    assert Attained(rest[k].slope, tail, k);
    var j :| k <= j < |tail| && rest[k].slope == tail[j].slope;
    assert ([first] + tail)[j + 1] == tail[j];
  }

  /** Suffix maxima of a rising table make a well-shaped one. */
  lemma MaximaWellShaped(r: seq<Part>, parts: seq<Part>, start: u64)
    requires AreSuffixMaxima(r, parts) && RisingFrom(parts, start)
    ensures WellShaped(r)
  {
    hide Attained;
    forall i | 0 <= i < |r|
      ensures r[i].slope > 0.0
    {
      assert r[i].slope >= parts[i].slope;
    }
  }

  lemma TableWellShaped(bounds: Option<(u64, u64)>, quote: Sampler)
    ensures WellShaped(Table(bounds, quote))
  {
    if bounds.Some? && bounds.value.0 < bounds.value.1 {
      hide Chords, SuffixMaxima;
      var edges := EdgesTo(bounds.value.1, bounds.value.0);
      var raw := Chords(edges, quote);
      ChordsShape(edges, quote);
      SuffixMaximaAre(raw);
      MaximaWellShaped(SuffixMaxima(raw), raw, edges[0]);
    }
  }

  /** Which part prices an amount. */
  lemma {:induction false} PriceIsAPart(parts: seq<Part>, amount: u64) returns (i: nat)
    requires WellShaped(parts) && parts != []
    ensures i < |parts| && PriceAt(parts, amount) == parts[i].slope
    ensures parts[i].start <= amount || i == 0
    ensures forall j :: i < j < |parts| ==> amount < parts[j].start
  {
    if |parts| == 1 || amount >= parts[|parts| - 1].start {
      i := |parts| - 1;
    } else {
      i := PriceIsAPart(parts[..|parts| - 1], amount);
    }
  }

  /** The reported price never rises with the amount, and is positive wherever the table is not empty. */
  lemma PriceNonIncreasing(parts: seq<Part>, x: u64, y: u64)
    requires WellShaped(parts) && x <= y
    ensures PriceAt(parts, x) >= PriceAt(parts, y)
    ensures parts != [] ==> PriceAt(parts, y) > 0.0
  {
    if parts != [] {
      var i := PriceIsAPart(parts, x);
      var j := PriceIsAPart(parts, y);
    }
  }

  ghost predicate QuotesAllOf(edges: seq<u64>, quote: Sampler) {
    forall i :: 0 <= i < |edges| ==> quote(edges[i]).Some?
  }

  /** A part is the rising chord from `a` to `b`. */
  ghost predicate IsChord(part: Part, a: u64, b: u64, quote: Sampler) {
    && quote(a).Some? && quote(b).Some?
    && part.start == a && part.slope * (b - a) as real == (quote(b).value - quote(a).value) as real
  }

  lemma RisingChord(a: u64, b: u64, quote: Sampler)
    requires a < b && quote(a).Some? && quote(b).Some? && quote(a).value < quote(b).value
    ensures |Chord(a, b, quote)| == 1 && IsChord(Chord(a, b, quote)[0], a, b, quote)
  {
    hide Slope;
  }

  /** A rising window is a part of the raw table. */
  lemma {:induction false} RisingWindowIsPart(edges: seq<u64>, quote: Sampler, i: nat) returns (k: nat)
    requires Ascending(edges) && i + 1 < |edges|
    requires quote(edges[i]).Some? && quote(edges[i + 1]).Some?
    requires quote(edges[i]).value < quote(edges[i + 1]).value
    ensures k < |Chords(edges, quote)|
    ensures IsChord(Chords(edges, quote)[k], edges[i], edges[i + 1], quote)
  {
    AscendingFrom(edges, 0);
    AscendingFrom(edges, 1);
    hide Chord, IsChord, Ascending;
    var rest := edges[1..];
    if i == 0 {
      k := 0;
      RisingChord(edges[0], edges[1], quote);
    } else {
      assert rest[i - 1] == edges[i] && rest[i] == edges[i + 1];
      k := RisingWindowIsPart(rest, quote, i - 1);
      k := k + |Chord(edges[0], edges[1], quote)|;
    }
  }

  /** Across one window the output rises by at most the price at or before its left edge times its width. */
  lemma WindowGain(edges: seq<u64>, quote: Sampler, i: nat, x: u64)
    requires Ascending(edges) && QuotesAllOf(edges, quote) && i + 1 < |edges| && x <= edges[i]
    ensures (quote(edges[i + 1]).value - quote(edges[i]).value) as real
         <= PriceAt(SuffixMaxima(Chords(edges, quote)), x) * (edges[i + 1] - edges[i]) as real
  {
    hide Chords, SuffixMaxima, PriceAt;
    var raw := Chords(edges, quote);
    var parts := SuffixMaxima(raw);
    ChordsShape(edges, quote);
    SuffixMaximaAre(raw);
    MaximaWellShaped(parts, raw, edges[0]);
    var gain, width := quote(edges[i + 1]).value - quote(edges[i]).value, edges[i + 1] - edges[i];
    if gain > 0 {
      var k := RisingWindowIsPart(edges, quote, i);
      PriceCovers(parts, raw, x, k);
      Within(gain, raw[k].slope, PriceAt(parts, x), width);
    } else {
      PriceNotNegative(parts, x);
      Within(gain, 0.0, PriceAt(parts, x), width);
    }
  }

  lemma PriceNotNegative(parts: seq<Part>, x: u64)
    requires WellShaped(parts)
    ensures PriceAt(parts, x) >= 0.0
  {
    PriceNonIncreasing(parts, x, x);
  }

  /** The price at `x` is at least every raw slope from `x` on. */
  lemma PriceCovers(parts: seq<Part>, raw: seq<Part>, x: u64, k: nat)
    requires AreSuffixMaxima(parts, raw) && WellShaped(parts) && k < |raw| && x <= raw[k].start
    ensures PriceAt(parts, x) >= raw[k].slope
  {
    hide Attained;
    var p := PriceIsAPart(parts, x);
    assert p <= k;
    assert parts[p].slope >= raw[k].slope;
  }

  lemma Within(gain: int, slope: real, price: real, width: nat)
    requires gain as real <= slope * width as real && slope <= price
    ensures gain as real <= price * width as real
  {
  }

  lemma AddGains(g: int, h: int, price: real, v: nat, w: nat)
    requires g as real <= price * v as real && h as real <= price * w as real
    ensures (g + h) as real <= price * (v + w) as real
  {
    assert (v + w) as real == v as real + w as real;
    assert price * (v as real + w as real) == price * v as real + price * w as real;
  }

  /**
   When every edge quotes, the output gained between any two edges is at most the price at the left
   one times the distance.
   */
  lemma {:induction false} GainWithinPrice(edges: seq<u64>, quote: Sampler, i: nat, j: nat)
    requires Ascending(edges) && QuotesAllOf(edges, quote) && i <= j < |edges|
    ensures (quote(edges[j]).value - quote(edges[i]).value) as real
         <= PriceAt(SuffixMaxima(Chords(edges, quote)), edges[i]) * (edges[j] - edges[i]) as real
    decreases j
  {
    hide PriceAt, Chords, SuffixMaxima;
    if i < j {
      GainWithinPrice(edges, quote, i, j - 1);
      WindowGain(edges, quote, j - 1, edges[i]);
      AddGains(quote(edges[j - 1]).value - quote(edges[i]).value, quote(edges[j]).value - quote(edges[j - 1]).value,
               PriceAt(SuffixMaxima(Chords(edges, quote)), edges[i]),
               edges[j - 1] - edges[i], edges[j] - edges[j - 1]);
    }
  }

  // ---------------------------------------------------------------- when the price is a true derivative

  ghost predicate RisesThroughout(edges: seq<u64>, quote: Sampler) {
    && Ascending(edges) && |edges| >= 2 && QuotesAllOf(edges, quote)
    && forall i :: 0 <= i < |edges| - 1 ==> quote(edges[i]).value < quote(edges[i + 1]).value
  }

  ghost function Gain(edges: seq<u64>, quote: Sampler, i: nat): real
    requires QuotesAllOf(edges, quote) && i + 1 < |edges|
  {
    (quote(edges[i + 1]).value - quote(edges[i]).value) as real
  }

  ghost function Width(edges: seq<u64>, i: nat): (w: real)
    requires Ascending(edges) && i + 1 < |edges|
    ensures w > 0.0
  {
    (edges[i + 1] - edges[i]) as real
  }

  lemma RisesFromSecond(edges: seq<u64>, quote: Sampler)
    requires RisesThroughout(edges, quote) && |edges| > 2
    ensures RisesThroughout(edges[1..], quote)
  {
    var rest := edges[1..];
    assert forall k :: 0 <= k < |rest| ==> rest[k] == edges[k + 1];
  }

  /** When every window rises, part `i` is window `i`. */
  lemma {:induction false} PartsAreWindows(edges: seq<u64>, quote: Sampler, i: nat)
    requires RisesThroughout(edges, quote) && i < |edges| - 1
    ensures |Chords(edges, quote)| == |edges| - 1
    ensures IsChord(Chords(edges, quote)[i], edges[i], edges[i + 1], quote)
  {
    RisingChord(edges[0], edges[1], quote);
    AscendingFrom(edges, 1);
    var rest := edges[1..];
    if |edges| > 2 {
      RisesFromSecond(edges, quote);
    }
    hide Chord, IsChord, RisesThroughout;
    if |edges| == 2 {
      assert Chords(rest, quote) == [];
    } else {
      PartsAreWindows(rest, quote, Max(i - 1, 0));
      assert i > 0 ==> rest[i - 1] == edges[i] && rest[i] == edges[i + 1];
    }
  }

  /** The price at the right edge of window `i` is at most the window's chord. */
  ghost predicate ChordAbovePrice(edges: seq<u64>, quote: Sampler, i: nat)
    requires RisesThroughout(edges, quote) && i + 1 < |edges|
  {
    PriceAt(SuffixMaxima(Chords(edges, quote)), edges[i + 1]) * Width(edges, i) <= Gain(edges, quote, i)
  }

  /** The sampled output curve is concave. */
  ghost predicate Concave(edges: seq<u64>, quote: Sampler)
    requires RisesThroughout(edges, quote)
  {
    forall i, j :: 0 <= i <= j < |Chords(edges, quote)| ==> Chords(edges, quote)[i].slope >= Chords(edges, quote)[j].slope
  }

  /** An amount of window `i`, or beyond the last window's left edge, is priced by part `i`. */
  lemma PriceInWindow(edges: seq<u64>, quote: Sampler, i: nat, x: u64)
    requires RisesThroughout(edges, quote) && i < |edges| - 1
    requires edges[i] <= x && (i + 2 < |edges| ==> x < edges[i + 1])
    ensures |SuffixMaxima(Chords(edges, quote))| == |Chords(edges, quote)| == |edges| - 1
    ensures PriceAt(SuffixMaxima(Chords(edges, quote)), x) == SuffixMaxima(Chords(edges, quote))[i].slope
  {
    hide Chords, SuffixMaxima, Attained;
    var raw := Chords(edges, quote);
    var parts := SuffixMaxima(raw);
    PartsAreWindows(edges, quote, i);
    ChordsShape(edges, quote);
    SuffixMaximaAre(raw);
    MaximaWellShaped(parts, raw, edges[0]);
    var p := PriceIsAPart(parts, x);
    assert parts[i].start == edges[i];
    if i + 2 < |edges| {
      PartsAreWindows(edges, quote, i + 1);
      assert parts[i + 1].start == edges[i + 1];
    }
    assert !(p < i) && !(i < p);
  }

  /**
   Between neighbouring grid edges, a rising grid's prices at right edges are at most the chords exactly
   when the sampled outputs are concave.
   */
  lemma BracketsIffConcave(edges: seq<u64>, quote: Sampler)
    requires RisesThroughout(edges, quote)
    ensures (forall i :: 0 <= i < |edges| - 2 ==> ChordAbovePrice(edges, quote, i)) <==> Concave(edges, quote)
  {
    hide Chords, ChordAbovePrice;
    var raw := Chords(edges, quote);
    PartsAreWindows(edges, quote, 0);
    if Concave(edges, quote) {
      forall i | 0 <= i < |edges| - 2
        ensures ChordAbovePrice(edges, quote, i)
      {
        WindowBracket(edges, quote, i);
      }
    }
    if forall i :: 0 <= i < |edges| - 2 ==> ChordAbovePrice(edges, quote, i) {
      forall i | 0 <= i < |raw| - 1
        ensures raw[i].slope >= raw[i + 1].slope
      {
        WindowBracket(edges, quote, i);
      }
      FallsStepwise(raw);
    }
  }

  lemma WindowBracket(edges: seq<u64>, quote: Sampler, i: nat)
    requires RisesThroughout(edges, quote) && i + 2 < |edges|
    ensures |Chords(edges, quote)| == |edges| - 1
    ensures Concave(edges, quote) ==> ChordAbovePrice(edges, quote, i)
    ensures ChordAbovePrice(edges, quote, i) ==> Chords(edges, quote)[i].slope >= Chords(edges, quote)[i + 1].slope
  {
    hide Chords, SuffixMaxima, PriceAt, Width, Gain;
    var raw := Chords(edges, quote);
    WindowChord(edges, quote, i);
    PriceInWindow(edges, quote, i + 1, edges[i + 1]);
    SuffixMaximaAre(raw);
    var steepest := SuffixMaxima(raw)[i + 1].slope;
    Ordered(steepest, raw[i].slope, Width(edges, i));
    assert ChordAbovePrice(edges, quote, i) <==> steepest <= raw[i].slope;
    assert steepest >= raw[i + 1].slope;
    assert Attained(steepest, raw, i + 1);
    var j :| i + 1 <= j < |raw| && steepest == raw[j].slope;
  }

  lemma WindowChord(edges: seq<u64>, quote: Sampler, i: nat)
    requires RisesThroughout(edges, quote) && i + 1 < |edges|
    ensures |Chords(edges, quote)| == |edges| - 1
    ensures Chords(edges, quote)[i].slope * Width(edges, i) == Gain(edges, quote, i)
  {
    hide Chords;
    PartsAreWindows(edges, quote, i);
  }

  lemma Ordered(a: real, b: real, w: real)
    requires w > 0.0
    ensures a <= b <==> a * w <= b * w
  {
  }

  lemma {:induction false} FallsStepwise(raw: seq<Part>)
    requires forall i :: 0 <= i < |raw| - 1 ==> raw[i].slope >= raw[i + 1].slope
    ensures forall i, j :: 0 <= i <= j < |raw| ==> raw[i].slope >= raw[j].slope
  {
    if raw != [] {
      var n := |raw| - 1;
      FallsStepwise(raw[..n]);
      forall i | 0 <= i < |raw|
        ensures raw[i].slope >= raw[n].slope
      {
        if i < n {
          assert raw[..n][i].slope >= raw[..n][n - 1].slope;
        }
      }
    }
  }
}
