/**
 * The run accumulator of `DiffFormatter` as pure transitions on a value: the open run
 * (`start`, the committed `buffer`, the pending `matched` bytes) together with the records
 * written so far. The class in module `Formatter` is proved to follow these transitions.
 */
module Accumulator {
  import opened Text

  /** `max_run`: a run length that forces a flush, or no cap at all (`math.inf`). */
  datatype Bound = Finite(n: nat) | Unbounded

  /** The two thresholds of a dialect. */
  datatype Limits = Limits(maxRun: Bound, maxGap: nat)

  /** One record handed to the formatter: the run's start address and its bytes. */
  datatype Record = Record(addr: nat, data: seq<byte>)

  /** The fields `start`, `buffer` and `match` of a `DiffFormatter`. */
  datatype Run = Run(start: nat, buffer: seq<byte>, matched: seq<byte>)

  /** A run together with every record flushed so far, in order. */
  datatype State = State(run: Run, written: seq<Record>)

  /** What the scanner feeds in: `add_diff(addr, byte)` or `add_same(byte)`. */
  datatype Event = Differ(addr: nat, byte: byte) | Same(byte: byte)

  /** The state invariant: no pending matches without a run, and never more than `maxGap` of them. */
  ghost predicate Valid(lim: Limits, r: Run)
  {
    && (r.buffer == [] ==> r.matched == [])
    && |r.matched| <= lim.maxGap
  }

  ghost predicate Idle(r: Run)
  {
    r.buffer == [] && r.matched == []
  }

  /** `flush`: write the open run, if any, then clear `buffer` and `match`. */
  function Flush(s: State): (r: State)
    ensures r.run.buffer == [] && r.run.start == s.run.start
    ensures s.written <= r.written && |r.written| <= |s.written| + 1
    ensures |r.written| > |s.written| <==> s.run.buffer != []
    ensures |r.written| > |s.written| ==> Idle(r.run) && r.written[|s.written|] == Record(s.run.start, s.run.buffer)
  {
    if s.run.buffer == [] then s
    else State(Run(s.run.start, [], []), s.written + [Record(s.run.start, s.run.buffer)])
  }

  /**
   * `add_diff`: start a run at `addr`, or commit the pending matches and the byte to the open run;
   * the run cap is checked only in the second case.
   */
  function AddDiff(lim: Limits, s: State, addr: nat, byte: byte): (r: State)
    ensures s.written <= r.written && |r.written| <= |s.written| + 1
    ensures |r.written| == |s.written| ==> r.run.matched == [] && r.run.buffer != [] && r.run.buffer[|r.run.buffer| - 1] == byte
    ensures |r.written| > |s.written| ==>
      && Idle(r.run)
      && r.written[|s.written|] == Record(s.run.start, s.run.buffer + s.run.matched + [byte])
      && lim.maxRun == Finite(|r.written[|s.written|].data|)
  {
    if s.run.buffer == [] then State(Run(addr, [byte], []), s.written)
    else
      var grown := State(Run(s.run.start, s.run.buffer + s.run.matched + [byte], []), s.written);
      if lim.maxRun == Finite(|grown.run.buffer|) then Flush(grown) else grown
  }

  /** `add_same`: ignored outside a run; held as pending while the gap budget lasts; else a flush. */
  function AddSame(lim: Limits, s: State, byte: byte): (r: State)
    ensures s.written <= r.written && |r.written| <= |s.written| + 1
    ensures |r.written| == |s.written| ==> r.run.buffer == s.run.buffer && r.run.start == s.run.start
    ensures |r.written| > |s.written| ==>
      && Idle(r.run)
      && r.written[|s.written|] == Record(s.run.start, s.run.buffer)
      && |s.run.matched| >= lim.maxGap
  {
    if s.run.buffer == [] then s
    else if |s.run.matched| < lim.maxGap then State(Run(s.run.start, s.run.buffer, s.run.matched + [byte]), s.written)
    else Flush(s)
  }

  function Step(lim: Limits, s: State, e: Event): State
  {
    match e
    case Differ(addr, byte) => AddDiff(lim, s, addr, byte)
    case Same(byte) => AddSame(lim, s, byte)
  }

  /** The state after feeding a sequence of events, one after the other. */
  function Feed(lim: Limits, s: State, es: seq<Event>): (r: State)
    ensures s.written <= r.written
  {
    if es == [] then s else Step(lim, Feed(lim, s, es[..|es| - 1]), es[|es| - 1])
  }

  lemma FeedSnoc(lim: Limits, s: State, es: seq<Event>, e: Event)
    ensures Feed(lim, s, es + [e]) == Step(lim, Feed(lim, s, es), e)
  {
    assert (es + [e])[..|es|] == es;
  }

  lemma {:induction false} FeedAppend(lim: Limits, s: State, xs: seq<Event>, ys: seq<Event>)
    ensures Feed(lim, s, xs + ys) == Feed(lim, Feed(lim, s, xs), ys)
    decreases |ys|
  {
    if ys == [] {
      assert xs + ys == xs;
    } else {
      var init, last := ys[..|ys| - 1], ys[|ys| - 1];
      assert ys == init + [last];
      assert xs + ys == (xs + init) + [last];
      FeedSnoc(lim, s, xs + init, last);
      FeedAppend(lim, s, xs, init);
      FeedSnoc(lim, Feed(lim, s, xs), init, last);
    }
  }

  /** Every transition keeps the invariant, only appends to what was written, and writes only non-empty records. */
  lemma StepValid(lim: Limits, s: State, e: Event)
    requires Valid(lim, s.run)
    ensures Valid(lim, Step(lim, s, e).run)
    ensures s.written <= Step(lim, s, e).written
    ensures forall k :: |s.written| <= k < |Step(lim, s, e).written| ==> Step(lim, s, e).written[k].data != []
  {
  }

  lemma {:induction false} FeedValid(lim: Limits, s: State, es: seq<Event>)
    requires Valid(lim, s.run)
    ensures Valid(lim, Feed(lim, s, es).run)
    ensures s.written <= Feed(lim, s, es).written
    ensures forall k :: |s.written| <= k < |Feed(lim, s, es).written| ==> Feed(lim, s, es).written[k].data != []
  {
    if es != [] {
      var mid := Feed(lim, s, es[..|es| - 1]);
      FeedValid(lim, s, es[..|es| - 1]);
      StepValid(lim, mid, es[|es| - 1]);
    }
  }

  /** Flushing twice in a row writes nothing the second time. */
  lemma FlushIdempotent(s: State)
    ensures Flush(Flush(s)) == Flush(s)
    ensures Flush(s).run.buffer == [] && Flush(s).written == s.written + (if s.run.buffer == [] then [] else [Record(s.run.start, s.run.buffer)])
  {
  }

  /** Without a cap, `add_diff` never writes anything. */
  lemma UnboundedNeverCaps(lim: Limits, s: State, addr: nat, byte: byte)
    requires lim.maxRun == Unbounded
    ensures AddDiff(lim, s, addr, byte).written == s.written
    ensures AddDiff(lim, s, addr, byte).run.buffer == s.run.buffer + s.run.matched + [byte] || s.run.buffer == []
  {
  }

  // ---- The run cap ----

  /** With no gap tolerance and a cap of at least two, the open run stays below the cap. */
  ghost predicate Capped(n: nat, s: State)
  {
    && |s.run.buffer| < n
    && forall k :: 0 <= k < |s.written| ==> |s.written[k].data| <= n
  }

  lemma {:induction false} FeedCapped(lim: Limits, s: State, es: seq<Event>)
    requires lim.maxGap == 0 && lim.maxRun.Finite? && lim.maxRun.n >= 2
    requires Valid(lim, s.run) && Capped(lim.maxRun.n, s)
    ensures Capped(lim.maxRun.n, Feed(lim, s, es))
  {
    if es != [] {
      var mid := Feed(lim, s, es[..|es| - 1]);
      FeedCapped(lim, s, es[..|es| - 1]);
      FeedValid(lim, s, es[..|es| - 1]);
      assert mid.run.matched == [];
    }
  }

  /**
   * With `maxGap == 0` and a cap `n >= 2`, every record written holds at most `n` bytes
   * (for GameShark: one or two).
   */
  lemma RecordsWithinCap(lim: Limits, s: State, es: seq<Event>)
    requires lim.maxGap == 0 && lim.maxRun.Finite? && lim.maxRun.n >= 2
    requires Valid(lim, s.run) && Capped(lim.maxRun.n, s)
    ensures forall k :: 0 <= k < |Flush(Feed(lim, s, es)).written| ==> |Flush(Feed(lim, s, es)).written[k].data| <= lim.maxRun.n
  {
    FeedCapped(lim, s, es);
  }

  /**
   * The cap is an equality test made after an append to an open run: once the run holds at least
   * `n` bytes, `add_diff` behaves as if there were no cap at all.
   */
  lemma CapSkippedPastCap(g: nat, n: nat, s: State, a: nat, x: byte)
    requires |s.run.buffer| >= n
    ensures AddDiff(Limits(Finite(n), g), s, a, x) == AddDiff(Limits(Unbounded, g), s, a, x)
  {
  }

  /**
   * Committed pending matches can carry a run past the cap: with a cap of two and a gap of one,
   * a differing byte, a matching one and two differing ones leave one open run of four bytes.
   */
  lemma GapCarriesRunPastCap(a: nat, x: byte, y: byte, z: byte, w: byte)
    ensures var s := Feed(Limits(Finite(2), 1), State(Run(0, [], []), []), [Differ(a, x), Same(y), Differ(a + 2, z), Differ(a + 3, w)]);
      s.written == [] && s.run.buffer == [x, y, z, w]
  {
    var lim := Limits(Finite(2), 1);
    var s0 := State(Run(0, [], []), []);
    FeedSnoc(lim, s0, [Differ(a, x)], Same(y));
    assert [Differ(a, x), Same(y)] == [Differ(a, x)] + [Same(y)];
    assert [Differ(a, x), Same(y), Differ(a + 2, z)] == [Differ(a, x), Same(y)] + [Differ(a + 2, z)];
    FeedSnoc(lim, s0, [Differ(a, x), Same(y)], Differ(a + 2, z));
    assert [Differ(a, x), Same(y), Differ(a + 2, z), Differ(a + 3, w)] == [Differ(a, x), Same(y), Differ(a + 2, z)] + [Differ(a + 3, w)];
    FeedSnoc(lim, s0, [Differ(a, x), Same(y), Differ(a + 2, z)], Differ(a + 3, w));
  }

  /**
   * A cap of one never fires: the first byte of a run is not compared with the cap, and every
   * later length exceeds one, so any sequence of calls behaves as with no cap.
   */
  lemma {:induction false} CapOfOneNeverFires(g: nat, s: State, es: seq<Event>)
    ensures Feed(Limits(Finite(1), g), s, es) == Feed(Limits(Unbounded, g), s, es)
  {
    if es != [] {
      CapOfOneNeverFires(g, s, es[..|es| - 1]);
    }
  }

  // ---- Consecutive differing bytes under a cap of two ----

  function Diffs(a: nat, d: seq<byte>): (es: seq<Event>)
    ensures |es| == |d|
  {
    seq(|d|, i requires 0 <= i < |d| => Differ(a + i, d[i]))
  }

  /** The j-th pair of `d` at address `a + 2j`, the last one possibly a single byte. */
  ghost predicate PairedFrom(w: seq<Record>, a: nat, d: seq<byte>, count: nat)
  {
    && |w| == count
    && forall j :: 0 <= j < count ==> 2 * j < |d| && w[j] == Record(a + 2 * j, d[2 * j .. if 2 * j + 2 <= |d| then 2 * j + 2 else |d|])
  }

  /** After the first `m` of the consecutive differing bytes: `m / 2` pairs written, the odd byte open. */
  ghost predicate PairState(s: State, t: State, a: nat, d: seq<byte>, m: nat)
    requires m <= |d|
  {
    && s.written <= t.written
    && PairedFrom(t.written[|s.written|..], a, d[..m - m % 2], m / 2)
    && (m % 2 == 0 ==> Idle(t.run))
    && (m % 2 == 1 ==> t.run == Run(a + m - 1, [d[m - 1]], []))
  }

  lemma {:induction false} FeedPairs(lim: Limits, s: State, a: nat, d: seq<byte>, m: nat)
    requires lim == Limits(Finite(2), 0) && Idle(s.run) && m <= |d|
    ensures PairState(s, Feed(lim, s, Diffs(a, d)[..m]), a, d, m)
  {
    if m == 0 {
      assert Diffs(a, d)[..0] == [];
      assert s.written[|s.written|..] == [];
    } else {
      FeedPairs(lim, s, a, d, m - 1);
      FeedPairsStep(lim, s, a, d, m);
    }
  }

  lemma FeedPairsStep(lim: Limits, s: State, a: nat, d: seq<byte>, m: nat)
    requires lim == Limits(Finite(2), 0) && Idle(s.run) && 0 < m <= |d|
    requires PairState(s, Feed(lim, s, Diffs(a, d)[..m - 1]), a, d, m - 1)
    ensures PairState(s, Feed(lim, s, Diffs(a, d)[..m]), a, d, m)
  {
    var es := Diffs(a, d);
    assert es[..m] == es[..m - 1] + [es[m - 1]];
    FeedSnoc(lim, s, es[..m - 1], es[m - 1]);
    assert es[m - 1] == Differ(a + m - 1, d[m - 1]);
    if m % 2 == 0 {
      PairCompleted(lim, s, Feed(lim, s, es[..m - 1]), a, d, m);
    } else {
      var mid := Feed(lim, s, es[..m - 1]);
      assert d[..m - 1 - (m - 1) % 2] == d[..m - m % 2];
      assert Feed(lim, s, es[..m]) == State(Run(a + m - 1, [d[m - 1]], []), mid.written);
    }
  }

  /** The second byte of a pair reaches the cap and writes the pair. */
  lemma PairCompleted(lim: Limits, s: State, mid: State, a: nat, d: seq<byte>, m: nat)
    requires lim == Limits(Finite(2), 0) && 0 < m <= |d| && m % 2 == 0
    requires PairState(s, mid, a, d, m - 1)
    ensures PairState(s, Step(lim, mid, Differ(a + m - 1, d[m - 1])), a, d, m)
  {
    var rec := Record(a + m - 2, [d[m - 2], d[m - 1]]);
    assert mid.run == Run(a + m - 2, [d[m - 2]], []);
    assert mid.run.buffer + mid.run.matched + [d[m - 1]] == [d[m - 2], d[m - 1]];
    assert Step(lim, mid, Differ(a + m - 1, d[m - 1])) == State(Run(a + m - 2, [], []), mid.written + [rec]);
    SliceSnoc(s.written, mid.written, rec);
    PairsExtend(mid.written[|s.written|..], a, d, m);
  }

  lemma SliceSnoc<T>(p: seq<T>, w: seq<T>, x: T)
    requires p <= w
    ensures p <= w + [x] && (w + [x])[|p|..] == w[|p|..] + [x]
  {
  }

  /** Appending the pair that ends at an even `m` extends the pairing of `d[..m - 2]` to `d[..m]`. */
  lemma PairsExtend(w: seq<Record>, a: nat, d: seq<byte>, m: nat)
    requires 2 <= m <= |d| && m % 2 == 0
    requires PairedFrom(w, a, d[..m - 2], m / 2 - 1)
    ensures PairedFrom(w + [Record(a + m - 2, [d[m - 2], d[m - 1]])], a, d[..m], m / 2)
  {
    var w' := w + [Record(a + m - 2, [d[m - 2], d[m - 1]])];
    forall j | 0 <= j < m / 2
      ensures 2 * j < |d[..m]| && w'[j] == Record(a + 2 * j, d[..m][2 * j .. if 2 * j + 2 <= m then 2 * j + 2 else m])
    {
      if j < m / 2 - 1 {
        assert w'[j] == w[j];
        assert d[..m - 2][2 * j .. 2 * j + 2] == d[..m][2 * j .. 2 * j + 2];
      } else {
        assert d[..m][m - 2 .. m] == [d[m - 2], d[m - 1]];
      }
    }
  }

  /**
   * Under a cap of two with no gap tolerance, `n` consecutive differing bytes (then a flush) give
   * `ceil(n/2)` records: byte pairs at every second address, the last one a single byte when n is odd.
   */
  lemma ConsecutiveDiffsPaired(lim: Limits, s: State, a: nat, d: seq<byte>)
    requires lim == Limits(Finite(2), 0) && Idle(s.run)
    ensures var t := Flush(Feed(lim, s, Diffs(a, d)));
      && s.written <= t.written
      && |t.written| - |s.written| == (|d| + 1) / 2
      && PairedFrom(t.written[|s.written|..], a, d, (|d| + 1) / 2)
  {
    var es := Diffs(a, d);
    var m := |d|;
    assert es[..m] == es;
    FeedPairs(lim, s, a, d, m);
    var t := Feed(lim, s, es);
    if m % 2 == 1 {
      assert Flush(t).written[|s.written|..] == t.written[|s.written|..] + [Record(a + m - 1, [d[m - 1]])];
      OddTail(t.written[|s.written|..], a, d);
    } else {
      assert d[..m] == d;
    }
  }

  /** A lone last byte, written by the final flush, completes the pairing of an odd-length run. */
  lemma OddTail(w: seq<Record>, a: nat, d: seq<byte>)
    requires |d| % 2 == 1
    requires PairedFrom(w, a, d[..|d| - 1], |d| / 2)
    ensures PairedFrom(w + [Record(a + |d| - 1, [d[|d| - 1]])], a, d, (|d| + 1) / 2)
  {
    var m := |d|;
    var w' := w + [Record(a + m - 1, [d[m - 1]])];
    forall j | 0 <= j < (m + 1) / 2
      ensures 2 * j < m && w'[j] == Record(a + 2 * j, d[2 * j .. if 2 * j + 2 <= m then 2 * j + 2 else m])
    {
      if j < m / 2 {
        assert w'[j] == w[j];
        assert d[..m - 1][2 * j .. 2 * j + 2] == d[2 * j .. 2 * j + 2];
      } else {
        assert d[m - 1 .. m] == [d[m - 1]];
      }
    }
  }

  // ---- Gap tolerance ----

  function Sames(xs: seq<byte>): (es: seq<Event>)
    ensures |es| == |xs|
  {
    seq(|xs|, i requires 0 <= i < |xs| => Same(xs[i]))
  }

  /** Within the gap budget, matching bytes are held as pending and nothing is written. */
  lemma {:induction false} GapHeld(lim: Limits, s: State, xs: seq<byte>)
    requires s.run.buffer != [] && |s.run.matched| + |xs| <= lim.maxGap
    ensures Feed(lim, s, Sames(xs)) == State(Run(s.run.start, s.run.buffer, s.run.matched + xs), s.written)
  {
    if xs == [] {
      assert s.run.matched + xs == s.run.matched;
    } else {
      var es := Sames(xs);
      assert es[..|es| - 1] == Sames(xs[..|xs| - 1]);
      GapHeld(lim, s, xs[..|xs| - 1]);
      assert xs == xs[..|xs| - 1] + [xs[|xs| - 1]];
    }
  }

  /**
   * One matching byte more than the budget closes the run: it is written without the pending
   * matches, and the matching bytes after it are dropped.
   */
  lemma {:induction false} GapExhausted(lim: Limits, s: State, xs: seq<byte>)
    requires s.run.buffer != [] && |s.run.matched| <= lim.maxGap < |s.run.matched| + |xs|
    ensures Feed(lim, s, Sames(xs)) == State(Run(s.run.start, [], []), s.written + [Record(s.run.start, s.run.buffer)])
  {
    var es := Sames(xs);
    var k := lim.maxGap - |s.run.matched|;
    if |xs| == k + 1 {
      var init := xs[..k];
      assert es[..k] == Sames(init);
      GapHeld(lim, s, init);
    } else {
      assert es[..|es| - 1] == Sames(xs[..|xs| - 1]);
      GapExhausted(lim, s, xs[..|xs| - 1]);
    }
  }

  /** Feeding matching bytes to an idle accumulator changes nothing. */
  lemma {:induction false} IdleIgnoresSames(lim: Limits, s: State, xs: seq<byte>)
    requires Idle(s.run)
    ensures Feed(lim, s, Sames(xs)) == s
  {
    if xs != [] {
      assert Sames(xs)[..|xs| - 1] == Sames(xs[..|xs| - 1]);
      IdleIgnoresSames(lim, s, xs[..|xs| - 1]);
    }
  }

  /**
   * Redemption: a differing byte, at most `maxGap` matching bytes and another differing byte give
   * ONE record holding all of them (whatever the cap).
   */
  lemma GapRedeemed(lim: Limits, s: State, a: nat, x: byte, xs: seq<byte>, y: byte)
    requires Idle(s.run) && |xs| <= lim.maxGap
    ensures Flush(Feed(lim, s, [Differ(a, x)] + Sames(xs) + [Differ(a + |xs| + 1, y)])).written
         == s.written + [Record(a, [x] + xs + [y])]
  {
    var s1 := Feed(lim, s, [Differ(a, x)]);
    assert s1 == State(Run(a, [x], []), s.written) by { FeedSnoc(lim, s, [], Differ(a, x)); }
    FeedAppend(lim, s, [Differ(a, x)], Sames(xs));
    GapHeld(lim, s1, xs);
    var s2 := Feed(lim, s, [Differ(a, x)] + Sames(xs));
    assert s2 == State(Run(a, [x], xs), s.written);
    FeedSnoc(lim, s, [Differ(a, x)] + Sames(xs), Differ(a + |xs| + 1, y));
    assert [x] + xs + [y] == s2.run.buffer + s2.run.matched + [y];
  }

  /**
   * Exhaustion: with more than `maxGap` matching bytes between two differing bytes, the two are
   * written as separate one-byte records.
   */
  lemma GapSplits(lim: Limits, s: State, a: nat, x: byte, xs: seq<byte>, y: byte)
    requires Idle(s.run) && |xs| > lim.maxGap
    ensures Flush(Feed(lim, s, [Differ(a, x)] + Sames(xs) + [Differ(a + |xs| + 1, y)])).written
         == s.written + [Record(a, [x]), Record(a + |xs| + 1, [y])]
  {
    var s1 := Feed(lim, s, [Differ(a, x)]);
    assert s1 == Step(lim, s, Differ(a, x)) by { FeedSnoc(lim, s, [], Differ(a, x)); }
    FeedAppend(lim, s, [Differ(a, x)], Sames(xs));
    GapExhausted(lim, s1, xs);
    FeedSnoc(lim, s, [Differ(a, x)] + Sames(xs), Differ(a + |xs| + 1, y));
  }
}
