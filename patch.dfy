/**
 * What the scan of `compute_diff` produces, as a theorem about the records: for any limits,
 * every record is a stretch of the hack image that starts and ends at a differing byte, the
 * records are in address order without overlap, and every differing byte lies in one of them,
 * so that writing the records over the base image gives the hack image.
 */
module Patch {
  import opened Text
  import opened Accumulator

  function Min(x: nat, y: nat): nat
  {
    if x <= y then x else y
  }

  /**
   * The calls the scan makes for logical streams `b` and `h` whose first byte sits at address
   * `a`: `add_diff(a + k, h[k])` where the bytes differ, `add_same(h[k])` where they agree,
   * up to the end of the shorter stream.
   */
  function Events(b: seq<byte>, h: seq<byte>, a: nat): (es: seq<Event>)
    ensures |es| == Min(|b|, |h|)
    ensures forall k :: 0 <= k < |es| ==> (es[k].Differ? <==> b[k] != h[k]) && es[k].byte == h[k]
    ensures forall k :: 0 <= k < |es| && es[k].Differ? ==> es[k].addr == a + k
  {
    seq(Min(|b|, |h|), k requires 0 <= k < Min(|b|, |h|) => if b[k] != h[k] then Differ(a + k, h[k]) else Same(h[k]))
  }

  /** Feeding one more event of the scan. */
  lemma FeedEventsSnoc(lim: Limits, s: State, b: seq<byte>, h: seq<byte>, a: nat, i: nat)
    requires i < |b| && i < |h|
    ensures Feed(lim, s, Events(b, h, a)[..i + 1])
         == Step(lim, Feed(lim, s, Events(b, h, a)[..i]), if b[i] != h[i] then Differ(a + i, h[i]) else Same(h[i]))
  {
    var es := Events(b, h, a);
    assert es[..i + 1] == es[..i] + [es[i]];
    FeedSnoc(lim, s, es[..i], es[i]);
  }

  /** The records written by a scan into a new `DiffFormatter`, ending with `flush`. */
  function Records(lim: Limits, b: seq<byte>, h: seq<byte>, a: nat): (rs: seq<Record>)
    ensures forall k :: 0 <= k < |rs| ==> rs[k].data != []
  {
    var s := Feed(lim, State(Run(0, [], []), []), Events(b, h, a));
    FeedValid(lim, State(Run(0, [], []), []), Events(b, h, a));
    Flush(s).written
  }

  function End(r: Record): nat
  {
    r.addr + |r.data|
  }

  /** Record `r` holds address `a + p`. */
  ghost predicate Covers(r: Record, a: nat, p: nat)
  {
    r.addr <= a + p < End(r)
  }

  ghost predicate CoveredBy(rs: seq<Record>, a: nat, p: nat)
  {
    exists j :: 0 <= j < |rs| && Covers(rs[j], a, p)
  }

  /**
   * Record `r` is a non-empty stretch of `h` within the first `i` positions, and the base
   * differs from the hack at its first and at its last byte.
   */
  ghost predicate Faithful(r: Record, b: seq<byte>, h: seq<byte>, a: nat, i: nat)
  {
    && r.data != [] && a <= r.addr && End(r) <= a + i && i <= |b| && i <= |h|
    && r.data == h[r.addr - a .. End(r) - a]
    && b[r.addr - a] != h[r.addr - a]
    && b[End(r) - a - 1] != h[End(r) - a - 1]
  }

  /** Records in strictly increasing, non-overlapping address order. */
  ghost predicate InOrder(rs: seq<Record>)
  {
    forall j, k :: 0 <= j < k < |rs| ==> End(rs[j]) <= rs[k].addr
  }

  /** Every position below `n` where the images differ is held by some record. */
  ghost predicate Complete(rs: seq<Record>, b: seq<byte>, h: seq<byte>, a: nat, n: nat)
    requires n <= |b| && n <= |h|
  {
    forall p :: 0 <= p < n && b[p] != h[p] ==> CoveredBy(rs, a, p)
  }

  /**
   * The open run after `i` events: its committed bytes are the stretch of `h` from `start`
   * beginning and ending at a differing byte, and its pending bytes are the agreeing ones after it.
   */
  ghost predicate RunFaithful(r: Run, b: seq<byte>, h: seq<byte>, a: nat, i: nat)
    requires i <= |b| && i <= |h|
  {
    r.buffer != [] ==>
      && a <= r.start
      && r.start - a + |r.buffer| + |r.matched| == i
      && r.buffer == h[r.start - a .. r.start - a + |r.buffer|]
      && r.matched == h[r.start - a + |r.buffer| .. i]
      && b[r.start - a] != h[r.start - a]
      && b[r.start - a + |r.buffer| - 1] != h[r.start - a + |r.buffer| - 1]
      && (forall p :: r.start - a + |r.buffer| <= p < i ==> b[p] == h[p])
  }

  /** The scan invariant after the first `i` events. */
  ghost predicate Inv(lim: Limits, b: seq<byte>, h: seq<byte>, a: nat, i: nat, s: State)
  {
    && i <= |b| && i <= |h|
    && Valid(lim, s.run)
    && (forall k :: 0 <= k < |s.written| ==> Faithful(s.written[k], b, h, a, i))
    && InOrder(s.written)
    && RunFaithful(s.run, b, h, a, i)
    && (s.run.buffer != [] ==> forall k :: 0 <= k < |s.written| ==> End(s.written[k]) <= s.run.start)
    && (forall p :: 0 <= p < i && b[p] != h[p] ==>
          CoveredBy(s.written, a, p) || (s.run.buffer != [] && s.run.start <= a + p < s.run.start + |s.run.buffer|))
  }

  lemma CoveredAppend(rs: seq<Record>, x: Record, a: nat, p: nat)
    requires CoveredBy(rs, a, p) || Covers(x, a, p)
    ensures CoveredBy(rs + [x], a, p)
  {
    if Covers(x, a, p) {
      assert (rs + [x])[|rs|] == x;
    } else {
      var j :| 0 <= j < |rs| && Covers(rs[j], a, p);
      assert (rs + [x])[j] == rs[j];
    }
  }

  /** Writing the open run keeps every record faithful and in order, and it covers what the run held. */
  lemma AppendRun(b: seq<byte>, h: seq<byte>, a: nat, i: nat, rs: seq<Record>, x: Record)
    requires i <= |b| && i <= |h|
    requires forall k :: 0 <= k < |rs| ==> Faithful(rs[k], b, h, a, i)
    requires InOrder(rs) && Faithful(x, b, h, a, i)
    requires forall k :: 0 <= k < |rs| ==> End(rs[k]) <= x.addr
    ensures forall k :: 0 <= k < |rs + [x]| ==> Faithful((rs + [x])[k], b, h, a, i)
    ensures InOrder(rs + [x])
    ensures forall p :: (CoveredBy(rs, a, p) || Covers(x, a, p)) ==> CoveredBy(rs + [x], a, p)
  {
    forall p | CoveredBy(rs, a, p) || Covers(x, a, p)
      ensures CoveredBy(rs + [x], a, p)
    {
      CoveredAppend(rs, x, a, p);
    }
  }

  /** `add_diff` on an idle accumulator opens a one-byte run. */
  lemma StepOpens(lim: Limits, b: seq<byte>, h: seq<byte>, a: nat, i: nat, s: State)
    requires Inv(lim, b, h, a, i, s) && i < |b| && i < |h| && b[i] != h[i] && s.run.buffer == []
    ensures Inv(lim, b, h, a, i + 1, AddDiff(lim, s, a + i, h[i]))
  {
    var t := AddDiff(lim, s, a + i, h[i]);
    assert t == State(Run(a + i, [h[i]], []), s.written);
    assert h[i .. i + 1] == [h[i]];
    assert h[i + 1 .. i + 1] == [];
  }

  /** Committing the pending bytes and a differing byte to the open run keeps the invariant. */
  lemma Grow(lim: Limits, b: seq<byte>, h: seq<byte>, a: nat, i: nat, s: State)
    requires Inv(lim, b, h, a, i, s) && i < |b| && i < |h| && b[i] != h[i] && s.run.buffer != []
    ensures Inv(lim, b, h, a, i + 1, State(Run(s.run.start, s.run.buffer + s.run.matched + [h[i]], []), s.written))
  {
    var r := s.run;
    var o := r.start - a;
    var grown := r.buffer + r.matched + [h[i]];
    assert grown == h[o .. i + 1] by {
      assert h[o .. i + 1] == h[o .. o + |r.buffer|] + h[o + |r.buffer| .. i] + [h[i]];
    }
    assert h[i + 1 .. i + 1] == [];
  }

  /** `flush` keeps the invariant. */
  lemma FlushInv(lim: Limits, b: seq<byte>, h: seq<byte>, a: nat, i: nat, s: State)
    requires Inv(lim, b, h, a, i, s)
    ensures Inv(lim, b, h, a, i, Flush(s))
  {
    if s.run.buffer != [] {
      var x := Record(s.run.start, s.run.buffer);
      assert Flush(s) == State(Run(s.run.start, [], []), s.written + [x]);
      AppendRun(b, h, a, i, s.written, x);
    }
  }

  /** `add_diff` below the cap commits the pending bytes and the new byte to the run. */
  lemma StepGrows(lim: Limits, b: seq<byte>, h: seq<byte>, a: nat, i: nat, s: State)
    requires Inv(lim, b, h, a, i, s) && i < |b| && i < |h| && b[i] != h[i] && s.run.buffer != []
    requires lim.maxRun != Finite(|s.run.buffer| + |s.run.matched| + 1)
    ensures Inv(lim, b, h, a, i + 1, AddDiff(lim, s, a + i, h[i]))
  {
    Grow(lim, b, h, a, i, s);
  }

  /** `add_diff` that reaches the cap writes the grown run. */
  lemma StepCaps(lim: Limits, b: seq<byte>, h: seq<byte>, a: nat, i: nat, s: State)
    requires Inv(lim, b, h, a, i, s) && i < |b| && i < |h| && b[i] != h[i] && s.run.buffer != []
    requires lim.maxRun == Finite(|s.run.buffer| + |s.run.matched| + 1)
    ensures Inv(lim, b, h, a, i + 1, AddDiff(lim, s, a + i, h[i]))
  {
    var grown := State(Run(s.run.start, s.run.buffer + s.run.matched + [h[i]], []), s.written);
    Grow(lim, b, h, a, i, s);
    FlushInv(lim, b, h, a, i + 1, grown);
  }

  /** `add_same` within the gap budget holds the byte as pending. */
  lemma StepHolds(lim: Limits, b: seq<byte>, h: seq<byte>, a: nat, i: nat, s: State)
    requires Inv(lim, b, h, a, i, s) && i < |b| && i < |h| && b[i] == h[i] && s.run.buffer != []
    requires |s.run.matched| < lim.maxGap
    ensures Inv(lim, b, h, a, i + 1, AddSame(lim, s, h[i]))
  {
    var r := s.run;
    var o := r.start - a;
    assert AddSame(lim, s, h[i]) == State(Run(r.start, r.buffer, r.matched + [h[i]]), s.written);
    assert h[o + |r.buffer| .. i + 1] == h[o + |r.buffer| .. i] + [h[i]];
  }

  /** `add_same` past the gap budget writes the run without its pending bytes. */
  lemma StepCloses(lim: Limits, b: seq<byte>, h: seq<byte>, a: nat, i: nat, s: State)
    requires Inv(lim, b, h, a, i, s) && i < |b| && i < |h| && b[i] == h[i] && s.run.buffer != []
    requires |s.run.matched| >= lim.maxGap
    ensures Inv(lim, b, h, a, i + 1, AddSame(lim, s, h[i]))
  {
    var t := Flush(s);
    assert AddSame(lim, s, h[i]) == t;
    FlushInv(lim, b, h, a, i, s);
    assert t.run.buffer == [];
    StepIgnores(lim, b, h, a, i, t);
    assert AddSame(lim, t, h[i]) == t;
  }

  /** `add_same` outside a run changes nothing. */
  lemma StepIgnores(lim: Limits, b: seq<byte>, h: seq<byte>, a: nat, i: nat, s: State)
    requires Inv(lim, b, h, a, i, s) && i < |b| && i < |h| && b[i] == h[i] && s.run.buffer == []
    ensures Inv(lim, b, h, a, i + 1, AddSame(lim, s, h[i]))
  {
  }

  /** One event of the scan keeps the invariant. */
  lemma StepInv(lim: Limits, b: seq<byte>, h: seq<byte>, a: nat, i: nat, s: State)
    requires Inv(lim, b, h, a, i, s) && i < |b| && i < |h|
    ensures Inv(lim, b, h, a, i + 1, Step(lim, s, Events(b, h, a)[i]))
  {
    if b[i] != h[i] {
      if s.run.buffer == [] {
        StepOpens(lim, b, h, a, i, s);
      } else if lim.maxRun == Finite(|s.run.buffer| + |s.run.matched| + 1) {
        StepCaps(lim, b, h, a, i, s);
      } else {
        StepGrows(lim, b, h, a, i, s);
      }
    } else {
      if s.run.buffer == [] {
        StepIgnores(lim, b, h, a, i, s);
      } else if |s.run.matched| < lim.maxGap {
        StepHolds(lim, b, h, a, i, s);
      } else {
        StepCloses(lim, b, h, a, i, s);
      }
    }
  }

  lemma {:induction false} FeedInv(lim: Limits, b: seq<byte>, h: seq<byte>, a: nat, i: nat)
    requires i <= Min(|b|, |h|)
    ensures Inv(lim, b, h, a, i, Feed(lim, State(Run(0, [], []), []), Events(b, h, a)[..i]))
  {
    var s0 := State(Run(0, [], []), []);
    var es := Events(b, h, a);
    if i == 0 {
      assert es[..0] == [];
    } else {
      FeedInv(lim, b, h, a, i - 1);
      assert es[..i] == es[..i - 1] + [es[i - 1]];
      FeedSnoc(lim, s0, es[..i - 1], es[i - 1]);
      StepInv(lim, b, h, a, i - 1, Feed(lim, s0, es[..i - 1]));
    }
  }

  /**
   * The patch the scan writes, for every choice of limits: each record is a non-empty stretch of
   * the hack image that starts and ends at a differing byte, the records are in address order
   * without overlap, and every differing position of the common length is held by a record.
   */
  lemma PatchCorrect(lim: Limits, b: seq<byte>, h: seq<byte>, a: nat)
    ensures var rs := Records(lim, b, h, a);
      && (forall k :: 0 <= k < |rs| ==> Faithful(rs[k], b, h, a, Min(|b|, |h|)))
      && InOrder(rs)
      && Complete(rs, b, h, a, Min(|b|, |h|))
  {
    var n := Min(|b|, |h|);
    var es := Events(b, h, a);
    assert es[..n] == es;
    FeedInv(lim, b, h, a, n);
    FlushInv(lim, b, h, a, n, Feed(lim, State(Run(0, [], []), []), es));
  }

  // ---- Applying the patch ----

  /** Writes the bytes of `r` over `img`, whose first byte sits at address `a`; a record outside is ignored. */
  function Overwrite(img: seq<byte>, a: nat, r: Record): (out: seq<byte>)
    ensures |out| == |img|
  {
    if a <= r.addr && End(r) <= a + |img| then img[..r.addr - a] + r.data + img[End(r) - a..] else img
  }

  /** Writes the records over `img` in order. */
  function ApplyPatch(img: seq<byte>, a: nat, rs: seq<Record>): (out: seq<byte>)
    ensures |out| == |img|
  {
    if rs == [] then img else Overwrite(ApplyPatch(img, a, rs[..|rs| - 1]), a, rs[|rs| - 1])
  }

  lemma OverwriteAt(img: seq<byte>, a: nat, r: Record, p: nat)
    requires p < |img| && a <= r.addr && End(r) <= a + |img|
    ensures Overwrite(img, a, r)[p] == if Covers(r, a, p) then r.data[a + p - r.addr] else img[p]
  {
  }

  /** `img` carries the hack byte where a record of `rs` holds the position, the base byte elsewhere. */
  ghost predicate Applied(img: seq<byte>, b: seq<byte>, h: seq<byte>, a: nat, rs: seq<Record>, n: nat)
    requires n <= |b| && n <= |h|
  {
    |img| == n && forall p :: 0 <= p < n ==> img[p] == if CoveredBy(rs, a, p) then h[p] else b[p]
  }

  lemma CoveredSnoc(rs: seq<Record>, x: Record, a: nat, p: nat)
    ensures CoveredBy(rs + [x], a, p) <==> CoveredBy(rs, a, p) || Covers(x, a, p)
  {
    if CoveredBy(rs, a, p) || Covers(x, a, p) {
      CoveredAppend(rs, x, a, p);
    }
    if CoveredBy(rs + [x], a, p) {
      var q :| 0 <= q < |rs| + 1 && Covers((rs + [x])[q], a, p);
      if q < |rs| {
        assert (rs + [x])[q] == rs[q];
      }
    }
  }

  /** Writing one more faithful record keeps `Applied`. */
  lemma ApplyOne(img: seq<byte>, b: seq<byte>, h: seq<byte>, a: nat, rs: seq<Record>, r: Record, n: nat)
    requires n <= |b| && n <= |h|
    requires Applied(img, b, h, a, rs, n) && Faithful(r, b, h, a, n)
    ensures Applied(Overwrite(img, a, r), b, h, a, rs + [r], n)
  {
    forall p | 0 <= p < n
      ensures Overwrite(img, a, r)[p] == if CoveredBy(rs + [r], a, p) then h[p] else b[p]
    {
      OverwriteAt(img, a, r, p);
      CoveredSnoc(rs, r, a, p);
      if Covers(r, a, p) {
        assert r.data[a + p - r.addr] == h[p];
      }
    }
  }

  /** After writing the first `j` records, `Applied` holds for those records. */
  lemma {:induction false} ApplyPrefix(b: seq<byte>, h: seq<byte>, a: nat, rs: seq<Record>, n: nat, j: nat)
    requires n <= |b| && n <= |h| && j <= |rs|
    requires forall k :: 0 <= k < |rs| ==> Faithful(rs[k], b, h, a, n)
    ensures Applied(ApplyPatch(b[..n], a, rs[..j]), b, h, a, rs[..j], n)
  {
    if j == 0 {
      assert rs[..0] == [];
    } else {
      ApplyPrefix(b, h, a, rs, n, j - 1);
      assert rs[..j][..j - 1] == rs[..j - 1];
      assert rs[..j] == rs[..j - 1] + [rs[j - 1]];
      ApplyOne(ApplyPatch(b[..n], a, rs[..j - 1]), b, h, a, rs[..j - 1], rs[j - 1], n);
    }
  }

  /**
   * Writing the records of a scan over the base image gives the hack image, over the length the
   * scan compared.
   */
  lemma PatchApplies(lim: Limits, b: seq<byte>, h: seq<byte>, a: nat)
    ensures ApplyPatch(b[..Min(|b|, |h|)], a, Records(lim, b, h, a)) == h[..Min(|b|, |h|)]
  {
    var n := Min(|b|, |h|);
    var rs := Records(lim, b, h, a);
    PatchCorrect(lim, b, h, a);
    ApplyPrefix(b, h, a, rs, n, |rs|);
    assert rs[..|rs|] == rs;
    AppliedComplete(ApplyPatch(b[..n], a, rs), b, h, a, rs, n);
  }

  /** Where the records hold every differing position, `Applied` is the hack image. */
  lemma AppliedComplete(img: seq<byte>, b: seq<byte>, h: seq<byte>, a: nat, rs: seq<Record>, n: nat)
    requires n <= |b| && n <= |h|
    requires Applied(img, b, h, a, rs, n) && Complete(rs, b, h, a, n)
    ensures img == h[..n]
  {
    forall p | 0 <= p < n
      ensures img[p] == h[p]
    {
      if !CoveredBy(rs, a, p) {
        assert b[p] == h[p];
      }
    }
  }

  /** Identical images give no records. */
  lemma NoDifferenceNoRecords(lim: Limits, b: seq<byte>, a: nat)
    ensures Records(lim, b, b, a) == []
  {
    var rs := Records(lim, b, b, a);
    PatchCorrect(lim, b, b, a);
    NothingFaithful(rs, b, a, |b|);
  }

  lemma NothingFaithful(rs: seq<Record>, b: seq<byte>, a: nat, n: nat)
    ensures |rs| > 0 ==> !Faithful(rs[0], b, b, a, n)
  {
  }

  lemma InOrderHead(rs: seq<Record>)
    requires InOrder(rs)
    ensures |rs| >= 2 ==> End(rs[0]) <= rs[1].addr
  {
  }

  /**
   * Images of equal length that differ at one position `p` only give one record: the hack byte at
   * address `a + p`, whatever the limits.
   */
  lemma SingleDifference(lim: Limits, b: seq<byte>, h: seq<byte>, a: nat, p: nat)
    requires |b| == |h| && p < |b| && b[p] != h[p]
    requires forall q :: 0 <= q < |b| && q != p ==> b[q] == h[q]
    ensures Records(lim, b, h, a) == [Record(a + p, [h[p]])]
  {
    var rs := Records(lim, b, h, a);
    var x := Record(a + p, [h[p]]);
    assert forall k :: 0 <= k < |rs| ==> rs[k] == x by {
      PatchCorrect(lim, b, h, a);
      forall k | 0 <= k < |rs|
        ensures rs[k] == x
      {
        OnlyRecord(rs[k], b, h, a, p);
      }
    }
    assert |rs| >= 1 by {
      PatchCorrect(lim, b, h, a);
      assert CoveredBy(rs, a, p);
    }
    assert |rs| >= 2 ==> End(rs[0]) <= rs[1].addr by {
      PatchCorrect(lim, b, h, a);
      InOrderHead(rs);
    }
    assert rs == [x];
  }

  /** A faithful record over images that differ at `p` only is the one-byte record at `p`. */
  lemma OnlyRecord(r: Record, b: seq<byte>, h: seq<byte>, a: nat, p: nat)
    requires |b| == |h| && p < |b|
    requires forall q :: 0 <= q < |b| && q != p ==> b[q] == h[q]
    requires Faithful(r, b, h, a, |b|)
    ensures r == Record(a + p, [h[p]])
  {
    assert r.addr - a == p;
    assert End(r) - a - 1 == p;
    assert h[p .. p + 1] == [h[p]];
  }
}
