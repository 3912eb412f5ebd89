/**
 * `compute_diff`: open both images in address order, skip the header, and feed every byte
 * pair to a `DiffFormatter` until either image ends, then flush.
 */
module Scan {
  import opened Wrappers
  import opened Text
  import opened Accumulator
  import opened Patch
  import opened Streams
  import opened Formatter
  import Dialects

  /** `RomConfig`: bytes of header to skip, and what to add to a file offset to get a RAM address. */
  datatype RomConfig = RomConfig(headerLength: nat, ramOffset: nat)

  /** `mario_config`. */
  const MarioConfig := RomConfig(0x40, 0x245000)

  /**
   * The bytes a stream of the given layout serves from logical position 0: the file itself, or
   * the file with its pairs swapped, which swapping again turns back into the file.
   */
  function LogicalImage(raw: seq<byte>, layout: Layout): (img: seq<byte>)
    ensures layout == NativeOrder ==> img == raw
    ensures layout == SwappedOrder ==> |img| == |raw| - |raw| % 2 && SwapPairs(img) == raw[..|img|]
  {
    match layout
    case NativeOrder => raw
    case SwappedOrder =>
      SwapPairsInvolution(raw);
      SwapPairs(raw)
  }

  /** What remains after a seek to `n`: nothing when `n` is at or past the end. */
  function Drop(s: seq<byte>, n: nat): seq<byte>
  {
    if n <= |s| then s[n..] else []
  }

  lemma DropAt(s: seq<byte>, n: nat, i: nat)
    ensures n + i < |s| <==> i < |Drop(s, n)|
    ensures n + i < |s| ==> Drop(s, n)[i] == s[n + i]
  {
  }

  datatype Side = Base | Hack

  /** Why `compute_diff` stops before scanning: `ordered_file` raised, or gave nothing to seek on. */
  datatype DiffError = TooShort(side: Side) | UnknownByteOrder(side: Side)

  /**
   * The outcome of the two `ordered_file` calls and the two seeks, in the order they run: both
   * files are classified first, then the base is seeked, then the hack.
   */
  function Layouts(cb: Result<Option<Layout>, FormatError>, ch: Result<Option<Layout>, FormatError>): (r: Result<(Layout, Layout), DiffError>)
    ensures r.Success? <==> cb.Success? && ch.Success? && cb.value.Some? && ch.value.Some?
    ensures r.Success? ==> r.value == (cb.value.value, ch.value.value)
    ensures cb.Failure? ==> r == Failure(TooShort(Base))
  {
    if cb.Failure? then Failure(TooShort(Base))
    else if ch.Failure? then Failure(TooShort(Hack))
    else if cb.value.None? then Failure(UnknownByteOrder(Base))
    else if ch.value.None? then Failure(UnknownByteOrder(Hack))
    else Success((cb.value.value, ch.value.value))
  }

  // ---- A stream in address order, whichever class serves it ----

  ghost function Image(o: Ordered): seq<byte>
  {
    match o
    case Plain(f) => f.data
    case Swapper(s) => s.Logical()
  }

  ghost function Objects(o: Ordered): set<object>
  {
    match o
    case Plain(f) => {f}
    case Swapper(s) => {s, s.file}
  }

  ghost predicate StreamValid(o: Ordered)
    reads Objects(o)
  {
    match o
    case Plain(_) => true
    case Swapper(s) => s.Valid()
  }

  ghost function Position(o: Ordered): nat
    reads Objects(o)
    requires StreamValid(o)
  {
    match o
    case Plain(f) => f.pos
    case Swapper(s) => s.Tell()
  }

  /** The next byte served is logical byte `p`, or the stream is at its end and `p` is too. */
  ghost predicate At(o: Ordered, p: nat)
    reads Objects(o)
    requires StreamValid(o)
  {
    Position(o) == p || (p >= |Image(o)| && Position(o) >= |Image(o)|)
  }

  /** `read(1)` on either kind of stream. */
  method ReadByte(o: Ordered, ghost p: nat) returns (r: seq<byte>)
    requires StreamValid(o) && At(o, p)
    modifies Objects(o)
    ensures StreamValid(o)
    ensures p < |Image(o)| ==> r == [Image(o)[p]] && At(o, p + 1)
    ensures p >= |Image(o)| ==> r == [] && At(o, p)
  {
    match o
    case Plain(f) =>
      r := f.Read(1);
    case Swapper(s) =>
      r := s.Read(1);
  }

  /**
   * rom-diff.py:118: one byte from each stream, both at logical position
   * `from + i`; byte `i` of each image after `from`, or nothing at its end.
   */
  method ReadPair(ob: Ordered, oh: Ordered, ghost from: nat, ghost i: nat) returns (b: seq<byte>, h: seq<byte>)
    requires StreamValid(ob) && StreamValid(oh) && Objects(ob) !! Objects(oh)
    requires At(ob, from + i) && At(oh, from + i)
    modifies Objects(ob), Objects(oh)
    ensures StreamValid(ob) && StreamValid(oh)
    ensures var bs := Drop(Image(ob), from);
      && (i < |bs| ==> b == [bs[i]] && At(ob, from + i + 1))
      && (i >= |bs| ==> b == [])
    ensures var hs := Drop(Image(oh), from);
      && (i < |hs| ==> h == [hs[i]] && At(oh, from + i + 1))
      && (i >= |hs| ==> h == [])
  {
    b := ReadAt(ob, from, i);
    h := ReadAt(oh, from, i);
  }

  /** `read(1)` at logical position `from + i`: byte `i` of the image after `from`, or nothing. */
  method ReadAt(o: Ordered, ghost from: nat, ghost i: nat) returns (r: seq<byte>)
    requires StreamValid(o) && At(o, from + i)
    modifies Objects(o)
    ensures StreamValid(o)
    ensures var rest := Drop(Image(o), from);
      && (i < |rest| ==> r == [rest[i]] && At(o, from + i + 1))
      && (i >= |rest| ==> r == [])
  {
    r := ReadByte(o, from + i);
    DropAt(Image(o), from, i);
  }

  /** Nothing is buffered: a plain file, or a swapper that has not served half a pair. */
  ghost predicate Unbuffered(o: Ordered)
    reads Objects(o)
  {
    match o
    case Plain(_) => true
    case Swapper(s) => s.buffer == []
  }

  /**
   * `seek(t, 0)` on either kind of stream. `compute_diff` seeks each stream once, before any
   * read, so the swapper has nothing buffered and its realignment lands on `t`.
   */
  method SeekTo(o: Ordered, t: nat)
    requires StreamValid(o) && Unbuffered(o)
    modifies Objects(o)
    ensures StreamValid(o) && At(o, t)
  {
    match o
    case Plain(f) =>
      f.Seek(t, FromStart);
    case Swapper(s) =>
      s.Seek(t, FromStart);
  }

  /**
   * rom-diff.py:110-113: `ordered_file` on the base then on the hack, failing at the
   * first that raises or that gives nothing, with both streams left at logical position 0.
   */
  method OpenBoth(base: RawFile, hack: RawFile) returns (r: Result<(Ordered, Ordered), DiffError>)
    requires base != hack
    modifies base, hack
    ensures var lay := Layouts(Classify(Slice(base.data, old(base.pos), |base.data|)),
                               Classify(Slice(hack.data, old(hack.pos), |hack.data|)));
      && (lay.Failure? <==> r.Failure?)
      && (r.Failure? ==> r.error == lay.error)
      && (r.Success? ==>
            var (ob, oh) := r.value;
            && Image(ob) == LogicalImage(base.data, lay.value.0)
            && Image(oh) == LogicalImage(hack.data, lay.value.1)
            && Serves(ob, base) && Serves(oh, hack)
            && StreamValid(ob) && StreamValid(oh)
            && Objects(ob) !! Objects(oh)
            && fresh(Objects(ob) - {base}) && fresh(Objects(oh) - {hack}))
  {
    ghost var cb := Classify(Slice(base.data, base.pos, |base.data|));
    ghost var ch := Classify(Slice(hack.data, hack.pos, |hack.data|));
    var rb := OrderedFile(base);
    if rb.Failure? {
      return Failure(TooShort(Base));
    }
    var rh := OrderedFile(hack);
    if rh.Failure? {
      return Failure(TooShort(Hack));
    }
    if rb.value.None? {
      return Failure(UnknownByteOrder(Base));
    }
    if rh.value.None? {
      return Failure(UnknownByteOrder(Hack));
    }
    return Success((rb.value.value, rh.value.value));
  }

  /** Stream `o` serves file `f` itself, or a swapper over `f` with nothing buffered. */
  ghost predicate Serves(o: Ordered, f: RawFile)
    reads Objects(o)
  {
    match o
    case Plain(g) => g == f
    case Swapper(s) => s.file == f && s.buffer == []
  }

  /** rom-diff.py:112-113: the base, then the hack, seeked to `t`. */
  method SeekBoth(ob: Ordered, oh: Ordered, t: nat)
    requires StreamValid(ob) && StreamValid(oh) && Unbuffered(ob) && Unbuffered(oh) && Objects(ob) !! Objects(oh)
    modifies Objects(ob), Objects(oh)
    ensures StreamValid(ob) && StreamValid(oh) && At(ob, t) && At(oh, t)
  {
    SeekTo(ob, t);
    SeekTo(oh, t);
  }

  /**
   * rom-diff.py:112-128: seek both streams past the header, feed one event per byte
   * pair until either stream ends, then flush.
   */
  method Walk(ob: Ordered, oh: Ordered, diff: DiffFormatter, cfg: RomConfig) returns (mismatch: bool)
    requires StreamValid(ob) && StreamValid(oh) && Unbuffered(ob) && Unbuffered(oh) && Objects(ob) !! Objects(oh)
    requires diff.Valid() && diff !in Objects(ob) && diff !in Objects(oh)
    modifies Objects(ob), Objects(oh), diff
    ensures var bs := Drop(Image(ob), cfg.headerLength);
      var hs := Drop(Image(oh), cfg.headerLength);
      && diff.Valid()
      && diff.State() == Flush(Feed(diff.Lim(), old(diff.State()), Events(bs, hs, cfg.headerLength + cfg.ramOffset)))
      && (mismatch <==> |bs| != |hs|)
  {
    SeekBoth(ob, oh, cfg.headerLength);
    mismatch := Compare(ob, oh, diff, cfg.headerLength, cfg.headerLength + cfg.ramOffset);
    diff.Flush();
  }

  /**
   * The loop of `compute_diff` (rom-diff.py:117-127): with both streams at logical position `from`, one
   * `add_diff` or `add_same` per byte pair, at addresses counting up from `address`.
   */
  method Compare(ob: Ordered, oh: Ordered, diff: DiffFormatter, from: nat, address: nat) returns (mismatch: bool)
    requires StreamValid(ob) && StreamValid(oh) && Objects(ob) !! Objects(oh)
    requires At(ob, from) && At(oh, from)
    requires diff.Valid() && diff !in Objects(ob) && diff !in Objects(oh)
    modifies Objects(ob), Objects(oh), diff
    ensures var bs := Drop(Image(ob), from);
      var hs := Drop(Image(oh), from);
      && diff.Valid()
      && diff.State() == Feed(diff.Lim(), old(diff.State()), Events(bs, hs, address))
      && (mismatch <==> |bs| != |hs|)
  {
    ghost var es := Events(Drop(Image(ob), from), Drop(Image(oh), from), address);
    ghost var s0 := diff.State();
    ghost var i := 0;
    assert es[..0] == [];
    var addr := address;
    while true
      invariant Scanning(ob, oh, diff, from, address, s0, i) && addr == address + i
      decreases |es| - i
    {
      var stop, differ := Advance(ob, oh, diff, from, address, s0, i, addr);
      if stop {
        mismatch := differ;
        break;
      }
      addr := addr + 1;
      i := i + 1;
    }
  }

  /** The loop state after `i` byte pairs. */
  ghost predicate Scanning(ob: Ordered, oh: Ordered, diff: DiffFormatter, from: nat, address: nat, s0: State, i: nat)
    reads Objects(ob), Objects(oh), diff
  {
    && Objects(ob) !! Objects(oh) && diff !in Objects(ob) && diff !in Objects(oh)
    && StreamValid(ob) && StreamValid(oh)
    && At(ob, from + i) && At(oh, from + i)
    && i <= |Events(Drop(Image(ob), from), Drop(Image(oh), from), address)|
    && diff.Valid()
    && diff.State() == Feed(diff.Lim(), s0, Events(Drop(Image(ob), from), Drop(Image(oh), from), address)[..i])
  }

  /**
   * One round of the loop: read a byte from each stream, stop at the end of either (reporting
   * whether only one ended), or feed the pair to the formatter.
   */
  method Advance(ob: Ordered, oh: Ordered, diff: DiffFormatter, from: nat, address: nat, ghost s0: State, ghost i: nat, addr: nat)
      returns (stop: bool, mismatch: bool)
    requires Scanning(ob, oh, diff, from, address, s0, i) && addr == address + i
    modifies Objects(ob), Objects(oh), diff
    ensures var bs := Drop(Image(ob), from);
      var hs := Drop(Image(oh), from);
      && (stop ==>
            && diff.Valid()
            && diff.State() == Feed(diff.Lim(), s0, Events(bs, hs, address))
            && (mismatch <==> |bs| != |hs|))
      && (!stop ==> i < |Events(bs, hs, address)| && Scanning(ob, oh, diff, from, address, s0, i + 1))
  {
    ghost var bs := Drop(Image(ob), from);
    ghost var hs := Drop(Image(oh), from);
    ghost var es := Events(bs, hs, address);
    var b, h := ReadPair(ob, oh, from, i);
    if b == [] || h == [] {
      assert i == |es|;
      assert es[..i] == es;
      return true, b != [] || h != [];
    }
    FeedEventsSnoc(diff.Lim(), s0, bs, hs, address, i);
    Dispatch(diff, b[0], h[0], addr);
    return false, false;
  }

  /** rom-diff.py:123-126: `add_diff` for a differing pair, `add_same` otherwise. */
  method Dispatch(diff: DiffFormatter, b: byte, h: byte, addr: nat)
    requires diff.Valid()
    modifies diff
    ensures diff.Valid()
    ensures diff.State() == Step(diff.Lim(), old(diff.State()), if b != h then Differ(addr, h) else Same(h))
  {
    if b != h {
      diff.AddDiff(addr, h);
    } else {
      diff.AddSame(h);
    }
  }

  /**
   * `compute_diff(base, hack, diff, rom_config)` over two raw files. On success the formatter has
   * taken one event per byte pair of the logical images after the header, then a flush, and the
   * flag says whether the images had different lengths (the message on standard error).
   */
  method ComputeDiff(base: RawFile, hack: RawFile, diff: DiffFormatter, cfg: RomConfig) returns (r: Result<bool, DiffError>)
    requires base != hack && diff.Valid()
    modifies base, hack, diff
    ensures var lay := Layouts(Classify(Slice(base.data, old(base.pos), |base.data|)),
                               Classify(Slice(hack.data, old(hack.pos), |hack.data|)));
      && (lay.Failure? ==> r == Failure(lay.error) && unchanged(diff))
      && (lay.Success? ==>
            var bs := Drop(LogicalImage(base.data, lay.value.0), cfg.headerLength);
            var hs := Drop(LogicalImage(hack.data, lay.value.1), cfg.headerLength);
            && r.Success? && diff.Valid()
            && diff.State() == Flush(Feed(diff.Lim(), old(diff.State()), Events(bs, hs, cfg.headerLength + cfg.ramOffset)))
            && (r.value <==> |bs| != |hs|))
  {
    var pair := OpenBoth(base, hack);
    if pair.Failure? {
      return Failure(pair.error);
    }
    var (ob, oh) := pair.value;
    var mismatch := Walk(ob, oh, diff, cfg);
    return Success(mismatch);
  }

  /**
   * With a new formatter, the lines written are the formatter applied to `Records`, the records
   * of which `PatchCorrect` and `PatchApplies` speak.
   */
  method ComputeDiffNew(base: RawFile, hack: RawFile, diff: DiffFormatter, cfg: RomConfig) returns (r: Result<bool, DiffError>)
    requires base != hack && diff.Valid()
    requires diff.buffer == [] && diff.matched == [] && diff.start == 0 && diff.out == [] && diff.written == []
    modifies base, hack, diff
    ensures var lay := Layouts(Classify(Slice(base.data, old(base.pos), |base.data|)),
                               Classify(Slice(hack.data, old(hack.pos), |hack.data|)));
      && (lay.Failure? ==> r == Failure(lay.error) && diff.out == [])
      && (lay.Success? ==>
            var bs := Drop(LogicalImage(base.data, lay.value.0), cfg.headerLength);
            var hs := Drop(LogicalImage(hack.data, lay.value.1), cfg.headerLength);
            var rs := Records(diff.Lim(), bs, hs, cfg.headerLength + cfg.ramOffset);
            && r.Success? && (r.value <==> |bs| != |hs|)
            && |diff.out| == |rs|
            && forall k :: 0 <= k < |rs| ==> diff.out[k] == diff.formatter(rs[k].addr, rs[k].data))
  {
    r := ComputeDiff(base, hack, diff, cfg);
  }

  /**
   * The call the command makes: a new GameShark formatter, or a STROOP one for `--stroop`, and
   * `compute_diff` with `mario_config`. The header is 0x40 bytes and the first address 0x245040.
   */
  method RomDiff(base: RawFile, hack: RawFile, stroop: bool) returns (out: seq<string>, r: Result<bool, DiffError>)
    requires base != hack
    modifies base, hack
    ensures var lay := Layouts(Classify(Slice(base.data, old(base.pos), |base.data|)),
                               Classify(Slice(hack.data, old(hack.pos), |hack.data|)));
      && (lay.Failure? ==> r == Failure(lay.error) && out == [])
      && (lay.Success? ==>
            var bs := Drop(LogicalImage(base.data, lay.value.0), 0x40);
            var hs := Drop(LogicalImage(hack.data, lay.value.1), 0x40);
            var lim := if stroop then Dialects.StroopLimits else Dialects.GameSharkLimits;
            var render := if stroop then Dialects.Stroop else Dialects.GameShark;
            var rs := Records(lim, bs, hs, 0x245040);
            && r.Success? && (r.value <==> |bs| != |hs|)
            && |out| == |rs|
            && forall k :: 0 <= k < |rs| ==> out[k] == render(rs[k].addr, rs[k].data))
  {
    var diff: DiffFormatter;
    if stroop {
      diff := StroopFormat();
    } else {
      diff := GameSharkFormat();
    }
    r := ComputeDiffNew(base, hack, diff, MarioConfig);
    out := diff.out;
  }

  // ---- The lines of each dialect ----

  /**
   * A GameShark scan writes records of one or two bytes, and while the addresses fit in six hex
   * digits every line reads back as its record.
   */
  lemma GameSharkLinesReadBack(b: seq<byte>, h: seq<byte>, a: nat)
    requires a + Min(|b|, |h|) <= 0x100_0000
    ensures var rs := Records(Dialects.GameSharkLimits, b, h, a);
      forall k :: 0 <= k < |rs| ==>
        && 1 <= |rs[k].data| <= 2
        && Dialects.ParseGameShark(Dialects.GameShark(rs[k].addr, rs[k].data)) == Some(rs[k])
  {
    var lim := Dialects.GameSharkLimits;
    var rs := Records(lim, b, h, a);
    PatchCorrect(lim, b, h, a);
    RecordsWithinCap(lim, State(Run(0, [], []), []), Events(b, h, a));
    forall k | 0 <= k < |rs|
      ensures 1 <= |rs[k].data| <= 2
      ensures Dialects.ParseGameShark(Dialects.GameShark(rs[k].addr, rs[k].data)) == Some(rs[k])
    {
      assert Faithful(rs[k], b, h, a, Min(|b|, |h|));
      Dialects.GameSharkRoundTrip(rs[k].addr, rs[k].data);
    }
  }

  /** While the addresses fit in six hex digits, every line of a STROOP scan reads back as its record. */
  lemma StroopLinesReadBack(b: seq<byte>, h: seq<byte>, a: nat)
    requires a + Min(|b|, |h|) <= 0x100_0000
    ensures var rs := Records(Dialects.StroopLimits, b, h, a);
      forall k :: 0 <= k < |rs| ==> Dialects.ParseStroop(Dialects.Stroop(rs[k].addr, rs[k].data)) == Some(rs[k])
  {
    var lim := Dialects.StroopLimits;
    var rs := Records(lim, b, h, a);
    PatchCorrect(lim, b, h, a);
    forall k | 0 <= k < |rs|
      ensures Dialects.ParseStroop(Dialects.Stroop(rs[k].addr, rs[k].data)) == Some(rs[k])
    {
      assert Faithful(rs[k], b, h, a, Min(|b|, |h|));
      Dialects.StroopRoundTrip(rs[k].addr, rs[k].data);
    }
  }
}
