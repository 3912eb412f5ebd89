/**
 * `DiffFormatter`: the run accumulator as an object whose methods update its fields in place
 * and append formatted lines to its output. Each method is proved to perform the matching
 * transition of module `Accumulator`, and the output to be the formatter applied to the
 * records written, in order.
 */
module Formatter {
  import opened Text
  import opened Accumulator
  import Dialects

  class DiffFormatter {
    /** `max_run`, `max_gap` and `formatter` of the Python constructor. */
    const run: Bound
    const gap: nat
    const formatter: (nat, seq<byte>) -> string

    var buffer: seq<byte>
    var matched: seq<byte>
    var start: nat
    /** The lines written to `out`, in order. */
    var out: seq<string>
    /** The records whose formatting `out` holds. */
    ghost var written: seq<Record>

    ghost function Lim(): Limits
    {
      Limits(run, gap)
    }

    ghost function State(): State
      reads this
    {
      Accumulator.State(Run(start, buffer, matched), written)
    }

    ghost predicate Valid()
      reads this
    {
      && Accumulator.Valid(Lim(), Run(start, buffer, matched))
      && |out| == |written|
      && (forall k :: 0 <= k < |written| ==> out[k] == formatter(written[k].addr, written[k].data))
      && (forall k :: 0 <= k < |written| ==> written[k].data != [])
    }

    constructor (maxRun: Bound, maxGap: nat, formatter: (nat, seq<byte>) -> string)
      ensures Valid()
      ensures run == maxRun && gap == maxGap && this.formatter == formatter
      ensures buffer == [] && matched == [] && start == 0 && out == [] && written == []
    {
      run, gap, this.formatter := maxRun, maxGap, formatter;
      buffer, matched, start, out := [], [], 0, [];
      written := [];
    }

    /** `add_diff(address, byte)`. */
    method AddDiff(address: nat, byte: byte)
      requires Valid()
      modifies this
      ensures Valid()
      ensures old(buffer) == [] ==> start == address && buffer == [byte] && matched == [] && out == old(out)
      ensures old(buffer) != [] ==>
        var grown := old(buffer) + old(matched) + [byte];
        && start == old(start) && matched == []
        && (run == Finite(|grown|) ==> buffer == [] && out == old(out) + [formatter(old(start), grown)])
        && (run != Finite(|grown|) ==> buffer == grown && out == old(out))
      ensures State() == Accumulator.AddDiff(Lim(), old(State()), address, byte)
    {
      if buffer == [] {
        start := address;
        buffer := [byte];
        matched := [];
      } else {
        if matched != [] {
          buffer := buffer + matched;
          matched := [];
        }
        buffer := buffer + [byte];
        assert buffer == old(buffer) + old(matched) + [byte];
        if run == Finite(|buffer|) {
          Flush();
        }
      }
    }

    /** `add_same(byte)`. */
    method AddSame(byte: byte)
      requires Valid()
      modifies this
      ensures Valid()
      ensures old(buffer) == [] ==> buffer == [] && matched == old(matched) && start == old(start) && out == old(out)
      ensures old(buffer) != [] && |old(matched)| < gap ==>
        buffer == old(buffer) && matched == old(matched) + [byte] && start == old(start) && out == old(out)
      ensures old(buffer) != [] && |old(matched)| >= gap ==>
        buffer == [] && matched == [] && start == old(start) && out == old(out) + [formatter(old(start), old(buffer))]
      ensures State() == Accumulator.AddSame(Lim(), old(State()), byte)
    {
      if buffer != [] {
        if |matched| < gap {
          matched := matched + [byte];
        } else {
          Flush();
        }
      }
    }

    /** `flush()`: write the open run, if one is open, and clear it. */
    method Flush()
      requires Valid()
      modifies this
      ensures Valid()
      ensures old(buffer) == [] ==> buffer == [] && matched == old(matched) && start == old(start) && out == old(out)
      ensures old(buffer) != [] ==>
        buffer == [] && matched == [] && start == old(start) && out == old(out) + [formatter(old(start), old(buffer))]
      ensures State() == Accumulator.Flush(old(State()))
    {
      if buffer != [] {
        out := out + [formatter(start, buffer)];
        written := written + [Record(start, buffer)];
        buffer := [];
        matched := [];
      }
    }
  }

  /** `gameshark_format`: a formatter with GameShark's thresholds and renderer. */
  method GameSharkFormat() returns (d: DiffFormatter)
    ensures fresh(d) && d.Valid()
    ensures d.Lim() == Dialects.GameSharkLimits && d.formatter == Dialects.GameShark
    ensures d.buffer == [] && d.matched == [] && d.start == 0 && d.out == [] && d.written == []
  {
    d := new DiffFormatter(Finite(2), 0, Dialects.GameShark);
  }

  /** `stroop_format`: a formatter with STROOP's thresholds and renderer. */
  method StroopFormat() returns (d: DiffFormatter)
    ensures fresh(d) && d.Valid()
    ensures d.Lim() == Dialects.StroopLimits && d.formatter == Dialects.Stroop
    ensures d.buffer == [] && d.matched == [] && d.start == 0 && d.out == [] && d.written == []
  {
    d := new DiffFormatter(Unbounded, 16, Dialects.Stroop);
  }
}
