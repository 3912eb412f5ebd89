/**
 * The byte-order layer: a raw file (content and position), `ByteSwapper`, which serves a
 * 16-bit byte-swapped file one logical byte at a time, and `ordered_file`, which picks one or the
 * other from the first byte of the file.
 */
module Streams {
  import opened Wrappers
  import opened Text

  /** `s[from..to]` clipped to the sequence, as a Python slice of `bytes` is. */
  function Slice(s: seq<byte>, from: nat, to: nat): (r: seq<byte>)
    ensures |r| == (if to <= |s| then to else |s|) - (if from <= to && from <= |s| then from else if to <= |s| then to else |s|)
  {
    var hi := if to <= |s| then to else |s|;
    var lo := if from <= hi then from else hi;
    s[lo..hi]
  }

  /** The logical content of a byte-swapped file: each 16-bit pair swapped, a lone last byte dropped. */
  function SwapPairs(raw: seq<byte>): (r: seq<byte>)
    ensures |r| == |raw| - |raw| % 2
  {
    if |raw| < 2 then [] else [raw[1], raw[0]] + SwapPairs(raw[2..])
  }

  /** Logical bytes `2k` and `2k + 1` of a swapped file are raw bytes `2k + 1` and `2k`. */
  lemma {:induction false} SwapPairsAt(raw: seq<byte>, k: nat)
    requires 2 * k + 1 < |raw|
    ensures 2 * k + 1 < |SwapPairs(raw)|
    ensures SwapPairs(raw)[2 * k] == raw[2 * k + 1] && SwapPairs(raw)[2 * k + 1] == raw[2 * k]
  {
    if k > 0 {
      SwapPairsAt(raw[2..], k - 1);
      assert SwapPairs(raw) == [raw[1], raw[0]] + SwapPairs(raw[2..]);
    }
  }

  /** Every index below the even-truncated length lies in a pair `2k, 2k + 1` that the file holds. */
  lemma PairOf(i: nat, n: nat) returns (k: nat)
    requires i < n - n % 2
    ensures 2 * k + 1 < n && (i == 2 * k || i == 2 * k + 1)
  {
    k := i / 2;
  }

  /** Swapping twice gives back the file, without its lone last byte if its length is odd. */
  lemma SwapPairsInvolution(raw: seq<byte>)
    ensures SwapPairs(SwapPairs(raw)) == raw[..|raw| - |raw| % 2]
  {
    var once := SwapPairs(raw);
    var twice := SwapPairs(once);
    assert |twice| == |once| by {
      EvenLength(|raw|);
    }
    forall i | 0 <= i < |twice|
      ensures twice[i] == raw[i]
    {
      var k := PairOf(i, |raw|);
      SwapPairsAt(raw, k);
      SwapPairsAt(once, k);
    }
  }

  lemma EvenLength(n: nat)
    ensures (n - n % 2) % 2 == 0
  {
  }

  /** A buffered byte at an even raw position `pos` is logical byte `pos - 1`. */
  lemma ServesBuffered(raw: seq<byte>, pos: nat)
    requires pos % 2 == 0 && 2 <= pos <= |raw|
    ensures pos - 1 < |SwapPairs(raw)| && SwapPairs(raw)[pos - 1] == raw[pos - 2]
  {
    var k := (pos - 2) / 2;
    assert 2 * k == pos - 2;
    SwapPairsAt(raw, k);
  }

  /** A full pair read at an even raw position `pos` serves logical byte `pos` first. */
  lemma ServesPair(raw: seq<byte>, pos: nat)
    requires pos % 2 == 0 && pos + 2 <= |raw|
    ensures pos < |SwapPairs(raw)| && SwapPairs(raw)[pos] == raw[pos + 1]
  {
    var k := pos / 2;
    assert 2 * k == pos;
    SwapPairsAt(raw, k);
  }

  datatype Whence = FromStart | FromCurrent

  /** A binary file opened for reading: fixed content and a position that may lie past the end. */
  class RawFile {
    const data: seq<byte>
    var pos: nat

    constructor (data: seq<byte>)
      ensures this.data == data && pos == 0
    {
      this.data := data;
      pos := 0;
    }

    /** `f.read(n)`: up to `n` bytes from the position, fewer (or none) near or past the end. */
    method Read(n: nat) returns (r: seq<byte>)
      modifies this
      ensures r == Slice(data, old(pos), old(pos) + n)
      ensures pos == old(pos) + |r|
    {
      r := Slice(data, pos, pos + n);
      pos := pos + |r|;
    }

    /** `f.seek(offset, whence)` for whence 0 and 1. */
    method Seek(offset: int, whence: Whence)
      requires (if whence == FromStart then offset else pos + offset) >= 0
      modifies this
      ensures pos == (if whence == FromStart then offset else old(pos) + offset)
    {
      pos := if whence == FromStart then offset else pos + offset;
    }
  }

  /** `ByteSwapper`: reads a byte-swapped file two raw bytes at a time, serving them in swapped order. */
  class ByteSwapper {
    const file: RawFile
    var buffer: seq<byte>

    constructor (f: RawFile)
      ensures file == f && buffer == []
    {
      file := f;
      buffer := [];
    }

    /** The bytes this stream serves, from logical position 0. */
    ghost function Logical(): seq<byte>
    {
      SwapPairs(file.data)
    }

    /**
     * The reachable states: either nothing is buffered and the raw position is at a pair boundary
     * (or at or past the end), or the first byte of the pair just read is buffered.
     */
    ghost predicate Valid()
      reads this, file
    {
      && |buffer| <= 1
      && (buffer == [] ==> file.pos % 2 == 0 || file.pos >= |file.data|)
      && (buffer != [] ==> file.pos % 2 == 0 && 2 <= file.pos <= |file.data| && buffer == [file.data[file.pos - 2]])
    }

    /** The logical position: the index in `Logical()` of the next byte served. */
    ghost function Tell(): nat
      reads this, file
      requires Valid()
    {
      if buffer == [] then file.pos else file.pos - 1
    }

    /** `read(1)`. */
    method Read(n: nat) returns (r: seq<byte>)
      requires n == 1
      modifies this, file
      ensures old(buffer) != [] ==> r == old(buffer) && buffer == [] && file.pos == old(file.pos)
      ensures old(buffer) == [] ==>
        var x := Slice(file.data, old(file.pos), old(file.pos) + 2);
        && file.pos == old(file.pos) + |x|
        && (|x| < 2 ==> r == [] && buffer == [])
        && (|x| == 2 ==> r == x[1..] && buffer == x[..1])
      ensures old(Valid()) ==> Valid()
      ensures old(Valid()) && old(Tell()) < |Logical()| ==> r == [Logical()[old(Tell())]] && Tell() == old(Tell()) + 1
      ensures old(Valid()) && old(Tell()) >= |Logical()| ==> r == [] && Tell() >= |Logical()|
    {
      if buffer != [] {
        r := buffer;
        buffer := [];
        if old(Valid()) {
          ServesBuffered(file.data, file.pos);
        }
        return;
      }
      var x := file.Read(2);
      if |x| < 2 {
        r := [];
        return;
      }
      buffer := x[..1];
      r := x[1..];
      if old(Valid()) {
        ServesPair(file.data, old(file.pos));
      }
    }

    /**
     * `seek(offset, whence)`: seek the raw file; at an even position drop the buffer, at an odd one
     * step back one byte and read once, so that the buffer holds the byte to serve next. A byte still
     * buffered from before is what that read returns, and the stream ends up one position early.
     */
    method Seek(offset: int, whence: Whence)
      requires (if whence == FromStart then offset else file.pos + offset) >= 0
      modifies this, file
      ensures var t := if whence == FromStart then offset else old(file.pos) + offset;
        && Valid()
        && (t % 2 == 0 ==> file.pos == t && buffer == [])
        && (t % 2 == 1 && old(buffer) != [] ==> file.pos == t - 1 && buffer == [] && Tell() == t - 1)
        && (t % 2 == 1 && old(buffer) == [] && t + 1 <= |file.data| ==> file.pos == t + 1 && buffer == [file.data[t - 1]])
        && (t % 2 == 1 && old(buffer) == [] && t + 1 > |file.data| ==> buffer == [] && file.pos >= |file.data|)
        && (t % 2 == 0 || old(buffer) == [] ==> Tell() == t || (t >= |Logical()| && Tell() >= |Logical()|))
    {
      file.Seek(offset, whence);
      if file.pos % 2 == 0 {
        buffer := [];
      } else {
        file.Seek(-1, FromCurrent);
        var _ := Read(1);
      }
    }

    /**
     * The realignment as intended: drop the buffer before stepping back, so that the stream is at
     * logical position `t` in every state.
     */
    method SeekRealigned(offset: int, whence: Whence)
      requires (if whence == FromStart then offset else file.pos + offset) >= 0
      modifies this, file
      ensures var t := if whence == FromStart then offset else old(file.pos) + offset;
        Valid() && (Tell() == t || (t >= |Logical()| && Tell() >= |Logical()|))
    {
      file.Seek(offset, whence);
      buffer := [];
      if file.pos % 2 == 1 {
        file.Seek(-1, FromCurrent);
        var _ := Read(1);
      }
    }
  }

  /**
   * Follows `seek` after a read of a swapped file `[1, 2, 3, 4]`: seeking to logical position 3
   * then reading gives raw byte 3 (logical byte 2), where logical byte 3 is raw byte 2.
   */
  method SeekAfterReadMisaligns() returns (got: seq<byte>, expected: seq<byte>)
    ensures got == [4] && expected == [3] && got != expected
  {
    var f := new RawFile([1, 2, 3, 4]);
    var s := new ByteSwapper(f);
    var first := s.Read(1);
    s.Seek(3, FromStart);
    got := s.Read(1);
    expected := [SwapPairs(f.data)[3]];
  }

  /** The same reads with the corrected realignment serve logical byte 3. */
  method SeekRealignedAfterRead() returns (got: seq<byte>)
    ensures got == [SwapPairs([1, 2, 3, 4])[3]] && got == [3]
  {
    var f := new RawFile([1, 2, 3, 4]);
    var s := new ByteSwapper(f);
    var first := s.Read(1);
    s.SeekRealigned(3, FromStart);
    got := s.Read(1);
  }

  /** The byte order of a ROM image, from its first byte. */
  datatype Layout = NativeOrder | SwappedOrder

  datatype FormatError = FileTooShort

  /** The first byte of a ROM image stored in each layout. */
  function Magic(l: Layout): byte
  {
    match l
    case NativeOrder => 0x80
    case SwappedOrder => 0x37
  }

  /**
   * What `ordered_file` decides from the bytes at the current position: a failure exactly when
   * fewer than four remain, otherwise the layout whose magic byte comes first, if there is one.
   */
  function Classify(rest: seq<byte>): (r: Result<Option<Layout>, FormatError>)
    ensures r.Failure? <==> |rest| < 4
    ensures r.Success? && r.value.Some? ==> Magic(r.value.value) == rest[0]
    ensures r.Success? && r.value.None? ==> rest[0] != Magic(NativeOrder) && rest[0] != Magic(SwappedOrder)
  {
    if |rest| < 4 then Failure(FileTooShort)
    else if rest[0] == 0x80 then Success(Some(NativeOrder))
    else if rest[0] == 0x37 then Success(Some(SwappedOrder))
    else Success(None)
  }

  /** A stream in address order: the file itself or a swapper over it. */
  datatype Ordered = Plain(f: RawFile) | Swapper(s: ByteSwapper)

  /**
   * `ordered_file(f)`: read four bytes, seek back to 0, then fail if fewer than four were read,
   * return the file for 0x80, a fresh swapper for 0x37, and nothing for any other first byte.
   */
  method OrderedFile(f: RawFile) returns (r: Result<Option<Ordered>, FormatError>)
    modifies f
    ensures f.pos == 0
    ensures var c := Classify(Slice(f.data, old(f.pos), |f.data|));
      && (c.Failure? <==> r.Failure?)
      && (c == Success(None) <==> r == Success(None))
      && (c == Success(Some(NativeOrder)) <==> r == Success(Some(Plain(f))))
      && (c == Success(Some(SwappedOrder)) <==>
            r.Success? && r.value.Some? && r.value.value.Swapper?)
    ensures r.Success? && r.value.Some? && r.value.value.Swapper? ==>
      var s := r.value.value.s;
      fresh(s) && s.file == f && s.buffer == [] && s.Valid() && s.Tell() == 0
  {
    var magic := f.Read(4);
    f.Seek(0, FromStart);
    if |magic| < 4 {
      return Failure(FileTooShort);
    }
    assert magic[0] == Slice(f.data, old(f.pos), |f.data|)[0];
    if magic[0] == 0x80 {
      return Success(Some(Plain(f)));
    }
    if magic[0] == 0x37 {
      var s := new ByteSwapper(f);
      return Success(Some(Swapper(s)));
    }
    return Success(None);
  }
}
