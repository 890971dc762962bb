/**
 * Bytes, big-endian integers and an in-memory byte cursor with the
 * short-read behaviour of Python's `io.BytesIO`.
 */
module ByteReader {

  /** One octet. */
  type byte = b: int | 0 <= b < 256

  function Min(a: int, b: int): int { if a <= b then a else b }

  /** 256 raised to the power `n`: one more than the largest `n`-byte value. */
  function Pow256(n: nat): (r: nat)
    ensures r >= 1
  {
    if n == 0 then 1 else 256 * Pow256(n - 1)
  }

  /**
   * `int.from_bytes(s, byteorder="big")` as an unsigned value: the first byte
   * is the most significant one and the empty sequence reads as 0.
   */
  function FromBytesBE(s: seq<byte>): (r: nat)
    ensures r < Pow256(|s|)
  {
    if s == [] then 0 else FromBytesBE(s[..|s| - 1]) * 256 + s[|s| - 1]
  }

  /** The two big-endian bytes of an unsigned 16-bit value. */
  function U16BE(v: nat): (s: seq<byte>)
    requires v < 0x1_0000
    ensures |s| == 2
  {
    [v / 256, v % 256]
  }

  /** Reading any big-endian byte string of length 0, 1 or 2 gives the expected value. */
  lemma FromBytesBEShort(s: seq<byte>)
    requires |s| <= 2
    ensures |s| == 0 ==> FromBytesBE(s) == 0
    ensures |s| == 1 ==> FromBytesBE(s) == s[0]
    ensures |s| == 2 ==> FromBytesBE(s) == 256 * (s[0] as int) + s[1]
    ensures FromBytesBE(s) < 0x1_0000
  {
    if |s| == 2 {
      assert s[..1][..0] == [];
    } else if |s| == 1 {
      assert s[..0] == [];
    }
  }

  /** Encoding a 16-bit value big-endian and decoding it again gives it back. */
  lemma U16RoundTrip(v: nat)
    requires v < 0x1_0000
    ensures FromBytesBE(U16BE(v)) == v
  {
    FromBytesBEShort(U16BE(v));
  }

  /** Decoding two bytes and encoding the value again gives the bytes back. */
  lemma U16RoundTripBytes(s: seq<byte>)
    requires |s| == 2
    ensures FromBytesBE(s) < 0x1_0000 && U16BE(FromBytesBE(s)) == s
  {
    FromBytesBEShort(s);
  }

  /**
   * What `read(n)` returns when the cursor stands at `from`: the bytes at
   * offsets `from .. from+n`, cut short at the end of `data` (and empty once
   * `from` is at or beyond the end).
   */
  function Window(data: seq<byte>, from: nat, n: nat): (r: seq<byte>)
    ensures |r| <= n
    ensures |r| == n <==> n == 0 || from + n <= |data|
    ensures |r| < n ==> from + |r| >= |data|
  {
    data[Min(from, |data|)..Min(from + n, |data|)]
  }

  /** Byte `i` of a window is byte `from + i` of the data. */
  lemma WindowAt(data: seq<byte>, from: nat, n: nat)
    ensures forall i :: 0 <= i < |Window(data, from, n)| ==>
      from + i < |data| && Window(data, from, n)[i] == data[from + i]
  {
    var w := Window(data, from, n);
    if |w| > 0 {
      assert from < |data| && w == data[from..Min(from + n, |data|)];
    }
  }

  /** What `read()` returns when the cursor stands at `from`: everything after it. */
  function Tail(data: seq<byte>, from: nat): (r: seq<byte>)
    ensures |r| == if from <= |data| then |data| - from else 0
  {
    data[Min(from, |data|)..]
  }

  /** Byte `i` of the rest is byte `from + i` of the data. */
  lemma TailAt(data: seq<byte>, from: nat)
    ensures forall i :: 0 <= i < |Tail(data, from)| ==>
      from + i < |data| && Tail(data, from)[i] == data[from + i]
  {
    var t := Tail(data, from);
    if |t| > 0 {
      assert from < |data| && t == data[from..];
    }
  }

  /**
   * Two reads in a row read the same bytes as one read at the fixed offset
   * that follows the first window: a short first read means the data is
   * exhausted, so the second read is empty either way.
   */
  lemma WindowsAdjoin(data: seq<byte>, from: nat, n: nat, m: nat)
    ensures Window(data, from + |Window(data, from, n)|, m) == Window(data, from + n, m)
  {
    var first := Window(data, from, n);
    if |first| < n {
      assert Window(data, from + |first|, m) == [];
    }
  }

  /** A window of a longer sequence is the window of its prefix, as long as it fits. */
  lemma WindowOfPrefix(data: seq<byte>, extra: seq<byte>, from: nat, n: nat)
    requires from + n <= |data|
    ensures Window(data + extra, from, n) == Window(data, from, n)
  {
    assert (data + extra)[from..from + n] == data[from..from + n];
  }

  /** Sequences that agree on a window's bytes give the same window. */
  lemma WindowsAgree(a: seq<byte>, b: seq<byte>, from: nat, n: nat)
    requires |a| == |b|
    requires forall i :: from <= i < from + n && i < |a| ==> a[i] == b[i]
    ensures Window(a, from, n) == Window(b, from, n)
  {
  }

  /**
   * An in-memory, seekable byte source over `data`, as `io.BytesIO(data)`
   * behaves: seeking past the end is allowed, reads are silently short.
   */
  class Reader {
    const data: seq<byte>
    var pos: nat

    constructor (data: seq<byte>)
      ensures this.data == data && pos == 0
    {
      this.data := data;
      pos := 0;
    }

    /** `seek(offset)` from the start; the position may lie beyond the end. */
    method Seek(offset: nat)
      modifies this`pos
      ensures pos == offset
    {
      pos := offset;
    }

    /** `read(n)`: at most `n` bytes; the cursor advances by what was read. */
    method Read(n: nat) returns (chunk: seq<byte>)
      modifies this`pos
      ensures chunk == Window(data, old(pos), n)
      ensures pos == old(pos) + |chunk|
    {
      if pos >= |data| {
        chunk := [];
      } else {
        var end := if pos + n <= |data| then pos + n else |data|;
        chunk := data[pos..end];
        pos := end;
      }
    }

    /** `read()`: everything from the cursor to the end. */
    method ReadAll() returns (chunk: seq<byte>)
      modifies this`pos
      ensures chunk == Tail(data, old(pos))
      ensures pos == old(pos) + |chunk|
    {
      if pos >= |data| {
        chunk := [];
      } else {
        chunk := data[pos..];
        pos := |data|;
      }
    }
  }
}
