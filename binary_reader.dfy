/**
 * Primitive reads over an object file held in memory as a byte sequence:
 * little-endian unsigned integers at an offset, and NUL-terminated names
 * looked up in a string table.
 *
 * A read that runs past the end of the data returns the bytes that are
 * there (a file read in Python does not fail on a short read), so no
 * operation here has a precondition on the size of the data.
 */
module BinaryReader {

  type Byte = b: int | 0 <= b < 256
  type Bytes = seq<Byte>

  function Pow256(n: nat): (p: nat)
    ensures p >= 1
  {
    if n == 0 then 1 else 256 * Pow256(n - 1)
  }

  lemma {:induction false} Pow256Monotone(m: nat, n: nat)
    requires m <= n
    ensures Pow256(m) <= Pow256(n)
  {
    if m < n {
      Pow256Monotone(m, n - 1);
    }
  }

  /** The unsigned value of `bs`, least significant byte first. */
  function LittleEndian(bs: Bytes): (v: nat)
    ensures v < Pow256(|bs|)
  {
    if bs == [] then 0 else bs[0] + 256 * LittleEndian(bs[1..])
  }

  /** The `n`-byte little-endian encoding of `v` (the inverse of LittleEndian). */
  function ToLittleEndian(v: nat, n: nat): (bs: Bytes)
    ensures |bs| == n
  {
    if n == 0 then [] else [v % 256] + ToLittleEndian(v / 256, n - 1)
  }

  lemma {:induction false} LittleEndianOfEncoding(v: nat, n: nat)
    requires v < Pow256(n)
    ensures LittleEndian(ToLittleEndian(v, n)) == v
  {
    if n > 0 {
      var bs := ToLittleEndian(v, n);
      assert bs[1..] == ToLittleEndian(v / 256, n - 1);
      assert v / 256 < Pow256(n - 1);
      LittleEndianOfEncoding(v / 256, n - 1);
    }
  }

  lemma {:induction false} EncodingOfLittleEndian(bs: Bytes)
    ensures ToLittleEndian(LittleEndian(bs), |bs|) == bs
  {
    if bs != [] {
      var v := LittleEndian(bs);
      var rest := LittleEndian(bs[1..]);
      assert v % 256 == bs[0] && v / 256 == rest;
      EncodingOfLittleEndian(bs[1..]);
    }
  }

  /**
   * `f.seek(off); f.read(n)` on a file holding `data`: the bytes starting
   * at `off`, as many of the `n` requested as the data still holds.
   */
  function ReadAt(data: Bytes, off: nat, n: nat): (r: Bytes)
    ensures |r| == if off + n <= |data| then n else if off < |data| then |data| - off else 0
    ensures off <= |data| ==> off + |r| <= |data| && r == data[off..off + |r|]
  {
    if off >= |data| then []
    else if off + n <= |data| then data[off..off + n]
    else data[off..]
  }

  /** Two consecutive reads return what one read of their combined length returns. */
  lemma ReadAtSequential(data: Bytes, off: nat, n: nat, m: nat)
    ensures ReadAt(data, off, n) + ReadAt(data, off + n, m) == ReadAt(data, off, n + m)
  {
    if off < |data| && off + n < |data| {
      var e := if off + n + m <= |data| then off + n + m else |data|;
      var a, b := data[off..off + n], data[off + n..e];
      assert forall k :: 0 <= k < e - off ==> data[off..e][k] == (a + b)[k];
      assert data[off..e] == a + b;
    }
  }

  /** `read_int`: an `n`-byte unsigned little-endian integer read at `off`. */
  function ReadInt(data: Bytes, off: nat, n: nat): (v: nat)
    ensures v < Pow256(n)
    ensures off + n <= |data| ==> v == LittleEndian(data[off..off + n])
  {
    var r := ReadAt(data, off, n);
    Pow256Monotone(|r|, n);
    LittleEndian(r)
  }

  /** Reading back an integer written at `|pre|` gives the integer. */
  lemma ReadIntOfEncoding(pre: Bytes, v: nat, n: nat, post: Bytes)
    requires v < Pow256(n)
    ensures ReadInt(pre + ToLittleEndian(v, n) + post, |pre|, n) == v
  {
    var data := pre + ToLittleEndian(v, n) + post;
    assert data[|pre|..|pre| + n] == ToLittleEndian(v, n);
    LittleEndianOfEncoding(v, n);
  }

  /** There is a `b` at or after `start` in `s`. */
  ghost predicate Occurs(s: Bytes, b: Byte, start: nat)
  {
    exists j :: start <= j < |s| && s[j] == b
  }

  /** `s.find(b, start)`: the first index at or after `start` holding `b`, or -1. */
  function Find(s: Bytes, b: Byte, start: nat): (i: int)
    ensures i == -1 <==> !Occurs(s, b, start)
    ensures i != -1 ==> start <= i < |s| && s[i] == b
    ensures i != -1 ==> forall j :: start <= j < i ==> s[j] != b
    decreases |s| - start
  {
    if start >= |s| then -1
    else if s[start] == b then start
    else Find(s, b, start + 1)
  }

  /** `s[lo:hi]` with Python's slice semantics for a non-negative `lo`. */
  function Slice(s: Bytes, lo: nat, hi: int): (r: Bytes)
    ensures 0 <= hi <= |s| && lo <= hi ==> r == s[lo..hi]
    ensures hi == -1 ==> r == if lo + 1 < |s| then s[lo..|s| - 1] else []
  {
    var h := if hi < 0 then (if hi + |s| < 0 then 0 else hi + |s|) else if hi > |s| then |s| else hi;
    var l := if lo > |s| then |s| else lo;
    if l >= h then [] else s[l..h]
  }

  /**
   * The name at offset `off` of string table `strtab`:
   * `strtab[off:strtab.find(0, off)]`.
   */
  function NameAt(strtab: Bytes, off: nat): (r: Bytes)
    ensures 0 !in r
    ensures Occurs(strtab, 0, off) ==>
              off + |r| < |strtab| && strtab[off + |r|] == 0 && r == strtab[off..off + |r|]
    ensures !Occurs(strtab, 0, off) ==>
              r == if off + 1 < |strtab| then strtab[off..|strtab| - 1] else []
  {
    Slice(strtab, off, Find(strtab, 0, off))
  }

  /** `read_name`: the name whose 4-byte string-table offset is stored at `pos`. */
  function ReadName(data: Bytes, pos: nat, strtab: Bytes): (r: Bytes)
    ensures pos + 4 <= |data| ==> r == NameAt(strtab, LittleEndian(data[pos..pos + 4]))
    ensures 0 !in r
  {
    NameAt(strtab, ReadInt(data, pos, 4))
  }
}
