/**
 * The max-mode index map: each entry is the row-major offset, inside one
 * input plane of width inW, of the cell selected as the maximum. Entries
 * are stored as 16-bit unsigned integers.
 */
module MaxIndex {

  type Uint16 = x: int | 0 <= x < 0x1_0000

  const Uint16Max: int := 0xFFFF

  /** Offset of cell (h, w) in a plane of width inW. */
  function Encode(h: int, w: int, inW: int): int {
    h * inW + w
  }

  /** Row of an offset: `idx / in_w`. */
  function DecodeRow(idx: int, inW: int): (r: int)
    requires 0 <= idx && 0 < inW
    ensures 0 <= r && r * inW <= idx < r * inW + inW
  {
    idx / inW
  }

  /** Column of an offset: `idx % in_w`. */
  function DecodeCol(idx: int, inW: int): (c: int)
    requires 0 <= idx && 0 < inW
    ensures 0 <= c < inW
    ensures Encode(DecodeRow(idx, inW), c, inW) == idx
  {
    idx % inW
  }

  lemma MulLe(a: int, b: int, n: int)
    requires 0 <= n
    ensures a <= b ==> a * n <= b * n
  {
    if a <= b {
      assert b * n - a * n == (b - a) * n;
    }
  }

  /** An offset below inH * inW decodes to a cell of the inH x inW plane. */
  lemma DecodeInPlane(idx: int, inH: int, inW: int)
    requires 0 <= idx < inH * inW
    requires 0 <= inH
    ensures 0 < inW && 0 < inH
    ensures DecodeRow(idx, inW) < inH
  {
    assert 0 < inW;
    MulLe(inH, DecodeRow(idx, inW), inW);
  }

  /** Decoding undoes encoding for every cell of a plane of width inW. */
  lemma DecodeEncode(h: int, w: int, inW: int)
    requires 0 <= h && 0 <= w < inW
    ensures 0 <= Encode(h, w, inW)
    ensures DecodeRow(Encode(h, w, inW), inW) == h && DecodeCol(Encode(h, w, inW), inW) == w
  {
    var r := DecodeRow(Encode(h, w, inW), inW);
    MulLe(r + 1, h, inW);
    MulLe(h + 1, r, inW);
  }

  /** Two cells of one plane have the same offset only if they are the same cell. */
  lemma EncodeInjective(h: int, w: int, h': int, w': int, inW: int)
    requires 0 <= h && 0 <= w < inW && 0 <= h' && 0 <= w' < inW
    requires Encode(h, w, inW) == Encode(h', w', inW)
    ensures h == h' && w == w'
  {
    DecodeEncode(h, w, inW);
    DecodeEncode(h', w', inW);
  }
}
