/**
 The pixel section the encoder writes for an RGB or RGBA image: every pixel in
 turn, its channels in the order B, G, R and then A for four-component pixels.
 */
module TgaPixels {
  import opened Bytes

  /** Component counts the per-pixel loop handles (`numComp() >= 3`). */
  predicate ColorComps(n: nat) { n == 3 || n == 4 }

  /**
   Which in-memory channel the `k`-th byte written for a pixel comes from:
   `2 - c` for the three colour bytes, then channel 3 (alpha).
   */
  function Channel(k: nat): (ch: nat)
    requires k < 4
    ensures ch < 4
    ensures k < 3 ==> ch == 2 - k
    ensures k == 3 ==> ch == 3
  {
    if k < 3 then 2 - k else 3
  }

  /** The bytes written for pixel `p` of a buffer with `n` components per pixel. */
  function PixelOut(data: seq<byte>, n: nat, p: nat): (r: seq<byte>)
    requires ColorComps(n) && (p + 1) * n <= |data|
    ensures |r| == n
  {
    [data[p * n + 2], data[p * n + 1], data[p * n]] + if n == 4 then [data[p * n + 3]] else []
  }

  /** Byte `k` written for pixel `p` is channel `Channel(k)` of that pixel. */
  lemma PixelOutAt(data: seq<byte>, n: nat, p: nat, k: nat)
    requires ColorComps(n) && (p + 1) * n <= |data| && k < n
    ensures p * n + Channel(k) < |data|
    ensures PixelOut(data, n, p)[k] == data[p * n + Channel(k)]
  {
    assert (p + 1) * n == p * n + n;
  }

  /**
   The bytes written for pixels `0 .. count-1`, in that order: `n` bytes for
   each pixel.
   */
  function Encoded(data: seq<byte>, n: nat, count: nat): (r: seq<byte>)
    requires ColorComps(n) && count * n <= |data|
    ensures |r| == count * n
  {
    if count == 0 then []
    else
      var m := count - 1;
      assert m * n + n == count * n;
      Encoded(data, n, m) + PixelOut(data, n, m)
  }

  /** `n`-byte pixels before pixel `q` end no later than where pixel `q` starts. */
  lemma Stride(p: nat, q: nat, n: nat)
    requires p < q
    ensures p * n + n <= q * n
  {
    assert p * n + n == (p + 1) * n;
    assert (p + 1) * n <= q * n;
  }

  /** Writing pixel `p` extends the section for pixels `0 .. p-1` by that pixel's bytes. */
  lemma EncodedStep(data: seq<byte>, n: nat, p: nat)
    requires ColorComps(n) && (p + 1) * n <= |data|
    ensures p * n <= |data|
    ensures Encoded(data, n, p + 1) == Encoded(data, n, p) + PixelOut(data, n, p)
  {
    assert (p + 1) * n == p * n + n;
  }

  /**
   Byte `k` of pixel `p` in the pixel section is channel `Channel(k)` of pixel
   `p` in memory: B, G, R come from channels 2, 1, 0 and A from channel 3.
   */
  lemma {:induction false} EncodedAt(data: seq<byte>, n: nat, count: nat, p: nat, k: nat)
    requires ColorComps(n) && count * n <= |data|
    requires p < count && k < n
    ensures |Encoded(data, n, count)| == count * n
    ensures p * n + k < count * n
    ensures Encoded(data, n, count)[p * n + k] == data[p * n + Channel(k)]
  {
    var m := count - 1;
    assert m * n + n == count * n;
    EncodedStep(data, n, m);
    if p < m {
      Stride(p, m, n);
      EncodedAt(data, n, m, p, k);
    } else {
      PixelOutAt(data, n, p, k);
    }
  }

  /**
   The reference channel swap: exchange the first and third byte of each
   `n`-byte pixel, leaving the rest of the pixel alone (and any trailing
   partial pixel).
   */
  function SwapRedBlue(s: seq<byte>, n: nat): (r: seq<byte>)
    requires ColorComps(n)
    ensures |r| == |s|
    decreases |s|
  {
    if |s| < n then s else [s[2], s[1], s[0]] + s[3..n] + SwapRedBlue(s[n..], n)
  }

  /** Swapping the red and blue channels twice restores the buffer. */
  lemma {:induction false} SwapInvolution(s: seq<byte>, n: nat)
    requires ColorComps(n)
    ensures SwapRedBlue(SwapRedBlue(s, n), n) == s
    decreases |s|
  {
    if |s| >= n {
      var t := SwapRedBlue(s, n);
      assert t[..n] == [s[2], s[1], s[0]] + s[3..n];
      assert t[n..] == SwapRedBlue(s[n..], n);
      SwapInvolution(s[n..], n);
      assert SwapRedBlue(t, n) == [s[0], s[1], s[2]] + s[3..n] + s[n..];
      assert s == s[..n] + s[n..];
    }
  }

  /** In the swapped buffer, byte `k` of pixel `p` is channel `Channel(k)` of that pixel. */
  lemma {:induction false} SwapAt(s: seq<byte>, n: nat, p: nat, k: nat)
    requires ColorComps(n) && k < n && p * n + n <= |s|
    ensures SwapRedBlue(s, n)[p * n + k] == s[p * n + Channel(k)]
  {
    var r := SwapRedBlue(s, n);
    assert r[n..] == SwapRedBlue(s[n..], n);
    if p == 0 {
      assert p * n == 0;
    } else {
      var q := p - 1;
      assert q * n + n == p * n;
      SwapAt(s[n..], n, q, k);
    }
  }

  /** Byte `q` of a section of `count` pixels is byte `q % n` of pixel `q / n`. */
  lemma ByteOfPixel(q: nat, n: nat, count: nat)
    requires ColorComps(n) && q < count * n
    ensures q == (q / n) * n + q % n && q / n < count
  {
    if n == 3 {
      assert q / 3 < count;
    } else {
      assert q / 4 < count;
    }
  }

  /**
   The pixel section of `count` pixels is the reference swap of the first
   `count * n` bytes of the buffer.
   */
  lemma EncodedIsSwap(data: seq<byte>, n: nat, count: nat)
    requires ColorComps(n) && count * n <= |data|
    ensures Encoded(data, n, count) == SwapRedBlue(data[..count * n], n)
  {
    var e := Encoded(data, n, count);
    var r := SwapRedBlue(data[..count * n], n);
    forall q | 0 <= q < |e|
      ensures e[q] == r[q]
    {
      EncodedSwapAt(data, n, count, q);
    }
  }

  lemma EncodedSwapAt(data: seq<byte>, n: nat, count: nat, q: nat)
    requires ColorComps(n) && count * n <= |data| && q < count * n
    ensures |Encoded(data, n, count)| == count * n
    ensures Encoded(data, n, count)[q] == SwapRedBlue(data[..count * n], n)[q]
  {
    var p, k := q / n, q % n;
    ByteOfPixel(q, n, count);
    EncodedAt(data, n, count, p, k);
    Stride(p, count, n);
    SwapAt(data[..count * n], n, p, k);
  }
}
