/** The per-frame cipher overlay of `process_video` (api_encrypt.py:176-194):
    the frame's bytes are PKCS#7-padded and AES-CBC encrypted (`encrypt_data`,
    lines 27-30), the ciphertext is resized to `frame.size` and reshaped to the
    frame's shape, and channel 0 of a copy of the frame is overwritten with
    channel 0 of that ciphertext. */
module CipherOverlay {
  import opened Common

  /** `AES.block_size`. */
  const BlockSize: nat := 16

  // ---------------------------------------------------------------------------
  // encrypt_data

  /** `Crypto.Util.Padding.pad(data, 16)`: PKCS#7 padding as in section 6.3 of RFC 5652,
      n bytes of value n appended, n in 1..16. */
  function Pad(data: seq<byte>): (r: seq<byte>)
    ensures |r| % BlockSize == 0
    ensures |data| < |r| <= |data| + BlockSize
    ensures r[..|data|] == data
    ensures forall i :: |data| <= i < |r| ==> r[i] as int == |r| - |data|
  {
    var n := BlockSize - |data| % BlockSize;
    data + seq(n, _ => n as byte)
  }

  /** The padding is the only one that satisfies PKCS#7's rules: a whole number of
      blocks, at least one padding byte, every padding byte holding the padding length. */
  lemma PadIsUnique(data: seq<byte>, r: seq<byte>)
    requires |r| % BlockSize == 0 && |data| < |r| <= |data| + BlockSize
    requires r[..|data|] == data
    requires forall i :: |data| <= i < |r| ==> r[i] as int == |r| - |data|
    ensures r == Pad(data)
  {
    var p := Pad(data);
    assert |r| == |p|;
    forall i | 0 <= i < |r| ensures r[i] == p[i] {
      if i < |data| {
        assert r[i] == r[..|data|][i] && p[i] == p[..|data|][i];
      }
    }
  }

  /** AES-CBC encryption (`AES.new(key, AES.MODE_CBC).encrypt`) under the asset's key,
      with the IV drawn for the call that encrypts the frame at the given decoder
      position; None stands for an exception raised inside the `try` at line 174. */
  type Cipher = (nat, seq<byte>) -> Option<seq<byte>>

  /** Whenever the cipher returns a ciphertext, it has the length of its input, as CBC's
      output has on whole blocks. */
  ghost predicate PreservesLength(cbc: Cipher) {
    forall pos, p :: cbc(pos, p).Some? ==> |cbc(pos, p).value| == |p|
  }

  /** `encrypt_data(data, key)` without its discarded IV. */
  function EncryptData(cbc: Cipher, pos: nat, data: seq<byte>): (r: Option<seq<byte>>)
    ensures PreservesLength(cbc) && r.Some? ==> |r.value| % BlockSize == 0 && |data| < |r.value|
  {
    cbc(pos, Pad(data))
  }

  // ---------------------------------------------------------------------------
  // np.frombuffer / np.resize

  /** `np.resize(a, n)` on a 1-D array: a repeated cyclically to length n,
      all zeros when a is empty. */
  function Resize(a: seq<byte>, n: nat): (r: seq<byte>)
    ensures |r| == n
    ensures a == [] ==> forall i :: 0 <= i < n ==> r[i] == 0
    ensures a != [] ==> forall i :: 0 <= i < n ==> r[i] == a[i % |a|]
    ensures n <= |a| ==> r == a[..n]
  {
    if a == [] then seq(n, _ => 0)
    else
      var r := seq(n, i requires 0 <= i < n => a[i % |a|]);
      assert n <= |a| ==> r == a[..n] by {
        if n <= |a| {
          forall i | 0 <= i < n ensures r[i] == a[i] {
            ModOfSmall(i, |a|);
          }
        }
      }
      r
  }

  /** Lines 186-189: the ciphertext as a flat uint8 array of exactly `size` entries. */
  function Normalize(ct: seq<byte>, size: nat): (r: seq<byte>)
    ensures |r| == size
    ensures size <= |ct| ==> r == ct[..size]
  {
    if |ct| != size then Resize(ct, size) else ct
  }

  /** Padding always lengthens the frame's bytes, so the resize at lines 187-189 always
      runs and always keeps the first `frame.size` bytes of the ciphertext. */
  lemma ResizeAlwaysTruncates(cbc: Cipher, pos: nat, data: seq<byte>)
    requires PreservesLength(cbc) && EncryptData(cbc, pos, data).Some?
    ensures |EncryptData(cbc, pos, data).value| != |data|
    ensures Normalize(EncryptData(cbc, pos, data).value, |data|) == EncryptData(cbc, pos, data).value[..|data|]
  {
  }

  // ---------------------------------------------------------------------------
  // Overlay

  /** The flat index of sample (r, c, k) in a row-major frame of the given shape. */
  function SampleIndex(f: Frame, r: nat, c: nat, k: nat): nat {
    (r * f.width + c) * f.channels + k
  }

  lemma MulMonotone(a: nat, b: nat, m: nat)
    requires a <= b
    ensures a * m <= b * m
  {
  }

  lemma ModOfSmall(i: nat, m: nat)
    requires i < m
    ensures i % m == i
  {
  }

  lemma ModOfMultiplePlus(q: nat, m: nat, k: nat)
    requires k < m
    ensures (q * m + k) % m == k
  {
    var t := q * m + k;
    var d := t / m;
    assert t == d * m + t % m;
    if d < q {
      MulMonotone(d + 1, q, m);
      assert false;
    } else if d > q {
      MulMonotone(q + 1, d, m);
      assert false;
    }
  }

  /** Every in-shape sample has an in-range flat index, and its channel is that index modulo C. */
  lemma SampleIndexInRange(f: Frame, r: nat, c: nat, k: nat)
    requires r < f.height && c < f.width && k < f.channels
    ensures SampleIndex(f, r, c, k) < f.Size()
    ensures SampleIndex(f, r, c, k) % f.channels == k
  {
    var w, ch := f.width, f.channels;
    var q := r * w + c;
    MulMonotone(r + 1, f.height, w);
    assert q < f.height * w;
    MulMonotone(q + 1, f.height * w, ch);
    assert q * ch + k < (q + 1) * ch;
    assert f.Size() == f.height * w * ch;
    ModOfMultiplePlus(q, ch, k);
  }

  /** Lines 190-194: reshape ct to the frame's shape, copy the frame and overwrite its
      channel 0 with ct's channel 0; the flat sample i lies in channel i % C. */
  function Mark(f: Frame, ct: seq<byte>): (g: Frame)
    requires f.WellShaped() && f.Size() > 0 && |ct| == f.Size()
    ensures g.height == f.height && g.width == f.width && g.channels == f.channels
    ensures g.WellShaped()
  {
    assert f.channels != 0;
    var ch := f.channels;
    Frame(f.height, f.width, ch,
          seq(|f.data|, i requires 0 <= i < |f.data| => if i % ch == 0 then ct[i] else f.data[i]))
  }

  /** The overlay at sample (r, c, k): channel 0 comes from the reshaped ciphertext,
      every other channel is the frame's own sample. */
  lemma MarkAt(f: Frame, ct: seq<byte>, r: nat, c: nat, k: nat)
    requires f.WellShaped() && f.Size() > 0 && |ct| == f.Size()
    requires r < f.height && c < f.width && k < f.channels
    ensures SampleIndex(f, r, c, k) < |f.data|
    ensures Mark(f, ct).data[SampleIndex(f, r, c, k)]
            == if k == 0 then ct[SampleIndex(f, r, c, k)] else f.data[SampleIndex(f, r, c, k)]
  {
    SampleIndexInRange(f, r, c, k);
  }

  /** The whole per-frame transform (lines 176-194) on a non-empty frame whose encryption
      succeeded: the shape is kept, channels 1..C-1 are untouched, and channel 0 at
      (r, c) is byte (r*W + c)*C of the ciphertext itself. */
  lemma OverlaySample(f: Frame, cbc: Cipher, pos: nat, r: nat, c: nat, k: nat)
    requires f.WellShaped() && f.Size() > 0
    requires PreservesLength(cbc) && EncryptData(cbc, pos, f.data).Some?
    requires r < f.height && c < f.width && k < f.channels
    ensures var ct := EncryptData(cbc, pos, f.data).value;
            var g := Mark(f, Normalize(ct, f.Size()));
            && g.height == f.height && g.width == f.width && g.channels == f.channels
            && SampleIndex(f, r, c, k) < |g.data|
            && (k == 0 ==> g.data[SampleIndex(f, r, c, k)] == ct[SampleIndex(f, r, c, 0)])
            && (k != 0 ==> g.data[SampleIndex(f, r, c, k)] == f.data[SampleIndex(f, r, c, k)])
  {
    var ct := EncryptData(cbc, pos, f.data).value;
    ResizeAlwaysTruncates(cbc, pos, f.data);
    var n := Normalize(ct, f.Size());
    SampleIndexInRange(f, r, c, k);
    MarkAt(f, n, r, c, k);
    assert n[SampleIndex(f, r, c, k)] == ct[SampleIndex(f, r, c, k)];
  }
}
