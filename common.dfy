/** Values shared by every component of the frame-manifest integrity engine:
    bytes, decoded frames, hex digests, Python's `range`, and the Option/Result
    wrappers that stand for Python's `None` and for raised exceptions. */
module Common {

  /** One uint8 sample, as numpy stores a decoded frame. */
  newtype byte = x: int | 0 <= x < 256

  datatype Option<+T> = None | Some(value: T)

  datatype Result<+T, +E> = Success(value: T) | Failure(error: E)

  /** A decoded frame: a height x width x channels array of uint8 samples in
      numpy's row-major (C-contiguous) layout, so `frame.tobytes()` is `data`. */
  datatype Frame = Frame(height: nat, width: nat, channels: nat, data: seq<byte>) {

    /** numpy's `frame.size`: the product of the shape. */
    function Size(): nat {
      height * width * channels
    }

    /** The buffer holds exactly one byte per sample of the shape. */
    predicate WellShaped() {
      |data| == Size()
    }
  }

  predicate IsHexChar(c: char) {
    '0' <= c <= '9' || 'a' <= c <= 'f'
  }

  /** What `hashlib.sha256(...).hexdigest()` returns: 64 lower-case hex digits. */
  predicate IsHexDigest(s: string) {
    |s| == 64 && forall i :: 0 <= i < |s| ==> IsHexChar(s[i])
  }

  type HexDigest = s: string | IsHexDigest(s)
    witness seq(64, _ => '0')

  /** The fingerprint function: SHA-256 of a frame's bytes, as a hex digest.
      It is a parameter of the model, so nothing is assumed about it beyond its type. */
  type Hasher = seq<byte> -> HexDigest

  function Min(a: nat, b: nat): nat {
    if a <= b then a else b
  }

  /** Python's `range(lo, hi)` as a list. */
  function Range(lo: nat, hi: nat): (r: seq<nat>)
    decreases hi - lo
    ensures |r| == if lo < hi then hi - lo else 0
    ensures forall i :: 0 <= i < |r| ==> r[i] == lo + i
  {
    if lo >= hi then [] else [lo] + Range(lo + 1, hi)
  }

  /** `range(lo, hi + 1)` is `range(lo, hi)` followed by hi. */
  lemma RangeSnoc(lo: nat, hi: nat)
    requires lo <= hi
    ensures Range(lo, hi) + [hi] == Range(lo, hi + 1)
  {
  }

  /** Every element is smaller than the next. */
  predicate StrictlyAscending(s: seq<nat>) {
    forall i, j :: 0 <= i < j < |s| ==> s[i] < s[j]
  }
}
