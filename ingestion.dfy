/** The ingestion pipeline `process_video` (api_encrypt.py:154-208): every decoded
    frame of non-zero size is encrypted, fingerprinted and written out with its
    channel 0 replaced by ciphertext; the collected fingerprints are then written
    as the manifest. The decoded stream is an input sequence and the frames handed
    to `out.write` form an output sequence. */
module Ingestion {
  import opened Common
  import opened ManifestCodec
  import opened CipherOverlay
  import opened Reconciliation

  /** Every decoded frame's buffer matches its shape, as a numpy array's does. */
  predicate AllWellShaped(frames: seq<Frame>) {
    forall i :: 0 <= i < |frames| ==> frames[i].WellShaped()
  }

  /** The frame at decoder position p passes the size check at line 171 and its
      encryption at line 179 does not raise. */
  predicate Processed(frames: seq<Frame>, cbc: Cipher, p: nat)
    requires p < |frames|
  {
    frames[p].Size() > 0 && EncryptData(cbc, p, frames[p].data).Some?
  }

  /** The decoder positions among the first n whose frame is processed, in stream order. */
  function Kept(frames: seq<Frame>, cbc: Cipher, n: nat): (r: seq<nat>)
    requires n <= |frames|
    ensures forall i :: 0 <= i < |r| ==> r[i] < n
  {
    if n == 0 then []
    else Kept(frames, cbc, n - 1) + (if Processed(frames, cbc, n - 1) then [n - 1] else [])
  }

  /** `encrypted_frame_visual` for a processed frame (lines 176-194). */
  function Visual(f: Frame, cbc: Cipher, pos: nat): Frame
    requires f.WellShaped() && f.Size() > 0 && EncryptData(cbc, pos, f.data).Some?
  {
    Mark(f, Normalize(EncryptData(cbc, pos, f.data).value, f.Size()))
  }

  /** `frame_hashes` and the frames passed to `out.write`. */
  datatype Ingested = Ingested(digests: seq<HexDigest>, written: seq<Frame>)

  /** What the loop at lines 165-200 has produced after reading the first n frames:
      a processed frame appends its digest and its overlay, any other frame nothing. */
  function IngestPrefix(frames: seq<Frame>, hash: Hasher, cbc: Cipher, n: nat): Ingested
    requires AllWellShaped(frames) && n <= |frames|
  {
    if n == 0 then Ingested([], [])
    else
      var prev := IngestPrefix(frames, hash, cbc, n - 1);
      var f := frames[n - 1];
      if Processed(frames, cbc, n - 1)
      then Ingested(prev.digests + [hash(f.data)], prev.written + [Visual(f, cbc, n - 1)])
      else prev
  }

  function Ingest(frames: seq<Frame>, hash: Hasher, cbc: Cipher): Ingested
    requires AllWellShaped(frames)
  {
    IngestPrefix(frames, hash, cbc, |frames|)
  }

  // ---------------------------------------------------------------------------
  // process_video

  /** Lines 154-208 on a decoded stream: the digests collected, the frames written and
      the manifest text stored at `hash_file_path`. */
  method ProcessVideo(frames: seq<Frame>, hash: Hasher, cbc: Cipher)
    returns (frameHashes: seq<HexDigest>, written: seq<Frame>, manifest: string)
    requires AllWellShaped(frames)
    ensures Ingested(frameHashes, written) == Ingest(frames, hash, cbc)
    ensures manifest == EncodeManifest(frameHashes)
  {
    frameHashes := [];
    written := [];
    var pos := 0;
    while pos < |frames|
      invariant pos <= |frames|
      invariant Ingested(frameHashes, written) == IngestPrefix(frames, hash, cbc, pos)
    {
      var frame := frames[pos];
      pos := pos + 1;
      if frame.Size() == 0 {
        continue;
      }
      var encrypted := EncryptData(cbc, pos - 1, frame.data);
      if encrypted.None? {
        continue;                   // the exception is reported and the frame dropped
      }
      frameHashes := frameHashes + [hash(frame.data)];
      var ct := Normalize(encrypted.value, frame.Size());
      written := written + [Mark(frame, ct)];
    }
    manifest := WriteManifest(frameHashes);
  }

  /** Lines 206-208: one line per digest, labelled with its position in `frame_hashes`. */
  method WriteManifest(frameHashes: seq<HexDigest>) returns (manifest: string)
    ensures manifest == EncodeManifest(frameHashes)
    ensures DecodeManifest(manifest) == Success(frameHashes)
  {
    manifest := "";
    var i := 0;
    while i < |frameHashes|
      invariant i <= |frameHashes|
      invariant manifest == Concat(ManifestLines(frameHashes)[..i])
    {
      var lines := ManifestLines(frameHashes);
      assert lines[..i + 1] == lines[..i] + [lines[i]];
      ConcatSnoc(lines[..i], lines[i]);
      manifest := manifest + ManifestLine(i, frameHashes[i]);
      i := i + 1;
    }
    assert ManifestLines(frameHashes)[..i] == ManifestLines(frameHashes);
    ManifestRoundTrip(frameHashes);
  }

  // ---------------------------------------------------------------------------
  // Properties of ingestion

  /** A position is kept exactly when it was read and processed; kept positions ascend. */
  lemma {:induction false} KeptMembers(frames: seq<Frame>, cbc: Cipher, n: nat, p: nat)
    requires n <= |frames|
    ensures p in Kept(frames, cbc, n) <==> p < n && Processed(frames, cbc, p)
    ensures StrictlyAscending(Kept(frames, cbc, n))
  {
    if n > 0 {
      KeptMembers(frames, cbc, n - 1, p);
    }
  }

  /** One digest and one written frame per kept position. */
  lemma {:induction false} IngestCounts(frames: seq<Frame>, hash: Hasher, cbc: Cipher, n: nat)
    requires AllWellShaped(frames) && n <= |frames|
    ensures |IngestPrefix(frames, hash, cbc, n).digests| == |Kept(frames, cbc, n)|
    ensures |IngestPrefix(frames, hash, cbc, n).written| == |Kept(frames, cbc, n)|
  {
    if n > 0 {
      IngestCounts(frames, hash, cbc, n - 1);
    }
  }

  /** Entry k of the output comes from the k-th processed frame: its digest is that frame's
      fingerprint, and the written frame is that frame's overlay. */
  lemma {:induction false} IngestEntry(frames: seq<Frame>, hash: Hasher, cbc: Cipher, n: nat, k: nat)
    requires AllWellShaped(frames) && n <= |frames|
    requires k < |Kept(frames, cbc, n)|
    ensures var out := IngestPrefix(frames, hash, cbc, n);
            var p := Kept(frames, cbc, n)[k];
            && |out.digests| == |out.written| == |Kept(frames, cbc, n)|
            && Processed(frames, cbc, p)
            && out.digests[k] == hash(frames[p].data)
            && out.written[k] == Visual(frames[p], cbc, p)
  {
    IngestCounts(frames, hash, cbc, n);
    IngestCounts(frames, hash, cbc, n - 1);
    if k < |Kept(frames, cbc, n - 1)| {
      IngestEntry(frames, hash, cbc, n - 1, k);
    }
  }

  /** The written frames keep their source frames' shapes. */
  lemma WrittenShapes(frames: seq<Frame>, hash: Hasher, cbc: Cipher, k: nat)
    requires AllWellShaped(frames)
    requires k < |Kept(frames, cbc, |frames|)|
    ensures |Ingest(frames, hash, cbc).written| == |Kept(frames, cbc, |frames|)|
    ensures var p := Kept(frames, cbc, |frames|)[k];
            var g := Ingest(frames, hash, cbc).written[k];
            && g.height == frames[p].height && g.width == frames[p].width
            && g.channels == frames[p].channels && g.WellShaped()
  {
    IngestCounts(frames, hash, cbc, |frames|);
    IngestEntry(frames, hash, cbc, |frames|, k);
  }

  lemma {:induction false} AscendingAtLeastIndex(s: seq<nat>, k: nat)
    requires StrictlyAscending(s) && k < |s|
    ensures k <= s[k]
  {
    if k > 0 {
      AscendingAtLeastIndex(s, k - 1);
    }
  }

  /** The frame fingerprinted on manifest line k sits at decoder position k or later. */
  lemma LabelAtOrAfterPosition(frames: seq<Frame>, cbc: Cipher, k: nat)
    requires k < |Kept(frames, cbc, |frames|)|
    ensures k <= Kept(frames, cbc, |frames|)[k]
  {
    KeptMembers(frames, cbc, |frames|, 0);
    AscendingAtLeastIndex(Kept(frames, cbc, |frames|), k);
  }

  /** The label of manifest line k counts processed frames only: once any frame before the
      one it fingerprints was dropped, that frame sits strictly later than position k. */
  lemma LabelsCountProcessedFrames(frames: seq<Frame>, cbc: Cipher, k: nat, q: nat)
    requires k < |Kept(frames, cbc, |frames|)|
    requires q < Kept(frames, cbc, |frames|)[k] && !Processed(frames, cbc, q)
    ensures k < Kept(frames, cbc, |frames|)[k]
  {
    var kept := Kept(frames, cbc, |frames|);
    KeptMembers(frames, cbc, |frames|, q);
    AscendingAtLeastIndex(kept, k);
    if k == kept[k] {
      KeptPrefixIsRange(kept, k, q);
      assert false;
    }
  }

  /** In a strictly ascending list with s[k] == k, every earlier entry equals its index. */
  lemma {:induction false} KeptPrefixIsRange(s: seq<nat>, k: nat, i: nat)
    requires StrictlyAscending(s) && k < |s| && s[k] == k && i <= k
    ensures s[i] == i
    decreases k - i
  {
    AscendingAtLeastIndex(s, i);
    if i < k {
      KeptPrefixIsRange(s, k, i + 1);
    }
  }

  /** With no frame dropped, every position is kept and the manifest holds every frame's digest. */
  lemma {:induction false} NothingDropped(frames: seq<Frame>, hash: Hasher, cbc: Cipher, n: nat)
    requires AllWellShaped(frames) && n <= |frames|
    requires forall p :: 0 <= p < n ==> Processed(frames, cbc, p)
    ensures Kept(frames, cbc, n) == Range(0, n)
    ensures IngestPrefix(frames, hash, cbc, n).digests == HashAll(frames[..n], hash)
  {
    if n > 0 {
      NothingDropped(frames, hash, cbc, n - 1);
      RangeSnoc(0, n - 1);
      assert Processed(frames, cbc, n - 1);
      var prev := HashAll(frames[..n - 1], hash);
      var all := HashAll(frames[..n], hash);
      assert all == prev + [hash(frames[n - 1].data)] by {
        assert forall i :: 0 <= i < n - 1 ==> frames[..n][i] == frames[..n - 1][i];
      }
    }
  }

  /** The frames named by the manifest: the processed ones, in stream order. */
  function KeptFrames(frames: seq<Frame>, cbc: Cipher): seq<Frame> {
    var kept := Kept(frames, cbc, |frames|);
    seq(|kept|, k requires 0 <= k < |kept| => frames[kept[k]])
  }

  /** Self-consistency: checking the processed frames against the manifest written for them
      reports nothing and yields the status "unchanged". */
  lemma IngestThenReconcile(frames: seq<Frame>, hash: Hasher, cbc: Cipher)
    requires AllWellShaped(frames)
    ensures var manifest := EncodeManifest(Ingest(frames, hash, cbc).digests);
            var report := Reconcile(manifest, KeptFrames(frames, cbc), hash);
            report == Success(TamperReport([], [])) && Classify(report.value) == Unchanged
  {
    var out := Ingest(frames, hash, cbc);
    var kf := KeptFrames(frames, cbc);
    IngestCounts(frames, hash, cbc, |frames|);
    forall k | 0 <= k < |kf| ensures out.digests[k] == hash(kf[k].data) {
      IngestEntry(frames, hash, cbc, |frames|, k);
    }
    assert out.digests == HashAll(kf, hash);
    SelfConsistent(kf, hash);
  }

  /** A video none of whose frames is dropped reconciles unchanged against its own manifest. */
  lemma SameVideoUnchanged(frames: seq<Frame>, hash: Hasher, cbc: Cipher)
    requires AllWellShaped(frames)
    requires forall p :: 0 <= p < |frames| ==> Processed(frames, cbc, p)
    ensures var report := Reconcile(EncodeManifest(Ingest(frames, hash, cbc).digests), frames, hash);
            report == Success(TamperReport([], [])) && Classify(report.value) == Unchanged
  {
    NothingDropped(frames, hash, cbc, |frames|);
    assert frames[..|frames|] == frames;
    SelfConsistent(frames, hash);
  }

  /** `compare_hashes` does not skip empty frames, so once ingestion drops one the positions
      shift: a two-frame video whose first frame is empty, checked against its own manifest,
      compares frame 0 with the digest of frame 1, reports it tampered when the two digests
      differ, and never looks at frame 1. */
  lemma DroppedFrameShiftsReport(e: Frame, f: Frame, hash: Hasher, cbc: Cipher)
    requires e.WellShaped() && e.Size() == 0 && f.WellShaped()
    requires Processed([e, f], cbc, 1) && hash(e.data) != hash(f.data)
    ensures var report := Reconcile(EncodeManifest(Ingest([e, f], hash, cbc).digests), [e, f], hash);
            report == Success(TamperReport([0], []))
            && Classify(report.value) == Modified([], [0])
  {
    var frames := [e, f];
    assert !Processed(frames, cbc, 0);
    assert IngestPrefix(frames, hash, cbc, 1) == Ingested([], []);
    var digests := Ingest(frames, hash, cbc).digests;
    assert digests == [hash(f.data)];
    ManifestRoundTrip(digests);
    assert TamperedPrefix(digests, frames, hash, 1) == [0];
  }

  /** No more positions are kept than frames were read. */
  lemma KeptLength(frames: seq<Frame>, cbc: Cipher)
    ensures |Kept(frames, cbc, |frames|)| <= |frames|
  {
    var kept := Kept(frames, cbc, |frames|);
    if |kept| > |frames| {
      KeptMembers(frames, cbc, |frames|, 0);
      AscendingAtLeastIndex(kept, |frames|);
      assert false;
    }
  }

  /** A video checked against its own manifest, whatever was dropped: nothing is missing,
      and position x is reported tampered exactly when it is one of the first |kept|
      positions and frame x's digest differs from that of the x-th processed frame, the
      one manifest line x fingerprints. */
  lemma OwnManifestReport(frames: seq<Frame>, hash: Hasher, cbc: Cipher, x: nat)
    requires AllWellShaped(frames)
    ensures var kept := Kept(frames, cbc, |frames|);
            var report := Reconcile(EncodeManifest(Ingest(frames, hash, cbc).digests), frames, hash);
            && |kept| <= |frames|
            && report.Success? && report.value.missing == []
            && (x in report.value.tampered <==>
                  x < |kept| && hash(frames[x].data) != hash(frames[kept[x]].data))
  {
    var kept := Kept(frames, cbc, |frames|);
    var m := Ingest(frames, hash, cbc).digests;
    KeptLength(frames, cbc);
    IngestCounts(frames, hash, cbc, |frames|);
    ManifestRoundTrip(m);
    assert Min(|m|, |frames|) == |m|;
    TamperedPrefixMembers(m, frames, hash, |m|, x);
    if x < |kept| {
      IngestEntry(frames, hash, cbc, |frames|, x);
    }
  }

  /** When the kept positions are exactly the first k, every dropped frame comes after all
      kept ones, and the video reconciles unchanged against its own manifest. */
  lemma KeptPrefixUnchanged(frames: seq<Frame>, hash: Hasher, cbc: Cipher, k: nat)
    requires AllWellShaped(frames) && Kept(frames, cbc, |frames|) == Range(0, k)
    ensures var report := Reconcile(EncodeManifest(Ingest(frames, hash, cbc).digests), frames, hash);
            report == Success(TamperReport([], [])) && Classify(report.value) == Unchanged
  {
    var report := Reconcile(EncodeManifest(Ingest(frames, hash, cbc).digests), frames, hash);
    OwnManifestReport(frames, hash, cbc, 0);
    var t := report.value.tampered;
    if t != [] {
      OwnManifestReport(frames, hash, cbc, t[0]);
      assert false;
    }
  }

  /** A dropped frame with no kept frame after it shifts nothing: a two-frame video whose
      last frame is empty reconciles unchanged against its own manifest, because the
      comparison stops at the manifest's length. */
  lemma DroppedLastFrameUnchanged(f: Frame, e: Frame, hash: Hasher, cbc: Cipher)
    requires f.WellShaped() && e.WellShaped() && e.Size() == 0
    requires Processed([f, e], cbc, 0)
    ensures var report := Reconcile(EncodeManifest(Ingest([f, e], hash, cbc).digests), [f, e], hash);
            report == Success(TamperReport([], [])) && Classify(report.value) == Unchanged
  {
    var frames := [f, e];
    assert !Processed(frames, cbc, 1);
    assert IngestPrefix(frames, hash, cbc, 1).digests == [hash(f.data)];
    var digests := Ingest(frames, hash, cbc).digests;
    assert digests == [hash(f.data)];
    ManifestRoundTrip(digests);
    assert TamperedPrefix(digests, frames, hash, 1) == [];
  }
}
