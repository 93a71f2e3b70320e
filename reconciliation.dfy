/** The reconciliation engine: `compare_hashes` (api_encrypt.py:33-70) walks the
    candidate video's frames in lockstep with the stored digests, and
    `upload_video` turns its report into a status (api_encrypt.py:101-112). */
module Reconciliation {
  import opened Common
  import opened ManifestCodec

  /** The dictionary `compare_hashes` returns. */
  datatype TamperReport = TamperReport(tampered: seq<nat>, missing: seq<nat>)

  /** The `status` of the response built at lines 101-112. */
  datatype Status = Unchanged | Modified(missing: seq<nat>, tampered: seq<nat>)

  // ---------------------------------------------------------------------------
  // Specification

  /** The indices i < n whose candidate frame's digest differs from stored entry i,
      in the order the loop meets them. */
  function TamperedPrefix(m: seq<string>, candidate: seq<Frame>, hash: Hasher, n: nat): (r: seq<nat>)
    requires n <= |m| && n <= |candidate|
    ensures forall i :: 0 <= i < |r| ==> r[i] < n
  {
    if n == 0 then []
    else TamperedPrefix(m, candidate, hash, n - 1)
         + (if hash(candidate[n - 1].data) != m[n - 1] then [n - 1] else [])
  }

  /** The tampered indices over the whole comparison window. */
  function Tampered(m: seq<string>, candidate: seq<Frame>, hash: Hasher): seq<nat> {
    TamperedPrefix(m, candidate, hash, Min(|m|, |candidate|))
  }

  /** What `compare_hashes` returns for a stored manifest text and a candidate stream. */
  function Reconcile(manifest: string, candidate: seq<Frame>, hash: Hasher): Result<TamperReport, ManifestError> {
    match DecodeManifest(manifest)
    case Failure(e) => Failure(e)
    case Success(m) => Success(TamperReport(Tampered(m, candidate, hash), Range(|candidate|, |m|)))
  }

  /** The digest list of a frame sequence, one per frame. */
  function HashAll(frames: seq<Frame>, hash: Hasher): (r: seq<HexDigest>)
    ensures |r| == |frames|
    ensures forall i :: 0 <= i < |frames| ==> r[i] == hash(frames[i].data)
  {
    seq<HexDigest>(|frames|, i requires 0 <= i < |frames| => hash(frames[i].data))
  }

  // ---------------------------------------------------------------------------
  // compare_hashes

  /** Lines 33-70. The candidate stream is what `cv2.VideoCapture` decodes (empty when it
      cannot be opened); `hashed` records, in order, the positions whose frame is hashed. */
  method CompareHashes(manifest: string, candidate: seq<Frame>, hash: Hasher)
    returns (r: Result<TamperReport, ManifestError>, ghost hashed: seq<nat>)
    ensures r == Reconcile(manifest, candidate, hash)
    ensures r.Success? ==> hashed == Range(0, Min(|DecodeManifest(manifest).value|, |candidate|))
  {
    var decoded := DecodeManifest(manifest);
    if decoded.Failure? {
      return Failure(decoded.error), [];
    }
    var mismatches, missingFrames;
    mismatches, missingFrames, hashed := CompareDecoded(decoded.value, candidate, hash);
    r := Success(TamperReport(mismatches, missingFrames));
  }

  /** Lines 41-64: the lockstep walk once the stored list has been read. */
  method CompareDecoded(originalHashList: seq<string>, candidate: seq<Frame>, hash: Hasher)
    returns (mismatches: seq<nat>, missingFrames: seq<nat>, ghost hashed: seq<nat>)
    ensures mismatches == Tampered(originalHashList, candidate, hash)
    ensures missingFrames == Range(|candidate|, |originalHashList|)
    ensures hashed == Range(0, Min(|originalHashList|, |candidate|))
  {
    hashed := [];
    mismatches := [];
    missingFrames := [];
    var frameCount: nat := 0;
    while true
      invariant frameCount <= |originalHashList| && frameCount <= |candidate|
      invariant mismatches == TamperedPrefix(originalHashList, candidate, hash, frameCount)
      invariant missingFrames == []
      invariant hashed == Range(0, frameCount)
      decreases |candidate| - frameCount
    {
      if frameCount == |candidate| {
        break;                      // `cap.read()` returned no frame
      }
      if frameCount >= |originalHashList| {
        // The range is empty here: frameCount == len(original_hash_list).
        assert Range(frameCount, |originalHashList|) == [];
        missingFrames := missingFrames + Range(frameCount, |originalHashList|);
        break;
      }
      var newHash := hash(candidate[frameCount].data);
      RangeSnoc(0, frameCount);
      hashed := hashed + [frameCount];
      if newHash != originalHashList[frameCount] {
        mismatches := mismatches + [frameCount];
      }
      frameCount := frameCount + 1;
    }
    if frameCount < |originalHashList| {
      missingFrames := missingFrames + Range(frameCount, |originalHashList|);
    }
  }

  // ---------------------------------------------------------------------------
  // Status classification

  /** Lines 101-112: unchanged exactly when both lists are empty; otherwise the
      response carries both lists as the report gave them. */
  function Classify(report: TamperReport): (s: Status)
    ensures s == Unchanged <==> report.tampered == [] && report.missing == []
    ensures s.Modified? ==> s.missing == report.missing && s.tampered == report.tampered
  {
    if report.tampered == [] && report.missing == [] then Unchanged
    else Modified(report.missing, report.tampered)
  }

  // ---------------------------------------------------------------------------
  // Properties of the report

  /** An index is reported tampered exactly when it lies in the window and its digests differ. */
  lemma {:induction false} TamperedPrefixMembers(m: seq<string>, candidate: seq<Frame>, hash: Hasher, n: nat, x: nat)
    requires n <= |m| && n <= |candidate|
    ensures x in TamperedPrefix(m, candidate, hash, n) <==> x < n && hash(candidate[x].data) != m[x]
  {
    if n > 0 {
      TamperedPrefixMembers(m, candidate, hash, n - 1, x);
    }
  }

  lemma {:induction false} TamperedPrefixAscending(m: seq<string>, candidate: seq<Frame>, hash: Hasher, n: nat)
    requires n <= |m| && n <= |candidate|
    ensures StrictlyAscending(TamperedPrefix(m, candidate, hash, n))
  {
    if n > 0 {
      TamperedPrefixAscending(m, candidate, hash, n - 1);
    }
  }

  /** Only frames inside the window are ever looked at. */
  lemma {:induction false} TamperedPrefixReadsWindow(m: seq<string>, c1: seq<Frame>, c2: seq<Frame>, hash: Hasher, n: nat)
    requires n <= |m| && n <= |c1| && n <= |c2|
    requires c1[..n] == c2[..n]
    ensures TamperedPrefix(m, c1, hash, n) == TamperedPrefix(m, c2, hash, n)
  {
    if n > 0 {
      assert c1[n - 1] == c1[..n][n - 1] && c2[n - 1] == c2[..n][n - 1];
      assert c1[..n - 1] == c1[..n][..n - 1] && c2[..n - 1] == c2[..n][..n - 1];
      TamperedPrefixReadsWindow(m, c1, c2, hash, n - 1);
    }
  }

  /** The report of a successful reconciliation: tampered holds exactly the in-window
      indices whose digests differ, missing holds exactly [len(candidate), len(manifest)),
      both lists are strictly ascending, they are disjoint, and every index is a manifest index. */
  lemma ReportCharacterised(manifest: string, candidate: seq<Frame>, hash: Hasher, x: nat)
    requires DecodeManifest(manifest).Success?
    ensures var m := DecodeManifest(manifest).value;
            var rep := Reconcile(manifest, candidate, hash).value;
            && (x in rep.tampered <==> x < |m| && x < |candidate| && hash(candidate[x].data) != m[x])
            && (x in rep.missing <==> |candidate| <= x < |m|)
            && StrictlyAscending(rep.tampered) && StrictlyAscending(rep.missing)
            && !(x in rep.tampered && x in rep.missing)
            && (x in rep.tampered || x in rep.missing ==> x < |m|)
  {
    var m := DecodeManifest(manifest).value;
    var n := Min(|m|, |candidate|);
    TamperedPrefixMembers(m, candidate, hash, n, x);
    TamperedPrefixAscending(m, candidate, hash, n);
    var miss := Range(|candidate|, |m|);
    assert x in miss <==> |candidate| <= x < |m| by {
      if |candidate| <= x < |m| {
        assert miss[x - |candidate|] == x;
      }
    }
  }

  /** Candidate frames past the manifest's length change nothing: they are never hashed
      and never reported (the loop breaks at lines 48-50). */
  lemma ExtraFramesIgnored(manifest: string, c1: seq<Frame>, c2: seq<Frame>, hash: Hasher)
    requires DecodeManifest(manifest).Success?
    requires var n := |DecodeManifest(manifest).value|; n <= |c1| && n <= |c2| && c1[..n] == c2[..n]
    ensures Reconcile(manifest, c1, hash) == Reconcile(manifest, c2, hash)
  {
    var m := DecodeManifest(manifest).value;
    TamperedPrefixReadsWindow(m, c1, c2, hash, |m|);
  }

  lemma NoMismatchNoReport(m: seq<string>, candidate: seq<Frame>, hash: Hasher, n: nat)
    requires n <= |m| && n <= |candidate|
    requires forall i :: 0 <= i < n ==> hash(candidate[i].data) == m[i]
    ensures TamperedPrefix(m, candidate, hash, n) == []
  {
    var r := TamperedPrefix(m, candidate, hash, n);
    if r != [] {
      TamperedPrefixMembers(m, candidate, hash, n, r[0]);
      assert false;
    }
  }

  /** Self-consistency: a video checked against the manifest of its own digests is unchanged. */
  lemma SelfConsistent(frames: seq<Frame>, hash: Hasher)
    ensures Reconcile(EncodeManifest(HashAll(frames, hash)), frames, hash) == Success(TamperReport([], []))
    ensures Classify(Reconcile(EncodeManifest(HashAll(frames, hash)), frames, hash).value) == Unchanged
  {
    var m := HashAll(frames, hash);
    ManifestRoundTrip(m);
    NoMismatchNoReport(m, frames, hash, |frames|);
  }

  /** With a single differing position k, the loop reports k once it has passed it. */
  lemma {:induction false} SingleMismatch(m: seq<string>, candidate: seq<Frame>, hash: Hasher, n: nat, k: nat)
    requires n <= |m| && n <= |candidate| && k < |m| && k < |candidate|
    requires hash(candidate[k].data) != m[k]
    requires forall i :: 0 <= i < n && i != k ==> hash(candidate[i].data) == m[i]
    ensures TamperedPrefix(m, candidate, hash, n) == if k < n then [k] else []
  {
    if n > 0 {
      SingleMismatch(m, candidate, hash, n - 1, k);
    }
  }

  /** Replacing one frame by one with a different digest reports exactly that index. */
  lemma OneFrameReplaced(frames: seq<Frame>, k: nat, f: Frame, hash: Hasher)
    requires k < |frames| && hash(f.data) != hash(frames[k].data)
    ensures var report := Reconcile(EncodeManifest(HashAll(frames, hash)), frames[k := f], hash);
            report == Success(TamperReport([k], []))
            && Classify(report.value) == Modified([], [k])
  {
    var m := HashAll(frames, hash);
    var v := frames[k := f];
    ManifestRoundTrip(m);
    SingleMismatch(m, v, hash, |m|, k);
  }

  /** A candidate cut down to its first k frames reports frames k.. as missing and nothing tampered. */
  lemma Truncated(frames: seq<Frame>, k: nat, hash: Hasher)
    requires k <= |frames|
    ensures Reconcile(EncodeManifest(HashAll(frames, hash)), frames[..k], hash)
            == Success(TamperReport([], Range(k, |frames|)))
  {
    var m := HashAll(frames, hash);
    var v := frames[..k];
    ManifestRoundTrip(m);
    assert forall i :: 0 <= i < k ==> v[i] == frames[i];
    NoMismatchNoReport(m, v, hash, k);
    assert Min(|m|, |v|) == k;
  }
}
