# Frame-manifest video integrity engine — Dafny model

The service fingerprints a video frame by frame when it is first uploaded. Each
decoded frame of non-zero size is AES-CBC encrypted, its SHA-256 digest is
recorded, and a copy of the frame is written out with its channel 0 replaced by
ciphertext bytes. The digests are then stored as a text manifest with one line
`Frame {i}: {digest}` per frame. When the same file name is uploaded again, the
new video is decoded and compared with the stored manifest by position. Every
index whose digest differs is reported as *tampered*. When the new video is
shorter, the indices past its end are reported as *missing*. The upload is
classified `unchanged` when both lists are empty and `modified` otherwise.

The model has five modules:

- `Common` (common.dfy): bytes, frames, hex digests, Python's `range`, and the Option and Result wrappers.
- `ManifestCodec` (manifest_codec.dfy): the manifest's text format, and Python's `strip`, `split(": ")`, `readlines` and decimal formatting as it uses them.
- `CipherOverlay` (cipher_overlay.dfy): PKCS#7 padding (section 6.3 of RFC 5652), the abstract cipher, `np.resize`, and the channel-0 overlay.
- `Reconciliation` (reconciliation.dfy): `compare_hashes` and the status classification.
- `Ingestion` (ingestion.dfy): `process_video` and the manifest-writing loop.

SHA-256 is a function parameter `Hasher` that returns a 64-character lower-case
hex digest. AES-CBC under the asset key is a parameter `Cipher` that maps a
decoder position and a padded plaintext to a ciphertext. The position stands for
the fresh random IV of each call. `None` stands for an exception raised during
encryption. Nothing is assumed about either primitive, except, and only where
a lemma says so, that the cipher's output has the length of its input whenever
it returns one (`PreservesLength`), as CBC does on whole blocks.

`compare_hashes` and `process_video` are methods with `while` loops, proved
equal to specification functions (`Reconcile`, `Ingest`). The lemmas state what
the source promises about those functions. The manifest-writing loop is the
method `WriteManifest`. The overlay (numpy slicing, with no loop in the source),
the manifest encoding and decoding, the padding and the classification are
functions.

Two facts about the code deserve a note:

- **Resizing the ciphertext.** `np.resize` repeats its input cyclically, and the model does the same. Padding always makes the ciphertext longer than the frame, so the resize at lines 187-189 only ever truncates (`ResizeAlwaysTruncates`).
- **Self-consistency.** `compare_hashes` does not skip empty frames: every candidate frame inside the window (the first min(len(manifest), len(candidate)) positions) is hashed. `process_video`, in contrast, drops empty frames and frames whose encryption raises. So when a video is checked against its own manifest, nothing is missing, and position x is reported tampered exactly when x is below the number of kept frames and frame x's digest differs from that of the x-th kept frame (`OwnManifestReport`). In particular the video reconciles unchanged when the kept positions are exactly the first k, that is, when no frame was dropped or every dropped frame comes after all kept ones (`KeptPrefixUnchanged`). A dropped frame followed by a kept one shifts the later positions, and then the comparison is made against the wrong digests (`DroppedFrameShiftsReport` shows one such video).

## Model

| member | source | states |
|---|---|---|
| Common.Range | api_encrypt.py:64 | `range(lo, hi)` has hi - lo entries (none when lo >= hi), and entry i is lo + i |
| Common.RangeSnoc | api_encrypt.py:64 | `range(lo, hi + 1)` is `range(lo, hi)` followed by hi |
| ManifestCodec.IsSpace | api_encrypt.py:39 | defined as Python's `str.isspace` on one character (the ASCII and Unicode whitespace set); no ensures, used by `LStrip` and `RStrip` |
| ManifestCodec.LStrip | api_encrypt.py:39 | the result is no longer than the line and does not start with whitespace; `LStripSpec` states what is kept |
| ManifestCodec.RStrip | api_encrypt.py:39 | the result is no longer than the line and does not end with whitespace; `RStripSpec` states what is kept |
| ManifestCodec.Strip | api_encrypt.py:39 | defined as `RStrip(LStrip(s))`, Python's `strip()`; no ensures of its own, see `LStripSpec`, `RStripSpec` and `StripLabelledLine` |
| ManifestCodec.LStripSpec | api_encrypt.py:39 | lstrip keeps a suffix of the line, and every character it drops is Python whitespace |
| ManifestCodec.RStripSpec | api_encrypt.py:39 | rstrip keeps a prefix of the line, and every character it drops is Python whitespace |
| ManifestCodec.FindSep | api_encrypt.py:39 | returns the first `": "` at or after k, or None when there is no delimiter there |
| ManifestCodec.Split | api_encrypt.py:39 | `split(": ")` gives at least one piece; it gives two or more exactly when the delimiter occurs; piece 0 is the text before the first delimiter; with no delimiter the result is `[s]`; no piece contains the delimiter |
| ManifestCodec.SplitJoin | api_encrypt.py:39 | joining the pieces of `split(": ")` with `": "` gives the string back |
| ManifestCodec.FindSepShift | api_encrypt.py:39 | searching a suffix from position k finds the delimiter the whole string has from position d + k, shifted by d |
| ManifestCodec.FieldOne | api_encrypt.py:39 | `line.strip().split(": ")[1]` succeeds exactly when the stripped line contains `": "` |
| ManifestCodec.FieldOneBetweenDelimiters | api_encrypt.py:39 | field 1 is the text after the stripped line's first `": "`, up to the next `": "` or the end of the line |
| ManifestCodec.ReadLines | api_encrypt.py:39 | the lines `readlines` returns concatenate to the whole text; none is empty; every line but the last ends in '\n'; no line has a '\n' before its last character |
| ManifestCodec.ReadLinesConcat | api_encrypt.py:39 | reading back lines that each end in their only newline gives exactly those lines |
| ManifestCodec.DecodeLines | api_encrypt.py:39 | decoding succeeds exactly when every line has a field 1; the result has one entry per line, and entry i is line i's field 1 |
| ManifestCodec.DecodeManifest | api_encrypt.py:39 | defined as `DecodeLines(ReadLines(text))`, the whole comprehension; no ensures of its own, see `ManifestRoundTrip`, `DecodeIgnoresLabels`, `DecodeFailsAt` and `TrailingBlankLineFails` |
| ManifestCodec.Decimal | api_encrypt.py:208 | `f"{i}"` consists of decimal digits, has no leading zero, and denotes i |
| ManifestCodec.ManifestLines | api_encrypt.py:207-208 | one line per digest; line i is `Frame {i}: {digest i}` followed by a newline |
| ManifestCodec.EncodeManifest | api_encrypt.py:206-208 | defined as `Concat(ManifestLines(digests))`, the whole file text; no ensures of its own, see `ManifestRoundTrip`, `TrailingBlankLineFails` and `Ingestion.WriteManifest` |
| ManifestCodec.DecodeIgnoresLabels | api_encrypt.py:39 | decoding keeps only what follows `": "`: lines with any labels free of `:` and newlines decode to their digests in order, so the embedded index is never checked |
| ManifestCodec.FrameLabelIsPlain | api_encrypt.py:208 | the label `Frame {i}` contains no `:` and no newline |
| ManifestCodec.ManifestRoundTrip | api_encrypt.py:206-208 | decoding the text written for any list of hex digests gives that list back, in order |
| ManifestCodec.DecodeFailsAt | api_encrypt.py:39 | one line without `": "` makes the whole decode fail with IndexError |
| ManifestCodec.BlankLineHasNoField | api_encrypt.py:39 | a lone newline has no field 1 |
| ManifestCodec.TrailingBlankLineFails | api_encrypt.py:39 | a manifest with an extra blank line appended fails to decode |
| CipherOverlay.Pad | api_encrypt.py:29 | the padded length is a multiple of 16, greater than the input length and at most 16 more; the input is a prefix; every padding byte holds the padding length |
| CipherOverlay.PadIsUnique | api_encrypt.py:29 | any sequence meeting those PKCS#7 rules is the padding of the data |
| CipherOverlay.EncryptData | api_encrypt.py:27-30 | with a length-preserving cipher, the ciphertext is a multiple of 16 bytes long and longer than the plaintext |
| CipherOverlay.Resize | api_encrypt.py:189 | `np.resize` to n has length n; entry i is entry i mod len(a) of a non-empty input, and 0 for an empty one; when n fits it is the first n entries |
| CipherOverlay.Normalize | api_encrypt.py:186-189 | the ciphertext array has exactly `frame.size` entries; when the ciphertext is at least that long, they are its first `frame.size` bytes |
| CipherOverlay.ResizeAlwaysTruncates | api_encrypt.py:187-189 | the length test at line 187 always holds, and the resize keeps the first `frame.size` ciphertext bytes |
| CipherOverlay.SampleIndex | api_encrypt.py:190 | defined as `(r*W + c)*C + k`, the row-major (C-contiguous) position of sample (r, c, k); no ensures, see `SampleIndexInRange` |
| CipherOverlay.SampleIndexInRange | api_encrypt.py:190 | in the row-major layout, sample (r, c, k) lies at an in-range flat index whose residue modulo C is k |
| CipherOverlay.Mark | api_encrypt.py:190-194 | the overlaid copy has the frame's shape and a buffer of matching size |
| CipherOverlay.MarkAt | api_encrypt.py:193-194 | at sample (r, c, k) the copy holds the ciphertext sample if k is 0, and the frame's own sample otherwise |
| CipherOverlay.OverlaySample | api_encrypt.py:176-194 | the shape is kept; channels 1..C-1 are untouched; channel 0 at (r, c) is ciphertext byte (r*W + c)*C |
| Reconciliation.TamperedPrefix | api_encrypt.py:57-58 | every index recorded in the first n steps is below n |
| Reconciliation.Tampered | api_encrypt.py:41-60 | defined as `TamperedPrefix` over the whole window min(len(manifest), len(candidate)); no ensures of its own, see `TamperedPrefixMembers` and `TamperedPrefixAscending` |
| Reconciliation.Reconcile | api_encrypt.py:33-70 | defined as the decode failure, or the report (`Tampered`, `Range(len(candidate), len(manifest))`); no ensures of its own, see `CompareHashes` and `ReportCharacterised` |
| Reconciliation.HashAll | api_encrypt.py:182-183 | one digest per frame; entry i is the digest of frame i's bytes |
| Reconciliation.CompareHashes | api_encrypt.py:33-70 | the result is `Reconcile`: a decode failure, or the report; on success the positions hashed are exactly 0 .. min(len(manifest), len(candidate)) - 1, in order |
| Reconciliation.CompareDecoded | api_encrypt.py:41-64 | after the loop and the extend, mismatches is the tampered list, missing is `range(len(candidate), len(manifest))`, and exactly the in-window positions were hashed |
| Reconciliation.Classify | api_encrypt.py:101-112 | `unchanged` exactly when both lists are empty; otherwise `modified`, carrying both lists unaltered |
| Reconciliation.TamperedPrefixMembers | api_encrypt.py:57-58 | an index is recorded exactly when it is inside the window and its digests differ |
| Reconciliation.TamperedPrefixAscending | api_encrypt.py:57-60 | the recorded indices are strictly ascending |
| Reconciliation.TamperedPrefixReadsWindow | api_encrypt.py:48-50 | the report depends only on the candidate frames inside the window |
| Reconciliation.ReportCharacterised | api_encrypt.py:41-64 | tampered holds exactly the in-window indices with differing digests; missing holds exactly [len(candidate), len(manifest)); both lists are strictly ascending and disjoint; every reported index is below len(manifest) |
| Reconciliation.ExtraFramesIgnored | api_encrypt.py:48-50 | candidates that agree on the first len(manifest) frames get the same result, whatever follows |
| Reconciliation.NoMismatchNoReport | api_encrypt.py:57-58 | no differing digest in the window means no tampered index |
| Reconciliation.SelfConsistent | api_encrypt.py:33-70 | a frame list checked against the manifest of its own digests gives two empty lists and status `unchanged` |
| Reconciliation.SingleMismatch | api_encrypt.py:57-58 | with exactly one differing position k, the loop has recorded [k] once it is past k, and nothing before |
| Reconciliation.OneFrameReplaced | api_encrypt.py:57-58 | replacing one frame by one with a different digest reports exactly that index as tampered, nothing missing, and status `modified` |
| Reconciliation.Truncated | api_encrypt.py:62-64 | cutting the video to its first k frames reports k .. n-1 missing and nothing tampered |
| Ingestion.Processed | api_encrypt.py:171-179 | defined as: the frame has non-zero size (line 171) and its encryption returns a ciphertext (line 179); no ensures, see `KeptMembers` |
| Ingestion.Visual | api_encrypt.py:176-194 | defined as `Mark` of the frame and its ciphertext resized to `frame.size`; no ensures of its own, see `CipherOverlay.OverlaySample` and `WrittenShapes` |
| Ingestion.IngestPrefix | api_encrypt.py:165-200 | defined by recursion on the frames read: a processed frame appends its digest and its `Visual`, any other frame nothing; no ensures, see `IngestCounts` and `IngestEntry` |
| Ingestion.Ingest | api_encrypt.py:165-200 | defined as `IngestPrefix` over the whole stream; no ensures, see `ProcessVideo` and `OwnManifestReport` |
| Ingestion.Kept | api_encrypt.py:165-183 | every processed position among the first n read is below n |
| Ingestion.ProcessVideo | api_encrypt.py:154-208 | the digests and written frames are `Ingest` of the decoded stream, and the manifest text is their encoding |
| Ingestion.WriteManifest | api_encrypt.py:206-208 | the text written is the encoding of the digests and decodes back to them |
| Ingestion.KeptMembers | api_encrypt.py:171-183 | a position contributes exactly when it was read, its frame is non-empty and its encryption did not raise; contributing positions ascend |
| Ingestion.IngestCounts | api_encrypt.py:179-197 | there is one digest and one written frame per processed frame |
| Ingestion.IngestEntry | api_encrypt.py:176-197 | digest k is the fingerprint of the k-th processed frame, and written frame k is that frame's overlay |
| Ingestion.WrittenShapes | api_encrypt.py:190-197 | every written frame has its source frame's shape |
| Ingestion.LabelAtOrAfterPosition | api_encrypt.py:207-208 | the frame that manifest line k fingerprints sits at decoder position k or later |
| Ingestion.LabelsCountProcessedFrames | api_encrypt.py:207-208 | when a frame before the one on manifest line k was dropped, that frame sits strictly after position k |
| Ingestion.NothingDropped | api_encrypt.py:165-183 | when no frame is dropped, every position is kept and the digests are those of all frames |
| Ingestion.IngestThenReconcile | api_encrypt.py:182-183 | the processed frames, checked against the manifest written for them, give two empty lists and status `unchanged` |
| Ingestion.SameVideoUnchanged | api_encrypt.py:154-208 | a video none of whose frames was dropped reconciles `unchanged` against its own manifest |
| Ingestion.KeptLength | api_encrypt.py:165-183 | no more positions are kept than frames were read |
| Ingestion.OwnManifestReport | api_encrypt.py:33-70 | a video checked against its own manifest: the decode succeeds, nothing is missing, and x is tampered exactly when x is below the number of kept frames and frame x's digest differs from that of the x-th kept frame |
| Ingestion.KeptPrefixUnchanged | api_encrypt.py:171-172 | when the kept positions are exactly 0..k-1, the video reconciles against its own manifest with empty lists and status `unchanged` |
| Ingestion.DroppedFrameShiftsReport | api_encrypt.py:171-172 | the two-frame video [e, f] with e empty, f processed and the two digests different, checked against its own manifest, reports exactly frame 0 tampered, nothing missing, status `modified` |
| Ingestion.DroppedLastFrameUnchanged | api_encrypt.py:171-172 | the two-frame video [f, e] with f processed and e empty reconciles unchanged against its own manifest |

## Left out

- HTTP and storage are not modelled: Flask routing, CORS, request parsing and status codes (api_encrypt.py:73-152), S3 and credentials, and local files. Only the classification at lines 101-112 is kept. An IndexError from a malformed manifest surfaces there as a 500 response; the model carries it as `Failure(IndexError)`.
- Video decoding and encoding are not modelled. `cv2.VideoCapture` becomes an input sequence of frames; a capture that cannot be opened is an empty sequence. `cv2.VideoWriter` becomes the output sequence `written`. Nothing is modelled for fps, width, height, the codec, or a failure inside `out.write`.
- Frames are always 3-dimensional (H, W, C), as cv2 decodes colour video, and the sample buffer always matches the shape (`AllWellShaped`, true of every numpy array). The `frame is None` test cannot fire once `ret` is true, so it is not modelled; a 2-D frame, which would raise at line 194 after its digest is appended, is not modelled either.
- AES, key and IV generation, and SHA-256 are parameters. The IV that `encrypt_data` returns is discarded by its caller and does not appear.
- The printed error message at line 200 is not modelled.
- `readlines` splits on '\n' only. Universal-newline translation of '\r\n' and '\r' and the file's text encoding are not modelled.
- Manifest digests are assumed to be truthful SHA-256 hex strings (`HexDigest`). Decoding accepts any text and returns `seq<string>`.
- Mark: numpy's copy-then-slice-assignment at lines 193-194 is modelled as one function building the new sample buffer, not as an in-place update of an array, because the source has no loop there and the copy is never aliased.
