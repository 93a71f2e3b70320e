/** The fingerprint manifest's text format: `process_video` writes one line
    `Frame {i}: {digest}` and a newline per digest (api_encrypt.py:206-208), and
    `compare_hashes` reads it back by reading the file's lines, stripping each,
    splitting it on `": "` and keeping the second piece (api_encrypt.py:39).
    Python's string primitives are modelled one by one below. */
module ManifestCodec {
  import opened Common

  /** `split(": ")[1]` raised IndexError: the line has no delimiter. */
  datatype ManifestError = IndexError

  // ---------------------------------------------------------------------------
  // str.strip

  /** Python's `str.isspace` on one character: the set `str.strip()` removes. */
  predicate IsSpace(c: char) {
    c == ' ' || ('\t' <= c <= '\r') || ('\U{1c}' <= c <= '\U{1f}')
    || c == '\U{85}' || c == '\U{a0}' || c == '\U{1680}'
    || ('\U{2000}' <= c <= '\U{200a}') || c == '\U{2028}' || c == '\U{2029}'
    || c == '\U{202f}' || c == '\U{205f}' || c == '\U{3000}'
  }

  /** `s.lstrip()`: drops leading whitespace (LStripSpec says exactly what remains). */
  function LStrip(s: string): (r: string)
    ensures |r| <= |s|
    ensures r == [] || !IsSpace(r[0])
  {
    if s != [] && IsSpace(s[0]) then LStrip(s[1..]) else s
  }

  /** `s.rstrip()`: drops trailing whitespace (RStripSpec says exactly what remains). */
  function RStrip(s: string): (r: string)
    ensures |r| <= |s|
    ensures r == [] || !IsSpace(r[|r| - 1])
  {
    if s != [] && IsSpace(s[|s| - 1]) then RStrip(s[..|s| - 1]) else s
  }

  /** lstrip keeps a suffix of s and drops only whitespace before it. */
  lemma {:induction false} LStripSpec(s: string)
    ensures LStrip(s) == s[|s| - |LStrip(s)|..]
    ensures forall i :: 0 <= i < |s| - |LStrip(s)| ==> IsSpace(s[i])
  {
    if s != [] && IsSpace(s[0]) {
      LStripSpec(s[1..]);
    }
  }

  /** rstrip keeps a prefix of s and drops only whitespace after it. */
  lemma {:induction false} RStripSpec(s: string)
    ensures RStrip(s) == s[..|RStrip(s)|]
    ensures forall i :: |RStrip(s)| <= i < |s| ==> IsSpace(s[i])
  {
    if s != [] && IsSpace(s[|s| - 1]) {
      RStripSpec(s[..|s| - 1]);
    }
  }

  /** `s.strip()`. */
  function Strip(s: string): string {
    RStrip(LStrip(s))
  }

  // ---------------------------------------------------------------------------
  // str.split(": ")

  /** The delimiter `": "` starts at position j of s. */
  predicate SepAt(s: string, j: nat) {
    j + 1 < |s| && s[j] == ':' && s[j + 1] == ' '
  }

  /** `s.find(": ", k)`: the first delimiter at or after k. */
  function FindSep(s: string, k: nat): (r: Option<nat>)
    decreases |s| - k
    ensures r.Some? ==> k <= r.value && SepAt(s, r.value)
    ensures r.Some? ==> forall j :: k <= j < r.value ==> !SepAt(s, j)
    ensures r.None? ==> forall j :: k <= j < |s| ==> !SepAt(s, j)
  {
    if k + 1 >= |s| then None
    else if s[k] == ':' && s[k + 1] == ' ' then Some(k)
    else FindSep(s, k + 1)
  }

  /** `s.split(": ")`: the pieces between non-overlapping delimiters, found left to right. */
  function Split(s: string): (r: seq<string>)
    decreases |s|
    ensures |r| >= 1
    ensures |r| >= 2 <==> FindSep(s, 0).Some?
    ensures FindSep(s, 0).Some? ==> r[0] == s[..FindSep(s, 0).value]
    ensures FindSep(s, 0).None? ==> r == [s]
    ensures forall p :: 0 <= p < |r| ==> FindSep(r[p], 0).None?
  {
    match FindSep(s, 0)
    case None => [s]
    case Some(i) =>
      var head := s[..i];
      assert forall j :: 0 <= j < |head| ==> !SepAt(head, j) by {
        forall j | 0 <= j < |head| ensures !SepAt(head, j) {
          if j + 1 < |head| {
            assert !SepAt(s, j);
            assert head[j] == s[j] && head[j + 1] == s[j + 1];
          }
        }
      }
      [head] + Split(s[i + 2..])
  }

  /** `": ".join(pieces)`. */
  function Join(pieces: seq<string>): string
    requires |pieces| >= 1
  {
    if |pieces| == 1 then pieces[0] else pieces[0] + ": " + Join(pieces[1..])
  }

  /** Splitting loses nothing: joining the pieces with the delimiter gives the string back. */
  lemma {:induction false} SplitJoin(s: string)
    decreases |s|
    ensures Join(Split(s)) == s
  {
    match FindSep(s, 0)
    case None =>
    case Some(i) =>
      SplitJoin(s[i + 2..]);
      assert s == s[..i] + ": " + s[i + 2..];
  }

  /** Searching a suffix finds the same delimiters as searching the whole string. */
  lemma {:induction false} FindSepShift(s: string, d: nat, k: nat)
    requires d <= |s|
    decreases |s| - d - k
    ensures FindSep(s[d..], k) == match FindSep(s, d + k) case None => None case Some(j) => Some(j - d)
  {
    if k + 1 < |s[d..]| && !(s[d..][k] == ':' && s[d..][k + 1] == ' ') {
      FindSepShift(s, d, k + 1);
    }
  }

  /** `line.strip().split(": ")[1]`, with None for the IndexError. */
  function FieldOne(line: string): (r: Option<string>)
    ensures r.Some? <==> FindSep(Strip(line), 0).Some?
  {
    var pieces := Split(Strip(line));
    if |pieces| < 2 then None else Some(pieces[1])
  }

  /** Field 1 is the text between the stripped line's first delimiter and the next one,
      or the end of the line when there is no second delimiter. */
  lemma FieldOneBetweenDelimiters(line: string)
    requires FieldOne(line).Some?
    ensures var s := Strip(line);
            var i := FindSep(s, 0).value;
            FieldOne(line).value == match FindSep(s, i + 2) case None => s[i + 2..] case Some(j) => s[i + 2..j]
  {
    var s := Strip(line);
    var i := FindSep(s, 0).value;
    FindSepShift(s, i + 2, 0);
  }

  // ---------------------------------------------------------------------------
  // readlines and concatenation

  /** The first '\n' at or after k. */
  function FindNewline(s: string, k: nat): (r: Option<nat>)
    decreases |s| - k
    ensures r.Some? ==> k <= r.value < |s| && s[r.value] == '\n'
    ensures r.Some? ==> forall j :: k <= j < r.value ==> s[j] != '\n'
    ensures r.None? ==> forall j :: k <= j < |s| ==> s[j] != '\n'
  {
    if k >= |s| then None
    else if s[k] == '\n' then Some(k)
    else FindNewline(s, k + 1)
  }

  /** `"".join(lines)`; writing the lines one after another gives this text. */
  function Concat(lines: seq<string>): string {
    if lines == [] then [] else lines[0] + Concat(lines[1..])
  }

  lemma {:induction false} ConcatSnoc(lines: seq<string>, line: string)
    ensures Concat(lines + [line]) == Concat(lines) + line
  {
    if lines != [] {
      assert (lines + [line])[1..] == lines[1..] + [line];
      ConcatSnoc(lines[1..], line);
    }
  }

  /** `f.readlines()` on a file holding text t: each line keeps its '\n',
      and trailing text without one is a last line of its own. */
  function ReadLines(t: string): (r: seq<string>)
    decreases |t|
    ensures Concat(r) == t
    ensures forall i :: 0 <= i < |r| ==> r[i] != []
    ensures forall i :: 0 <= i < |r| - 1 ==> IsLine(r[i])
    ensures forall i, j :: 0 <= i < |r| && 0 <= j < |r[i]| - 1 ==> r[i][j] != '\n'
  {
    if t == [] then []
    else match FindNewline(t, 0)
      case None => [t]
      case Some(i) => [t[..i + 1]] + ReadLines(t[i + 1..])
  }

  /** A complete line: its only '\n' is its last character. */
  predicate IsLine(line: string) {
    |line| >= 1 && line[|line| - 1] == '\n' && forall j :: 0 <= j < |line| - 1 ==> line[j] != '\n'
  }

  lemma FindNewlineAt(s: string, k: nat, j: nat)
    requires k <= j < |s| && s[j] == '\n'
    requires forall i :: k <= i < j ==> s[i] != '\n'
    ensures FindNewline(s, k) == Some(j)
  {
  }

  /** Writing complete lines and reading them back with readlines gives the same lines. */
  lemma {:induction false} ReadLinesConcat(lines: seq<string>)
    requires forall i :: 0 <= i < |lines| ==> IsLine(lines[i])
    ensures ReadLines(Concat(lines)) == lines
  {
    if lines != [] {
      var first, rest := lines[0], Concat(lines[1..]);
      var t := first + rest;
      assert t == Concat(lines);
      assert t[..|first|] == first;
      assert t[|first|..] == rest;
      FindNewlineAt(t, 0, |first| - 1);
      ReadLinesConcat(lines[1..]);
    }
  }

  // ---------------------------------------------------------------------------
  // Decoding

  /** The list comprehension of line 39 over already-read lines. */
  function DecodeLines(lines: seq<string>): (r: Result<seq<string>, ManifestError>)
    ensures r.Success? <==> forall i :: 0 <= i < |lines| ==> FieldOne(lines[i]).Some?
    ensures r.Success? ==> |r.value| == |lines|
    ensures r.Success? ==> forall i :: 0 <= i < |lines| ==> r.value[i] == FieldOne(lines[i]).value
  {
    if lines == [] then Success([])
    else match FieldOne(lines[0])
      case None => Failure(IndexError)
      case Some(h) =>
        match DecodeLines(lines[1..])
        case Failure(e) => Failure(e)
        case Success(hs) => Success([h] + hs)
  }

  /** Line 39: the stored digests, in line order; the `Frame {i}` tag is never looked at. */
  function DecodeManifest(text: string): Result<seq<string>, ManifestError> {
    DecodeLines(ReadLines(text))
  }

  // ---------------------------------------------------------------------------
  // Encoding

  function DigitChar(d: nat): (c: char)
    requires d < 10
    ensures '0' <= c <= '9' && c as int - '0' as int == d
  {
    ('0' as int + d) as char
  }

  /** The integer a string of decimal digits denotes. */
  function DecimalValue(s: string): int
    requires forall i :: 0 <= i < |s| ==> '0' <= s[i] <= '9'
  {
    if s == [] then 0 else DecimalValue(s[..|s| - 1]) * 10 + (s[|s| - 1] as int - '0' as int)
  }

  /** `f"{n}"` for a non-negative int: its decimal digits, without leading zeros. */
  function Decimal(n: nat): (r: string)
    ensures |r| >= 1 && forall i :: 0 <= i < |r| ==> '0' <= r[i] <= '9'
    ensures r[0] == '0' ==> n == 0
    ensures DecimalValue(r) == n
  {
    if n < 10 then [DigitChar(n)]
    else
      var front := Decimal(n / 10);
      var r := front + [DigitChar(n % 10)];
      assert r[..|r| - 1] == front;
      r
  }

  /** A manifest line with an arbitrary tag in front of the delimiter. */
  function LabelledLine(tag: string, digest: string): string {
    tag + ": " + digest + "\n"
  }

  /** Line 208: `f"Frame {i}: {h}\n"`. */
  function ManifestLine(i: nat, digest: string): string {
    LabelledLine("Frame " + Decimal(i), digest)
  }

  /** The lines lines 206-208 write, in `enumerate` order. */
  function ManifestLines(digests: seq<string>): (r: seq<string>)
    ensures |r| == |digests|
    ensures forall i :: 0 <= i < |r| ==> r[i] == ManifestLine(i, digests[i])
  {
    seq(|digests|, i requires 0 <= i < |digests| => ManifestLine(i, digests[i]))
  }

  /** The manifest file's whole text. */
  function EncodeManifest(digests: seq<string>): string {
    Concat(ManifestLines(digests))
  }

  // ---------------------------------------------------------------------------
  // Round trip

  /** A tag that cannot end a line early nor hold a delimiter. */
  predicate PlainLabel(tag: string) {
    forall j :: 0 <= j < |tag| ==> tag[j] != ':' && tag[j] != '\n'
  }

  lemma {:induction false} LStripAppend(x: string, y: string)
    requires y != [] && !IsSpace(y[0])
    decreases |x|
    ensures LStrip(x + y) == LStrip(x) + y
  {
    if x != [] && IsSpace(x[0]) {
      assert (x + y)[1..] == x[1..] + y;
      LStripAppend(x[1..], y);
    }
  }

  /** Hex digits are neither whitespace, nor ':', nor '\n'. */
  lemma HexDigestIsPlain(digest: HexDigest)
    ensures forall j :: 0 <= j < |digest| ==> !IsSpace(digest[j]) && digest[j] != ':' && digest[j] != '\n'
  {
    forall j | 0 <= j < |digest|
      ensures !IsSpace(digest[j]) && digest[j] != ':' && digest[j] != '\n'
    {
      assert IsHexChar(digest[j]);
    }
  }

  lemma RStripNewline(s: string)
    requires s != [] && !IsSpace(s[|s| - 1])
    ensures RStrip(s + "\n") == s
  {
    assert (s + "\n")[..|s|] == s;
  }

  /** Stripping a manifest line removes the '\n' and any whitespace leading the tag. */
  lemma StripLabelledLine(tag: string, digest: HexDigest)
    ensures Strip(LabelledLine(tag, digest)) == LStrip(tag) + ": " + digest
  {
    var s := LStrip(tag) + ": " + digest;
    LStripAppend(tag, ": " + digest + "\n");
    assert LabelledLine(tag, digest) == tag + (": " + digest + "\n");
    assert LStrip(LabelledLine(tag, digest)) == s + "\n";
    assert IsHexChar(digest[63]);
    assert s[|s| - 1] == digest[63];
    RStripNewline(s);
  }

  lemma FindSepAt(x: string, y: string)
    requires forall j :: 0 <= j < |x| ==> x[j] != ':'
    ensures FindSep(x + ": " + y, 0) == Some(|x|)
  {
    var s := x + ": " + y;
    assert SepAt(s, |x|);
    assert forall j :: 0 <= j < |x| ==> s[j] == x[j];
  }

  lemma FindSepNone(y: string)
    requires forall j :: 0 <= j < |y| ==> y[j] != ':'
    ensures FindSep(y, 0) == None
  {
  }

  /** With no ':' on either side, the delimiter splits a string into exactly two pieces. */
  lemma SplitOnce(x: string, y: string)
    requires forall j :: 0 <= j < |x| ==> x[j] != ':'
    requires forall j :: 0 <= j < |y| ==> y[j] != ':'
    ensures Split(x + ": " + y) == [x, y]
  {
    var s := x + ": " + y;
    FindSepAt(x, y);
    assert s[|x| + 2..] == y;
    FindSepNone(y);
    assert s[..|x|] == x;
  }

  /** Whatever the tag says, the field read back from its line is the digest. */
  lemma FieldOneOfLabelledLine(tag: string, digest: HexDigest)
    requires PlainLabel(tag)
    ensures FieldOne(LabelledLine(tag, digest)) == Some(digest)
  {
    StripLabelledLine(tag, digest);
    HexDigestIsPlain(digest);
    LStripSpec(tag);
    var l := LStrip(tag);
    assert forall j :: 0 <= j < |l| ==> l[j] == tag[|tag| - |l| + j];
    SplitOnce(l, digest);
  }

  lemma LabelledLineIsLine(tag: string, digest: HexDigest)
    requires PlainLabel(tag)
    ensures IsLine(LabelledLine(tag, digest))
  {
    var line := LabelledLine(tag, digest);
    forall j | 0 <= j < |line| - 1 ensures line[j] != '\n' {
      if |tag| + 2 <= j {
        assert line[j] == digest[j - |tag| - 2];
        assert IsHexChar(digest[j - |tag| - 2]);
      }
    }
  }

  /** Decoding reads the digests in line order and ignores the labels entirely:
      any labels free of ':' and '\n' give the same result. */
  lemma DecodeIgnoresLabels(labels: seq<string>, digests: seq<HexDigest>)
    requires |labels| == |digests|
    requires forall i :: 0 <= i < |labels| ==> PlainLabel(labels[i])
    ensures DecodeManifest(Concat(seq(|digests|, i requires 0 <= i < |digests| => LabelledLine(labels[i], digests[i]))))
            == Success(digests)
  {
    var lines := seq(|digests|, i requires 0 <= i < |digests| => LabelledLine(labels[i], digests[i]));
    forall i | 0 <= i < |lines| ensures IsLine(lines[i]) && FieldOne(lines[i]) == Some(digests[i]) {
      LabelledLineIsLine(labels[i], digests[i]);
      FieldOneOfLabelledLine(labels[i], digests[i]);
    }
    ReadLinesConcat(lines);
    var r := DecodeLines(lines);
    assert r.Success?;
    assert r.value == digests;
  }

  /** The tag `Frame {i}` holds neither ':' nor '\n'. */
  lemma FrameLabelIsPlain(i: nat)
    ensures PlainLabel("Frame " + Decimal(i))
  {
    var d := Decimal(i);
    forall j | 0 <= j < 6 + |d| ensures ("Frame " + d)[j] != ':' && ("Frame " + d)[j] != '\n' {
      if j >= 6 { assert ("Frame " + d)[j] == d[j - 6]; }
    }
  }

  /** The manifest written by lines 206-208 decodes to exactly the digests, in order. */
  lemma ManifestRoundTrip(digests: seq<HexDigest>)
    ensures DecodeManifest(EncodeManifest(digests)) == Success(digests)
  {
    var labels := seq(|digests|, i requires 0 <= i < |digests| => "Frame " + Decimal(i));
    forall i | 0 <= i < |labels| ensures PlainLabel(labels[i]) {
      FrameLabelIsPlain(i);
    }
    DecodeIgnoresLabels(labels, digests);
    assert seq(|digests|, i requires 0 <= i < |digests| => LabelledLine(labels[i], digests[i]))
           == ManifestLines(digests);
  }

  lemma ManifestLinesAreLines(digests: seq<HexDigest>)
    ensures forall i :: 0 <= i < |digests| ==> IsLine(ManifestLines(digests)[i])
  {
    forall i | 0 <= i < |digests| ensures IsLine(ManifestLines(digests)[i]) {
      FrameLabelIsPlain(i);
      LabelledLineIsLine("Frame " + Decimal(i), digests[i]);
    }
  }

  /** One line without the delimiter is enough to make the whole decode fail. */
  lemma {:induction false} DecodeFailsAt(lines: seq<string>, k: nat)
    requires k < |lines| && FieldOne(lines[k]).None?
    ensures DecodeLines(lines) == Failure(IndexError)
  {
    if k > 0 {
      assert lines[1..][k - 1] == lines[k];
      DecodeFailsAt(lines[1..], k - 1);
    }
  }

  lemma BlankLineHasNoField()
    ensures FieldOne("\n") == None
  {
    assert LStrip("\n") == "";
  }

  /** A blank line (here one after the last entry) makes decoding fail:
      it strips to "", and "".split(": ") has no piece [1]. */
  lemma TrailingBlankLineFails(digests: seq<HexDigest>)
    ensures DecodeManifest(EncodeManifest(digests) + "\n") == Failure(IndexError)
  {
    var lines := ManifestLines(digests) + ["\n"];
    ManifestLinesAreLines(digests);
    assert forall i :: 0 <= i < |lines| ==> IsLine(lines[i]) by {
      forall i | 0 <= i < |lines| ensures IsLine(lines[i]) {
        if i < |digests| {
          assert lines[i] == ManifestLines(digests)[i];
        }
      }
    }
    ConcatSnoc(ManifestLines(digests), "\n");
    ReadLinesConcat(lines);
    BlankLineHasNoField();
    DecodeFailsAt(lines, |lines| - 1);
  }
}
