/** The 256-byte header: its byte form, the checks of its reader, and that the two agree exactly. */
module HeaderCodec {
  import opened Bytes
  import opened HeaderLayout
  import opened Prelude

  const MAGIC: nat := 0x4e4e_4144
  const VERSION: nat := 1
  const SECTION_COUNT: nat := 7
  const FIELDS_END: nat := 208

  /** The header as runs of little-endian words, in file order. */
  datatype Words = Words(lead: seq<nat>, count: seq<nat>, graph: seq<nat>, seed: seq<nat>, format: seq<nat>, tail: seq<nat>)

  predicate Below(words: seq<nat>, length: nat, bound: nat) {
    |words| == length && forall i :: 0 <= i < length ==> words[i] < bound
  }

  predicate Fit(w: Words) {
    && Below(w.lead, 6, U32_RANGE) && Below(w.count, 1, U64_RANGE) && Below(w.graph, 4, U32_RANGE)
    && Below(w.seed, 1, U64_RANGE) && Below(w.format, 8, U32_RANGE) && Below(w.tail, 15, U64_RANGE)
  }

  function Render(w: Words): (b: seq<u8>)
    requires Fit(w)
    ensures |b| == HEADER_SIZE
  {
    EncodeAll(w.lead, 4) + EncodeAll(w.count, 8) + EncodeAll(w.graph, 4) + EncodeAll(w.seed, 8) + EncodeAll(w.format, 4)
    + EncodeAll(w.tail, 8) + Zeros(HEADER_SIZE - FIELDS_END)
  }

  function WordsAt(bytes: seq<u8>, from: nat, to: nat, width: nat): (words: seq<nat>)
    requires width > 0 && from <= to <= |bytes|
    ensures |words| == (to - from) / width
  {
    DecodeAll(bytes[from..to], width)
  }

  lemma WordsBelow(bytes: seq<u8>, from: nat, to: nat, width: nat, bound: nat)
    requires width > 0 && from <= to <= |bytes| && bound == Pow256(width)
    ensures Below(WordsAt(bytes, from, to, width), (to - from) / width, bound)
  {
    forall i | 0 <= i < |WordsAt(bytes, from, to, width)|
      ensures WordsAt(bytes, from, to, width)[i] < bound
    {
      DecodeAllBound(bytes[from..to], width, i);
    }
  }

  function ParseWords(bytes: seq<u8>): (w: Words)
    requires |bytes| >= HEADER_SIZE
    ensures Fit(w)
  {
    WidthRanges();
    WordsBelow(bytes, 0, 24, 4, U32_RANGE);
    WordsBelow(bytes, 24, 32, 8, U64_RANGE);
    WordsBelow(bytes, 32, 48, 4, U32_RANGE);
    WordsBelow(bytes, 48, 56, 8, U64_RANGE);
    WordsBelow(bytes, 56, 88, 4, U32_RANGE);
    WordsBelow(bytes, 88, FIELDS_END, 8, U64_RANGE);
    Words(WordsAt(bytes, 0, 24, 4), WordsAt(bytes, 24, 32, 8), WordsAt(bytes, 32, 48, 4), WordsAt(bytes, 48, 56, 8),
          WordsAt(bytes, 56, 88, 4), WordsAt(bytes, 88, FIELDS_END, 8))
  }

  lemma WordsBack(bytes: seq<u8>, from: nat, to: nat, words: seq<nat>, width: nat, length: nat, bound: nat)
    requires width > 0 && from <= to <= |bytes| && bound == Pow256(width) && Below(words, length, bound)
    requires bytes[from..to] == EncodeAll(words, width)
    ensures WordsAt(bytes, from, to, width) == words
  {
    DecodeEncodeAll(words, width);
  }

  lemma RenderedRuns(w: Words)
    requires Fit(w)
    ensures var b := Render(w);
            && b[0..24] == EncodeAll(w.lead, 4) && b[24..32] == EncodeAll(w.count, 8) && b[32..48] == EncodeAll(w.graph, 4)
            && b[48..56] == EncodeAll(w.seed, 8) && b[56..88] == EncodeAll(w.format, 4) && b[88..FIELDS_END] == EncodeAll(w.tail, 8)
            && b[FIELDS_END..HEADER_SIZE] == Zeros(HEADER_SIZE - FIELDS_END)
  {
  }

  lemma ParseRendered(w: Words)
    requires Fit(w)
    ensures ParseWords(Render(w)) == w && AllZero(Render(w)[FIELDS_END..HEADER_SIZE])
  {
    WidthRanges();
    RenderedRuns(w);
    WordsBack(Render(w), 0, 24, w.lead, 4, 6, U32_RANGE);
    WordsBack(Render(w), 24, 32, w.count, 8, 1, U64_RANGE);
    WordsBack(Render(w), 32, 48, w.graph, 4, 4, U32_RANGE);
    WordsBack(Render(w), 48, 56, w.seed, 8, 1, U64_RANGE);
    WordsBack(Render(w), 56, 88, w.format, 4, 8, U32_RANGE);
    WordsBack(Render(w), 88, FIELDS_END, w.tail, 8, 15, U64_RANGE);
  }

  lemma RenderParsed(bytes: seq<u8>)
    requires |bytes| >= HEADER_SIZE && AllZero(bytes[FIELDS_END..HEADER_SIZE])
    ensures Render(ParseWords(bytes)) == bytes[..HEADER_SIZE]
  {
    EncodeDecodeAll(bytes[0..24], 4);
    EncodeDecodeAll(bytes[24..32], 8);
    EncodeDecodeAll(bytes[32..48], 4);
    EncodeDecodeAll(bytes[48..56], 8);
    EncodeDecodeAll(bytes[56..88], 4);
    EncodeDecodeAll(bytes[88..FIELDS_END], 8);
    assert Zeros(HEADER_SIZE - FIELDS_END) == bytes[FIELDS_END..HEADER_SIZE];
    RunsJoin(bytes);
  }

  lemma RunsJoin(bytes: seq<u8>)
    requires |bytes| >= HEADER_SIZE
    ensures bytes[0..24] + bytes[24..32] + bytes[32..48] + bytes[48..56] + bytes[56..88] + bytes[88..FIELDS_END]
            + bytes[FIELDS_END..HEADER_SIZE] == bytes[..HEADER_SIZE]
  {
  }

  // ---------------------------------------------------------------------------------------
  // Headers as words.

  function SectionWords(s: Sections): seq<nat> {
    [s.codebook.offset, s.codebook.length, s.rowIds.offset, s.rowIds.length, s.pqCodes.offset, s.pqCodes.length,
     s.rowIdOrder.offset, s.rowIdOrder.length, s.adjacencyIndex.offset, s.adjacencyIndex.length,
     s.adjacency.offset, s.adjacency.length, s.vectors.offset, s.vectors.length]
  }

  function WordsOf(h: Header): (w: Words)
    ensures Fit(w) && Framed(w)
  {
    Words([MAGIC, VERSION, HEADER_SIZE, h.flags, h.dimension, h.metric],
          [h.vectorCount],
          [h.entryNode, h.maxDegree, h.buildSearchListSize, h.alpha],
          [h.seed],
          [h.pqM, h.pqBits, h.pageSize, h.locatorSize, h.locatorEncoding, h.rawVectorEncoding, h.vectorRecordSize, SECTION_COUNT],
          [h.fileLen] + SectionWords(h.sections))
  }

  function SectionAt(tail: seq<nat>, i: nat): Section
    requires Below(tail, 15, U64_RANGE) && i < 7
  {
    Section(tail[1 + 2 * i], tail[2 + 2 * i])
  }

  function HeaderOf(w: Words): Header
    requires Fit(w)
  {
    Header(w.lead[3], w.lead[4], w.lead[5], w.count[0], w.graph[0], w.graph[1], w.graph[2], w.graph[3], w.seed[0],
           w.format[0], w.format[1], w.format[2], w.format[3], w.format[4], w.format[5], w.format[6], w.tail[0],
           Sections(SectionAt(w.tail, 0), SectionAt(w.tail, 1), SectionAt(w.tail, 2), SectionAt(w.tail, 3),
                    SectionAt(w.tail, 4), SectionAt(w.tail, 5), SectionAt(w.tail, 6)))
  }

  /** The words the reader compares with constants. */
  predicate Framed(w: Words)
    requires Fit(w)
  {
    w.lead[0] == MAGIC && w.lead[1] == VERSION && w.lead[2] == HEADER_SIZE && w.format[7] == SECTION_COUNT
  }

  lemma HeaderBack(h: Header)
    ensures HeaderOf(WordsOf(h)) == h
  {
  }

  lemma WordsBackFromHeader(w: Words)
    requires Fit(w) && Framed(w)
    ensures WordsOf(HeaderOf(w)) == w
  {
    var again := WordsOf(HeaderOf(w));
    assert again.tail == w.tail;
    assert again.format == w.format;
    assert again.lead == w.lead && again.graph == w.graph;
  }

  function Encode(h: Header): seq<u8> {
    Render(WordsOf(h))
  }

  // ---------------------------------------------------------------------------------------
  // The reader.

  predicate BitSet(flags: nat, weight: nat)
    requires weight > 0
  {
    flags / weight % 2 == 1
  }

  /** All required bits, no unsupported bit, and exactly one of the two storage layouts. */
  predicate FlagsAccepted(flags: u32) {
    && BitSet(flags, 1) && BitSet(flags, 4) && BitSet(flags, 8) && BitSet(flags, 16)
    && flags / 64 == 0
    && BitSet(flags, 2) != BitSet(flags, 32)
  }

  lemma FlagsExact(flags: u32)
    ensures FlagsAccepted(flags) <==> flags == COMPACT_FLAGS || flags == INTERLEAVED_FLAGS
    ensures FlagsAccepted(flags) ==> (BitSet(flags, 32) <==> flags == INTERLEAVED_FLAGS)
  {
  }

  predicate Supported(h: Header) {
    && MetricOf(h.metric).Some? && (h.pqBits == 4 || h.pqBits == 8) && h.pageSize == PAGE_SIZE
    && ElementOf(h.rawVectorEncoding).Some? && AlphaAccepted(h.alpha)
    && h.sections.adjacency.length % PAGE_SIZE == 0
  }

  /** The layout parameters a header claims. */
  function Claimed(h: Header): Params
    requires Supported(h)
  {
    Params(h.dimension, h.vectorCount, h.entryNode, h.pqM, h.pqBits, MetricOf(h.metric).value, h.maxDegree, h.buildSearchListSize,
           h.alpha, h.seed, BitSet(h.flags, 32), ElementOf(h.rawVectorEncoding).value, h.sections.rowIds.length,
           h.sections.adjacency.length / PAGE_SIZE)
  }

  predicate MatchesLayout(h: Header, expected: Header) {
    && h.locatorSize == expected.locatorSize && h.locatorEncoding == expected.locatorEncoding
    && h.rawVectorEncoding == expected.rawVectorEncoding && h.vectorRecordSize == expected.vectorRecordSize
    && h.sections == expected.sections && h.fileLen == expected.fileLen
  }

  function Decode(bytes: seq<u8>): (r: Result<Header>) {
    if |bytes| < HEADER_SIZE then Err(InvalidData) else
    var w := ParseWords(bytes);
    if !Framed(w) || !FlagsAccepted(w.lead[3]) || !AllZero(bytes[FIELDS_END..HEADER_SIZE]) then Err(InvalidData) else
    var h := HeaderOf(w);
    if !Supported(h) then Err(InvalidData) else
    match ForLayout(Claimed(h))
    case Err(_) => Err(InvalidData)
    case Ok(expected) => if MatchesLayout(h, expected) then Ok(h) else Err(InvalidData)
  }

  /** A header built by the layout constructor states the parameters it was built from. */
  lemma ClaimsItsParams(p: Params, h: Header)
    requires ForLayout(p) == Ok(h)
    ensures FlagsAccepted(h.flags) && Supported(h) && Claimed(h) == p
  {
    FlagsExact(h.flags);
    assert h.sections.adjacency.length == p.adjacencyPages * PAGE_SIZE;
    PagesDivide(p.adjacencyPages, h.sections.adjacency.length);
  }

  lemma PagesDivide(pages: nat, length: nat)
    requires length == pages * PAGE_SIZE
    ensures length % PAGE_SIZE == 0 && length / PAGE_SIZE == pages
  {
  }

  /** Every constructed header is read back. */
  lemma DecodeEncoded(p: Params, h: Header)
    requires ForLayout(p) == Ok(h)
    ensures Decode(Encode(h)) == Ok(h)
  {
    ParseRendered(WordsOf(h));
    HeaderBack(h);
    ClaimsItsParams(p, h);
  }

  /** An accepted header is the constructed one for the parameters it claims. */
  lemma AcceptedIsConstructed(bytes: seq<u8>) returns (p: Params)
    requires Decode(bytes).Ok?
    ensures ForLayout(p) == Decode(bytes)
  {
    var h := Decode(bytes).value;
    FlagsExact(h.flags);
    p := Claimed(h);
  }

  /** Re-encoding an accepted header gives back its 256 bytes. */
  lemma EncodeDecoded(bytes: seq<u8>)
    requires Decode(bytes).Ok?
    ensures Encode(Decode(bytes).value) == bytes[..HEADER_SIZE]
  {
    RenderParsed(bytes);
    WordsBackFromHeader(ParseWords(bytes));
  }

  lemma OnlyTheHeaderIsRead(bytes: seq<u8>)
    requires |bytes| >= HEADER_SIZE
    ensures Decode(bytes) == Decode(bytes[..HEADER_SIZE])
  {
    var head := bytes[..HEADER_SIZE];
    assert head[0..24] == bytes[0..24] && head[24..32] == bytes[24..32] && head[32..48] == bytes[32..48];
    assert head[48..56] == bytes[48..56] && head[56..88] == bytes[56..88] && head[88..FIELDS_END] == bytes[88..FIELDS_END];
    assert head[FIELDS_END..HEADER_SIZE] == bytes[FIELDS_END..HEADER_SIZE];
  }

  /** A file that begins with a constructed header is read as that header. */
  lemma FileHeaderReads(p: Params, h: Header, file: seq<u8>)
    requires ForLayout(p) == Ok(h) && Encode(h) <= file
    ensures Decode(file) == Ok(h)
  {
    DecodeEncoded(p, h);
    DecodeOfPrefix(file, Encode(h));
  }

  lemma DecodeOfPrefix(file: seq<u8>, head: seq<u8>)
    requires |head| == HEADER_SIZE && head <= file
    ensures Decode(file) == Decode(head)
  {
    OnlyTheHeaderIsRead(file);
    assert file[..HEADER_SIZE] == head;
  }

  /** The reader accepts exactly the byte strings that begin with a constructed header. */
  lemma AcceptsExactlyConstructed(bytes: seq<u8>)
    ensures Decode(bytes).Ok? <==>
            |bytes| >= HEADER_SIZE && exists p :: ForLayout(p).Ok? && bytes[..HEADER_SIZE] == Encode(ForLayout(p).value)
  {
    if Decode(bytes).Ok? {
      var p := AcceptedIsConstructed(bytes);
      EncodeDecoded(bytes);
    }
    if |bytes| >= HEADER_SIZE {
      OnlyTheHeaderIsRead(bytes);
      if p :| ForLayout(p).Ok? && bytes[..HEADER_SIZE] == Encode(ForLayout(p).value) {
        DecodeEncoded(p, ForLayout(p).value);
      }
    }
  }

  // ---------------------------------------------------------------------------------------
  // In plain terms.

  predicate HasU32(b: seq<u8>, at: nat, v: nat) {
    at + 4 <= |b| && b[at..at + 4] == ToLE(v, 4)
  }

  predicate HasU64(b: seq<u8>, at: nat, v: nat) {
    at + 8 <= |b| && b[at..at + 8] == ToLE(v, 8)
  }

  lemma SliceOfRun(b: seq<u8>, from: nat, to: nat, at: nat, width: nat)
    requires from <= to <= |b| && at + width <= to - from
    ensures b[from..to][at..at + width] == b[from + at..from + at + width]
  {
    var (l, r) := (b[from..to][at..at + width], b[from + at..from + at + width]);
    forall n | 0 <= n < width
      ensures l[n] == r[n]
    {
      assert l[n] == b[from..to][at + n] == b[from + at + n] == r[n];
    }
  }

  lemma WordInRun(b: seq<u8>, from: nat, to: nat, words: seq<nat>, width: nat, i: nat, at: nat)
    requires from <= to <= |b| && b[from..to] == EncodeAll(words, width) && i < |words| && at == from + i * width
    ensures at + width <= |b| && b[at..at + width] == ToLE(words[i], width)
  {
    EncodeAllAt(words, width, i);
    SliceOfRun(b, from, to, i * width, width);
  }

  /** Where every field before the format is. */
  lemma GraphFields(h: Header)
    ensures var b := Encode(h);
            && HasU32(b, 0, 0x4e4e_4144) && HasU32(b, 4, 1) && HasU32(b, 8, 256) && HasU32(b, 12, h.flags)
            && HasU32(b, 16, h.dimension) && HasU32(b, 20, h.metric) && HasU64(b, 24, h.vectorCount)
            && HasU32(b, 32, h.entryNode) && HasU32(b, 36, h.maxDegree) && HasU32(b, 40, h.buildSearchListSize) && HasU32(b, 44, h.alpha)
            && HasU64(b, 48, h.seed)
  {
    var (w, b) := (WordsOf(h), Encode(h));
    RenderedRuns(w);
    WordInRun(b, 0, 24, w.lead, 4, 0, 0);
    WordInRun(b, 0, 24, w.lead, 4, 1, 4);
    WordInRun(b, 0, 24, w.lead, 4, 2, 8);
    WordInRun(b, 0, 24, w.lead, 4, 3, 12);
    WordInRun(b, 0, 24, w.lead, 4, 4, 16);
    WordInRun(b, 0, 24, w.lead, 4, 5, 20);
    WordInRun(b, 24, 32, w.count, 8, 0, 24);
    WordInRun(b, 32, 48, w.graph, 4, 0, 32);
    WordInRun(b, 32, 48, w.graph, 4, 1, 36);
    WordInRun(b, 32, 48, w.graph, 4, 2, 40);
    WordInRun(b, 32, 48, w.graph, 4, 3, 44);
    WordInRun(b, 48, 56, w.seed, 8, 0, 48);
  }

  /** Where the format and the file length are. */
  lemma FormatFields(h: Header)
    ensures var b := Encode(h);
            && HasU32(b, 56, h.pqM) && HasU32(b, 60, h.pqBits) && HasU32(b, 64, h.pageSize) && HasU32(b, 68, h.locatorSize)
            && HasU32(b, 72, h.locatorEncoding) && HasU32(b, 76, h.rawVectorEncoding) && HasU32(b, 80, h.vectorRecordSize) && HasU32(b, 84, 7)
            && HasU64(b, 88, h.fileLen)
  {
    var (w, b) := (WordsOf(h), Encode(h));
    RenderedRuns(w);
    WordInRun(b, 56, 88, w.format, 4, 0, 56);
    WordInRun(b, 56, 88, w.format, 4, 1, 60);
    WordInRun(b, 56, 88, w.format, 4, 2, 64);
    WordInRun(b, 56, 88, w.format, 4, 3, 68);
    WordInRun(b, 56, 88, w.format, 4, 4, 72);
    WordInRun(b, 56, 88, w.format, 4, 5, 76);
    WordInRun(b, 56, 88, w.format, 4, 6, 80);
    WordInRun(b, 56, 88, w.format, 4, 7, 84);
    WordInRun(b, 88, FIELDS_END, w.tail, 8, 0, 88);
  }

  function InFileOrder(s: Sections): seq<Section> {
    [s.codebook, s.rowIds, s.pqCodes, s.rowIdOrder, s.adjacencyIndex, s.adjacency, s.vectors]
  }

  lemma SectionWordsAt(h: Header, i: nat)
    requires i < 7
    ensures WordsOf(h).tail[1 + 2 * i] == InFileOrder(h.sections)[i].offset && WordsOf(h).tail[2 + 2 * i] == InFileOrder(h.sections)[i].length
  {
  }

  lemma TailWordAt(w: Words, j: nat)
    requires Fit(w) && j < 15
    ensures HasU64(Render(w), 88 + 8 * j, w.tail[j])
  {
    RenderedRuns(w);
    WordInRun(Render(w), 88, FIELDS_END, w.tail, 8, j, 88 + 8 * j);
  }

  /** Where the sections are: offset and length of each, in file order. */
  lemma SectionFieldsAt(h: Header, i: nat)
    requires i < 7
    ensures HasU64(Encode(h), 96 + 16 * i, InFileOrder(h.sections)[i].offset)
    ensures HasU64(Encode(h), 104 + 16 * i, InFileOrder(h.sections)[i].length)
  {
    SectionWordsAt(h, i);
    TailWordAt(WordsOf(h), 1 + 2 * i);
    TailWordAt(WordsOf(h), 2 + 2 * i);
  }
}
