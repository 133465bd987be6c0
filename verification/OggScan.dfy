/** The duration of an Opus file, found by scanning its Ogg pages (common/audio.go, lines 205-264).
    Pages follow section 6 of RFC 3533. */
module OggScan {
  import opened Text

  type Byte = b: int | 0 <= b < 256
  type Bytes = seq<Byte>

  const CAPTURE: Bytes := [0x4F, 0x67, 0x67, 0x53] // "OggS"
  const HEADER_SIZE := 27
  const SAMPLE_RATE := 48000.0

  // ---------------------------------------------------------------------------
  // Little-endian integers

  function Unsigned(b: Bytes): nat {
    if b == [] then 0 else b[0] + 256 * Unsigned(b[1..])
  }

  function LittleEndian(n: nat, size: nat): Bytes {
    if size == 0 then [] else [n % 256] + LittleEndian(n / 256, size - 1)
  }

  function Power256(k: nat): nat {
    if k == 0 then 1 else 256 * Power256(k - 1)
  }

  lemma {:induction false} LittleEndianRoundTrip(n: nat, size: nat)
    requires n < Power256(size)
    ensures |LittleEndian(n, size)| == size && Unsigned(LittleEndian(n, size)) == n
  {
    if size > 0 {
      assert n / 256 < Power256(size - 1);
      LittleEndianRoundTrip(n / 256, size - 1);
      assert LittleEndian(n, size)[1..] == LittleEndian(n / 256, size - 1);
    }
  }

  const TWO64 := 0x1_0000_0000_0000_0000
  const TWO63 := 0x8000_0000_0000_0000

  /** `int64(uint64)` */
  function Signed(n: nat): int { if n < TWO63 then n else n - TWO64 }

  predicate IsInt64(g: int) { -TWO63 <= g < TWO63 }

  function Int64Bytes(g: int): Bytes
    requires IsInt64(g)
  {
    LittleEndian(if g >= 0 then g else g + TWO64, 8)
  }

  lemma Int64RoundTrip(g: int)
    requires IsInt64(g)
    ensures |Int64Bytes(g)| == 8 && Signed(Unsigned(Int64Bytes(g))) == g
  {
    assert Power256(8) == TWO64 by {
      assert Power256(4) == 0x1_0000_0000;
    }
    LittleEndianRoundTrip(if g >= 0 then g else g + TWO64, 8);
  }

  // ---------------------------------------------------------------------------
  // The scan, as a function of the bytes ahead

  function Sum(b: Bytes): nat { if b == [] then 0 else b[0] + Sum(b[1..]) }

  function Max(a: int, b: int): int { if b > a then b else a }

  /** What the header at the front of `rest` announces. */
  datatype Header = TooShort | NotAPage | Cut(granule: int) | Whole(granule: int, size: nat)

  function ReadHeader(rest: Bytes): (h: Header)
    ensures h.NotAPage? ==> rest != []
    ensures h.Whole? ==> HEADER_SIZE <= h.size && rest != []
  {
    if |rest| < HEADER_SIZE then TooShort
    else if rest[0..4] != CAPTURE then NotAPage
    else
      var granule := Signed(Unsigned(rest[6..14]));
      var n := rest[26];
      if |rest| < HEADER_SIZE + n then Cut(granule)
      else Whole(granule, HEADER_SIZE + n + Sum(rest[HEADER_SIZE..HEADER_SIZE + n]))
  }

  /** What lies ahead after seeking; nothing when that goes past the end. */
  function After(rest: Bytes, size: nat): Bytes { if size > |rest| then [] else rest[size..] }

  /** The scan does not depend on the header format, only on every step going forward. */
  type HeaderReader = read: Bytes -> Header | GoesForward(read) witness ReadHeader

  ghost predicate GoesForward(read: Bytes -> Header) {
    forall rest :: (read(rest).NotAPage? ==> rest != []) && (read(rest).Whole? ==> rest != [] && read(rest).size > 0)
  }

  /** The largest granule position found and the offsets at which page headers were taken. */
  datatype Found = Found(top: int, headers: seq<nat>)

  function Take(w: Found, granule: int, at: nat): Found { Found(Max(w.top, granule), w.headers + [at]) }

  /** What the scan finds, `rest` being at offset `at` and `w` having been found before. */
  function Scan(read: HeaderReader, rest: Bytes, at: nat, w: Found): Found
    decreases |rest|
  {
    match read(rest)
    case TooShort => w
    case NotAPage => Scan(read, rest[1..], at + 1, w)
    case Cut(g) => Take(w, g, at)
    case Whole(g, size) => Scan(read, After(rest, size), at + size, Take(w, g, at))
  }

  const NOTHING := Found(0, [])

  // ---------------------------------------------------------------------------
  // The scan as the program runs it

  /** A seekable reader over bytes held in full, such as a file; a read delivers what is there. */
  class Reader {
    const data: Bytes
    var pos: nat

    constructor (data: Bytes)
      ensures this.data == data && pos == 0
    {
      this.data, pos := data, 0;
    }

    function Rest(): Bytes
      reads this
    {
      if pos <= |data| then data[pos..] else []
    }

    method SeekStart()
      modifies this
      ensures pos == 0
    {
      pos := 0;
    }

    /** `Seek(delta, io.SeekCurrent)`; it may go past the end but not before the start. */
    method Skip(delta: int) returns (ok: bool)
      modifies this
      ensures ok == (old(pos) + delta >= 0)
      ensures pos == if ok then old(pos) + delta else old(pos)
    {
      ok := pos + delta >= 0;
      if ok { pos := pos + delta; }
    }

    method Read(n: nat) returns (chunk: Bytes)
      modifies this
      ensures chunk == old(Rest())[..if n <= |old(Rest())| then n else |old(Rest())|]
      ensures pos == old(pos) + |chunk|
    {
      var rest := Rest();
      chunk := rest[..if n <= |rest| then n else |rest|];
      pos := pos + |chunk|;
    }
  }

  method SumLoop(table: Bytes) returns (size: nat)
    ensures size == Sum(table)
  {
    size := 0;
    for i := 0 to |table|
      invariant size + Sum(table[i..]) == Sum(table)
    {
      assert table[i..][1..] == table[i + 1..];
      size := size + table[i];
    }
  }

  /** One iteration of the loop: it moves the reader forward or stops. */
  method Advance(r: Reader, best: int) returns (best': int, stop: bool, ghost h: Header)
    modifies r
    ensures h == ReadHeader(old(r.Rest()))
    ensures best' == if h.Cut? || h.Whole? then Max(best, h.granule) else best
    ensures stop == (h.TooShort? || h.Cut?)
    ensures h.NotAPage? ==> r.pos == old(r.pos) + 1 && r.Rest() == old(r.Rest())[1..]
    ensures h.Whole? ==> r.pos == old(r.pos) + h.size && r.Rest() == After(old(r.Rest()), h.size)
  {
    ghost var rest := r.Rest();
    h := ReadHeader(rest);
    best', stop := best, false;
    var buf := r.Read(HEADER_SIZE);
    if |buf| < HEADER_SIZE {
      stop := true;
      return;
    }
    assert buf[0..4] == rest[0..4] && buf[6..14] == rest[6..14];
    if buf[0..4] != CAPTURE {
      var _ := r.Skip(-26);
      return;
    }
    var granule := Signed(Unsigned(buf[6..14]));
    if granule > best { best' := granule; }
    var numSegments := buf[26];
    assert r.Rest() == rest[HEADER_SIZE..];
    var pageSize := SkipTable(r, numSegments);
    stop := pageSize.None?;
    if !stop { TableAhead(rest, numSegments, pageSize.value); }
  }

  lemma TableAhead(rest: Bytes, n: nat, size: nat)
    requires |rest| >= HEADER_SIZE + n
    ensures rest[HEADER_SIZE..][..n] == rest[HEADER_SIZE..HEADER_SIZE + n]
    ensures After(rest[HEADER_SIZE..], n + size) == After(rest, HEADER_SIZE + n + size)
  {
  }

  /** Reads the segment table and skips the segments; a table that is cut short gives nothing. */
  method SkipTable(r: Reader, numSegments: nat) returns (pageSize: Option<nat>)
    modifies r
    ensures var rest := old(r.Rest());
            if |rest| < numSegments then pageSize == None
            else
              && pageSize == Some(Sum(rest[..numSegments]))
              && r.pos == old(r.pos) + numSegments + pageSize.value
              && r.Rest() == After(rest, numSegments + pageSize.value)
  {
    var table := r.Read(numSegments);
    if |table| < numSegments { return None; }
    var size := SumLoop(table);
    var _ := r.Skip(size);
    pageSize := Some(size);
  }

  /** One iteration, seen from the specification: it ends the scan or leaves the rest of it to do. */
  lemma Progress(rest: Bytes, at: nat, w: Found, h: Header, rest': Bytes, at': nat, w': Found)
    requires h == ReadHeader(rest) && w' == if h.Cut? || h.Whole? then Take(w, h.granule, at) else w
    requires h.NotAPage? ==> at' == at + 1 && rest' == rest[1..]
    requires h.Whole? ==> at' == at + h.size && rest' == After(rest, h.size)
    ensures Scan(ReadHeader, rest, at, w) == if h.TooShort? || h.Cut? then w' else Scan(ReadHeader, rest', at', w')
  {
  }

  lemma Shorter(rest: Bytes, h: Header, rest': Bytes)
    requires h == ReadHeader(rest)
    requires h.NotAPage? ==> rest' == rest[1..]
    requires h.Whole? ==> rest' == After(rest, h.size)
    ensures h.NotAPage? || h.Whole? ==> |rest'| < |rest|
  {
  }

  /** `getOpusDuration` */
  method OpusDuration(r: Reader) returns (seconds: real, ghost headers: seq<nat>)
    modifies r
    ensures var all := Scan(ReadHeader, r.data, 0, NOTHING);
            seconds == all.top as real / 48000.0 && headers == all.headers
  {
    r.SeekStart();
    var best := 0;
    headers := [];
    ghost var all := Scan(ReadHeader, r.data, 0, NOTHING);
    assert r.Rest() == r.data;
    while true
      invariant all == Scan(ReadHeader, r.Rest(), r.pos, Found(best, headers))
      decreases |r.Rest()|
    {
      ghost var rest, at, w := r.Rest(), r.pos, Found(best, headers);
      var stop: bool;
      ghost var h;
      best, stop, h := Advance(r, best);
      if h.Cut? || h.Whole? { headers := headers + [at]; }
      Progress(rest, at, w, h, r.Rest(), r.pos, Found(best, headers));
      Shorter(rest, h, r.Rest());
      if stop { break; }
    }
    seconds := best as real / SAMPLE_RATE;
  }

  // ---------------------------------------------------------------------------
  // Streams of pages

  /** An Ogg page (section 6 of RFC 3533). `before` is version and flags; `after` is the serial number,
      the sequence number and the checksum. */
  datatype Page = Page(before: Bytes, granule: int, after: Bytes, lacing: Bytes, payload: Bytes)

  predicate WellFormed(p: Page) {
    && |p.before| == 2 && |p.after| == 12 && IsInt64(p.granule)
    && |p.lacing| < 256 && |p.payload| == Sum(p.lacing)
  }

  function Encode(p: Page): Bytes
    requires WellFormed(p)
  {
    CAPTURE + p.before + Int64Bytes(p.granule) + p.after + [|p.lacing|] + p.lacing + p.payload
  }

  /** The layout of a page: the capture pattern `OggS`, version and flags, the granule position, serial number,
      sequence number and checksum, the number of segments, their sizes, and the segments. */
  lemma PageLayout(p: Page)
    requires WellFormed(p)
    ensures var e, n := Encode(p), |p.lacing|;
            && |e| == 27 + n + |p.payload| && e[0] == 0x4F && e[1] == 0x67 && e[2] == 0x67 && e[3] == 0x53
            && e[4..6] == p.before && e[6..14] == Int64Bytes(p.granule) && e[14..26] == p.after && e[26] == n
            && e[27..27 + n] == p.lacing && e[27 + n..] == p.payload
  {
    Int64RoundTrip(p.granule);
    var front := CAPTURE + p.before + Int64Bytes(p.granule) + p.after + [|p.lacing|];
    HeaderFields(p, front);
    assert front[4..6] == p.before && front[14..26] == p.after;
    var e := Encode(p);
    assert e == front + p.lacing + p.payload;
    assert e[0..4] == front[0..4] && e[4..6] == front[4..6] && e[6..14] == front[6..14] && e[14..26] == front[14..26];
    assert e[0..4] == CAPTURE;
    assert e[0] == e[0..4][0] && e[1] == e[0..4][1] && e[2] == e[0..4][2] && e[3] == e[0..4][3];
  }

  /** Eight bytes, the least significant first. */
  lemma UnsignedOfEight(b: Bytes)
    requires |b| == 8
    ensures var d: seq<int> := b;
            Unsigned(b) == d[0] + 0x100 * (d[1] + 0x100 * (d[2] + 0x100 * (d[3] + 0x100 * (d[4]
                           + 0x100 * (d[5] + 0x100 * (d[6] + 0x100 * d[7]))))))
  {
    UnsignedStep(b);
    UnsignedStep(b[1..]);
    UnsignedStep(b[2..]);
    UnsignedStep(b[3..]);
    UnsignedStep(b[4..]);
    UnsignedStep(b[5..]);
    UnsignedStep(b[6..]);
    UnsignedStep(b[7..]);
    assert b[1..][1..] == b[2..] && b[2..][1..] == b[3..] && b[3..][1..] == b[4..] && b[4..][1..] == b[5..];
    assert b[5..][1..] == b[6..] && b[6..][1..] == b[7..] && b[7..][1..] == [];
  }

  lemma UnsignedStep(b: Bytes)
    requires b != []
    ensures Unsigned(b) == b[0] + 0x100 * Unsigned(b[1..])
  {
  }

  /** What a header announces, byte by byte: the granule position as a signed number and the size of the page. */
  lemma HeaderExactly(rest: Bytes)
    ensures var h := ReadHeader(rest);
            && (h == TooShort <==> |rest| < 27)
            && (h == NotAPage <==>
                  |rest| >= 27 && !(rest[0] == 0x4F && rest[1] == 0x67 && rest[2] == 0x67 && rest[3] == 0x53))
            && (h.Cut? || h.Whole? ==>
                  var g := Unsigned(rest[6..14]);
                  h.granule == if g < 0x8000_0000_0000_0000 then g else g - 0x1_0000_0000_0000_0000)
            && (h.Cut? ==> var n: nat := rest[26]; |rest| < 27 + n)
            && (h.Whole? ==>
                  var n: nat := rest[26];
                  |rest| >= 27 + n && h.size == 27 + n + Sum(rest[27..27 + n]))
  {
    if |rest| >= 27 {
      var c := rest[0..4];
      assert c[0] == rest[0] && c[1] == rest[1] && c[2] == rest[2] && c[3] == rest[3];
      assert c == CAPTURE <==> c[0] == 0x4F && c[1] == 0x67 && c[2] == 0x67 && c[3] == 0x53;
    }
  }

  lemma EncodedHeader(p: Page, tail: Bytes)
    requires WellFormed(p)
    ensures ReadHeader(Encode(p) + tail) == Whole(p.granule, |Encode(p)|)
    ensures After(Encode(p) + tail, |Encode(p)|) == tail
    ensures |Encode(p)| >= HEADER_SIZE
  {
    Int64RoundTrip(p.granule);
    var front := CAPTURE + p.before + Int64Bytes(p.granule) + p.after + [|p.lacing|];
    HeaderFields(p, front);
    var rest := front + p.lacing + p.payload + tail;
    assert Encode(p) + tail == rest;
    assert |front| == HEADER_SIZE;
    assert rest[0..4] == front[0..4] && rest[6..14] == front[6..14] && rest[26] == front[26];
    assert rest[HEADER_SIZE..HEADER_SIZE + |p.lacing|] == p.lacing;
    assert rest[|Encode(p)|..] == tail;
  }

  lemma HeaderFields(p: Page, front: Bytes)
    requires WellFormed(p) && |Int64Bytes(p.granule)| == 8
    requires front == CAPTURE + p.before + Int64Bytes(p.granule) + p.after + [|p.lacing|]
    ensures |front| == HEADER_SIZE
    ensures front[0..4] == CAPTURE && front[6..14] == Int64Bytes(p.granule) && front[26] == |p.lacing|
  {
  }

  /** The capture pattern starts at `i`. */
  predicate CaptureAt(s: Bytes, i: nat) { i + 4 <= |s| && s[i..i + 4] == CAPTURE }

  ghost predicate NoCapture(s: Bytes, n: nat) { forall i: nat :: i < n ==> !CaptureAt(s, i) }

  /** Junk, then a page and its bytes. */
  datatype Chunk = Chunk(gap: Bytes, page: Page, bytes: Bytes)

  predicate IsChunk(c: Chunk) { WellFormed(c.page) && c.bytes == Encode(c.page) }

  function Stream(chunks: seq<Chunk>, trailer: Bytes): Bytes {
    if chunks == [] then trailer
    else chunks[0].gap + (chunks[0].bytes + Stream(chunks[1..], trailer))
  }

  /** The capture pattern starts nowhere in a gap, nor in the trailer. */
  ghost predicate CleanGaps(chunks: seq<Chunk>, trailer: Bytes) {
    if chunks == [] then NoCapture(trailer, |trailer|)
    else
      && NoCapture(Stream(chunks, trailer), |chunks[0].gap|)
      && CleanGaps(chunks[1..], trailer)
  }

  function MaxGranule(chunks: seq<Chunk>, best: int): int {
    if chunks == [] then best else MaxGranule(chunks[1..], Max(best, chunks[0].page.granule))
  }

  /** The offsets at which the pages start. */
  function Boundaries(chunks: seq<Chunk>, at: nat): seq<nat> {
    if chunks == [] then []
    else
      var start := at + |chunks[0].gap|;
      [start] + Boundaries(chunks[1..], start + |chunks[0].bytes|)
  }

  // The walk, for any header format

  /** No header is seen at any of the first `n` positions. */
  ghost predicate Junk(read: HeaderReader, s: Bytes, n: nat) {
    n <= |s| && forall i :: 0 <= i < n ==> read(s[i..]).NotAPage?
  }

  /** The scan takes `s` over the chunk to `tail`. */
  ghost predicate Ahead(read: HeaderReader, s: Bytes, c: Chunk, tail: Bytes) {
    && Junk(read, s, |c.gap|)
    && read(s[|c.gap|..]) == Whole(c.page.granule, |c.bytes|)
    && After(s[|c.gap|..], |c.bytes|) == tail
  }

  /** The scan walks over junk one byte at a time. */
  lemma {:induction false} SkipJunk(read: HeaderReader, s: Bytes, n: nat, at: nat, w: Found)
    requires Junk(read, s, n)
    ensures Scan(read, s, at, w) == Scan(read, s[n..], at + n, w)
  {
    assert s[0..] == s;
    if n > 0 {
      forall i | 0 <= i < n - 1 ensures read(s[1..][i..]).NotAPage? { assert s[1..][i..] == s[i + 1..]; }
      SkipJunk(read, s[1..], n - 1, at + 1, w);
      assert s[1..][n - 1..] == s[n..];
    }
  }

  lemma SkipChunk(read: HeaderReader, s: Bytes, c: Chunk, tail: Bytes, at: nat, w: Found)
    requires Ahead(read, s, c, tail)
    ensures Scan(read, s, at, w)
         == Scan(read, tail, at + |c.gap| + |c.bytes|, Take(w, c.page.granule, at + |c.gap|))
  {
    SkipJunk(read, s, |c.gap|, at, w);
  }

  ghost predicate Laid(read: HeaderReader, chunks: seq<Chunk>, trailer: Bytes) {
    if chunks == [] then exists n: nat :: Junk(read, trailer, n) && read(trailer[n..]).TooShort?
    else
      && Ahead(read, Stream(chunks, trailer), chunks[0], Stream(chunks[1..], trailer))
      && Laid(read, chunks[1..], trailer)
  }

  /** What there is to find in chunks that start at offset `at`. */
  function InChunks(chunks: seq<Chunk>, at: nat, w: Found): Found {
    if chunks == [] then w
    else
      var start := at + |chunks[0].gap|;
      InChunks(chunks[1..], start + |chunks[0].bytes|, Take(w, chunks[0].page.granule, start))
  }

  /** On pages, with any junk between them that does not look like one, the scan stops at exactly the
      page boundaries and finds the largest granule position. */
  lemma {:induction false} PagesAreFound(read: HeaderReader, chunks: seq<Chunk>, trailer: Bytes, at: nat, w: Found)
    requires Laid(read, chunks, trailer)
    ensures Scan(read, Stream(chunks, trailer), at, w) == InChunks(chunks, at, w)
  {
    if chunks == [] {
      TrailerEnds(read, trailer, at, w);
    } else {
      var c := chunks[0];
      var start := at + |c.gap|;
      PagesAreFound(read, chunks[1..], trailer, start + |c.bytes|, Take(w, c.page.granule, start));
      NextChunk(read, chunks, trailer, at, w);
    }
  }

  lemma TrailerEnds(read: HeaderReader, trailer: Bytes, at: nat, w: Found)
    requires exists n: nat :: Junk(read, trailer, n) && read(trailer[n..]).TooShort?
    ensures Scan(read, trailer, at, w) == w
  {
    var n: nat :| Junk(read, trailer, n) && read(trailer[n..]).TooShort?;
    SkipJunk(read, trailer, n, at, w);
  }

  lemma NextChunk(read: HeaderReader, chunks: seq<Chunk>, trailer: Bytes, at: nat, w: Found)
    requires chunks != [] && Laid(read, chunks, trailer)
    ensures var c := chunks[0];
            Scan(read, Stream(chunks, trailer), at, w)
            == Scan(read, Stream(chunks[1..], trailer), at + |c.gap| + |c.bytes|, Take(w, c.page.granule, at + |c.gap|))
  {
    SkipChunk(read, Stream(chunks, trailer), chunks[0], Stream(chunks[1..], trailer), at, w);
  }

  lemma {:induction false} InChunksAre(chunks: seq<Chunk>, at: nat, w: Found)
    ensures InChunks(chunks, at, w) == Found(MaxGranule(chunks, w.top), w.headers + Boundaries(chunks, at))
  {
    if chunks != [] {
      var start := at + |chunks[0].gap|;
      InChunksAre(chunks[1..], start + |chunks[0].bytes|, Take(w, chunks[0].page.granule, start));
      Regroup(w.headers, start, Boundaries(chunks[1..], start + |chunks[0].bytes|));
    }
  }

  lemma Regroup(a: seq<nat>, x: nat, b: seq<nat>)
    ensures (a + [x]) + b == a + ([x] + b)
  {
  }

  // The Ogg header in particular

  lemma CaptureIsJunk(s: Bytes, n: nat)
    requires n == 0 || n + HEADER_SIZE <= |s| + 1
    requires NoCapture(s, n)
    ensures n <= |s| && Junk(ReadHeader, s, n)
  {
    forall i | 0 <= i < n ensures ReadHeader(s[i..]).NotAPage? {
      assert !CaptureAt(s, i);
      assert s[i..][0..4] == s[i..i + 4];
    }
  }

  lemma ChunkAhead(s: Bytes, c: Chunk, tail: Bytes)
    requires IsChunk(c) && s == c.gap + (c.bytes + tail) && NoCapture(s, |c.gap|)
    ensures Ahead(ReadHeader, s, c, tail)
  {
    EncodedHeader(c.page, tail);
    assert s[|c.gap|..] == c.bytes + tail;
    CaptureIsJunk(s, |c.gap|);
  }

  lemma {:induction false} CleanIsLaid(chunks: seq<Chunk>, trailer: Bytes)
    requires (forall c :: c in chunks ==> IsChunk(c)) && CleanGaps(chunks, trailer)
    ensures Laid(ReadHeader, chunks, trailer)
  {
    if chunks == [] {
      var n := if |trailer| < HEADER_SIZE then 0 else |trailer| - HEADER_SIZE + 1;
      CaptureIsJunk(trailer, n);
      assert ReadHeader(trailer[n..]).TooShort?;
    } else {
      ChunkAhead(Stream(chunks, trailer), chunks[0], Stream(chunks[1..], trailer));
      CleanIsLaid(chunks[1..], trailer);
    }
  }

  /** A reader of Ogg headers, of which only that is said. */
  lemma OggReader(chunks: seq<Chunk>, trailer: Bytes) returns (read: HeaderReader)
    requires (forall c :: c in chunks ==> IsChunk(c)) && CleanGaps(chunks, trailer)
    ensures Laid(read, chunks, trailer)
    ensures forall s, at, w :: Scan(read, s, at, w) == Scan(ReadHeader, s, at, w)
  {
    CleanIsLaid(chunks, trailer);
    read := ReadHeader;
  }

  /** The duration of a well-formed stream comes from its largest granule position, and the headers
      it takes are those of the pages. */
  lemma StreamDuration(chunks: seq<Chunk>, trailer: Bytes)
    requires (forall c :: c in chunks ==> IsChunk(c)) && CleanGaps(chunks, trailer)
    ensures Scan(ReadHeader, Stream(chunks, trailer), 0, NOTHING) == Found(MaxGranule(chunks, 0), Boundaries(chunks, 0))
  {
    var read := OggReader(chunks, trailer);
    PagesAreFound(read, chunks, trailer, 0, NOTHING);
    InChunksAre(chunks, 0, NOTHING);
  }

  lemma {:induction false} MaxGranuleFacts(chunks: seq<Chunk>, best: int)
    ensures MaxGranule(chunks, best) >= best
    ensures forall c :: c in chunks ==> c.page.granule <= MaxGranule(chunks, best)
    ensures MaxGranule(chunks, best) == best || exists c :: c in chunks && c.page.granule == MaxGranule(chunks, best)
  {
    if chunks != [] {
      MaxGranuleFacts(chunks[1..], Max(best, chunks[0].page.granule));
      assert forall c :: c in chunks <==> c == chunks[0] || c in chunks[1..];
    }
  }

  /** A plain concatenation of pages leaves no gap to worry about. */
  lemma {:induction false} PlainPagesAreClean(chunks: seq<Chunk>)
    requires forall c :: c in chunks ==> c.gap == []
    ensures CleanGaps(chunks, [])
  {
    if chunks != [] { PlainPagesAreClean(chunks[1..]); }
  }

  /** The sizes of segments add up. */
  lemma {:induction false} SumAdds(a: Bytes, b: Bytes)
    ensures Sum(a + b) == Sum(a) + Sum(b)
    ensures |b| == 1 ==> Sum(b) == b[0]
  {
    if a == [] {
      assert a + b == b;
    } else {
      assert (a + b)[1..] == a[1..] + b;
      SumAdds(a[1..], b);
    }
  }

  /** The duration of a stream of pages, in seconds. */
  method SecondsOf(chunks: seq<Chunk>, trailer: Bytes) returns (seconds: real)
    requires (forall c :: c in chunks ==> IsChunk(c)) && CleanGaps(chunks, trailer)
    ensures seconds == MaxGranule(chunks, 0) as real / 48000.0
  {
    var r := new Reader(Stream(chunks, trailer));
    ghost var headers;
    seconds, headers := OpusDuration(r);
    StreamDuration(chunks, trailer);
  }
}
