/** Request bodies kept in memory or on disk (common/body_storage.go; common/gin.go, lines 36-106). Both kinds
    follow one abstract reader, and a request hands out the same storage, rewound, every time. */
module BodyStorage {
  import opened Text

  type Content = seq<bv8>

  const SEEK_START := 0
  const SEEK_CURRENT := 1
  const SEEK_END := 2

  // ---------------------------------------------------------------------------
  // The abstract reader

  datatype Body = Body(data: Content, pos: nat, closed: bool)

  datatype Op = Read(n: nat) | Seek(offset: int, whence: int) | Bytes | Close

  datatype Outcome = Got(chunk: Content) | EndOfFile | Moved(to: nat) | Refused | AlreadyClosed | Done

  function Ahead(b: Body): Content { if b.pos <= |b.data| then b.data[b.pos..] else [] }

  function Min(a: nat, b: nat): nat { if a <= b then a else b }

  function Target(b: Body, offset: int, whence: int): Option<int> {
    if whence == SEEK_START then Some(offset)
    else if whence == SEEK_CURRENT then Some(b.pos + offset)
    else if whence == SEEK_END then Some(|b.data| + offset)
    else None
  }

  function After(b: Body, op: Op): Body {
    if b.closed then b
    else match op
      case Read(n) => b.(pos := b.pos + Min(n, |Ahead(b)|))
      case Seek(offset, whence) =>
        var t := Target(b, offset, whence);
        if t.Some? && t.value >= 0 then b.(pos := t.value) else b
      case Bytes => b
      case Close => b.(closed := true)
  }

  function Answer(b: Body, op: Op): Outcome {
    if op.Close? then Done
    else if b.closed then AlreadyClosed
    else match op
      case Read(n) => if Ahead(b) == [] then EndOfFile else Got(Ahead(b)[..Min(n, |Ahead(b)|)])
      case Seek(offset, whence) =>
        var t := Target(b, offset, whence);
        if t.Some? && t.value >= 0 then Moved(t.value) else Refused
      case _ => Got(b.data)
  }

  /** A file answers an empty read with nothing, even at its end, where memory reports the end. */
  function FileAnswer(b: Body, op: Op): Outcome {
    if !b.closed && op == Read(0) then Got([]) else Answer(b, op)
  }

  /** An empty read at the end of an open body. */
  predicate EmptyReadAtEnd(b: Body, op: Op) { op == Read(0) && !b.closed && b.pos >= |b.data| }

  /** That is the one case in which the two kinds answer differently. */
  lemma KindsDifferOnlyOnEmptyReads(b: Body, op: Op)
    ensures FileAnswer(b, op) == Answer(b, op) <==> !EmptyReadAtEnd(b, op)
  {
  }

  /** The answers, case by case. */
  lemma AnswersExactly(b: Body, op: Op)
    ensures op == Close ==> Answer(b, op) == Done && After(b, op) == b.(closed := true)
    ensures b.closed && op != Close ==> Answer(b, op) == AlreadyClosed && After(b, op) == b
    ensures !b.closed && op == Bytes ==> Answer(b, op) == Got(b.data) && After(b, op) == b
    ensures !b.closed && op.Read? && b.pos >= |b.data| ==> Answer(b, op) == EndOfFile && After(b, op) == b
    ensures !b.closed && op.Read? && b.pos + op.n <= |b.data| && b.pos < |b.data| ==>
              Answer(b, op) == Got(b.data[b.pos..b.pos + op.n]) && After(b, op) == b.(pos := b.pos + op.n)
    ensures !b.closed && op.Read? && b.pos < |b.data| < b.pos + op.n ==>
              Answer(b, op) == Got(b.data[b.pos..]) && After(b, op) == b.(pos := |b.data|)
  {
    assert b.pos <= |b.data| ==> Ahead(b) == b.data[b.pos..];
    assert b.pos <= |b.data| ==> Ahead(b)[..|Ahead(b)|] == b.data[b.pos..];
  }

  /** Seeking goes to an offset from the start, the position or the end, and refuses anything else and any place
      before the start. */
  lemma SeeksExactly(b: Body, offset: int, whence: int)
    requires !b.closed
    ensures var base := if whence == 0 then 0 else if whence == 1 then b.pos else |b.data|;
            if whence in {0, 1, 2} && base + offset >= 0 then
              && Answer(b, Seek(offset, whence)) == Moved(base + offset)
              && After(b, Seek(offset, whence)) == b.(pos := base + offset)
            else Answer(b, Seek(offset, whence)) == Refused && After(b, Seek(offset, whence)) == b
  {
  }

  function Run(b: Body, ops: seq<Op>): Body {
    if ops == [] then b else After(Run(b, ops[..|ops| - 1]), ops[|ops| - 1])
  }

  /** The answers that memory, or a file, gives to a sequence of operations. */
  function Answers(b: Body, ops: seq<Op>): seq<Outcome> {
    if ops == [] then []
    else Answers(b, ops[..|ops| - 1]) + [Answer(Run(b, ops[..|ops| - 1]), ops[|ops| - 1])]
  }

  function FileAnswers(b: Body, ops: seq<Op>): seq<Outcome> {
    if ops == [] then []
    else FileAnswers(b, ops[..|ops| - 1]) + [FileAnswer(Run(b, ops[..|ops| - 1]), ops[|ops| - 1])]
  }

  /** Some operation of the sequence is an empty read at the end of the body. */
  predicate SomeEmptyReadAtEnd(b: Body, ops: seq<Op>) {
    ops != []
    && (SomeEmptyReadAtEnd(b, ops[..|ops| - 1]) || EmptyReadAtEnd(Run(b, ops[..|ops| - 1]), ops[|ops| - 1]))
  }

  lemma {:induction false} AnswersAreOneEach(b: Body, ops: seq<Op>)
    ensures |Answers(b, ops)| == |ops| == |FileAnswers(b, ops)|
  {
    if ops != [] { AnswersAreOneEach(b, ops[..|ops| - 1]); }
  }

  /** Memory and disk give the same answers, all the way, if and only if no operation is an empty read at
      the end of the body. */
  lemma {:induction false} KindsAgreeExactly(b: Body, ops: seq<Op>)
    ensures Answers(b, ops) == FileAnswers(b, ops) <==> !SomeEmptyReadAtEnd(b, ops)
  {
    if ops != [] {
      var init, op := ops[..|ops| - 1], ops[|ops| - 1];
      KindsAgreeExactly(b, init);
      AnswersAreOneEach(b, init);
      KindsDifferOnlyOnEmptyReads(Run(b, init), op);
      SnocSame(Answers(b, init), Answer(Run(b, init), op), FileAnswers(b, init), FileAnswer(Run(b, init), op));
    }
  }

  lemma SnocSame(a: seq<Outcome>, x: Outcome, b: seq<Outcome>, y: Outcome)
    requires |a| == |b|
    ensures a + [x] == b + [y] <==> a == b && x == y
  {
    assert (a + [x])[..|a|] == a && (b + [y])[..|b|] == b;
    assert (a + [x])[|a|] == x && (b + [y])[|b|] == y;
  }

  /** In particular they do when no read is empty. */
  lemma {:induction false} NoEmptyReads(b: Body, ops: seq<Op>)
    requires Read(0) !in ops
    ensures Answers(b, ops) == FileAnswers(b, ops)
  {
    NoEmptyReadAtEnd(b, ops);
    KindsAgreeExactly(b, ops);
  }

  lemma {:induction false} NoEmptyReadAtEnd(b: Body, ops: seq<Op>)
    requires Read(0) !in ops
    ensures !SomeEmptyReadAtEnd(b, ops)
  {
    if ops != [] { NoEmptyReadAtEnd(b, ops[..|ops| - 1]); }
  }

  /** Nothing but closing touches the content or ends the use of a storage. */
  lemma {:induction false} RunKeepsContent(b: Body, ops: seq<Op>)
    ensures Run(b, ops).data == b.data
    ensures Run(b, ops).closed <==> b.closed || Close in ops
  {
    if ops != [] {
      var init, op := ops[..|ops| - 1], ops[|ops| - 1];
      RunKeepsContent(b, init);
      assert ops == init + [op];
    }
  }

  /** The content delivered by reads of the given sizes. */
  function Delivered(b: Body, sizes: seq<nat>): Content {
    if sizes == [] then []
    else
      var init, n := sizes[..|sizes| - 1], sizes[|sizes| - 1];
      Delivered(b, init) + Chunk(Answer(Run(b, Reads(init)), Read(n)))
  }

  function Reads(sizes: seq<nat>): seq<Op> { seq(|sizes|, i requires 0 <= i < |sizes| => Read(sizes[i])) }

  function Sum(sizes: seq<nat>): nat { if sizes == [] then 0 else Sum(sizes[..|sizes| - 1]) + sizes[|sizes| - 1] }

  lemma OneMoreRead(b: Body, k: nat, n: nat)
    requires !b.closed && b.pos == k <= |b.data|
    ensures var m := Min(k + n, |b.data|);
            && After(b, Read(n)) == b.(pos := m)
            && Chunk(Answer(b, Read(n))) == b.data[k..m]
  {
    assert Ahead(b) == b.data[k..];
  }

  function Chunk(answer: Outcome): Content { if answer.Got? then answer.chunk else [] }

  lemma ReadsSnoc(sizes: seq<nat>)
    requires sizes != []
    ensures var init, n := sizes[..|sizes| - 1], sizes[|sizes| - 1];
            Reads(sizes)[..|Reads(sizes)| - 1] == Reads(init) && Reads(sizes)[|Reads(sizes)| - 1] == Read(n)
  {
  }

  /** Successive reads deliver the content in order, without gap or overlap, up to its end. */
  lemma {:induction false} ReadsDeliverInOrder(b: Body, sizes: seq<nat>)
    requires !b.closed && b.pos == 0
    ensures var k := Min(Sum(sizes), |b.data|);
            Delivered(b, sizes) == b.data[..k] && Run(b, Reads(sizes)) == b.(pos := k)
  {
    if sizes != [] {
      var init, n := sizes[..|sizes| - 1], sizes[|sizes| - 1];
      ReadsDeliverInOrder(b, init);
      ReadsSnoc(sizes);
      var k := Min(Sum(init), |b.data|);
      OneMoreRead(b.(pos := k), k, n);
      Adjoin(b.data, k, Min(k + n, |b.data|));
    }
  }

  lemma Adjoin(data: Content, k: nat, m: nat)
    requires k <= m <= |data|
    ensures data[..k] + data[k..m] == data[..m]
  {
  }

  /** Whatever was done to a storage short of closing it, seeking to the start exposes all of it again. */
  lemma RewindExposesAll(b: Body, ops: seq<Op>, sizes: seq<nat>)
    requires !b.closed && Close !in ops && Sum(sizes) >= |b.data|
    ensures var again := After(Run(b, ops), Seek(0, SEEK_START));
            again == Body(b.data, 0, false) && Delivered(again, sizes) == b.data
  {
    RunKeepsContent(b, ops);
    var again := After(Run(b, ops), Seek(0, SEEK_START));
    ReadsDeliverInOrder(again, sizes);
    assert b.data[..|b.data|] == b.data;
  }

  // ---------------------------------------------------------------------------
  // The two kinds

  class MemoryStorage {
    const data: Content
    const size: nat
    var pos: nat
    var closed: bool

    predicate Valid()
      reads this
    {
      size == |data|
    }

    function State(): Body
      reads this
    {
      Body(data, pos, closed)
    }

    constructor (data: Content)
      ensures Valid() && State() == Body(data, 0, false)
    {
      this.data, size, pos, closed := data, |data|, 0, false;
    }

    method Read(n: nat) returns (r: Outcome)
      requires Valid()
      modifies this
      ensures Valid() && State() == After(old(State()), Op.Read(n)) && r == Answer(old(State()), Op.Read(n))
    {
      if closed { return AlreadyClosed; }
      if pos >= |data| { return EndOfFile; }
      var k := Min(n, |data| - pos);
      r := Got(data[pos..pos + k]);
      pos := pos + k;
    }

    method Seek(offset: int, whence: int) returns (r: Outcome)
      requires Valid()
      modifies this
      ensures Valid() && State() == After(old(State()), Op.Seek(offset, whence))
      ensures r == Answer(old(State()), Op.Seek(offset, whence))
    {
      if closed { return AlreadyClosed; }
      var abs := offset;
      if whence == SEEK_CURRENT { abs := pos + offset; }
      else if whence == SEEK_END { abs := size + offset; }
      else if whence != SEEK_START { return Refused; }
      if abs < 0 { return Refused; }
      pos := abs;
      r := Moved(abs);
    }

    method Bytes() returns (r: Outcome)
      requires Valid()
      ensures r == Answer(State(), Op.Bytes) && State() == After(State(), Op.Bytes)
    {
      if closed { return AlreadyClosed; }
      r := Got(data);
    }

    /** `first` says whether the counters are to be decremented. */
    method Close() returns (first: bool)
      requires Valid()
      modifies this
      ensures Valid() && State() == After(old(State()), Op.Close) && first == !old(closed)
    {
      first := !closed;
      closed := true;
    }
  }

  /** An open file; nothing goes wrong with it, and a read delivers what is there. */
  class File {
    var content: Content
    var pos: nat

    constructor ()
      ensures content == [] && pos == 0
    {
      content, pos := [], 0;
    }

    method Write(data: Content)
      requires pos == |content|
      modifies this
      ensures content == old(content) + data && pos == |content|
    {
      content := content + data;
      pos := |content|;
    }

    method Read(n: nat) returns (r: Outcome)
      modifies this
      ensures content == old(content)
      ensures r == FileAnswer(Body(content, old(pos), false), Op.Read(n))
      ensures pos == After(Body(content, old(pos), false), Op.Read(n)).pos
    {
      if n == 0 { return Got([]); }
      if pos >= |content| { return EndOfFile; }
      var k := Min(n, |content| - pos);
      r := Got(content[pos..pos + k]);
      pos := pos + k;
    }

    method Seek(offset: int, whence: int) returns (r: Outcome)
      modifies this
      ensures content == old(content)
      ensures r == Answer(Body(content, old(pos), false), Op.Seek(offset, whence))
      ensures pos == After(Body(content, old(pos), false), Op.Seek(offset, whence)).pos
    {
      if whence != SEEK_START && whence != SEEK_CURRENT && whence != SEEK_END { return Refused; }
      var base := if whence == SEEK_START then 0 else if whence == SEEK_CURRENT then pos else |content|;
      if base + offset < 0 { return Refused; }
      pos := base + offset;
      r := Moved(pos);
    }
  }

  class DiskStorage {
    const file: File
    const size: nat
    var closed: bool

    predicate Valid()
      reads this, file
    {
      size == |file.content|
    }

    function State(): Body
      reads this, file
    {
      Body(file.content, file.pos, closed)
    }

    constructor (data: Content)
      ensures Valid() && fresh(file) && State() == Body(data, 0, false)
    {
      var f := new File();
      f.Write(data);
      var _ := f.Seek(0, SEEK_START);
      file, size, closed := f, |data|, false;
    }

    method Read(n: nat) returns (r: Outcome)
      requires Valid()
      modifies this, file
      ensures Valid() && State() == After(old(State()), Op.Read(n)) && r == FileAnswer(old(State()), Op.Read(n))
    {
      if closed { return AlreadyClosed; }
      r := file.Read(n);
    }

    method Seek(offset: int, whence: int) returns (r: Outcome)
      requires Valid()
      modifies this, file
      ensures Valid() && State() == After(old(State()), Op.Seek(offset, whence))
      ensures r == Answer(old(State()), Op.Seek(offset, whence))
    {
      if closed { return AlreadyClosed; }
      r := file.Seek(offset, whence);
    }

    /** Saves the position, reads everything from the start and goes back. */
    method Bytes() returns (r: Outcome)
      requires Valid()
      modifies this, file
      ensures Valid() && State() == old(State()) && r == Answer(old(State()), Op.Bytes)
    {
      if closed { return AlreadyClosed; }
      var current := file.Seek(0, SEEK_CURRENT);
      var _ := file.Seek(0, SEEK_START);
      r := file.Read(size);
      assert file.content[0..] == file.content;
      var _ := file.Seek(current.to, SEEK_START);
    }

    method Close() returns (first: bool)
      requires Valid()
      modifies this, file
      ensures Valid() && State() == After(old(State()), Op.Close) && first == !old(closed)
    {
      first := !closed;
      closed := true;
    }
  }

  // ---------------------------------------------------------------------------
  // Both kinds side by side

  method OnMemory(m: MemoryStorage, op: Op) returns (r: Outcome)
    requires m.Valid()
    modifies m
    ensures m.Valid() && m.State() == After(old(m.State()), op) && r == Answer(old(m.State()), op)
  {
    match op
    case Read(n) => r := m.Read(n);
    case Seek(offset, whence) => r := m.Seek(offset, whence);
    case Bytes => r := m.Bytes();
    case Close =>
      var _ := m.Close();
      r := Done;
  }

  method OnFile(d: DiskStorage, op: Op) returns (r: Outcome)
    requires d.Valid()
    modifies d, d.file
    ensures d.Valid() && d.State() == After(old(d.State()), op) && r == FileAnswer(old(d.State()), op)
  {
    match op
    case Read(n) => r := d.Read(n);
    case Seek(offset, whence) => r := d.Seek(offset, whence);
    case Bytes => r := d.Bytes();
    case Close =>
      var _ := d.Close();
      r := Done;
  }

  /** Two storages of one body, given the same operations, none of them an empty read, answer alike and end
      in the same state. */
  method SideBySide(m: MemoryStorage, d: DiskStorage, ops: seq<Op>)
    returns (inMemory: seq<Outcome>, onDisk: seq<Outcome>)
    requires m.Valid() && d.Valid() && m.State() == d.State() && Read(0) !in ops
    modifies m, d, d.file
    ensures m.Valid() && d.Valid() && m.State() == d.State() == Run(old(m.State()), ops)
    ensures inMemory == onDisk == Answers(old(m.State()), ops)
  {
    ghost var b := m.State();
    inMemory, onDisk := [], [];
    for i := 0 to |ops|
      invariant m.Valid() && d.Valid() && m.State() == d.State() == Run(b, ops[..i])
      invariant inMemory == Answers(b, ops[..i]) && onDisk == FileAnswers(b, ops[..i])
    {
      assert ops[..i + 1][..i] == ops[..i];
      var x := OnMemory(m, ops[i]);
      var y := OnFile(d, ops[i]);
      inMemory, onDisk := inMemory + [x], onDisk + [y];
    }
    assert ops[..|ops|] == ops;
    NoEmptyReads(b, ops);
  }

  // ---------------------------------------------------------------------------
  // One request

  datatype Storage = InMemory(m: MemoryStorage) | OnDisk(d: DiskStorage)

  function StateOf(s: Storage): Body
    reads if s.InMemory? then {s.m} else {s.d, s.d.file}
  {
    if s.InMemory? then s.m.State() else s.d.State()
  }

  predicate ValidStorage(s: Storage)
    reads if s.InMemory? then {s.m} else {s.d, s.d.file}
  {
    if s.InMemory? then s.m.Valid() else s.d.Valid()
  }

  function Repr(s: Storage): set<object> { if s.InMemory? then {s.m} else {s.d, s.d.file} }

  /** The disk cache settings and what is in use. */
  datatype DiskCache = DiskCache(enabled: bool, threshold: int, maxBytes: int, usage: int, works: bool)

  /** `IsDiskCacheEnabled`, the threshold and `IsDiskCacheAvailable`. */
  predicate UsesDisk(c: DiskCache, size: int) { c.enabled && size >= c.threshold && c.usage + size <= c.maxBytes }

  /** `CreateBodyStorage`, which falls back to memory when the disk does not work. */
  method CreateBodyStorage(data: Content, c: DiskCache) returns (s: Storage)
    ensures ValidStorage(s) && StateOf(s) == Body(data, 0, false) && fresh(Repr(s))
    ensures s.OnDisk? <==> c.enabled && |data| >= c.threshold && c.usage + |data| <= c.maxBytes && c.works
  {
    if UsesDisk(c, |data|) && c.works {
      var d := new DiskStorage(data);
      return OnDisk(d);
    }
    var m := new MemoryStorage(data);
    return InMemory(m);
  }

  datatype Result = Ok(storage: Storage) | TooLarge | DiskFailed | SeekFailed | Unreadable

  /** `CreateBodyStorageFromReader`, on the bytes that the reader would give. */
  method CreateFromReader(source: Content, contentLength: int, maxBytes: nat, c: DiskCache) returns (r: Result)
    ensures r.Ok? ==> ValidStorage(r.storage) && StateOf(r.storage) == Body(source, 0, false) && fresh(Repr(r.storage))
    ensures r.DiskFailed? <==> && contentLength > 0 && c.enabled && contentLength >= c.threshold
                               && c.usage + contentLength <= c.maxBytes && !c.works
    ensures !r.DiskFailed? ==> if |source| > maxBytes then r.TooLarge? else r.Ok?
  {
    var taken := source[..Min(|source|, maxBytes + 1)];
    if contentLength > 0 && UsesDisk(c, contentLength) {
      if !c.works { return DiskFailed; }
      if |taken| > maxBytes { return TooLarge; }
      var d := new DiskStorage(taken);
      return Ok(OnDisk(d));
    }
    if |taken| > maxBytes { return TooLarge; }
    var s := CreateBodyStorage(taken, c);
    r := Ok(s);
  }

  /** What a request carries: the storage once there is one, an older cached copy, and the body as sent,
      which is read and closed once. */
  class Request {
    var storage: Option<Storage>
    var drained: bool
    const cached: Option<Content>
    const body: Content
    const contentLength: int

    constructor (cached: Option<Content>, body: Content, contentLength: int)
      ensures storage == None && !drained && this.cached == cached
      ensures this.body == body && this.contentLength == contentLength
    {
      storage, drained := None, false;
      this.cached, this.body, this.contentLength := cached, body, contentLength;
    }

    function Footprint(): set<object>
      reads this
    {
      if storage.Some? then Repr(storage.value) else {}
    }

    /** The body that the request stands for. */
    function Original(): Content { if cached.Some? then cached.value else body }

    /** The storage, if any, holds the whole body. */
    predicate Valid()
      reads this, Footprint()
    {
      storage.Some? ==> ValidStorage(storage.value) && StateOf(storage.value).data == Original()
    }

    /** `GetBodyStorage` */
    method GetBodyStorage(maxBytes: nat, c: DiskCache) returns (r: Result)
      requires Valid()
      modifies this, Footprint()
      ensures Valid() && fresh(Footprint() - old(Footprint()))
      ensures r.Ok? ==> storage == Some(r.storage) && StateOf(r.storage) == Body(Original(), 0, false)
      ensures old(storage).Some? ==> storage == old(storage) && (r.Ok? <==> !old(StateOf(storage.value)).closed)
      ensures old(storage).None? && cached.Some? ==> r.Ok?
      ensures old(storage).None? && cached.None? && old(drained) ==> r.Unreadable?
      ensures old(storage).None? && cached.None? && !old(drained) && |body| > maxBytes ==> r.TooLarge? || r.DiskFailed?
      ensures old(storage).None? && cached.None? && !old(drained) && |body| <= maxBytes && c.works ==> r.Ok?
      ensures !r.Ok? ==> storage == old(storage)
    {
      if storage.Some? {
        var moved := Rewind(storage.value);
        return if moved then Ok(storage.value) else SeekFailed;
      }
      if cached.Some? {
        var s := CreateBodyStorage(cached.value, c);
        storage := Some(s);
        return Ok(s);
      }
      if drained { return Unreadable; }
      drained := true;
      r := CreateFromReader(body, contentLength, maxBytes, c);
      if r.Ok? { storage := Some(r.storage); }
    }

    /** `CleanupBodyStorage` */
    method Cleanup()
      requires Valid()
      modifies this, Footprint()
      ensures Valid() && storage == None
      ensures old(storage).Some? ==> StateOf(old(storage).value).closed
    {
      if storage.Some? {
        var s := storage.value;
        if s.InMemory? {
          var _ := s.m.Close();
        } else {
          var _ := s.d.Close();
        }
        storage := None;
      }
    }
  }

  /** `Seek(0, io.SeekStart)` through the interface. */
  method Rewind(s: Storage) returns (ok: bool)
    requires ValidStorage(s)
    modifies Repr(s)
    ensures ValidStorage(s) && StateOf(s) == After(old(StateOf(s)), Op.Seek(0, SEEK_START))
    ensures ok == !old(StateOf(s)).closed
  {
    var r;
    if s.InMemory? {
      r := s.m.Seek(0, SEEK_START);
    } else {
      r := s.d.Seek(0, SEEK_START);
    }
    ok := r.Moved?;
  }
}
