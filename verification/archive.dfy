/** The archive container of `CompressionService` (Services/CompressionService.cs):
    a count of entries, then per entry a header (name, optional password),
    the algorithm tag, the payload length and the payload.

    Exceptions and message boxes become `Fail` outcomes. The file system is
    replaced by values: an archive is a byte sequence, the input files are a
    map from path to contents, `Path.GetFileName` is a parameter, and so are
    the Huffman payload codec routines, whose code is not part of this model.
    The order in which the parallel loop collects entries is a parameter
    `order`, any permutation of the input paths.

    A password of "" stands for both `null` and the empty string: the source
    writes length 0 for either and treats either as "no password". */
module Archive {
  import opened Common
  import opened BinaryIO
  import opened Frequencies
  import ShannonFano

  const HUFFMAN: string := "Huffman"
  const SHANNON_FANO: string := "Shannon-Fano"

  /** One stored file: the tuple the parallel loop collects. */
  datatype Entry = Entry(name: string, password: string, algorithm: string, data: seq<byte>)

  /** Why an operation gave up: an exception, or the password message box. */
  datatype Failure =
    | Malformed            // a stream read past the end, or a negative length
    | WrongPassword        // the "wrong password" message box, then return
    | NotFound             // FileNotFoundException at the end of the scan
    | UnknownAlgorithm     // a stored tag other than the two codecs
    | MissingFile(path: string)
    | UnsupportedAlgorithm // CompressToArchive asked for another algorithm
    | CompressorFailed     // the Huffman compressor threw on an input

  datatype Outcome<+T> = Ok(value: T) | Fail(error: Failure) {

    predicate IsFailure() {
      Fail?
    }

    function PropagateFailure<U>(): Outcome<U>
      requires Fail?
    {
      Fail(error)
    }

    function Extract(): T
      requires Ok?
    {
      value
    }
  }

  /** A stream read that throws becomes `Malformed`. */
  function Need<T>(o: Option<T>): Outcome<T> {
    match o
    case None => Fail(Malformed)
    case Some(v) => Ok(v)
  }

  // ---------------------------------------------------------------- writer

  /** The password characters, written only for a non-empty password. */
  function PasswordBytes(password: string): seq<byte> {
    if password == "" then [] else CharBytes(password)
  }

  /** Name length, name characters, password length (0 when there is none)
      and password characters. */
  function HeaderBytes(e: Entry): seq<byte> {
    Int32Bytes(|e.name|) + (CharBytes(e.name) + (Int32Bytes(|e.password|) + PasswordBytes(e.password)))
  }

  /** The algorithm tag as a length-prefixed string, then the payload length. */
  function BodyBytes(e: Entry): seq<byte> {
    StringBytes(e.algorithm) + Int32Bytes(|e.data|)
  }

  /** One entry as the writer loop emits it (Services/CompressionService.cs:101-110). */
  function EntryBytes(e: Entry): seq<byte> {
    HeaderBytes(e) + (BodyBytes(e) + e.data)
  }

  function EntriesBytes(es: seq<Entry>): seq<byte> {
    if |es| == 0 then [] else EntryBytes(es[0]) + EntriesBytes(es[1..])
  }

  /** The whole archive (Services/CompressionService.cs:97-111). */
  function ArchiveBytes(es: seq<Entry>): seq<byte> {
    Int32Bytes(|es|) + EntriesBytes(es)
  }

  // ---------------------------------------------------------------- reader

  datatype Header = Header(name: string, password: string)

  datatype Body = Body(algorithm: string, length: int)

  /** Name and password of an entry, as all three readers read them
      (Services/CompressionService.cs:28-36, 150-153, 209-214): the password
      characters are read only when the stored length is positive. */
  function ReadHeader(data: seq<byte>, pos: nat): (r: Option<Parsed<Header>>)
    ensures r.Some? ==> r.value.next >= pos
  {
    var nameLen :- ReadInt32(data, pos);
    var name :- ReadChars(data, nameLen.next, nameLen.value);
    var pwdLen :- ReadInt32(data, name.next);
    if pwdLen.value > 0 then
      var pwd := ReadChars(data, pwdLen.next, pwdLen.value).value;
      Some(Parsed(Header(name.value, pwd.value), pwd.next))
    else
      Some(Parsed(Header(name.value, ""), pwdLen.next))
  }

  /** Algorithm tag and payload length (Services/CompressionService.cs:38-40,
      155-156, 231-232). */
  function ReadBody(data: seq<byte>, pos: nat): (r: Option<Parsed<Body>>)
    ensures r.Some? ==> r.value.next > pos
  {
    var alg :- ReadString(data, pos);
    var len :- ReadInt32(data, alg.next);
    Some(Parsed(Body(alg.value, len.value), len.next))
  }

  /** An entry's password bars a user: it is set and the user's differs. */
  predicate Locked(password: string, user: string) {
    password != "" && password != user
  }

  function Names(es: seq<Entry>): (ns: seq<string>)
    ensures |ns| == |es|
  {
    if |es| == 0 then [] else [es[0].name] + Names(es[1..])
  }

  // --------------------------------------------------------------- listing

  /** The loop of `ListFilesInArchive`: the name of each of `remaining`
      entries. */
  function ListEntries(data: seq<byte>, pos: nat, remaining: int): Outcome<seq<string>>
    decreases remaining, 1
  {
    if remaining <= 0 then Ok([]) else ListTurn(data, pos, remaining)
  }

  /** One turn of that loop: read the header and the body, skip the payload
      by the recorded length, go on with the rest. */
  function ListTurn(data: seq<byte>, pos: nat, remaining: int): Outcome<seq<string>>
    requires remaining > 0
    decreases remaining, 0
  {
    var h :- Need(ReadHeader(data, pos));
    var b :- Need(ReadBody(data, h.next));
    var next :- Need(Seek(b.next, b.value.length));
    var rest :- ListEntries(data, next, remaining - 1);
    Ok([h.value.name] + rest)
  }

  /** `ListFilesInArchive` (Services/CompressionService.cs:17-48). */
  function ListFilesInArchive(archive: seq<byte>): Outcome<seq<string>> {
    var count :- Need(ReadInt32(archive, 0));
    ListEntries(archive, count.next, count.value)
  }

  // ----------------------------------------------------------- decompress

  /** The decoder switch (Services/CompressionService.cs:178-183, 238-243). */
  function DecodeEntry(algorithm: string, payload: seq<byte>, huffmanDecode: seq<byte> -> Option<seq<byte>>): (r: Outcome<seq<byte>>)
    ensures r.Fail? ==> r.error == Malformed || r.error == UnknownAlgorithm
    ensures r.Fail? && r.error == UnknownAlgorithm <==> algorithm != HUFFMAN && algorithm != SHANNON_FANO
    ensures r.Fail? && r.error == Malformed <==>
      || (algorithm == HUFFMAN && huffmanDecode(payload).None?)
      || (algorithm == SHANNON_FANO && ShannonFano.DecompressBytes(payload).None?)
  {
    if algorithm == HUFFMAN then Need(huffmanDecode(payload))
    else if algorithm == SHANNON_FANO then Need(ShannonFano.DecompressBytes(payload))
    else Fail(UnknownAlgorithm)
  }

  /** The header loop of `DecompressArchive` (Services/CompressionService.cs:146-170):
      each entry is read whole, payload included, and then its password is
      checked; a barred entry stops everything. */
  function ScanEntries(data: seq<byte>, pos: nat, remaining: int, user: string): Outcome<seq<Entry>>
    decreases remaining, 1
  {
    if remaining <= 0 then Ok([]) else ScanTurn(data, pos, remaining, user)
  }

  /** One turn of the header loop. */
  function ScanTurn(data: seq<byte>, pos: nat, remaining: int, user: string): Outcome<seq<Entry>>
    requires remaining > 0
    decreases remaining, 0
  {
    var h :- Need(ReadHeader(data, pos));
    var b :- Need(ReadBody(data, h.next));
    var bytes :- Need(ReadBytes(data, b.next, b.value.length));
    if Locked(h.value.password, user) then Fail(WrongPassword)
    else
      var rest :- ScanEntries(data, bytes.next, remaining - 1, user);
      Ok([Entry(h.value.name, h.value.password, b.value.algorithm, bytes.value)] + rest)
  }

  /** A file written by `DecompressArchive`: its name and decoded contents. */
  datatype Output = Output(name: string, content: seq<byte>)

  /** The decoding tasks, taken in entry order (Services/CompressionService.cs:174-193). */
  function DecodeAll(es: seq<Entry>, huffmanDecode: seq<byte> -> Option<seq<byte>>): (r: Outcome<seq<Output>>)
    ensures r.Fail? ==> r.error != WrongPassword
    ensures r.Ok? ==> |r.value| == |es| && forall k | 0 <= k < |es| :: r.value[k].name == es[k].name
  {
    if |es| == 0 then Ok([])
    else
      var c :- DecodeEntry(es[0].algorithm, es[0].data, huffmanDecode);
      var rest :- DecodeAll(es[1..], huffmanDecode);
      Ok([Output(es[0].name, c)] + rest)
  }

  /** `DecompressArchive` (Services/CompressionService.cs:129-196). */
  function DecompressArchive(archive: seq<byte>, user: string, huffmanDecode: seq<byte> -> Option<seq<byte>>): Outcome<seq<Output>> {
    var count :- Need(ReadInt32(archive, 0));
    var entries :- ScanEntries(archive, count.next, count.value, user);
    DecodeAll(entries, huffmanDecode)
  }

  // -------------------------------------------------------------- extract

  /** The loop of `ExtractSingleFile` (Services/CompressionService.cs:207-257):
      every scanned entry's password is checked before its tag is read; the
      first entry with the wanted name is decoded; any other payload is
      skipped by its length. */
  function ExtractEntries(data: seq<byte>, pos: nat, remaining: int, target: string, user: string,
                          huffmanDecode: seq<byte> -> Option<seq<byte>>): Outcome<seq<byte>>
    decreases remaining, 1
  {
    if remaining <= 0 then Fail(NotFound) else ExtractTurn(data, pos, remaining, target, user, huffmanDecode)
  }

  /** One turn of the extraction loop. */
  function ExtractTurn(data: seq<byte>, pos: nat, remaining: int, target: string, user: string,
                     huffmanDecode: seq<byte> -> Option<seq<byte>>): Outcome<seq<byte>>
    requires remaining > 0
    decreases remaining, 0
  {
    var h :- Need(ReadHeader(data, pos));
    if Locked(h.value.password, user) then Fail(WrongPassword)
    else
      var b :- Need(ReadBody(data, h.next));
      if h.value.name == target then
        var bytes :- Need(ReadBytes(data, b.next, b.value.length));
        DecodeEntry(b.value.algorithm, bytes.value, huffmanDecode)
      else
        var next :- Need(Seek(b.next, b.value.length));
        ExtractEntries(data, next, remaining - 1, target, user, huffmanDecode)
  }

  /** `ExtractSingleFile` (Services/CompressionService.cs:200-259). */
  function ExtractSingleFile(archive: seq<byte>, target: string, user: string,
                             huffmanDecode: seq<byte> -> Option<seq<byte>>): Outcome<seq<byte>> {
    var count :- Need(ReadInt32(archive, 0));
    ExtractEntries(archive, count.next, count.value, target, user, huffmanDecode)
  }

  /** Reference behaviour of `ExtractSingleFile` on a list of entries. */
  function ExtractFrom(es: seq<Entry>, target: string, user: string,
                       huffmanDecode: seq<byte> -> Option<seq<byte>>): Outcome<seq<byte>> {
    if |es| == 0 then Fail(NotFound)
    else if Locked(es[0].password, user) then Fail(WrongPassword)
    else if es[0].name == target then DecodeEntry(es[0].algorithm, es[0].data, huffmanDecode)
    else ExtractFrom(es[1..], target, user, huffmanDecode)
  }

  // ------------------------------------------------------------- compress

  predicate Supported(algorithm: string) {
    algorithm == HUFFMAN || algorithm == SHANNON_FANO
  }

  /** The algorithm compresses the contents: Shannon-Fano always does, and
      Huffman when its compressor returns a payload rather than throwing. */
  predicate Compresses(algorithm: string, content: seq<byte>, huffmanCompress: seq<byte> -> Option<seq<byte>>) {
    algorithm == SHANNON_FANO || (algorithm == HUFFMAN && huffmanCompress(content).Some?)
  }

  /** The compressor switch (Services/CompressionService.cs:79-89). An
      exception from the Huffman compressor is `CompressorFailed`. */
  function CompressFile(algorithm: string, content: seq<byte>, huffmanCompress: seq<byte> -> Option<seq<byte>>): (r: Outcome<seq<byte>>)
    ensures r.Ok? <==> Compresses(algorithm, content, huffmanCompress)
    ensures r.Ok? ==> Supported(algorithm)
    ensures r.Fail? ==> r.error == if Supported(algorithm) then CompressorFailed else UnsupportedAlgorithm
  {
    if algorithm == HUFFMAN then
      match huffmanCompress(content)
      case Some(c) => Ok(c)
      case None => Fail(CompressorFailed)
    else if algorithm == SHANNON_FANO then Ok(ShannonFano.CompressBytes(content))
    else Fail(UnsupportedAlgorithm)
  }

  /** The body of the parallel loop for each path, in the order the paths
      are processed (Services/CompressionService.cs:68-92): a missing file,
      an unsupported algorithm or a failing compressor aborts the whole
      collection. */
  function Collect(ps: seq<string>, algorithm: string, password: string, files: map<string, seq<byte>>,
                   fileName: string -> string, huffmanCompress: seq<byte> -> Option<seq<byte>>): (r: Outcome<seq<Entry>>)
    ensures r.Ok? <==> forall p | p in ps :: p in files && Compresses(algorithm, files[p], huffmanCompress)
    ensures r.Ok? ==> |ps| == 0 || Supported(algorithm)
    ensures r.Ok? ==> |r.value| == |ps|
  {
    if |ps| == 0 then Ok([])
    else if ps[0] !in files then Fail(MissingFile(ps[0]))
    else
      var c :- CompressFile(algorithm, files[ps[0]], huffmanCompress);
      var rest :- Collect(ps[1..], algorithm, password, files, fileName, huffmanCompress);
      Ok([Entry(fileName(ps[0]), password, algorithm, c)] + rest)
  }

  /** `FileInfo(f).Length` summed over the input paths. */
  function TotalSize(paths: seq<string>, files: map<string, seq<byte>>): nat {
    if |paths| == 0 then 0
    else (if paths[0] in files then |files[paths[0]]| else 0) + TotalSize(paths[1..], files)
  }

  /** The fields of `CompressionResult` other than the derived ratio. */
  datatype CompressionResult = CompressionResult(
    fileName: string, algorithmUsed: string, originalSize: nat, compressedSize: nat, error: Option<Failure>)

  /** What `CompressToArchive` leaves behind: its result and, unless it
      failed before creating the output stream, the archive written. */
  datatype ArchiveWrite = ArchiveWrite(result: CompressionResult, archive: Option<seq<byte>>)

  /** `CompressToArchive` (Services/CompressionService.cs:52-124). The
      parallel loop and the `ConcurrentBag` fix no order: `order` is the
      input paths in the order they are processed and collected, any
      permutation of `paths`. */
  function CompressToArchive(paths: seq<string>, algorithm: string, outputPath: string, password: string,
                             files: map<string, seq<byte>>, fileName: string -> string,
                             huffmanCompress: seq<byte> -> Option<seq<byte>>, order: seq<string>): ArchiveWrite
    requires multiset(order) == multiset(paths)
  {
    match Collect(order, algorithm, password, files, fileName, huffmanCompress)
    case Fail(e) =>
      ArchiveWrite(CompressionResult(fileName(outputPath), algorithm, 0, 0, Some(e)), None)
    case Ok(es) =>
      var archive := ArchiveBytes(es);
      ArchiveWrite(CompressionResult(fileName(outputPath), algorithm, TotalSize(paths, files), |archive|, None), Some(archive))
  }

  // ============================================================== proofs

  /** Entries the writer emits in a form the reader gets back exactly:
      ASCII text and lengths that fit an `int`. */
  predicate Writable(e: Entry) {
    && IsAscii(e.name) && |e.name| < TWO_31
    && IsAscii(e.password) && |e.password| < TWO_31
    && IsAscii(e.algorithm) && |e.algorithm| < TWO_31
    && |e.data| < TWO_31
  }

  predicate AllWritable(es: seq<Entry>) {
    forall k | 0 <= k < |es| :: Writable(es[k])
  }

  lemma {:induction false} HeaderAt(data: seq<byte>, pos: nat, e: Entry)
    requires Writable(e) && At(data, pos, HeaderBytes(e))
    ensures ReadHeader(data, pos) == Some(Parsed(Header(e.name, e.password), pos + |HeaderBytes(e)|))
  {
    HeaderFields(data, pos, e);
    HeaderCompose(data, pos, e.name, e.password);
  }

  /** Each field of a written header reads back. */
  lemma {:induction false} HeaderFields(data: seq<byte>, pos: nat, e: Entry)
    requires Writable(e) && At(data, pos, HeaderBytes(e))
    ensures var p2 := pos + 4 + |e.name|;
      && ReadInt32(data, pos) == Some(Parsed(|e.name|, pos + 4))
      && ReadChars(data, pos + 4, |e.name|) == Some(Parsed(e.name, p2))
      && ReadInt32(data, p2) == Some(Parsed(|e.password|, p2 + 4))
      && (e.password != "" ==> ReadChars(data, p2 + 4, |e.password|) == Some(Parsed(e.password, p2 + 4 + |e.password|)))
  {
    var a1, a2 := Int32Bytes(|e.name|), CharBytes(e.name);
    var a3, a4 := Int32Bytes(|e.password|), PasswordBytes(e.password);
    AtSplit4(data, pos, a1, a2, a3, a4);
    Int32RoundTrip(data, pos, |e.name|);
    CharsRoundTrip(data, pos + 4, e.name);
    var p2 := pos + 4 + |e.name|;
    Int32RoundTrip(data, p2, |e.password|);
    if e.password != "" {
      CharsRoundTrip(data, p2 + 4, e.password);
    }
  }

  /** `ReadHeader` put together from the reads of its fields. */
  lemma {:induction false} HeaderCompose(data: seq<byte>, pos: nat, name: string, password: string)
    requires var p2 := pos + 4 + |name|;
      && ReadInt32(data, pos) == Some(Parsed(|name|, pos + 4))
      && ReadChars(data, pos + 4, |name|) == Some(Parsed(name, p2))
      && ReadInt32(data, p2) == Some(Parsed(|password|, p2 + 4))
      && (password != "" ==> ReadChars(data, p2 + 4, |password|) == Some(Parsed(password, p2 + 4 + |password|)))
    ensures ReadHeader(data, pos) == Some(Parsed(Header(name, password), pos + 8 + |name| + |password|))
  {
  }

  lemma {:induction false} BodyAt(data: seq<byte>, pos: nat, e: Entry)
    requires Writable(e) && At(data, pos, BodyBytes(e))
    ensures ReadBody(data, pos) == Some(Parsed(Body(e.algorithm, |e.data|), pos + |BodyBytes(e)|))
  {
    var sb := StringBytes(e.algorithm);
    AtConcat(data, pos, sb, Int32Bytes(|e.data|));
    StringRoundTrip(data, pos, e.algorithm);
    Int32RoundTrip(data, pos + |sb|, |e.data|);
  }

  /** The reads of one entry starting at p find e: its header, ending at h,
      its body, ending at b, and its payload, ending at next. */
  ghost predicate EntryRead(data: seq<byte>, p: nat, h: nat, b: nat, next: nat, e: Entry) {
    && ReadHeader(data, p) == Some(Parsed(Header(e.name, e.password), h))
    && ReadBody(data, h) == Some(Parsed(Body(e.algorithm, |e.data|), b))
    && ReadBytes(data, b, |e.data|) == Some(Parsed(e.data, next))
    && Seek(b, |e.data|) == Some(next)
  }

  /** What the readers find at a written entry. */
  lemma {:induction false} EntryAt(data: seq<byte>, pos: nat, e: Entry) returns (h: nat, b: nat, next: nat)
    requires Writable(e) && At(data, pos, EntryBytes(e))
    ensures EntryRead(data, pos, h, b, next, e)
    ensures next == pos + |EntryBytes(e)|
  {
    h, b, next := EntryParts(data, pos, e);
    EntryReads(data, pos, h, b, next, e);
  }

  /** A written entry is its header, its body and its payload, in turn. */
  lemma {:induction false} EntryParts(data: seq<byte>, pos: nat, e: Entry) returns (h: nat, b: nat, next: nat)
    requires At(data, pos, EntryBytes(e))
    ensures h == pos + |HeaderBytes(e)| && b == h + |BodyBytes(e)| && next == b + |e.data|
    ensures next == pos + |EntryBytes(e)|
    ensures At(data, pos, HeaderBytes(e)) && At(data, h, BodyBytes(e)) && At(data, b, e.data)
  {
    h := pos + |HeaderBytes(e)|;
    b := h + |BodyBytes(e)|;
    next := b + |e.data|;
    AtConcat(data, pos, HeaderBytes(e), BodyBytes(e) + e.data);
    AtConcat(data, h, BodyBytes(e), e.data);
  }

  lemma {:induction false} EntryReads(data: seq<byte>, pos: nat, h: nat, b: nat, next: nat, e: Entry)
    requires Writable(e) && h == pos + |HeaderBytes(e)| && b == h + |BodyBytes(e)| && next == b + |e.data|
    requires At(data, pos, HeaderBytes(e)) && At(data, h, BodyBytes(e)) && At(data, b, e.data)
    ensures EntryRead(data, pos, h, b, next, e)
  {
    HeaderAt(data, pos, e);
    BodyAt(data, h, e);
    ReadBytesAt(data, b, e.data);
  }

  /** The entries es read one after another: entry k starts at ps[k], its
      body at hs[k], its payload at bs[k], and the next entry at ps[k + 1]. */
  ghost predicate Chain(data: seq<byte>, ps: seq<nat>, hs: seq<nat>, bs: seq<nat>, es: seq<Entry>) {
    && |ps| == |es| + 1 && |hs| == |es| && |bs| == |es|
    && forall k | 0 <= k < |es| :: Link(data, ps, hs, bs, es, k)
  }

  /** Entry k of a chain reads back between its positions. */
  ghost predicate Link(data: seq<byte>, ps: seq<nat>, hs: seq<nat>, bs: seq<nat>, es: seq<Entry>, k: nat) {
    && k < |es| && k + 1 < |ps| && k < |hs| && k < |bs|
    && EntryRead(data, ps[k], hs[k], bs[k], ps[k + 1], es[k])
  }

  lemma {:induction false} ChainCons(data: seq<byte>, p: nat, h: nat, b: nat, e: Entry, ps: seq<nat>, hs: seq<nat>, bs: seq<nat>, es: seq<Entry>)
    requires Chain(data, ps, hs, bs, es) && EntryRead(data, p, h, b, ps[0], e)
    ensures Chain(data, [p] + ps, [h] + hs, [b] + bs, [e] + es)
  {
    var ps', hs', bs', es' := [p] + ps, [h] + hs, [b] + bs, [e] + es;
    forall k | 0 <= k < |es'|
      ensures Link(data, ps', hs', bs', es', k)
    {
      if k > 0 {
        assert Link(data, ps, hs, bs, es, k - 1);
        assert ps'[k] == ps[k - 1] && ps'[k + 1] == ps[k];
        assert hs'[k] == hs[k - 1] && bs'[k] == bs[k - 1] && es'[k] == es[k - 1];
      }
    }
  }

  /** Written entries read back one after another. */
  lemma {:induction false} ChainAt(data: seq<byte>, pos: nat, es: seq<Entry>) returns (ps: seq<nat>, hs: seq<nat>, bs: seq<nat>)
    requires AllWritable(es) && At(data, pos, EntriesBytes(es))
    ensures Chain(data, ps, hs, bs, es) && ps[0] == pos
    decreases |es|
  {
    if |es| == 0 {
      ps, hs, bs := [pos], [], [];
    } else {
      EntriesAtCons(data, pos, es);
      var ps', hs', bs' := ChainAt(data, pos + |EntryBytes(es[0])|, es[1..]);
      ps, hs, bs := ChainStep(data, pos, es, ps', hs', bs');
    }
  }

  /** The first of written entries and the rest after it. */
  lemma {:induction false} EntriesAtCons(data: seq<byte>, pos: nat, es: seq<Entry>)
    requires |es| > 0 && AllWritable(es) && At(data, pos, EntriesBytes(es))
    ensures Writable(es[0]) && At(data, pos, EntryBytes(es[0]))
    ensures AllWritable(es[1..]) && At(data, pos + |EntryBytes(es[0])|, EntriesBytes(es[1..]))
  {
    assert EntriesBytes(es) == EntryBytes(es[0]) + EntriesBytes(es[1..]);
    AtConcat(data, pos, EntryBytes(es[0]), EntriesBytes(es[1..]));
    assert Writable(es[0]);
    forall k | 0 <= k < |es| - 1
      ensures Writable(es[1..][k])
    {
      assert es[1..][k] == es[k + 1];
    }
  }

  /** A written entry in front of a chain extends it. */
  lemma {:induction false} ChainStep(data: seq<byte>, pos: nat, es: seq<Entry>, ps': seq<nat>, hs': seq<nat>, bs': seq<nat>)
    returns (ps: seq<nat>, hs: seq<nat>, bs: seq<nat>)
    requires |es| > 0 && Writable(es[0]) && At(data, pos, EntryBytes(es[0]))
    requires Chain(data, ps', hs', bs', es[1..]) && ps'[0] == pos + |EntryBytes(es[0])|
    ensures Chain(data, ps, hs, bs, es) && ps[0] == pos
  {
    var h, b := EntryChain(data, pos, es[0]);
    ChainCons1(data, pos, h, b, es[0], ps', hs', bs', es[1..]);
    assert [es[0]] + es[1..] == es;
    ps, hs, bs := [pos] + ps', [h] + hs', [b] + bs';
  }

  /** A written entry is a chain of one. */
  lemma {:induction false} EntryChain(data: seq<byte>, pos: nat, e: Entry) returns (h: nat, b: nat)
    requires Writable(e) && At(data, pos, EntryBytes(e))
    ensures Chain(data, [pos, pos + |EntryBytes(e)|], [h], [b], [e])
  {
    var next;
    h, b, next := EntryAt(data, pos, e);
    assert Link(data, [pos, next], [h], [b], [e], 0);
  }

  lemma {:induction false} ChainCons1(data: seq<byte>, p: nat, h: nat, b: nat, e: Entry, ps: seq<nat>, hs: seq<nat>, bs: seq<nat>, es: seq<Entry>)
    requires Chain(data, ps, hs, bs, es) && |ps| > 0 && Chain(data, [p, ps[0]], [h], [b], [e])
    ensures Chain(data, [p] + ps, [h] + hs, [b] + bs, [e] + es)
  {
    assert Link(data, [p, ps[0]], [h], [b], [e], 0);
    ChainCons(data, p, h, b, e, ps, hs, bs, es);
  }

  /** What the reader finds in a written archive: the count, then the
      entries one after another from position 4. */
  lemma {:induction false} ArchiveAt(es: seq<Entry>) returns (ps: seq<nat>, hs: seq<nat>, bs: seq<nat>)
    requires AllWritable(es) && |es| < TWO_31
    ensures ReadInt32(ArchiveBytes(es), 0) == Some(Parsed(|es|, 4))
    ensures Chain(ArchiveBytes(es), ps, hs, bs, es) && ps[0] == 4
  {
    var data := ArchiveBytes(es);
    AtAppend(Int32Bytes(|es|), EntriesBytes(es));
    Int32RoundTrip(data, 0, |es|);
    ps, hs, bs := ChainAt(data, 4, es);
  }

  // --------------------------------------------------------- listing proof

  /** One turn of the listing loop over entry k of a chain. */
  lemma {:induction false} ListStep(data: seq<byte>, ps: seq<nat>, hs: seq<nat>, bs: seq<nat>, es: seq<Entry>, k: nat, n: int)
    requires Chain(data, ps, hs, bs, es) && k < |es| && n > 0
    ensures ListEntries(data, ps[k], n) ==
      if ListEntries(data, ps[k + 1], n - 1).Ok? then Ok([es[k].name] + ListEntries(data, ps[k + 1], n - 1).value)
      else ListEntries(data, ps[k + 1], n - 1)
  {
    assert Link(data, ps, hs, bs, es, k);
    assert ListEntries(data, ps[k], n) == ListTurn(data, ps[k], n);
  }

  /** Listing from entry k of a chain gives the names of entries k on. */
  lemma {:induction false} ListFrom(data: seq<byte>, ps: seq<nat>, hs: seq<nat>, bs: seq<nat>, es: seq<Entry>, k: nat)
    requires Chain(data, ps, hs, bs, es) && k <= |es|
    ensures ListEntries(data, ps[k], |es| - k) == Ok(Names(es[k..]))
    decreases |es| - k
  {
    if k < |es| {
      ListFrom(data, ps, hs, bs, es, k + 1);
      ListStep(data, ps, hs, bs, es, k, |es| - k);
      assert es[k..][1..] == es[k + 1..];
    }
  }

  /** Listing a written archive gives the written names in stored order. */
  lemma {:induction false} ListFilesRoundTrip(es: seq<Entry>)
    requires AllWritable(es) && |es| < TWO_31
    ensures ListFilesInArchive(ArchiveBytes(es)) == Ok(Names(es))
  {
    var ps, hs, bs := ArchiveAt(es);
    ListChain(ArchiveBytes(es), ps, hs, bs, es);
  }

  /** Listing an archive whose count is followed by a chain of entries. */
  lemma {:induction false} ListChain(data: seq<byte>, ps: seq<nat>, hs: seq<nat>, bs: seq<nat>, es: seq<Entry>)
    requires ReadInt32(data, 0) == Some(Parsed(|es|, 4)) && Chain(data, ps, hs, bs, es) && ps[0] == 4
    ensures ListFilesInArchive(data) == Ok(Names(es))
  {
    ListFrom(data, ps, hs, bs, es, 0);
    assert es[0..] == es;
  }

  // ------------------------------------------------------ decompress proof

  /** Some entry bars the user. */
  predicate AnyLocked(es: seq<Entry>, user: string) {
    exists k | 0 <= k < |es| :: Locked(es[k].password, user)
  }

  /** Some entry from k on bars the user: the scan's own view of `AnyLocked`. */
  predicate LockedFrom(es: seq<Entry>, k: nat, user: string)
    decreases |es| - k
  {
    k < |es| && (Locked(es[k].password, user) || LockedFrom(es, k + 1, user))
  }

  lemma {:induction false} LockedFromAny(es: seq<Entry>, k: nat, user: string)
    requires k <= |es|
    ensures LockedFrom(es, k, user) <==> exists j | k <= j < |es| :: Locked(es[j].password, user)
    decreases |es| - k
  {
    if k < |es| {
      LockedFromAny(es, k + 1, user);
      if !Locked(es[k].password, user) && exists j | k <= j < |es| :: Locked(es[j].password, user) {
        var j :| k <= j < |es| && Locked(es[j].password, user);
        assert k + 1 <= j;
      }
    }
  }

  /** One turn of the header loop of `DecompressArchive`, given what the
      reads return. */
  lemma {:induction false} ScanStep(data: seq<byte>, ps: seq<nat>, hs: seq<nat>, bs: seq<nat>, es: seq<Entry>, k: nat, user: string)
    requires Chain(data, ps, hs, bs, es) && k < |es|
    ensures ScanEntries(data, ps[k], |es| - k, user) ==
      if Locked(es[k].password, user) then Fail(WrongPassword)
      else if ScanEntries(data, ps[k + 1], |es| - (k + 1), user).Ok?
      then Ok([es[k]] + ScanEntries(data, ps[k + 1], |es| - (k + 1), user).value)
      else ScanEntries(data, ps[k + 1], |es| - (k + 1), user)
  {
    assert Link(data, ps, hs, bs, es, k);
    assert ScanEntries(data, ps[k], |es| - k, user) == ScanTurn(data, ps[k], |es| - k, user);
  }

  /** Scanning from entry k of a chain stops at the first barring entry
      and otherwise gives back entries k on. */
  lemma {:induction false} ScanFrom(data: seq<byte>, ps: seq<nat>, hs: seq<nat>, bs: seq<nat>, es: seq<Entry>, k: nat, user: string)
    requires Chain(data, ps, hs, bs, es) && k <= |es|
    ensures ScanEntries(data, ps[k], |es| - k, user) == ScanResult(es, k, user)
    decreases |es| - k
  {
    if k < |es| {
      ScanFrom(data, ps, hs, bs, es, k + 1, user);
      ScanLink(data, ps, hs, bs, es, k, user);
    } else {
      ScanEnd(data, ps[k], es, user);
    }
  }

  /** The scan with no entries left gives none back. */
  lemma {:induction false} ScanEnd(data: seq<byte>, p: nat, es: seq<Entry>, user: string)
    ensures ScanEntries(data, p, 0, user) == ScanResult(es, |es|, user)
  {
    assert es[|es|..] == [];
  }

  /** What the scan from entry k returns: `WrongPassword` if an entry from
      there on bars the user, otherwise those entries. */
  function ScanResult(es: seq<Entry>, k: nat, user: string): Outcome<seq<Entry>>
    requires k <= |es|
  {
    if LockedFrom(es, k, user) then Fail(WrongPassword) else Ok(es[k..])
  }

  lemma {:induction false} ScanLink(data: seq<byte>, ps: seq<nat>, hs: seq<nat>, bs: seq<nat>, es: seq<Entry>, k: nat, user: string)
    requires Chain(data, ps, hs, bs, es) && k < |es|
    requires ScanEntries(data, ps[k + 1], |es| - (k + 1), user) == ScanResult(es, k + 1, user)
    ensures ScanEntries(data, ps[k], |es| - k, user) == ScanResult(es, k, user)
  {
    ScanStep(data, ps, hs, bs, es, k, user);
    ScanCombine(es, k, user, ScanEntries(data, ps[k], |es| - k, user), ScanEntries(data, ps[k + 1], |es| - (k + 1), user));
  }

  /** The outcome of a scan from entry k, given that of the scan from k + 1. */
  lemma {:induction false} ScanCombine(es: seq<Entry>, k: nat, user: string, x: Outcome<seq<Entry>>, y: Outcome<seq<Entry>>)
    requires k < |es|
    requires y == ScanResult(es, k + 1, user)
    requires x == if Locked(es[k].password, user) then Fail(WrongPassword)
      else if y.Ok? then Ok([es[k]] + y.value) else y
    ensures x == ScanResult(es, k, user)
  {
    assert [es[k]] + es[k + 1..] == es[k..];
  }

  /** Decompressing a written archive: if any entry's password bars the
      user, nothing is decoded and the outcome is `WrongPassword`;
      otherwise every entry is decoded in stored order. */
  lemma {:induction false} DecompressRoundTrip(es: seq<Entry>, user: string, huffmanDecode: seq<byte> -> Option<seq<byte>>)
    requires AllWritable(es) && |es| < TWO_31
    ensures DecompressArchive(ArchiveBytes(es), user, huffmanDecode) ==
      if AnyLocked(es, user) then Fail(WrongPassword) else DecodeAll(es, huffmanDecode)
  {
    var ps, hs, bs := ArchiveAt(es);
    DecompressChain(ArchiveBytes(es), ps, hs, bs, es, user, huffmanDecode);
  }

  lemma {:induction false} DecompressChain(data: seq<byte>, ps: seq<nat>, hs: seq<nat>, bs: seq<nat>, es: seq<Entry>, user: string,
                        huffmanDecode: seq<byte> -> Option<seq<byte>>)
    requires ReadInt32(data, 0) == Some(Parsed(|es|, 4)) && Chain(data, ps, hs, bs, es) && ps[0] == 4
    ensures DecompressArchive(data, user, huffmanDecode) ==
      if AnyLocked(es, user) then Fail(WrongPassword) else DecodeAll(es, huffmanDecode)
  {
    ScanFrom(data, ps, hs, bs, es, 0, user);
    assert es[0..] == es;
    LockedFromAny(es, 0, user);
  }

  /** The password gate comes before any decoding: a `WrongPassword`
      outcome does not depend on the decoders at all. */
  lemma {:induction false} GateBeforeDecoding(archive: seq<byte>, user: string, d1: seq<byte> -> Option<seq<byte>>, d2: seq<byte> -> Option<seq<byte>>)
    ensures DecompressArchive(archive, user, d1) == Fail(WrongPassword) <==>
            DecompressArchive(archive, user, d2) == Fail(WrongPassword)
  {
  }

  /** Decoding succeeds with the given outputs when every entry decodes to
      its output's contents. */
  lemma {:induction false} DecodeAllOk(es: seq<Entry>, huffmanDecode: seq<byte> -> Option<seq<byte>>, outs: seq<Output>)
    requires |outs| == |es|
    requires forall k | 0 <= k < |es| ::
      outs[k].name == es[k].name && DecodeEntry(es[k].algorithm, es[k].data, huffmanDecode) == Ok(outs[k].content)
    ensures DecodeAll(es, huffmanDecode) == Ok(outs)
  {
    if |es| > 0 {
      DecodeAllOk(es[1..], huffmanDecode, outs[1..]);
      assert outs == [Output(es[0].name, outs[0].content)] + outs[1..];
    }
  }

  // --------------------------------------------------------- extract proof

  /** One turn of the loop of `ExtractSingleFile`, given what the reads
      return. */
  lemma {:induction false} ExtractStep(data: seq<byte>, ps: seq<nat>, hs: seq<nat>, bs: seq<nat>, es: seq<Entry>, k: nat, n: int,
                    target: string, user: string, huffmanDecode: seq<byte> -> Option<seq<byte>>)
    requires Chain(data, ps, hs, bs, es) && k < |es| && n > 0
    ensures ExtractEntries(data, ps[k], n, target, user, huffmanDecode) ==
      if Locked(es[k].password, user) then Fail(WrongPassword)
      else if es[k].name == target then DecodeEntry(es[k].algorithm, es[k].data, huffmanDecode)
      else ExtractEntries(data, ps[k + 1], n - 1, target, user, huffmanDecode)
  {
    assert Link(data, ps, hs, bs, es, k);
    assert ExtractEntries(data, ps[k], n, target, user, huffmanDecode) == ExtractTurn(data, ps[k], n, target, user, huffmanDecode);
  }

  /** Extraction from entry k of a chain behaves as the reference on
      entries k on. */
  lemma {:induction false} ExtractAt(data: seq<byte>, ps: seq<nat>, hs: seq<nat>, bs: seq<nat>, es: seq<Entry>, k: nat,
                                       target: string, user: string, huffmanDecode: seq<byte> -> Option<seq<byte>>)
    requires Chain(data, ps, hs, bs, es) && k <= |es|
    ensures ExtractEntries(data, ps[k], |es| - k, target, user, huffmanDecode) ==
      ExtractFrom(es[k..], target, user, huffmanDecode)
    decreases |es| - k
  {
    if k < |es| {
      ExtractAt(data, ps, hs, bs, es, k + 1, target, user, huffmanDecode);
      ExtractStep(data, ps, hs, bs, es, k, |es| - k, target, user, huffmanDecode);
      assert es[k..][1..] == es[k + 1..];
    }
  }

  /** Extracting from a written archive behaves as the entry-level
      reference `ExtractFrom`. */
  lemma {:induction false} ExtractWritten(es: seq<Entry>, target: string, user: string, huffmanDecode: seq<byte> -> Option<seq<byte>>)
    requires AllWritable(es) && |es| < TWO_31
    ensures ExtractSingleFile(ArchiveBytes(es), target, user, huffmanDecode) == ExtractFrom(es, target, user, huffmanDecode)
  {
    var ps, hs, bs := ArchiveAt(es);
    ExtractChain(ArchiveBytes(es), ps, hs, bs, es, target, user, huffmanDecode);
  }

  lemma {:induction false} ExtractChain(data: seq<byte>, ps: seq<nat>, hs: seq<nat>, bs: seq<nat>, es: seq<Entry>,
                     target: string, user: string, huffmanDecode: seq<byte> -> Option<seq<byte>>)
    requires ReadInt32(data, 0) == Some(Parsed(|es|, 4)) && Chain(data, ps, hs, bs, es) && ps[0] == 4
    ensures ExtractSingleFile(data, target, user, huffmanDecode) == ExtractFrom(es, target, user, huffmanDecode)
  {
    ExtractAt(data, ps, hs, bs, es, 0, target, user, huffmanDecode);
    assert es[0..] == es;
  }

  /** Entries before k neither match nor bar the user. */
  predicate PassedOver(es: seq<Entry>, k: nat, target: string, user: string)
    requires k <= |es|
  {
    forall j | 0 <= j < k :: es[j].name != target && !Locked(es[j].password, user)
  }

  /** The first entry that matches and does not bar the user, with no
      barring entry before it, is the one decoded; later entries with the
      same name are never looked at. */
  lemma {:induction false} ExtractFinds(es: seq<Entry>, k: nat, target: string, user: string,
                                        huffmanDecode: seq<byte> -> Option<seq<byte>>)
    requires k < |es| && PassedOver(es, k, target, user)
    requires es[k].name == target && !Locked(es[k].password, user)
    ensures ExtractFrom(es, target, user, huffmanDecode) == DecodeEntry(es[k].algorithm, es[k].data, huffmanDecode)
  {
    if k > 0 {
      assert es[0].name != target && !Locked(es[0].password, user);
      ExtractFinds(es[1..], k - 1, target, user, huffmanDecode);
    }
  }

  /** A barring entry reached before any match stops the scan with
      `WrongPassword`, whether or not it is the one asked for. */
  lemma {:induction false} ExtractRefuses(es: seq<Entry>, k: nat, target: string, user: string,
                                          huffmanDecode: seq<byte> -> Option<seq<byte>>)
    requires k < |es| && PassedOver(es, k, target, user) && Locked(es[k].password, user)
    ensures ExtractFrom(es, target, user, huffmanDecode) == Fail(WrongPassword)
  {
    if k > 0 {
      assert es[0].name != target && !Locked(es[0].password, user);
      ExtractRefuses(es[1..], k - 1, target, user, huffmanDecode);
    }
  }

  /** A full scan with no match and no barring entry ends in `NotFound`. */
  lemma {:induction false} ExtractMissing(es: seq<Entry>, target: string, user: string,
                                          huffmanDecode: seq<byte> -> Option<seq<byte>>)
    requires PassedOver(es, |es|, target, user)
    ensures ExtractFrom(es, target, user, huffmanDecode) == Fail(NotFound)
  {
    if |es| > 0 {
      assert es[0].name != target && !Locked(es[0].password, user);
      ExtractMissing(es[1..], target, user, huffmanDecode);
    }
  }

  // -------------------------------------------------------- compress proof

  /** The archive fails to be written exactly when some input path is
      missing, there are inputs and the algorithm is neither of the two
      codecs, or the Huffman compressor fails on one of the inputs; `Error`
      is set in exactly those cases, and the result always names the output
      file and the algorithm. */
  lemma {:induction false} CompressFails(paths: seq<string>, algorithm: string, outputPath: string, password: string,
                      files: map<string, seq<byte>>, fileName: string -> string,
                      huffmanCompress: seq<byte> -> Option<seq<byte>>, order: seq<string>)
    requires multiset(order) == multiset(paths)
    ensures var w := CompressToArchive(paths, algorithm, outputPath, password, files, fileName, huffmanCompress, order);
      && (w.archive.None? <==>
            || (exists k | 0 <= k < |paths| :: paths[k] !in files)
            || (|paths| > 0 && !Supported(algorithm))
            || (exists k | 0 <= k < |paths| :: paths[k] in files && !Compresses(algorithm, files[paths[k]], huffmanCompress)))
      && (w.result.error.Some? <==> w.archive.None?)
      && w.result.fileName == fileName(outputPath) && w.result.algorithmUsed == algorithm
  {
    assert |order| == |paths| by {
      assert |multiset(order)| == |multiset(paths)|;
    }
    forall p
      ensures p in order <==> p in paths
    {
      assert p in order <==> p in multiset(order);
      assert p in paths <==> p in multiset(paths);
    }
    if exists k | 0 <= k < |paths| :: paths[k] !in files {
      var k :| 0 <= k < |paths| && paths[k] !in files;
      assert paths[k] in order;
    }
    if exists k | 0 <= k < |order| :: order[k] !in files {
      var k :| 0 <= k < |order| && order[k] !in files;
      assert order[k] in paths;
    }
  }

  /** The entries a successful write stores: one per path, in processing
      order, with the file's name, the common password and algorithm, and
      the file compressed by that algorithm. */
  function Stored(order: seq<string>, algorithm: string, password: string, files: map<string, seq<byte>>,
                  fileName: string -> string, huffmanCompress: seq<byte> -> Option<seq<byte>>): seq<Entry>
    requires forall k | 0 <= k < |order| :: order[k] in files && Compresses(algorithm, files[order[k]], huffmanCompress)
  {
    seq(|order|, k requires 0 <= k < |order| =>
      Entry(fileName(order[k]), password, algorithm, CompressFile(algorithm, files[order[k]], huffmanCompress).value))
  }

  /** A successful write stores one entry per input path, in processing
      order (so, as a multiset, exactly the inputs), each with the file's
      name, the common password and algorithm, and the file compressed by
      that algorithm; the result records the input and archive sizes. */
  lemma {:induction false} CompressEntries(paths: seq<string>, algorithm: string, outputPath: string, password: string,
                        files: map<string, seq<byte>>, fileName: string -> string,
                        huffmanCompress: seq<byte> -> Option<seq<byte>>, order: seq<string>)
    requires multiset(order) == multiset(paths)
    ensures var w := CompressToArchive(paths, algorithm, outputPath, password, files, fileName, huffmanCompress, order);
      w.archive.Some? ==>
        && (forall k | 0 <= k < |order| :: order[k] in files && Compresses(algorithm, files[order[k]], huffmanCompress))
        && (Supported(algorithm) || |paths| == 0)
        && var es := Stored(order, algorithm, password, files, fileName, huffmanCompress);
           && w.archive.value == ArchiveBytes(es)
           && w.result == CompressionResult(fileName(outputPath), algorithm, TotalSize(paths, files), |ArchiveBytes(es)|, None)
  {
    var r := Collect(order, algorithm, password, files, fileName, huffmanCompress);
    if r.Ok? {
      assert |order| == |paths| by {
        assert |multiset(order)| == |multiset(paths)|;
      }
      CollectStored(order, algorithm, password, files, fileName, huffmanCompress);
    }
  }

  /** A collection that succeeds gives the stored entries. */
  lemma {:induction false} CollectStored(order: seq<string>, algorithm: string, password: string, files: map<string, seq<byte>>,
                                         fileName: string -> string, huffmanCompress: seq<byte> -> Option<seq<byte>>)
    requires Collect(order, algorithm, password, files, fileName, huffmanCompress).Ok?
    ensures forall k | 0 <= k < |order| :: order[k] in files && Compresses(algorithm, files[order[k]], huffmanCompress)
    ensures Collect(order, algorithm, password, files, fileName, huffmanCompress).value
         == Stored(order, algorithm, password, files, fileName, huffmanCompress)
    decreases |order|
  {
    CollectedFiles(order, algorithm, password, files, fileName, huffmanCompress);
    if |order| > 0 {
      CollectStored(order[1..], algorithm, password, files, fileName, huffmanCompress);
      StoredCons(order, algorithm, password, files, fileName, huffmanCompress);
    }
  }

  lemma {:induction false} CollectedFiles(order: seq<string>, algorithm: string, password: string, files: map<string, seq<byte>>,
                                          fileName: string -> string, huffmanCompress: seq<byte> -> Option<seq<byte>>)
    requires Collect(order, algorithm, password, files, fileName, huffmanCompress).Ok?
    ensures forall k | 0 <= k < |order| :: order[k] in files && Compresses(algorithm, files[order[k]], huffmanCompress)
    ensures |order| == 0 || Supported(algorithm)
  {
    forall k | 0 <= k < |order| ensures order[k] in files && Compresses(algorithm, files[order[k]], huffmanCompress) {
      assert order[k] in order;
    }
  }

  lemma {:induction false} StoredCons(order: seq<string>, algorithm: string, password: string, files: map<string, seq<byte>>,
                                      fileName: string -> string, huffmanCompress: seq<byte> -> Option<seq<byte>>)
    requires |order| > 0 && forall k | 0 <= k < |order| :: order[k] in files && Compresses(algorithm, files[order[k]], huffmanCompress)
    ensures Stored(order, algorithm, password, files, fileName, huffmanCompress)
         == [Entry(fileName(order[0]), password, algorithm, CompressFile(algorithm, files[order[0]], huffmanCompress).value)]
            + Stored(order[1..], algorithm, password, files, fileName, huffmanCompress)
  {
    var all := Stored(order, algorithm, password, files, fileName, huffmanCompress);
    var rest := Stored(order[1..], algorithm, password, files, fileName, huffmanCompress);
    forall k | 0 <= k < |rest| ensures all[k + 1] == rest[k] {
      assert order[1..][k] == order[k + 1];
    }
    assert all == [all[0]] + rest;
  }

  /** Archiving with Shannon-Fano and decompressing as a user the password
      admits gives every input file back, under its file name, in the order
      the files were collected: the empty buffer and every buffer holding two
      different bytes survive the whole trip. */
  lemma {:induction false} ShannonFanoArchiveRoundTrip(paths: seq<string>, outputPath: string, password: string,
                                                       files: map<string, seq<byte>>, fileName: string -> string,
                                                       huffmanCompress: seq<byte> -> Option<seq<byte>>, order: seq<string>,
                                                       user: string, huffmanDecode: seq<byte> -> Option<seq<byte>>)
    requires multiset(order) == multiset(paths) && |paths| < TWO_31
    requires forall p | p in paths ::
      && p in files
      && (|files[p]| == 0 || TwoSymbols(files[p]))
      && |ShannonFano.EncodedBits(files[p])| + 7 < TWO_31
      && Writable(Entry(fileName(p), password, SHANNON_FANO, ShannonFano.CompressBytes(files[p])))
    requires !Locked(password, user)
    ensures var w := CompressToArchive(paths, SHANNON_FANO, outputPath, password, files, fileName, huffmanCompress, order);
      && w.archive.Some?
      && DecompressArchive(w.archive.value, user, huffmanDecode)
         == Ok(seq(|order|, k requires 0 <= k < |order| => Output(fileName(order[k]), files[order[k]])))
  {
    forall p | p in paths
      ensures ArchivedBack(p, SHANNON_FANO, password, files, fileName, huffmanCompress, huffmanDecode)
    {
      ShannonFano.RoundTrip(files[p]);
    }
    LosslessArchiveRoundTrip(paths, SHANNON_FANO, outputPath, password, files, fileName, huffmanCompress, order, user, huffmanDecode);
  }

  /** Path p is present, its file compresses, the entry written for it is
      writable and its payload decodes back to the file. */
  predicate ArchivedBack(p: string, algorithm: string, password: string, files: map<string, seq<byte>>,
                         fileName: string -> string, huffmanCompress: seq<byte> -> Option<seq<byte>>,
                         huffmanDecode: seq<byte> -> Option<seq<byte>>) {
    && p in files
    && Compresses(algorithm, files[p], huffmanCompress)
    && var c := CompressFile(algorithm, files[p], huffmanCompress).value;
       && Writable(Entry(fileName(p), password, algorithm, c))
       && DecodeEntry(algorithm, c, huffmanDecode) == Ok(files[p])
  }

  /** With a codec that gives every input file back, decompressing the
      written archive as a user the password admits gives every file back
      under its file name, in the order the files were collected. */
  lemma {:induction false} LosslessArchiveRoundTrip(paths: seq<string>, algorithm: string, outputPath: string, password: string,
                                                    files: map<string, seq<byte>>, fileName: string -> string,
                                                    huffmanCompress: seq<byte> -> Option<seq<byte>>, order: seq<string>,
                                                    user: string, huffmanDecode: seq<byte> -> Option<seq<byte>>)
    requires multiset(order) == multiset(paths) && |paths| < TWO_31
    requires forall p | p in paths :: ArchivedBack(p, algorithm, password, files, fileName, huffmanCompress, huffmanDecode)
    requires !Locked(password, user)
    ensures var w := CompressToArchive(paths, algorithm, outputPath, password, files, fileName, huffmanCompress, order);
      && w.archive.Some?
      && DecompressArchive(w.archive.value, user, huffmanDecode)
         == Ok(seq(|order|, k requires 0 <= k < |order| => Output(fileName(order[k]), files[order[k]])))
  {
    SamePaths(paths, order);
    assert forall k | 0 <= k < |order| :: ArchivedBack(order[k], algorithm, password, files, fileName, huffmanCompress, huffmanDecode);
    ArchiveWritten(paths, algorithm, outputPath, password, files, fileName, huffmanCompress, order);
    var es := Stored(order, algorithm, password, files, fileName, huffmanCompress);
    StoredDecodes(order, algorithm, password, files, fileName, huffmanCompress, huffmanDecode);
    assert !AnyLocked(es, user);
    DecompressRoundTrip(es, user, huffmanDecode);
  }

  /** When every input is present and compresses, the archive written is
      that of the stored entries. */
  lemma {:induction false} ArchiveWritten(paths: seq<string>, algorithm: string, outputPath: string, password: string,
                                          files: map<string, seq<byte>>, fileName: string -> string,
                                          huffmanCompress: seq<byte> -> Option<seq<byte>>, order: seq<string>)
    requires multiset(order) == multiset(paths)
    requires forall k | 0 <= k < |order| :: order[k] in files && Compresses(algorithm, files[order[k]], huffmanCompress)
    ensures CompressToArchive(paths, algorithm, outputPath, password, files, fileName, huffmanCompress, order).archive
         == Some(ArchiveBytes(Stored(order, algorithm, password, files, fileName, huffmanCompress)))
  {
    assert Collect(order, algorithm, password, files, fileName, huffmanCompress).Ok? by {
      forall p | p in order ensures p in files && Compresses(algorithm, files[p], huffmanCompress) {
        var k :| 0 <= k < |order| && order[k] == p;
      }
    }
    CollectStored(order, algorithm, password, files, fileName, huffmanCompress);
  }

  /** The stored entries of files that all come back are writable, carry
      the paths' file names, and decode to the files. */
  lemma {:induction false} StoredDecodes(order: seq<string>, algorithm: string, password: string, files: map<string, seq<byte>>,
                                         fileName: string -> string, huffmanCompress: seq<byte> -> Option<seq<byte>>,
                                         huffmanDecode: seq<byte> -> Option<seq<byte>>)
    requires forall k | 0 <= k < |order| :: ArchivedBack(order[k], algorithm, password, files, fileName, huffmanCompress, huffmanDecode)
    ensures forall k | 0 <= k < |order| :: order[k] in files && Compresses(algorithm, files[order[k]], huffmanCompress)
    ensures var es := Stored(order, algorithm, password, files, fileName, huffmanCompress);
      && AllWritable(es)
      && (forall k | 0 <= k < |es| :: es[k].password == password)
      && DecodeAll(es, huffmanDecode) == Ok(seq(|order|, k requires 0 <= k < |order| => Output(fileName(order[k]), files[order[k]])))
  {
    var es := Stored(order, algorithm, password, files, fileName, huffmanCompress);
    var outs := seq(|order|, k requires 0 <= k < |order| => Output(fileName(order[k]), files[order[k]]));
    DecodeAllOk(es, huffmanDecode, outs);
  }

  /** The converse: once the password bars the user, a written archive with
      at least one file gives nothing back, whatever the algorithm. */
  lemma {:induction false} LockedArchiveRefused(paths: seq<string>, algorithm: string, outputPath: string, password: string,
                                                files: map<string, seq<byte>>, fileName: string -> string,
                                                huffmanCompress: seq<byte> -> Option<seq<byte>>, order: seq<string>,
                                                user: string, huffmanDecode: seq<byte> -> Option<seq<byte>>)
    requires multiset(order) == multiset(paths) && 0 < |paths| < TWO_31
    requires forall p | p in paths ::
      && p in files
      && Compresses(algorithm, files[p], huffmanCompress)
      && Writable(Entry(fileName(p), password, algorithm, CompressFile(algorithm, files[p], huffmanCompress).value))
    requires Locked(password, user)
    ensures var w := CompressToArchive(paths, algorithm, outputPath, password, files, fileName, huffmanCompress, order);
      && w.archive.Some?
      && DecompressArchive(w.archive.value, user, huffmanDecode) == Fail(WrongPassword)
  {
    SamePaths(paths, order);
    CompressFails(paths, algorithm, outputPath, password, files, fileName, huffmanCompress, order);
    CompressEntries(paths, algorithm, outputPath, password, files, fileName, huffmanCompress, order);
    var es := Stored(order, algorithm, password, files, fileName, huffmanCompress);
    assert AllWritable(es) && Locked(es[0].password, user);
    DecompressRoundTrip(es, user, huffmanDecode);
  }

  /** Two path lists with the same multiset have the same length and the
      same members. */
  lemma {:induction false} SamePaths(paths: seq<string>, order: seq<string>)
    requires multiset(order) == multiset(paths)
    ensures |order| == |paths|
    ensures forall p :: p in order <==> p in paths
  {
    assert |multiset(order)| == |multiset(paths)|;
    forall p ensures p in order <==> p in paths {
      assert p in order <==> p in multiset(order);
      assert p in paths <==> p in multiset(paths);
    }
  }

  /** The single-symbol loss of the Shannon-Fano codec, end to end: a file
      holding one repeated byte, archived with Shannon-Fano and extracted by
      a user its password admits, comes back empty. */
  lemma {:induction false} SingleSymbolFileLost(path: string, outputPath: string, password: string,
                                                files: map<string, seq<byte>>, fileName: string -> string,
                                                huffmanCompress: seq<byte> -> Option<seq<byte>>,
                                                user: string, huffmanDecode: seq<byte> -> Option<seq<byte>>)
    requires path in files && |files[path]| > 0 && !TwoSymbols(files[path])
    requires Writable(Entry(fileName(path), password, SHANNON_FANO, ShannonFano.CompressBytes(files[path])))
    requires !Locked(password, user)
    ensures var w := CompressToArchive([path], SHANNON_FANO, outputPath, password, files, fileName, huffmanCompress, [path]);
      && w.archive.Some?
      && DecompressArchive(w.archive.value, user, huffmanDecode) == Ok([Output(fileName(path), [])])
  {
    var e := Entry(fileName(path), password, SHANNON_FANO, ShannonFano.CompressBytes(files[path]));
    CollectOne(path, SHANNON_FANO, password, files, fileName, huffmanCompress);
    ShannonFano.SingleSymbolDecodesEmpty(files[path]);
    OneEntryDecodes(e, user, huffmanDecode, []);
  }

  /** Collecting a single present path with a supported algorithm. */
  lemma {:induction false} CollectOne(path: string, algorithm: string, password: string, files: map<string, seq<byte>>,
                                      fileName: string -> string, huffmanCompress: seq<byte> -> Option<seq<byte>>)
    requires path in files && Compresses(algorithm, files[path], huffmanCompress)
    ensures Collect([path], algorithm, password, files, fileName, huffmanCompress)
         == Ok([Entry(fileName(path), password, algorithm, CompressFile(algorithm, files[path], huffmanCompress).value)])
  {
    var c := CompressFile(algorithm, files[path], huffmanCompress);
    assert c.Ok?;
    assert [path][1..] == [];
    assert Collect([path][1..], algorithm, password, files, fileName, huffmanCompress) == Ok([]);
    assert [Entry(fileName(path), password, algorithm, c.value)] + [] == [Entry(fileName(path), password, algorithm, c.value)];
  }

  /** A one-entry archive whose entry the user may open and that decodes to
      `c` extracts to that one file. */
  lemma {:induction false} OneEntryDecodes(e: Entry, user: string, huffmanDecode: seq<byte> -> Option<seq<byte>>, c: seq<byte>)
    requires Writable(e) && !Locked(e.password, user)
    requires DecodeEntry(e.algorithm, e.data, huffmanDecode) == Ok(c)
    ensures DecompressArchive(ArchiveBytes([e]), user, huffmanDecode) == Ok([Output(e.name, c)])
  {
    assert AllWritable([e]) && !AnyLocked([e], user);
    DecompressRoundTrip([e], user, huffmanDecode);
    OneEntryDecodeAll(e, huffmanDecode, c);
  }

  lemma {:induction false} OneEntryDecodeAll(e: Entry, huffmanDecode: seq<byte> -> Option<seq<byte>>, c: seq<byte>)
    requires DecodeEntry(e.algorithm, e.data, huffmanDecode) == Ok(c)
    ensures DecodeAll([e], huffmanDecode) == Ok([Output(e.name, c)])
  {
    DecodeAllOk([e], huffmanDecode, [Output(e.name, c)]);
  }
}
