/**
 The direct sender-to-receiver channel.  The sender gzips the file, hashes
 the compressed bytes with SHA-256, writes the 64-character hex digest and
 then the compressed bytes in reads of at most 1024 bytes.  The receiver
 takes the first 64 bytes as the expected digest, stores the rest as
 `<name>.gz`, hashes what it stored, and decompresses only on a match.

 SHA-256 (FIPS 180-4) and gzip (RFC 1952) are foreign library code; they
 enter the model as the fields of a `Codec` value, so every property below
 holds for whatever digest and compressor are plugged in.
 */
module Transfer {
  import opened Options
  import opened Text
  import opened Names
  import opened Utf8

  /** Bytes per `f.read(...)` and per `reader.read(...)` of the payload. */
  const ChunkSize: nat := 1024

  /** Length of `hexdigest()` for SHA-256 and of the receiver's first read. */
  const DigestLength: nat := 64

  predicate IsLowerHex(c: char) {
    '0' <= c <= '9' || 'a' <= c <= 'f'
  }

  /** What `hashlib.sha256().hexdigest()` returns: 64 lower-case hex digits. */
  type HexDigest = s: string | |s| == DigestLength && forall i :: 0 <= i < |s| ==> IsLowerHex(s[i])
    witness seq(DigestLength, i => '0')

  /** The foreign collaborators: the digest of a whole byte string, gzip
      compression, and gzip decompression, which fails on a malformed
      archive. */
  datatype Codec = Codec(
    digest: seq<Byte> -> HexDigest,
    compress: seq<Byte> -> seq<Byte>,
    decompress: seq<Byte> -> Option<seq<Byte>>)

  /** gzip's round-trip law, assumed only where a lemma says so. */
  ghost predicate Lossless(c: Codec) {
    forall x :: c.decompress(c.compress(x)) == Some(x)
  }

  function Min(a: int, b: int): int {
    if a <= b then a else b
  }

  // ----------------------------------------------------------- chunking

  /** The successive results of `f.read(1024)` on a file holding `data`,
      up to (not including) the empty read that ends the loop. */
  function Chunks(data: seq<Byte>): (cs: seq<seq<Byte>>)
    ensures Concat(cs) == data
    ensures forall i :: 0 <= i < |cs| ==> 0 < |cs[i]| <= ChunkSize
    ensures forall i :: 0 <= i < |cs| - 1 ==> |cs[i]| == ChunkSize
    decreases |data|
  {
    if data == [] then []
    else if |data| <= ChunkSize then [data]
    else [data[..ChunkSize]] + Chunks(data[ChunkSize..])
  }

  /** There are ceil(n / 1024) reads before the empty one. */
  lemma {:induction false} ChunkCount(data: seq<Byte>)
    ensures |Chunks(data)| == (|data| + ChunkSize - 1) / ChunkSize
    decreases |data|
  {
    if |data| > ChunkSize {
      ChunkCount(data[ChunkSize..]);
      assert |data| + ChunkSize - 1 == (|data[ChunkSize..]| + ChunkSize - 1) + ChunkSize;
    }
  }

  /** One more read at offset `pos` peels the next chunk off the rest. */
  lemma ChunksStep(data: seq<Byte>, pos: nat)
    requires pos < |data|
    ensures Chunks(data[pos..]) == [data[pos..Min(pos + ChunkSize, |data|)]]
                                   + Chunks(data[Min(pos + ChunkSize, |data|)..])
  {
    var rest := data[pos..];
    var next := Min(pos + ChunkSize, |data|);
    if |rest| <= ChunkSize {
      assert data[next..] == [];
      assert rest == data[pos..next];
    } else {
      assert rest[..ChunkSize] == data[pos..next];
      assert rest[ChunkSize..] == data[next..];
    }
  }

  /** `compute_hash`: feeds the file to the digest one read at a time.
      Incremental hashing is taken to equal hashing the concatenation of
      what was fed, so the result is the digest of every byte exactly once. */
  method ComputeHash(c: Codec, file: seq<Byte>) returns (h: HexDigest)
    ensures h == c.digest(file)
  {
    var fed: seq<Byte> := [];
    var pos := 0;
    while pos < |file|
      invariant 0 <= pos <= |file|
      invariant fed == file[..pos]
    {
      var chunk := file[pos..Min(pos + ChunkSize, |file|)];
      fed := fed + chunk;
      pos := pos + |chunk|;
    }
    assert file[..pos] == file;
    h := c.digest(fed);
  }

  // ------------------------------------------------------------ framing

  /** `file_hash.encode()`: hex digits are ASCII, one byte each. */
  function EncodeHex(h: HexDigest): (bs: seq<Byte>)
    ensures |bs| == DigestLength
    ensures forall i :: 0 <= i < DigestLength ==> bs[i] == h[i] as int
  {
    seq(DigestLength, i requires 0 <= i < DigestLength => HexByte(h, i))
  }

  function HexByte(h: HexDigest, i: nat): Byte
    requires i < DigestLength
  {
    assert IsLowerHex(h[i]);
    h[i] as int
  }

  /** The receiver reads back exactly the digest the sender encoded. */
  lemma DecodeEncodeHex(h: HexDigest)
    ensures Decode(EncodeHex(h)) == Some(h)
  {
    var bs := EncodeHex(h);
    forall i | 0 <= i < |bs| ensures bs[i] < 0x80 {
      assert IsLowerHex(h[i]);
    }
    var s := Chars(bs);
    forall i | 0 <= i < |h| ensures s[i] == h[i] {
      assert s[i] as int == h[i] as int;
    }
    assert s == h;
  }

  /** A header that decodes to anything but ASCII cannot be a hex digest. */
  lemma NonAsciiIsNoDigest(header: seq<Byte>, h: HexDigest)
    requires Decode(header).Some?
    requires exists i :: 0 <= i < |header| && header[i] >= 0x80
    ensures Decode(header).value != h
  {
    var i :| 0 <= i < |header| && header[i] >= 0x80;
    forall k | 0 <= k < |h| ensures h[k] as int < 0x80 {
      assert IsLowerHex(h[k]);
    }
  }

  /** The byte stream `send_file` puts on the connection: digest, then payload. */
  function Wire(h: HexDigest, payload: seq<Byte>): (w: seq<Byte>)
    ensures |w| == DigestLength + |payload|
    ensures w[..DigestLength] == EncodeHex(h)
    ensures w[DigestLength..] == payload
  {
    EncodeHex(h) + payload
  }

  /** The stream a sender produces for `file`: the digest is taken over the
      compressed bytes, which are also what is sent. */
  function SendStream(c: Codec, file: seq<Byte>): (w: seq<Byte>)
    ensures |w| == DigestLength + |c.compress(file)|
    ensures w[DigestLength..] == c.compress(file)
    ensures w[..DigestLength] == EncodeHex(c.digest(w[DigestLength..]))
  {
    var payload := c.compress(file);
    Wire(c.digest(payload), payload)
  }

  /** `send_file`: one write for the digest, then one write per read of the
      compressed file.  `writes` lists the byte strings handed to
      `writer.write`, in order. */
  method SendFile(c: Codec, file: seq<Byte>) returns (writes: seq<seq<Byte>>)
    ensures |writes| >= 1 && writes[0] == EncodeHex(c.digest(c.compress(file)))
    ensures writes[1..] == Chunks(c.compress(file))
    ensures Concat(writes) == SendStream(c, file)
  {
    var payload := c.compress(file);
    var h := ComputeHash(c, payload);
    writes := [EncodeHex(h)];
    var pos := 0;
    while pos < |payload|
      invariant 0 <= pos <= |payload|
      invariant writes + Chunks(payload[pos..]) == [EncodeHex(h)] + Chunks(payload)
    {
      var next := Min(pos + ChunkSize, |payload|);
      ChunksStep(payload, pos);
      var piece := payload[pos..next];
      Assoc(writes, [piece], Chunks(payload[next..]));
      writes := writes + [piece];
      pos := next;
    }
    assert payload[pos..] == [];
    assert writes == [EncodeHex(h)] + Chunks(payload);
    assert Concat(writes) == EncodeHex(h) + Concat(Chunks(payload));
  }

  /** The receiver's split of the stream: the first read of 64 bytes, and
      everything after it.  Each read is taken to return as many bytes as
      asked for while the stream lasts. */
  datatype Frame = Frame(header: seq<Byte>, payload: seq<Byte>)

  function SplitStream(stream: seq<Byte>): (f: Frame)
    ensures f.header + f.payload == stream
    ensures |f.header| == Min(DigestLength, |stream|)
  {
    var k := Min(DigestLength, |stream|);
    Frame(stream[..k], stream[k..])
  }

  /** Framing round trip: splitting what the sender wrote gives back the
      encoded digest and the payload exactly. */
  lemma {:induction false} SplitWire(h: HexDigest, payload: seq<Byte>)
    ensures SplitStream(Wire(h, payload)) == Frame(EncodeHex(h), payload)
  {
    var w := Wire(h, payload);
    assert w[..DigestLength] == EncodeHex(h);
  }

  /** Reads `data` 1024 bytes at a time; `writes` lists the reads in order. */
  method ReadChunks(data: seq<Byte>) returns (writes: seq<seq<Byte>>)
    ensures writes == Chunks(data)
  {
    writes := [];
    var pos := 0;
    while pos < |data|
      invariant 0 <= pos <= |data|
      invariant writes + Chunks(data[pos..]) == Chunks(data)
    {
      var next := Min(pos + ChunkSize, |data|);
      ChunksStep(data, pos);
      var piece := data[pos..next];
      Assoc(writes, [piece], Chunks(data[next..]));
      writes := writes + [piece];
      pos := next;
    }
    assert data[pos..] == [];
  }

  /** The receive loop of `receive_file`: every later read is appended to
      the `.gz` file.  `writes` lists the reads in order. */
  method ReceivePayload(stream: seq<Byte>) returns (writes: seq<seq<Byte>>)
    ensures writes == Chunks(SplitStream(stream).payload)
    ensures Concat(writes) == SplitStream(stream).payload
  {
    writes := ReadChunks(SplitStream(stream).payload);
  }

  // ------------------------------------------------------------ receiving

  datatype Report =
    | Verified(digest: HexDigest)                         // hashes equal, file restored
    | HashMismatch(expected: string, received: HexDigest) // "Hash mismatch!", both printed
    | UndecodableHash                                     // the digest frame did not decode
    | CorruptArchive                                      // hashes equal, gzip refused the bytes
    | EmptyRestoreName                                    // hashes equal, `open("")` raised

  /** The files the receiver leaves behind, by name, and what it reports. */
  datatype Received = Received(files: map<string, seq<Byte>>, report: Report)

  /** `receive_file(name, ...)` over a connection that delivers `stream`. */
  function Receive(c: Codec, name: string, stream: seq<Byte>): (r: Received)
    ensures r.files.Keys <= {CompressedName(name), DecompressedName(CompressedName(name))}
    ensures r.report.UndecodableHash? <==> r.files == map[]
    ensures !r.report.UndecodableHash? ==> && CompressedName(name) in r.files
                                           && r.files[CompressedName(name)] == SplitStream(stream).payload
    ensures r.report.Verified? <==> DecompressedName(CompressedName(name)) in r.files
    ensures r.report.Verified? ==> DecompressedName(CompressedName(name)) != ""
    ensures r.report.UndecodableHash? <==> Decode(SplitStream(stream).header).None?
    ensures var f := SplitStream(stream);
            var e := Decode(f.header);
            e.Some? && e.value != c.digest(f.payload)
            ==> r.report == HashMismatch(e.value, c.digest(f.payload))
  {
    var f := SplitStream(stream);
    match Decode(f.header)
    case None => Received(map[], UndecodableHash)
    case Some(expected) =>
      var gz := CompressedName(name);
      DecompressedNameDiffers(name);
      var stored := map[gz := f.payload];
      var actual := c.digest(stored[gz]);
      if actual == expected then
        // `decompress_file` opens its output before reading the archive
        if DecompressedName(gz) == "" then Received(stored, EmptyRestoreName)
        else match c.decompress(stored[gz])
        case None => Received(stored, CorruptArchive)
        case Some(plain) =>
          Received(stored[DecompressedName(gz) := plain], Verified(actual))
      else Received(stored, HashMismatch(expected, actual))
  }

  // ---------------------------------------------------------------- lemmas

  /** Decompression happens exactly when the decoded header equals the
      digest of the stored payload, the restored name is not empty, and
      gzip accepts the payload; the restored file is then the decompression
      of the stored `.gz` bytes.  With matching digests and an empty
      restored name, `open("")` fails whatever the archive holds. */
  lemma DecompressOnlyOnMatch(c: Codec, name: string, stream: seq<Byte>)
    ensures var r := Receive(c, name, stream);
            var f := SplitStream(stream);
            DecompressedName(CompressedName(name)) in r.files
            <==> && Decode(f.header) == Some(c.digest(f.payload))
                 && DecompressedName(CompressedName(name)) != ""
                 && c.decompress(f.payload).Some?
    ensures var r := Receive(c, name, stream);
            var f := SplitStream(stream);
            r.report == EmptyRestoreName
            <==> Decode(f.header) == Some(c.digest(f.payload)) && DecompressedName(CompressedName(name)) == ""
    ensures var r := Receive(c, name, stream);
            DecompressedName(CompressedName(name)) in r.files
            ==> Some(r.files[DecompressedName(CompressedName(name))])
                == c.decompress(r.files[CompressedName(name)])
  {
    DecompressedNameDiffers(name);
  }

  /** On a mismatch both digests are reported: the one that arrived and
      the one recomputed over the stored bytes, and they differ. */
  lemma MismatchReportsBoth(c: Codec, name: string, stream: seq<Byte>)
    requires Receive(c, name, stream).report.HashMismatch?
    ensures var rep := Receive(c, name, stream).report;
            var f := SplitStream(stream);
            && Decode(f.header) == Some(rep.expected)
            && rep.received == c.digest(f.payload)
            && rep.expected != rep.received
  {
  }

  /** An unaltered transfer is verified unless the restored name is
      empty.  If gzip is lossless the receiver ends up with the sender's
      compressed bytes under `<name>.gz` and the original file under the
      decompressed name; with an empty restored name, only the archive. */
  lemma ReceiveIntact(c: Codec, name: string, file: seq<Byte>)
    requires Lossless(c)
    ensures var gz := CompressedName(name);
            Receive(c, name, SendStream(c, file))
            == if DecompressedName(gz) != "" then
                 Received(map[gz := c.compress(file), DecompressedName(gz) := file],
                          Verified(c.digest(c.compress(file))))
               else Received(map[gz := c.compress(file)], EmptyRestoreName)
  {
    var payload := c.compress(file);
    SplitWire(c.digest(payload), payload);
    DecodeEncodeHex(c.digest(payload));
    assert c.decompress(payload) == Some(file);
  }

  /** Without any assumption on gzip, an unaltered stream always passes the
      hash comparison: the only failure left is gzip's own. */
  lemma IntactStreamMatches(c: Codec, name: string, file: seq<Byte>)
    ensures var rep := Receive(c, name, SendStream(c, file)).report;
            rep == Verified(c.digest(c.compress(file))) || rep == CorruptArchive || rep == EmptyRestoreName
    ensures var rep := Receive(c, name, SendStream(c, file)).report;
            rep == EmptyRestoreName <==> DecompressedName(CompressedName(name)) == ""
  {
    var payload := c.compress(file);
    SplitWire(c.digest(payload), payload);
    DecodeEncodeHex(c.digest(payload));
  }

  /** A payload swapped in transit for `p` under digest `h` is rejected
      exactly when its digest differs from `h`, and then nothing is
      decompressed. */
  lemma TamperDetected(c: Codec, name: string, h: HexDigest, p: seq<Byte>)
    ensures var r := Receive(c, name, Wire(h, p));
            r.report.HashMismatch? <==> c.digest(p) != h
    ensures var r := Receive(c, name, Wire(h, p));
            c.digest(p) != h ==> (r.report == HashMismatch(h, c.digest(p))
                                  && r.files == map[CompressedName(name) := p])
  {
    SplitWire(h, p);
    DecodeEncodeHex(h);
  }

  /** A header of well-formed UTF-8 that is not plain ASCII decodes, is
      compared, and fails: the archive is kept and nothing is restored. */
  lemma NonAsciiHeaderMismatch(c: Codec, name: string, stream: seq<Byte>)
    requires Decode(SplitStream(stream).header).Some?
    requires exists i :: 0 <= i < |SplitStream(stream).header| && SplitStream(stream).header[i] >= 0x80
    ensures var f := SplitStream(stream);
            Receive(c, name, stream)
            == Received(map[CompressedName(name) := f.payload],
                        HashMismatch(Decode(f.header).value, c.digest(f.payload)))
  {
    var f := SplitStream(stream);
    NonAsciiIsNoDigest(f.header, c.digest(f.payload));
  }

  /** A stream cut short inside the digest frame never verifies. */
  lemma ShortStreamRejected(c: Codec, name: string, stream: seq<Byte>)
    requires |stream| < DigestLength
    ensures !Receive(c, name, stream).report.Verified?
  {
  }
}
