/**
 The content of a file of the vault: a header, then chunks, each sealed on its
 own and bound to its place. The Writer buffers, the Reader caches a chunk; the
 definitions they are proved against do neither.
 */
module Content {
  import opened Wrappers
  import opened Bytes
  import opened Numbers
  import opened ContentSize

  datatype Error = Corrupt | EndOfFile | BadWhence | BeforeStart | NoEntropy | SinkFailed | Closed

  type Nonce = b: bytes | |b| == 12 witness Zeros(12)

  /**
   An authenticated cipher, of key, nonce, text and associated data. The two
   laws are what AES-GCM has besides secrecy: a tag of 16 bytes, and that it
   opens exactly what it seals.
   */
  datatype AeadFamily = AeadFamily(seal: (bytes, bytes, bytes, bytes) -> bytes,
                                   open: (bytes, bytes, bytes, bytes) -> Option<bytes>) {
    ghost predicate Authenticates() {
      && (forall k: bytes, n: bytes, p: bytes, a: bytes :: |seal(k, n, p, a)| == |p| + 16)
      && (forall k: bytes, n: bytes, p: bytes, c: bytes, a: bytes ::
            open(k, n, c, a) == Some(p) <==> c == seal(k, n, p, a))
    }
  }

  type Gcm = f: AeadFamily | f.Authenticates() ghost witness PlainFamily()

  /** A toy family that shows the laws of Gcm can be met: the text itself, and a tag of zeros. */
  ghost function PlainFamily(): (f: AeadFamily)
    ensures f.Authenticates()
  {
    var seal := (k: bytes, n: bytes, p: bytes, a: bytes) => p + Zeros(16);
    var open := (k: bytes, n: bytes, c: bytes, a: bytes) =>
      if |c| >= 16 && c[|c| - 16..] == Zeros(16) then Some(c[..|c| - 16]) else None;
    assert forall k: bytes, n: bytes, p: bytes, c: bytes, a: bytes ::
        open(k, n, c, a) == Some(p) <==> c == seal(k, n, p, a) by {
      forall k: bytes, n: bytes, p: bytes, c: bytes, a: bytes
        ensures open(k, n, c, a) == Some(p) <==> c == seal(k, n, p, a)
      {
        assert (p + Zeros(16))[..|p|] == p && (p + Zeros(16))[|p|..] == Zeros(16);
        if |c| >= 16 {
          assert c == c[..|c| - 16] + c[|c| - 16..];
        }
      }
    }
    AeadFamily(seal, open)
  }

  lemma OpensOwn(g: Gcm, k: bytes, n: bytes, p: bytes, a: bytes)
    ensures g.open(k, n, g.seal(k, n, p, a), a) == Some(p)
  {
  }

  lemma OpensOnlyOwn(g: Gcm, k: bytes, n: bytes, c: bytes, a: bytes)
    requires g.open(k, n, c, a).Some?
    ensures c == g.seal(k, n, g.open(k, n, c, a).value, a)
    ensures |c| == |g.open(k, n, c, a).value| + 16
  {
  }

  /** What a header holds: the nonce every chunk is bound to, and the key of the content. */
  datatype Header = Header(nonce: Nonce, key: bytes)

  /** What is in front of the key in the payload of a header. */
  const RESERVED: bytes := [0xff, 0xff, 0xff, 0xff, 0xff, 0xff, 0xff, 0xff]

  /** header.aad: the number of the chunk and the nonce of the file. */
  function Aad(h: Header, chunk: nat): bytes {
    ToBytes(chunk, 8) + h.nonce
  }

  /** It says which chunk and of which file, so no two chunks of a file have the same. */
  lemma AadTellsChunk(h: Header, chunk: nat)
    requires chunk < 0x1_0000_0000_0000_0000
    ensures |Aad(h, chunk)| == 20 && Number(Aad(h, chunk)[..8]) == chunk && Aad(h, chunk)[8..] == h.nonce
  {
    assert Pow256(8) == 0x1_0000_0000_0000_0000;
    hide Pow256;
    NumberOfToBytes(chunk, 8);
    assert Aad(h, chunk)[..8] == ToBytes(chunk, 8);
  }

  /**
   A chunk that opens in the place of another, or in another file under the same
   key, has the ciphertext of two texts with different associated data.
   */
  lemma MovedChunkCollides(g: Gcm, h: Header, other: Header, nonce: Nonce, plain: bytes, i: nat, j: nat)
    requires h.key == other.key && (i != j || h.nonce != other.nonce)
    requires i < 0x1_0000_0000_0000_0000 && j < 0x1_0000_0000_0000_0000
    requires g.open(other.key, nonce, SealedChunk(g, h, nonce, i, plain)[12..], Aad(other, j)).Some?
    ensures var q := g.open(other.key, nonce, SealedChunk(g, h, nonce, i, plain)[12..], Aad(other, j)).value;
            && g.seal(h.key, nonce, plain, Aad(h, i)) == g.seal(h.key, nonce, q, Aad(other, j))
            && Aad(h, i) != Aad(other, j)
  {
    AadTellsChunk(h, i);
    AadTellsChunk(other, j);
    hide Aad;
    var sealed := g.seal(h.key, nonce, plain, Aad(h, i));
    assert SealedChunk(g, h, nonce, i, plain)[12..] == sealed;
    OpensOnlyOwn(g, other.key, nonce, sealed, Aad(other, j));
  }

  /** A sealed header: the nonce, and 8 reserved bytes with the key of the content. */
  function SealedHeader(g: Gcm, vaultKey: bytes, nonce: Nonce, payload: bytes): (b: bytes)
    requires |payload| == 40
    ensures |b| == 68
  {
    nonce + g.seal(vaultKey, nonce, payload, [])
  }

  function OpenedHeader(g: Gcm, vaultKey: bytes, b: bytes): (res: Result<Header, Error>)
    ensures res.Ok? ==> |res.value.key| == 32
  {
    if |b| != 68 then Err(Corrupt)
    else match g.open(vaultKey, b[..12], b[12..], [])
      case None => Err(Corrupt)
      case Some(payload) =>
        OpensOnlyOwn(g, vaultKey, b[..12], b[12..], []);
        Ok(Header(b[..12], payload[8..]))
  }

  // What a file holds

  /** Chunk i of the content. */
  function ChunkOf(content: bytes, i: nat): (c: bytes)
    requires i < ChunkCount(|content|)
    ensures 0 < |c| <= 32768
    ensures |c| == if (i + 1) * 32768 <= |content| then 32768 else |content| - i * 32768
  {
    if (i + 1) * 32768 <= |content| then content[i * 32768..(i + 1) * 32768]
    else content[i * 32768..]
  }

  function SealedChunk(g: Gcm, h: Header, nonce: Nonce, i: nat, plain: bytes): (b: bytes)
    ensures |b| == |plain| + 28
  {
    nonce + g.seal(h.key, nonce, plain, Aad(h, i))
  }

  /** The first chunks of the content, sealed one after the other, each under its nonce. */
  function Body(g: Gcm, h: Header, nonces: seq<Nonce>, content: bytes): bytes
    requires |nonces| <= ChunkCount(|content|)
  {
    if nonces == [] then []
    else
      var i := |nonces| - 1;
      Body(g, h, nonces[..i], content) + SealedChunk(g, h, nonces[i], i, ChunkOf(content, i))
  }

  /** A whole file. */
  function Encrypted(g: Gcm, vaultKey: bytes, nonce: Nonce, payload: bytes, nonces: seq<Nonce>, content: bytes): bytes
    requires |payload| == 40
    requires |nonces| == ChunkCount(|content|)
  {
    SealedHeader(g, vaultKey, nonce, payload) + Body(g, Header(nonce, payload[8..]), nonces, content)
  }

  lemma {:induction false} BodyLength(g: Gcm, h: Header, nonces: seq<Nonce>, content: bytes)
    requires |nonces| <= ChunkCount(|content|)
    ensures |Body(g, h, nonces, content)|
         == if |nonces| * 32768 <= |content| then |nonces| * 32796
            else |content| + |nonces| * 28
  {
    hide SealedChunk, ChunkOf;
    if nonces != [] {
      BodyLength(g, h, nonces[..|nonces| - 1], content);
    }
  }

  lemma EncryptedLength(g: Gcm, vaultKey: bytes, nonce: Nonce, payload: bytes, nonces: seq<Nonce>, content: bytes)
    requires |payload| == 40
    requires |nonces| == ChunkCount(|content|)
    ensures |Encrypted(g, vaultKey, nonce, payload, nonces, content)| == FileSize(|content|)
  {
    hide Body;
    BodyLength(g, Header(nonce, payload[8..]), nonces, content);
  }

  lemma ChunkStays(content: bytes, more: bytes, i: nat)
    requires (i + 1) * 32768 <= |content|
    ensures ChunkOf(content + more, i) == ChunkOf(content, i)
  {
  }

  /** Chunks that are whole stay as they are while content comes after them. */
  lemma {:induction false} BodyStays(g: Gcm, h: Header, nonces: seq<Nonce>, content: bytes, more: bytes)
    requires |nonces| * 32768 <= |content|
    ensures |nonces| <= ChunkCount(|content|) && |nonces| <= ChunkCount(|content + more|)
    ensures Body(g, h, nonces, content + more) == Body(g, h, nonces, content)
  {
    hide SealedChunk, ChunkOf;
    if nonces != [] {
      var i := |nonces| - 1;
      BodyStays(g, h, nonces[..i], content, more);
      ChunkStays(content, more, i);
    }
  }

  /** The next chunk of a body, from what the whole chunks before it left. */
  lemma BodyGrows(g: Gcm, h: Header, nonces: seq<Nonce>, content: bytes, nonce: Nonce, rest: bytes)
    requires |nonces| * 32768 + |rest| == |content| && rest == content[|nonces| * 32768..]
    requires 0 < |rest| <= 32768
    ensures ChunkCount(|content|) == |nonces| + 1
    ensures Body(g, h, nonces + [nonce], content)
         == Body(g, h, nonces, content) + SealedChunk(g, h, nonce, |nonces|, rest)
  {
    hide SealedChunk;
    var more := nonces + [nonce];
    assert more[..|more| - 1] == nonces;
    assert rest == ChunkOf(content, |nonces|);
  }

  /** Where chunk i of a body is. */
  lemma {:induction false} BodyAt(g: Gcm, h: Header, nonces: seq<Nonce>, content: bytes, i: nat)
    requires i < |nonces| <= ChunkCount(|content|)
    ensures var sealed := SealedChunk(g, h, nonces[i], i, ChunkOf(content, i));
            var body := Body(g, h, nonces, content);
            && i * 32796 + |sealed| <= |body|
            && body[i * 32796..i * 32796 + |sealed|] == sealed
  {
    hide SealedChunk, ChunkOf;
    var last := |nonces| - 1;
    BodyLength(g, h, nonces[..last], content);
    if i < last {
      BodyAt(g, h, nonces[..last], content, i);
    }
  }

  // The Writer

  /**
   Writer. What the source of randomness gives for each chunk, and whether what
   is written to takes it, are given in advance.
   */
  class Writer {
    const g: Gcm
    const h: Header
    const start: bytes
    const entropy: nat -> Option<Nonce>
    const accepts: nat -> bool
    var sink: bytes
    var buf: bytes
    var chunk: nat
    var err: Option<Error>
    /** All that was written so far, and the nonces of the chunks that were sealed. */
    ghost var content: bytes
    ghost var nonces: seq<Nonce>

    ghost predicate Faultless()
    {
      forall k: nat :: entropy(k).Some? && accepts(k)
    }

    /** Whole chunks are in the sink and the rest of the content is in the buffer. */
    ghost predicate Sealing()
      reads this
    {
      && chunk == |nonces|
      && chunk * 32768 + |buf| == |content|
      && buf == content[chunk * 32768..]
      && |buf| <= 32768
      && sink == start + Body(g, h, nonces, content)
    }

    /** Between calls, while nothing failed, the last chunk is always in the buffer. */
    ghost predicate Valid()
      reads this
    {
      && (err.None? ==> Sealing() && (chunk > 0 ==> |buf| > 0))
      && (err == Some(Closed) ==> IsComplete())
      && (Faultless() ==> err.None? || err == Some(Closed))
    }

    /** The sink holds the whole content, sealed. */
    ghost predicate IsComplete()
      reads this
    {
      |nonces| == ChunkCount(|content|) && sink == start + Body(g, h, nonces, content)
    }

    /** NewWriter, given the nonce and the payload of the header. */
    constructor (g: Gcm, vaultKey: bytes, nonce: Nonce, payload: bytes,
                 entropy: nat -> Option<Nonce>, accepts: nat -> bool)
      requires |payload| == 40
      ensures Valid() && content == [] && err.None? && sink == start
      ensures this.g == g && this.h == Header(nonce, payload[8..])
      ensures this.start == SealedHeader(g, vaultKey, nonce, payload)
      ensures this.entropy == entropy && this.accepts == accepts
    {
      hide SealedHeader;
      this.g, this.h := g, Header(nonce, payload[8..]);
      this.start := SealedHeader(g, vaultKey, nonce, payload);
      this.entropy, this.accepts := entropy, accepts;
      sink := SealedHeader(g, vaultKey, nonce, payload);
      buf, chunk, err := [], 0, None;
      content, nonces := [], [];
    }

    /** What a chunk still has room for, buffered. */
    method Fill(p: bytes) returns (n: nat)
      requires Sealing()
      modifies this`buf, this`content
      ensures Sealing()
      ensures n == (if 32768 - old(|buf|) < |p| then 32768 - old(|buf|) else |p|)
      ensures |buf| == old(|buf|) + n <= 32768
      ensures content == old(content) + p[..n]
    {
      hide Body;
      n := if 32768 - |buf| < |p| then 32768 - |buf| else |p|;
      BodyStays(g, h, nonces, content, p[..n]);
      buf := buf + p[..n];
      content := content + p[..n];
    }

    /** Writer.flush: what is buffered becomes the next chunk. */
    method Flush() returns (e: Option<Error>)
      requires Sealing() && buf != []
      modifies this`sink, this`buf, this`chunk, this`nonces
      ensures Faultless() ==> e.None?
      ensures e.None? ==>
                && buf == [] && chunk == old(chunk) + 1 == |nonces|
                && |nonces| == ChunkCount(|content|)
                && sink == start + Body(g, h, nonces, content)
      ensures e != Some(Closed)
      ensures e.None? && old(|buf|) == 32768 ==> Sealing()
    {
      hide SealedChunk, Body, ChunkCount;
      if entropy(chunk).None? {
        return Some(NoEntropy);
      }
      var nonce := entropy(chunk).value;
      BodyGrows(g, h, nonces, content, nonce, buf);
      var sealed := SealedChunk(g, h, nonce, chunk, buf);
      var taken := accepts(chunk);
      chunk := chunk + 1;
      buf := [];
      if !taken {
        return Some(SinkFailed);
      }
      sink := sink + sealed;
      nonces := nonces + [nonce];
      return None;
    }

    /** Writer.Write. */
    method Write(p: bytes) returns (written: nat, e: Option<Error>)
      requires Valid()
      modifies this
      ensures Valid()
      ensures old(err).Some? ==> written == 0 && e == err == old(err) && sink == old(sink)
      ensures old(err).None? ==> e == err && err != Some(Closed) && written <= |p|
      ensures old(err).None? && e.None? ==> written == |p| && content == old(content) + p
      ensures Faultless() && old(err).None? ==> e.None?
    {
      hide Body, ChunkCount, Aad, Sealing, IsComplete, Faultless;
      if err.Some? {
        return 0, err;
      }
      written := 0;
      var rest := p;
      while rest != []
        invariant err.None? && Sealing() && (chunk > 0 ==> |buf| > 0 || rest != [])
        invariant written <= |p| && rest == p[written..]
        invariant content == old(content) + p[..written]
        decreases |rest|, |buf|
      {
        var n := Fill(rest);
        assert p[..written + n] == p[..written] + rest[..n];
        rest := rest[n..];
        written := written + n;
        if |buf| == 32768 && rest != [] {
          var failed := Flush();
          if failed.Some? {
            err := failed;
            return written, err;
          }
        }
      }
      assert p[..written] == p;
      e := None;
    }

    /** Writer.Close. */
    method Close() returns (e: Option<Error>)
      requires Valid()
      modifies this
      ensures Valid() && content == old(content)
      ensures e.None? ==> err == Some(Closed) && IsComplete()
      ensures old(err).Some? ==> e == old(err)
      ensures Faultless() && old(err).None? ==> e.None?
    {
      hide Body;
      if err.None? && |buf| > 0 {
        err := Flush();
      }
      e := err;
      if e.None? {
        err := Some(Closed);
      }
    }
  }

  /** NewWriter, where the nonce and the key may not be had, and the header may not be taken. */
  method NewWriter(g: Gcm, vaultKey: bytes, nonce: Option<Nonce>, key: Option<bytes>, taken: bool,
                   entropy: nat -> Option<Nonce>, accepts: nat -> bool)
    returns (r: Result<Writer, Error>)
    requires key.Some? ==> |key.value| == 32
    ensures r.Ok? <==> nonce.Some? && key.Some? && taken
    ensures r.Err? ==> r.error == if nonce.Some? && key.Some? then SinkFailed else NoEntropy
    ensures r.Ok? ==>
              && fresh(r.value) && r.value.Valid() && r.value.content == [] && r.value.err.None?
              && r.value.h == Header(nonce.value, key.value)
              && r.value.sink == nonce.value + g.seal(vaultKey, nonce.value, RESERVED + key.value, [])
  {
    hide Body;
    if nonce.None? || key.None? {
      return Err(NoEntropy);
    }
    if !taken {
      return Err(SinkFailed);
    }
    var payload := new byte[40];
    for i := 0 to 8
      invariant forall k :: 0 <= k < i ==> payload[k] == 0xff
    {
      payload[i] := 0xff;
    }
    assert payload[..8] == RESERVED;
    forall k | 8 <= k < 40 {
      payload[k] := key.value[k - 8];
    }
    assert payload[..] == RESERVED + key.value;
    var writer := new Writer(g, vaultKey, nonce.value, payload[..], entropy, accepts);
    return Ok(writer);
  }

  // The Reader

  /** How long chunk index of a file is that holds size bytes: a whole chunk, or what the file has left. */
  function SealedLength(size: nat, index: nat): (n: nat)
    requires index * 32768 < size
    ensures 28 < n <= 32796
    ensures n - 28 == if (index + 1) * 32768 <= size then 32768 else size - index * 32768
  {
    var left := FileSize(size) - (68 + index * 32796);
    if 32796 < left then 32796 else left
  }

  /** Chunk index of a file, read and opened without anything cached. */
  function Loaded(g: Gcm, h: Header, file: bytes, size: nat, index: nat): (res: Result<bytes, Error>)
    requires index * 32768 < size
    ensures res.Ok? ==> |res.value| == SealedLength(size, index) - 28
  {
    var at := 68 + index * 32796;
    var length := SealedLength(size, index);
    if |file| < at + length then Err(Corrupt)
    else
      var raw := file[at..at + length];
      match g.open(h.key, raw[..12], raw[12..], Aad(h, index))
      case None => Err(Corrupt)
      case Some(plain) =>
        OpensOnlyOwn(g, h.key, raw[..12], raw[12..], Aad(h, index));
        Ok(plain)
  }

  /** Reader, over a file that stays as it is. */
  class Reader {
    const g: Gcm
    const h: Header
    const file: bytes
    const size: nat
    var offset: nat
    var chunk: Option<bytes>
    var index: int

    /** What is cached is what loading it again would give. */
    ghost predicate Valid()
      reads this
    {
      && IsInt64(size) && IsInt64(offset)
      && (chunk.Some? ==>
            && 0 <= index && index * 32768 < size
            && Loaded(g, h, file, size, index) == Ok(chunk.value))
    }

    constructor (g: Gcm, h: Header, file: bytes, size: nat)
      requires IsInt64(size)
      ensures Valid() && offset == 0
      ensures this.g == g && this.h == h && this.file == file && this.size == size
    {
      this.g, this.h, this.file, this.size := g, h, file, size;
      offset, chunk, index := 0, None, -1;
    }

    /** Reader.load. */
    method Load(i: nat) returns (e: Option<Error>)
      requires Valid() && i * 32768 < size
      modifies this`chunk, this`index
      ensures Valid()
      ensures e.None? <==> Loaded(g, h, file, size, i).Ok?
      ensures e.None? ==> chunk == Some(Loaded(g, h, file, size, i).value) && index == i
      ensures e.Some? ==> e == Some(Corrupt)
    {
      hide FileSize, Aad;
      var at := 68 + i * 32796;
      var length := SealedLength(size, i);
      if |file| < at + length {
        return Some(Corrupt);
      }
      var raw := file[at..at + length];
      var plain := g.open(h.key, raw[..12], raw[12..], Aad(h, i));
      if plain.None? {
        chunk := None;
        return Some(Corrupt);
      }
      chunk, index := plain, i;
      return None;
    }

    /** Reader.Read into a buffer of room bytes: what it copied, or why it copied nothing. */
    method Read(room: nat) returns (res: Result<bytes, Error>)
      requires Valid()
      modifies this
      ensures Valid()
      ensures old(offset) >= size ==> res == Err(EndOfFile)
      ensures old(offset) < size ==>
                var i := old(offset) / 32768;
                var from := old(offset) % 32768;
                match Loaded(g, h, file, size, i)
                case Err(_) => res == Err(Corrupt)
                case Ok(plain) =>
                  && from < |plain|
                  && res == Ok(plain[from..if room < |plain| - from then from + room else |plain|])
      ensures offset == old(offset) + if res.Ok? then |res.value| else 0
    {
      hide Loaded, SealedLength;
      if offset >= size {
        return Err(EndOfFile);
      }
      var i := offset / 32768;
      if chunk.None? || index != i {
        var failed := Load(i);
        if failed.Some? {
          return Err(failed.value);
        }
      }
      var from := offset - i * 32768;
      var n := if room < |chunk.value| - from then room else |chunk.value| - from;
      res := Ok(chunk.value[from..from + n]);
      offset := offset + n;
    }

    /** Reader.Seek, from the start (0), from here (1) or from the end (2). */
    method Seek(to: int, whence: int) returns (res: Result<nat, Error>)
      requires Valid() && IsInt64(to)
      modifies this`offset
      ensures Valid()
      ensures whence < 0 || whence > 2 ==> res == Err(BadWhence)
      ensures 0 <= whence <= 2 ==>
                var target := Wrap(if whence == 0 then to else if whence == 1 then to + old(offset) else to + size);
                res == if target < 0 then Err(BeforeStart) else Ok(target)
      ensures offset == if res.Ok? then res.value else old(offset)
    {
      var target := to;
      match whence {
        case 0 =>
        case 1 => target := Wrap(target + offset);
        case 2 => target := Wrap(target + size);
        case _ => return Err(BadWhence);
      }
      if target < 0 {
        return Err(BeforeStart);
      }
      offset := target;
      return Ok(target);
    }
  }

  /** NewReader, of a file that is said to be ciphertextSize long. */
  method NewReader(g: Gcm, vaultKey: bytes, file: bytes, ciphertextSize: int) returns (r: Result<Reader, Error>)
    requires IsInt64(ciphertextSize)
    ensures r.Ok? <==> CleartextSize(ciphertextSize) >= 0 && |file| >= 68
                       && OpenedHeader(g, vaultKey, file[..68]).Ok?
    ensures r.Err? ==> r.error == Corrupt
    ensures r.Ok? ==>
              && r.value.Valid() && fresh(r.value) && r.value.offset == 0
              && r.value.g == g && r.value.file == file && r.value.size == CleartextSize(ciphertextSize)
              && r.value.h == OpenedHeader(g, vaultKey, file[..68]).value
  {
    hide Loaded, OpenedHeader;
    var size := CleartextSize(ciphertextSize);
    if size < 0 || |file| < 68 {
      return Err(Corrupt);
    }
    var h := OpenedHeader(g, vaultKey, file[..68]);
    if h.Err? {
      return Err(Corrupt);
    }
    var reader := new Reader(g, h.value, file, size);
    return Ok(reader);
  }

  // Reading back what was written

  lemma HeaderOpens(g: Gcm, vaultKey: bytes, nonce: Nonce, payload: bytes)
    requires |payload| == 40
    ensures OpenedHeader(g, vaultKey, SealedHeader(g, vaultKey, nonce, payload)) == Ok(Header(nonce, payload[8..]))
  {
    var b := SealedHeader(g, vaultKey, nonce, payload);
    assert b[..12] == nonce && b[12..] == g.seal(vaultKey, nonce, payload, []);
    OpensOwn(g, vaultKey, nonce, payload, []);
  }

  /** Every chunk of a written file loads as that chunk of the content. */
  lemma LoadsWhatWasWritten(g: Gcm, vaultKey: bytes, nonce: Nonce, payload: bytes, nonces: seq<Nonce>, content: bytes,
                            i: nat)
    requires |payload| == 40 && |nonces| == ChunkCount(|content|) && i * 32768 < |content|
    ensures i < ChunkCount(|content|)
    ensures Loaded(g, Header(nonce, payload[8..]), Encrypted(g, vaultKey, nonce, payload, nonces, content),
                   |content|, i)
         == Ok(ChunkOf(content, i))
  {
    hide Body, FileSize, SealedHeader, Aad;
    var h := Header(nonce, payload[8..]);
    var file := Encrypted(g, vaultKey, nonce, payload, nonces, content);
    var body := Body(g, h, nonces, content);
    BodyAt(g, h, nonces, content, i);
    var at := 68 + i * 32796;
    var plain := ChunkOf(content, i);
    var sealed := SealedChunk(g, h, nonces[i], i, plain);
    assert SealedLength(|content|, i) == |sealed|;
    assert file[at..at + |sealed|] == body[at - 68..at - 68 + |sealed|];
    assert sealed[..12] == nonces[i] && sealed[12..] == g.seal(h.key, nonces[i], plain, Aad(h, i));
    OpensOwn(g, h.key, nonces[i], plain, Aad(h, i));
  }

  /**
   What is where in a written file: its nonce, the sealed key, and every 32 KiB of
   the content, each under its own nonce with its number and the nonce of the file.
   */
  lemma FileFormat(g: Gcm, vaultKey: bytes, nonce: Nonce, payload: bytes, nonces: seq<Nonce>, content: bytes, i: nat)
    requires |payload| == 40 && |nonces| == ChunkCount(|content|)
    ensures var file := Encrypted(g, vaultKey, nonce, payload, nonces, content);
            && |file| >= 68 && file[..12] == nonce
            && g.open(vaultKey, file[..12], file[12..68], []) == Some(payload)
            && (i * 32768 < |content| ==>
                  var at, n := 68 + i * 32796, if |content| - i * 32768 < 32768 then |content| - i * 32768 else 32768;
                  && at + 28 + n <= |file|
                  && g.open(payload[8..], file[at..at + 12], file[at + 12..at + 28 + n], ToBytes(i, 8) + nonce)
                     == Some(content[i * 32768..i * 32768 + n]))
  {
    hide Body, FileSize;
    var h := Header(nonce, payload[8..]);
    var file := Encrypted(g, vaultKey, nonce, payload, nonces, content);
    assert file[12..68] == g.seal(vaultKey, nonce, payload, []);
    OpensOwn(g, vaultKey, nonce, payload, []);
    if i * 32768 < |content| {
      ChunkFormat(g, h, SealedHeader(g, vaultKey, nonce, payload), nonces, content, i);
    }
  }

  /** A chunk in its place, with the length that is left for it. */
  lemma ChunkFormat(g: Gcm, h: Header, start: bytes, nonces: seq<Nonce>, content: bytes, i: nat)
    requires |start| == 68 && |nonces| == ChunkCount(|content|) && i * 32768 < |content|
    ensures var file := start + Body(g, h, nonces, content);
            var at, n := 68 + i * 32796, if |content| - i * 32768 < 32768 then |content| - i * 32768 else 32768;
            && at + 28 + n <= |file|
            && g.open(h.key, file[at..at + 12], file[at + 12..at + 28 + n], ToBytes(i, 8) + h.nonce)
               == Some(content[i * 32768..i * 32768 + n])
  {
    hide Body, ToBytes, SealedChunk, ChunkOf, ChunkCount, Aad;
    var plain := ChunkIsAt(g, h, nonces, content, i);
    var sealed := g.seal(h.key, nonces[i], plain, ToBytes(i, 8) + h.nonce);
    OpensOwn(g, h.key, nonces[i], plain, ToBytes(i, 8) + h.nonce);
    PartsBehind(start, Body(g, h, nonces, content), i * 32796, nonces[i], sealed);
  }

  lemma ChunkIsAt(g: Gcm, h: Header, nonces: seq<Nonce>, content: bytes, i: nat) returns (plain: bytes)
    requires |nonces| == ChunkCount(|content|) && i * 32768 < |content|
    ensures i < |nonces|
    ensures var n := if |content| - i * 32768 < 32768 then |content| - i * 32768 else 32768;
            |plain| == n && plain == content[i * 32768..i * 32768 + n]
    ensures var sealed := g.seal(h.key, nonces[i], plain, ToBytes(i, 8) + h.nonce);
            && |sealed| == |plain| + 16 && i * 32796 + 28 + |plain| <= |Body(g, h, nonces, content)|
            && Body(g, h, nonces, content)[i * 32796..i * 32796 + 28 + |plain|] == nonces[i] + sealed
  {
    hide Body, ToBytes;
    plain := ChunkOf(content, i);
    BodyAt(g, h, nonces, content, i);
  }

  lemma PartsBehind(start: bytes, body: bytes, at: nat, a: bytes, b: bytes)
    requires at + |a| + |b| <= |body| && body[at..at + |a| + |b|] == a + b
    ensures var file, from := start + body, |start| + at;
            && from + |a| + |b| <= |file|
            && file[from..from + |a|] == a && file[from + |a|..from + |a| + |b|] == b
  {
    var n, m := |a|, |a| + |b|;
    SliceOfSlice(body, at, at + m, 0, n);
    SliceOfSlice(body, at, at + m, n, m);
    assert (a + b)[..n] == a && (a + b)[n..m] == b;
  }

  /** All the chunks of a file load. */
  ghost predicate LoadsWhole(g: Gcm, h: Header, file: bytes, size: nat) {
    forall i: nat :: i * 32768 < size ==> Loaded(g, h, file, size, i).Ok?
  }

  /** Chunk i of a file of the right length, as it is sealed. */
  function Raw(file: bytes, size: nat, i: nat): (raw: bytes)
    requires |file| == FileSize(size) && i * 32768 < size
    ensures |raw| == SealedLength(size, i)
  {
    file[68 + i * 32796..68 + i * 32796 + SealedLength(size, i)]
  }

  /** The first k chunks of a file as they are sealed, the nonces they start with, and what they hold. */
  function RawBody(file: bytes, size: nat, k: nat): bytes
    requires |file| == FileSize(size) && k <= ChunkCount(size)
  {
    if k == 0 then [] else RawBody(file, size, k - 1) + Raw(file, size, k - 1)
  }

  function NoncesOf(file: bytes, size: nat, k: nat): (nonces: seq<Nonce>)
    requires |file| == FileSize(size) && k <= ChunkCount(size)
    ensures |nonces| == k
  {
    if k == 0 then [] else NoncesOf(file, size, k - 1) + [Raw(file, size, k - 1)[..12]]
  }

  ghost function ContentOf(g: Gcm, h: Header, file: bytes, size: nat, k: nat): (content: bytes)
    requires LoadsWhole(g, h, file, size) && k <= ChunkCount(size)
    ensures |content| == if k * 32768 <= size then k * 32768 else size
  {
    if k == 0 then [] else ContentOf(g, h, file, size, k - 1) + Loaded(g, h, file, size, k - 1).value
  }

  lemma SlicesJoin(file: bytes, a: nat, b: nat, c: nat)
    requires a <= b <= c <= |file|
    ensures file[a..c] == file[a..b] + file[b..c]
  {
  }

  /** Where chunk k of a file begins and ends. */
  lemma ChunkEnds(size: nat, k: nat)
    requires k < ChunkCount(size)
    ensures k * 32768 < size && 68 + k * 32796 + SealedLength(size, k) <= FileSize(size)
    ensures SealedLength(size, k) == if (k + 1) * 32768 <= size then 32796 else size - k * 32768 + 28
  {
  }

  lemma {:induction false} RawBodyIsThere(file: bytes, size: nat, k: nat)
    requires |file| == FileSize(size) && k <= ChunkCount(size)
    ensures |RawBody(file, size, k)| == if k * 32768 <= size then k * 32796 else size + k * 28
    ensures 68 + |RawBody(file, size, k)| <= |file|
    ensures RawBody(file, size, k) == file[68..68 + |RawBody(file, size, k)|]
  {
    if k > 0 {
      hide FileSize, ChunkCount, SealedLength;
      RawBodyIsThere(file, size, k - 1);
      ChunkEnds(size, k - 1);
      var at := 68 + (k - 1) * 32796;
      var end := at + SealedLength(size, k - 1);
      SlicesJoin(file, 68, at, end);
    }
  }

  /** The first k chunks of a file that loads are what a Writer makes of what they hold. */
  lemma {:induction false} LoadedWasSealed(g: Gcm, h: Header, file: bytes, size: nat, k: nat)
    requires |file| == FileSize(size) && LoadsWhole(g, h, file, size) && k <= ChunkCount(size)
    ensures k <= ChunkCount(|ContentOf(g, h, file, size, k)|)
    ensures Body(g, h, NoncesOf(file, size, k), ContentOf(g, h, file, size, k)) == RawBody(file, size, k)
  {
    hide Loaded, FileSize, Raw;
    if k > 0 {
      var i := k - 1;
      LoadedWasSealed(g, h, file, size, i);
      hide Body, SealedChunk;
      assert Loaded(g, h, file, size, i).Ok?;
      LoadedIsSealedChunk(g, h, file, size, i);
      BodyGrowsBy(g, h, NoncesOf(file, size, i), ContentOf(g, h, file, size, i), Raw(file, size, i)[..12],
                  Loaded(g, h, file, size, i).value);
    }
  }

  lemma BodyGrowsBy(g: Gcm, h: Header, nonces: seq<Nonce>, before: bytes, nonce: Nonce, plain: bytes)
    requires |before| == |nonces| * 32768 && 0 < |plain| <= 32768
    ensures ChunkCount(|before + plain|) == |nonces| + 1 && |nonces| <= ChunkCount(|before|)
    ensures Body(g, h, nonces + [nonce], before + plain)
         == Body(g, h, nonces, before) + SealedChunk(g, h, nonce, |nonces|, plain)
  {
    hide Body, SealedChunk;
    BodyStays(g, h, nonces, before, plain);
    assert (before + plain)[|nonces| * 32768..] == plain;
    BodyGrows(g, h, nonces, before + plain, nonce, plain);
  }

  lemma LoadedIsSealedChunk(g: Gcm, h: Header, file: bytes, size: nat, i: nat)
    requires |file| == FileSize(size) && i * 32768 < size && Loaded(g, h, file, size, i).Ok?
    ensures Raw(file, size, i) == SealedChunk(g, h, Raw(file, size, i)[..12], i, Loaded(g, h, file, size, i).value)
  {
    hide Aad;
  }

  /**
   A file decrypts whole exactly when it is what a Writer makes of some content,
   for some nonces and header payload: damage to any part of it is refused.
   */
  lemma DecryptsExactlyWhatIsEncrypted(g: Gcm, vaultKey: bytes, file: bytes, size: nat)
    requires |file| == FileSize(size)
    ensures (OpenedHeader(g, vaultKey, file[..68]).Ok?
              && LoadsWhole(g, OpenedHeader(g, vaultKey, file[..68]).value, file, size))
        <==> exists nonce: Nonce, payload: bytes, nonces: seq<Nonce>, content: bytes ::
               && |payload| == 40 && |nonces| == ChunkCount(|content|) && |content| == size
               && file == Encrypted(g, vaultKey, nonce, payload, nonces, content)
  {
    hide Body, Loaded, SealedHeader;
    var unsealed := OpenedHeader(g, vaultKey, file[..68]);
    if unsealed.Ok? && LoadsWhole(g, unsealed.value, file, size) {
      var h, n := unsealed.value, ChunkCount(size);
      var payload := OpenedIsSealedHeader(g, vaultKey, file[..68]);
      LoadedWasSealed(g, h, file, size, n);
      RawBodyIsThere(file, size, n);
      var nonces, content := NoncesOf(file, size, n), ContentOf(g, h, file, size, n);
      assert file == file[..68] + file[68..];
      assert file == Encrypted(g, vaultKey, h.nonce, payload, nonces, content);
    }
    forall nonce: Nonce, payload: bytes, nonces: seq<Nonce>, content: bytes
      | |payload| == 40 && |nonces| == ChunkCount(|content|) && |content| == size
        && file == Encrypted(g, vaultKey, nonce, payload, nonces, content)
      ensures unsealed.Ok? && LoadsWhole(g, unsealed.value, file, size)
    {
      assert file[..68] == SealedHeader(g, vaultKey, nonce, payload);
      HeaderOpens(g, vaultKey, nonce, payload);
      forall i: nat | i * 32768 < size
        ensures Loaded(g, unsealed.value, file, size, i).Ok?
      {
        LoadsWhatWasWritten(g, vaultKey, nonce, payload, nonces, content, i);
      }
    }
  }

  lemma OpenedIsSealedHeader(g: Gcm, vaultKey: bytes, b: bytes) returns (payload: bytes)
    requires OpenedHeader(g, vaultKey, b).Ok?
    ensures |payload| == 40
    ensures OpenedHeader(g, vaultKey, b).value == Header(b[..12], payload[8..])
    ensures b == SealedHeader(g, vaultKey, b[..12], payload)
  {
    OpensOnlyOwn(g, vaultKey, b[..12], b[12..], []);
    payload := g.open(vaultKey, b[..12], b[12..], []).value;
    assert b == b[..12] + b[12..];
  }

  function Concat(parts: seq<bytes>): bytes {
    if parts == [] then [] else Concat(parts[..|parts| - 1]) + parts[|parts| - 1]
  }

  /** However the content is cut into writes, the file is the same function of all of it. */
  method EncryptParts(g: Gcm, vaultKey: bytes, nonce: Nonce, payload: bytes, entropy: nat -> Option<Nonce>,
                      parts: seq<bytes>)
    returns (file: bytes, ghost nonces: seq<Nonce>)
    requires |payload| == 40 && forall k: nat :: entropy(k).Some?
    ensures |nonces| == ChunkCount(|Concat(parts)|)
    ensures file == Encrypted(g, vaultKey, nonce, payload, nonces, Concat(parts))
    ensures IsInt64(FileSize(|Concat(parts)|)) ==> |file| == CiphertextSize(|Concat(parts)|)
  {
    hide Body, SealedHeader, CiphertextSize, FileSize;
    var writer := new Writer(g, vaultKey, nonce, payload, entropy, _ => true);
    for k := 0 to |parts|
      invariant writer.Valid() && writer.err.None? && writer.Faultless() && fresh(writer)
      invariant writer.content == Concat(parts[..k])
    {
      assert parts[..k + 1][..k] == parts[..k];
      var written, failed := writer.Write(parts[k]);
    }
    assert parts[..|parts|] == parts;
    var failed := writer.Close();
    file, nonces := writer.sink, writer.nonces;
    EncryptedLength(g, vaultKey, nonce, payload, nonces, Concat(parts));
    if IsInt64(FileSize(|Concat(parts)|)) {
      CiphertextSizeIsFileSize(|Concat(parts)|);
    }
  }

  /** What a read of room bytes from an offset in the content is to give. */
  function ReadFrom(content: bytes, from: nat, room: nat): (piece: bytes)
    requires from < |content|
    ensures from + |piece| <= |content| && piece == content[from..from + |piece|]
    ensures room > 0 ==> piece != []
  {
    var chunkEnd := (from / 32768 + 1) * 32768;
    var end := if chunkEnd <= |content| then chunkEnd else |content|;
    content[from..if from + room < end then from + room else end]
  }

  /** What is asked of a reader, and what comes of it. */
  datatype Move = SeekTo(to: int, whence: int) | ReadInto(room: nat)

  datatype Outcome = Arrived(offset: nat) | Got(piece: bytes) | Failed(error: Error)

  /** What a move from an offset in the content is to give, and the offset after it. */
  function Expected(content: bytes, offset: nat, move: Move): (Outcome, nat) {
    match move
    case SeekTo(to, whence) =>
      if whence < 0 || whence > 2 then (Failed(BadWhence), offset)
      else
        var target := Wrap(if whence == 0 then to else if whence == 1 then to + offset else to + |content|);
        if target < 0 then (Failed(BeforeStart), offset) else (Arrived(target), target)
    case ReadInto(room) =>
      if offset >= |content| then (Failed(EndOfFile), offset)
      else (Got(ReadFrom(content, offset, room)), offset + |ReadFrom(content, offset, room)|)
  }

  function Journey(content: bytes, offset: nat, moves: seq<Move>): seq<Outcome>
    decreases |moves|
  {
    if moves == [] then []
    else
      var (outcome, next) := Expected(content, offset, moves[0]);
      [outcome] + Journey(content, next, moves[1..])
  }

  /**
   Wherever a written file is sought and read, in whatever order, what comes
   back is what the content has there.
   */
  method DecryptAlong(g: Gcm, vaultKey: bytes, file: bytes, moves: seq<Move>,
                      ghost nonce: Nonce, ghost payload: bytes, ghost nonces: seq<Nonce>, ghost content: bytes)
    returns (outcomes: seq<Outcome>)
    requires |payload| == 40 && |nonces| == ChunkCount(|content|)
    requires file == Encrypted(g, vaultKey, nonce, payload, nonces, content) && IsInt64(|file|)
    requires forall move :: move in moves && move.SeekTo? ==> IsInt64(move.to)
    ensures outcomes == Journey(content, 0, moves)
  {
    hide Body, Loaded, SealedHeader, OpenedHeader, CleartextSize, FileSize, Encrypted, ReadFrom, ChunkOf, Expected;
    EncryptedLength(g, vaultKey, nonce, payload, nonces, content);
    CleartextSizeInvertsFileSize(|file|, |content|);
    HeaderOpens(g, vaultKey, nonce, payload);
    StartsWithHeader(g, vaultKey, nonce, payload, nonces, content);
    var loaded := NewReader(g, vaultKey, file, |file|);
    var reader := loaded.value;
    outcomes := [];
    for k := 0 to |moves|
      invariant reader.Valid() && fresh(reader)
      invariant outcomes + Journey(content, reader.offset, moves[k..]) == Journey(content, 0, moves)
    {
      ghost var before := reader.offset;
      var outcome := MoveOn(reader, moves[k], nonce, payload, nonces, content, vaultKey);
      assert moves[k..][0] == moves[k] && moves[k..][1..] == moves[k + 1..];
      outcomes := outcomes + [outcome];
    }
  }

  /** One move of a reader of a written file. */
  method MoveOn(reader: Reader, move: Move, ghost nonce: Nonce, ghost payload: bytes, ghost nonces: seq<Nonce>,
                ghost content: bytes, ghost vaultKey: bytes)
    returns (outcome: Outcome)
    requires reader.Valid() && |payload| == 40 && |nonces| == ChunkCount(|content|)
    requires reader.h == Header(nonce, payload[8..]) && reader.size == |content|
    requires reader.file == Encrypted(reader.g, vaultKey, nonce, payload, nonces, content)
    requires move.SeekTo? ==> IsInt64(move.to)
    modifies reader
    ensures reader.Valid()
    ensures (outcome, reader.offset) == Expected(content, old(reader.offset), move)
  {
    hide Body, Loaded, SealedHeader, OpenedHeader, FileSize, Encrypted, ReadFrom, ChunkOf;
    match move {
      case SeekTo(to, whence) =>
        var sought := reader.Seek(to, whence);
        outcome := if sought.Ok? then Arrived(sought.value) else Failed(sought.error);
      case ReadInto(room) =>
        if reader.offset < |content| {
          LoadsWhatWasWritten(reader.g, vaultKey, nonce, payload, nonces, content, reader.offset / 32768);
          PieceOfChunk(content, reader.offset, room);
        }
        var piece := reader.Read(room);
        outcome := if piece.Ok? then Got(piece.value) else Failed(piece.error);
    }
  }

  /** Seeking goes to an offset, so far on from here, or so far before the end, which gives the last bytes. */
  lemma SeekLands(content: bytes, offset: nat, to: nat)
    requires |content| < 0x4000_0000_0000_0000 && offset < 0x4000_0000_0000_0000 && to < 0x4000_0000_0000_0000
    ensures Expected(content, offset, SeekTo(to, 0)) == (Arrived(to), to)
    ensures Expected(content, offset, SeekTo(to, 1)) == (Arrived(offset + to), offset + to)
    ensures to <= |content| ==>
              Expected(content, offset, SeekTo(0 - to, 2)) == (Arrived(|content| - to), |content| - to)
    ensures to > |content| ==> Expected(content, offset, SeekTo(0 - to, 2)) == (Failed(BeforeStart), offset)
  {
  }

  /** What reading on to the end gives, in pieces of at most room bytes. */
  function ReadOn(content: bytes, offset: nat, room: nat): bytes
    requires room > 0 && offset <= |content|
    decreases |content| - offset
  {
    if offset == |content| then []
    else ReadFrom(content, offset, room) + ReadOn(content, offset + |ReadFrom(content, offset, room)|, room)
  }

  /** Reading on to the end gives all of the content from there. */
  lemma {:induction false} ReadingOnGivesTheRest(content: bytes, offset: nat, room: nat)
    requires room > 0 && offset <= |content|
    ensures ReadOn(content, offset, room) == content[offset..]
    decreases |content| - offset
  {
    hide ReadFrom;
    if offset < |content| {
      var n := |ReadFrom(content, offset, room)|;
      ReadingOnGivesTheRest(content, offset + n, room);
      assert content[offset..] == content[offset..offset + n] + content[offset + n..];
    }
  }

  lemma SliceOfSlice(content: bytes, a: nat, b: nat, c: nat, d: nat)
    requires a <= b <= |content| && c <= d <= b - a
    ensures content[a..b][c..d] == content[a + c..a + d]
  {
    var slice := content[a..b];
    assert forall k :: 0 <= k < d - c ==> slice[c..d][k] == slice[c + k] == content[a + c + k];
  }

  lemma PieceOfChunk(content: bytes, from: nat, room: nat)
    requires from < |content|
    ensures from / 32768 < ChunkCount(|content|)
    ensures var chunk := ChunkOf(content, from / 32768);
            var at := from % 32768;
            && at < |chunk|
            && ReadFrom(content, from, room) == chunk[at..if room < |chunk| - at then at + room else |chunk|]
  {
    var i, at := from / 32768, from % 32768;
    assert from == i * 32768 + at;
    var chunk := ChunkOf(content, i);
    var n := if room < |chunk| - at then at + room else |chunk|;
    assert chunk == content[i * 32768..i * 32768 + |chunk|];
    SliceOfSlice(content, i * 32768, i * 32768 + |chunk|, at, n);
  }

  lemma StartsWithHeader(g: Gcm, vaultKey: bytes, nonce: Nonce, payload: bytes, nonces: seq<Nonce>, content: bytes)
    requires |payload| == 40 && |nonces| == ChunkCount(|content|)
    ensures |Encrypted(g, vaultKey, nonce, payload, nonces, content)| >= 68
    ensures Encrypted(g, vaultKey, nonce, payload, nonces, content)[..68] == SealedHeader(g, vaultKey, nonce, payload)
  {
  }
}
