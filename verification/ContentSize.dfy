/** How long a file of the vault is, and how much it holds, in the 64-bit arithmetic the vault computes them in. */
module ContentSize {

  // The sizes of the format, written out below so that the arithmetic stays linear:
  //   68     the header: a nonce of 12, 8 reserved bytes, a key of 32 and a tag of 16
  //   32768  a whole chunk of the content
  //   28     what sealing adds to a chunk: a nonce of 12 and a tag of 16
  //   32796  a whole chunk, sealed

  const INT64_LIMIT := 0x8000_0000_0000_0000

  predicate IsInt64(x: int) {
    -INT64_LIMIT <= x < INT64_LIMIT
  }

  /** What a signed 64-bit sum wraps around to. */
  function Wrap(x: int): (w: int)
    ensures IsInt64(w)
    ensures IsInt64(x) ==> w == x
  {
    (x + INT64_LIMIT) % (2 * INT64_LIMIT) - INT64_LIMIT
  }

  /** Division that truncates toward zero. */
  function Quotient(x: int, d: int): int
    requires d > 0
  {
    if x >= 0 then x / d else -((-x) / d)
  }

  function CiphertextSize(cleartextSize: int): int
    requires IsInt64(cleartextSize)
  {
    if cleartextSize < 0 then -1 else
      var chunks := Quotient(Wrap(cleartextSize + 32768 - 1), 32768);
      Wrap(Wrap(68 + cleartextSize) + Wrap(chunks * 28))
  }

  function CleartextSize(ciphertextSize: int): int
    requires IsInt64(ciphertextSize)
  {
    var body := Wrap(ciphertextSize - 68);
    if body < 0 then -1 else
      var full, rest := body / 32796, body % 32796;
      if 0 < rest <= 28 then -1
      else full * 32768 + (if rest > 0 then rest - 28 else 0)
  }

  /** How many chunks n bytes are cut into. */
  function ChunkCount(n: nat): nat {
    (n + 32768 - 1) / 32768
  }

  /** How long a file that holds n bytes is, whatever its length: a header, the bytes, and what every chunk adds. */
  function FileSize(n: nat): (size: nat)
    ensures size >= 68 + n
  {
    68 + n + ChunkCount(n) * 28
  }

  /** The size is right exactly while a file can be that long at all. */
  lemma CiphertextSizeIsFileSize(n: nat)
    requires IsInt64(n)
    ensures CiphertextSize(n) == FileSize(n) <==> IsInt64(FileSize(n))
  {
  }

  lemma CleartextOfFileSize(n: nat)
    requires IsInt64(FileSize(n))
    ensures CleartextSize(FileSize(n)) == n
  {
  }

  lemma FileSizeOfCleartext(length: nat)
    requires IsInt64(length) && CleartextSize(length) >= 0
    ensures FileSize(CleartextSize(length)) == length
  {
  }

  /** CleartextSize is the inverse of FileSize, and -1 for every other length. */
  lemma CleartextSizeInvertsFileSize(length: nat, n: nat)
    requires IsInt64(length)
    ensures CleartextSize(length) == n <==> FileSize(n) == length
    ensures CleartextSize(length) >= -1
  {
    hide FileSize;
    if FileSize(n) == length {
      CleartextOfFileSize(n);
    }
    if CleartextSize(length) == n {
      FileSizeOfCleartext(length);
    }
  }

  /** The two sizes undo each other on every length that a 64-bit file has. */
  lemma SizesUndoEachOther(n: nat, length: nat)
    requires IsInt64(length) && IsInt64(n) && IsInt64(FileSize(n))
    ensures CleartextSize(CiphertextSize(n)) == n
    ensures CleartextSize(length) >= 0 ==> CiphertextSize(CleartextSize(length)) == length
  {
    CiphertextSizeIsFileSize(n);
    CleartextSizeInvertsFileSize(FileSize(n), n);
    if CleartextSize(length) >= 0 {
      CleartextSizeInvertsFileSize(length, CleartextSize(length));
      CiphertextSizeIsFileSize(CleartextSize(length));
    }
  }

  /** A negative length holds nothing, except within a header's length of the lowest number, where it wraps around. */
  lemma NegativeLengths(length: int)
    requires -INT64_LIMIT <= length < 0
    ensures CleartextSize(length) == -1 <==> length >= 68 - INT64_LIMIT
  {
  }
}
