/// Model of the connection byte buffer (code/buffer/buffer.h, code/buffer/buffer.cpp).
///
/// The storage is a resizable vector of bytes with a read cursor and a write
/// cursor.  Every byte is modelled as a `char` whose code is the byte value.
/// The C++ pointers `Peek()` and `BeginWrite()` become the indices `readPos`
/// and `writePos` into the storage.

module Buffers {

  /** Storage size of a buffer built with the default constructor argument. */
  const DefaultSize: nat := 1024

  /** Size of the stack scratch area `ReadFd` reads into after the writable tail. */
  const ScratchSize: nat := 65535

  /** The outcome of one `readv` call: the bytes the kernel delivered (none at end of stream) or an error. */
  datatype ReadOutcome = Delivered(bytes: seq<char>) | ReadFailed(errno: int)

  /** The value `readv` returns for an outcome: the byte count, or -1 on error. */
  function ReadLen(r: ReadOutcome): int
  {
    match r
    case Delivered(bytes) => |bytes|
    case ReadFailed(_) => -1
  }

  /** A storage area of `n` zero bytes, as `std::vector<char>(n)` and `bzero` leave it. */
  function Zeros(n: nat): (z: seq<char>)
    ensures |z| == n && forall k :: 0 <= k < n ==> z[k] == '\0'
  {
    seq(n, _ => '\0')
  }

  class Buffer {
    var storage: seq<char>
    var readPos: nat
    var writePos: nat

    /** The object invariant: both cursors lie inside the storage, the read cursor first. */
    ghost predicate Valid()
      reads this
    {
      readPos <= writePos <= |storage|
    }

    /** The unread bytes, between the read cursor and the write cursor. */
    function Unread(): seq<char>
      reads this
      requires Valid()
    {
      storage[readPos..writePos]
    }

    /** Number of unread bytes. */
    function ReadableBytes(): (n: nat)
      reads this
      requires Valid()
      ensures n == |Unread()|
      ensures n + WritableBytes() + PrependableBytes() == |storage|
    {
      writePos - readPos
    }

    /** Number of bytes that can be written behind the write cursor without growing. */
    function WritableBytes(): (n: nat)
      reads this
      requires Valid()
      ensures writePos + n == |storage|
    {
      |storage| - writePos
    }

    /** Number of already-read bytes in front of the read cursor, which compaction can reclaim. */
    function PrependableBytes(): (n: nat)
      reads this
      requires Valid()
      ensures n == readPos
      ensures n + |Unread()| == writePos
    {
      readPos
    }

    constructor (initBuffSize: nat := DefaultSize)
      ensures Valid()
      ensures storage == Zeros(initBuffSize) && readPos == 0 && writePos == 0
    {
      storage := Zeros(initBuffSize);
      readPos := 0;
      writePos := 0;
    }

    /** Consumes `len` unread bytes. */
    method Retrieve(len: nat)
      requires Valid() && len <= ReadableBytes()
      modifies this
      ensures Valid()
      ensures storage == old(storage) && writePos == old(writePos)
      ensures readPos == old(readPos) + len
      ensures Unread() == old(Unread())[len..]
    {
      readPos := readPos + len;
    }

    /** Consumes the unread bytes up to the storage index `end`. */
    method RetrieveUntil(end: nat)
      requires Valid() && readPos <= end <= writePos
      modifies this
      ensures Valid()
      ensures storage == old(storage) && writePos == old(writePos)
      ensures readPos == end
      ensures Unread() == old(Unread())[end - old(readPos)..]
    {
      Retrieve(end - readPos);
    }

    /** Zeroes the whole storage and puts both cursors back to the start. */
    method RetrieveAll()
      requires Valid()
      modifies this
      ensures Valid()
      ensures storage == Zeros(old(|storage|)) && readPos == 0 && writePos == 0
      ensures Unread() == []
    {
      storage := Zeros(|storage|);
      readPos := 0;
      writePos := 0;
    }

    /** Returns the unread bytes and empties the buffer. */
    method RetrieveAllToStr() returns (s: string)
      requires Valid()
      modifies this
      ensures Valid()
      ensures s == old(Unread())
      ensures storage == Zeros(old(|storage|)) && readPos == 0 && writePos == 0
    {
      s := Unread();
      RetrieveAll();
    }

    /** Declares that `len` bytes were written behind the write cursor.  The source does
        not check `len`; the model requires that the bytes fit in the storage. */
    method HasWritten(len: nat)
      requires Valid() && len <= WritableBytes()
      modifies this
      ensures Valid()
      ensures storage == old(storage) && readPos == old(readPos)
      ensures writePos == old(writePos) + len
      ensures Unread() == old(Unread()) + old(storage)[old(writePos)..old(writePos) + len]
    {
      writePos := writePos + len;
    }

    /** Makes room for `len` more bytes: reuses the already-read prefix when that is
        enough, and grows the storage to `writePos + len + 1` bytes otherwise. */
    method MakeSpace(len: nat)
      requires Valid()
      modifies this
      ensures Valid()
      ensures Unread() == old(Unread())
      ensures WritableBytes() >= len
      ensures old(WritableBytes() + PrependableBytes()) < len ==>
                && |storage| == old(writePos) + len + 1
                && storage[..old(|storage|)] == old(storage)
                && readPos == old(readPos) && writePos == old(writePos)
      ensures old(WritableBytes() + PrependableBytes()) >= len ==>
                && |storage| == old(|storage|)
                && readPos == 0 && writePos == old(ReadableBytes())
    {
      if WritableBytes() + PrependableBytes() < len {
        storage := storage + Zeros(writePos + len + 1 - |storage|);
      } else {
        var readable := ReadableBytes();
        // the unread bytes move to offset 0; the bytes behind them stay as they were
        storage := storage[readPos..writePos] + storage[readable..];
        readPos := 0;
        writePos := readPos + readable;
      }
    }

    /** Guarantees room for `len` more bytes without losing unread bytes. */
    method EnsureWriteable(len: nat)
      requires Valid()
      modifies this
      ensures Valid()
      ensures Unread() == old(Unread())
      ensures WritableBytes() >= len
      ensures old(WritableBytes()) >= len ==>
                storage == old(storage) && readPos == old(readPos) && writePos == old(writePos)
    {
      if WritableBytes() < len {
        MakeSpace(len);
      }
    }

    /** Copies `str` behind the unread bytes. */
    method Append(str: seq<char>)
      requires Valid()
      modifies this
      ensures Valid()
      ensures Unread() == old(Unread()) + str
    {
      EnsureWriteable(|str|);
      storage := storage[..writePos] + str + storage[writePos + |str|..];
      HasWritten(|str|);
    }

    /** Copies the unread bytes of another buffer, which is left unchanged. */
    method AppendBuffer(buff: Buffer)
      requires Valid() && buff.Valid() && buff != this
      modifies this
      ensures Valid()
      ensures Unread() == old(Unread()) + buff.Unread()
    {
      Append(buff.Unread());
    }

    /** Bookkeeping of `ReadFd` after the `readv` call: the kernel fills the writable tail
        first and the scratch area after it; scratch bytes are appended afterwards.
        On error the buffer is untouched and the error number is saved. */
    method ReadFd(outcome: ReadOutcome, savedErrno: int) returns (len: int, errno: int)
      requires Valid()
      modifies this
      ensures Valid()
      ensures len == ReadLen(outcome)
      ensures outcome.ReadFailed? ==>
                errno == outcome.errno
                && storage == old(storage) && readPos == old(readPos) && writePos == old(writePos)
      ensures outcome.Delivered? ==>
                errno == savedErrno && Unread() == old(Unread()) + outcome.bytes
      ensures outcome.Delivered? && len <= old(WritableBytes()) ==>
                |storage| == old(|storage|) && readPos == old(readPos) && writePos == old(writePos) + len
    {
      var writable := WritableBytes();
      len := ReadLen(outcome);
      errno := savedErrno;
      match outcome {
        case ReadFailed(e) =>
          errno := e;
        case Delivered(bytes) =>
          if len <= writable {
            storage := storage[..writePos] + bytes + storage[writePos + len..];
            writePos := writePos + len;
          } else {
            storage := storage[..writePos] + bytes[..writable];
            writePos := |storage|;
            Append(bytes[writable..]);
            assert bytes == bytes[..writable] + bytes[writable..];
          }
      }
    }

    /** Bookkeeping of `WriteFd` after the `write` call, which returned `ret`:
        on success the read cursor advances by the bytes written. */
    method WriteFd(ret: int, kernelErrno: int, savedErrno: int) returns (len: int, errno: int)
      requires Valid() && ret <= ReadableBytes()
      modifies this
      ensures Valid() && len == ret
      ensures storage == old(storage) && writePos == old(writePos)
      ensures ret < 0 ==> errno == kernelErrno && readPos == old(readPos)
      ensures ret >= 0 ==> errno == savedErrno && Unread() == old(Unread())[ret..]
    {
      len := ret;
      errno := savedErrno;
      if len < 0 {
        errno := kernelErrno;
        return;
      }
      readPos := readPos + len;
    }
  }
}
