/** Reading a compressed file at any offset from a decoder that only goes forward.  One decoder
    is shared by all handles; it starts over when the handle changes or the offset lies behind
    the data already delivered. */
module Decompress {
  import opened Bits
  import opened Common
  import M = MatchCopy

  const DICT_BUFFER_SIZE: nat := 32768
  const PAYLOAD_BUFFER_SIZE: nat := 4096

  /** A compressed file: its bytes, where the payload stands in it, what that decodes to, and
      whether it can be decoded and read without errors. */
  datatype File = File(bytes: seq<Byte>, start: nat, size: nat, stream: seq<Byte>, sound: bool, readable: bool)

  predicate FileOk(f: File) {
    f.start + f.size <= |f.bytes|
  }

  function Payload(f: File): seq<Byte>
    requires FileOk(f)
  {
    f.bytes[f.start..f.start + f.size]
  }

  /** The dictionary holds the last bytes of what was produced, wrapped around: what back
      references reach. */
  ghost predicate Window(dict: seq<Byte>, stream: seq<Byte>, produced: nat) {
    |dict| == DICT_BUFFER_SIZE && produced <= |stream| && M.Window(dict, stream[..produced])
  }

  /** Any decoder: it takes the payload in order and gives out the stream in order, each call
      as much or as little as it likes.  A call may do nothing only once the stream has
      ended, and then every later call does nothing. */
  class Decoder {
    var file: File
    var consumed: nat
    var produced: nat
    var finished: bool

    constructor (f: File)
      ensures file == f && consumed == 0 && produced == 0 && !finished
    {
      file, consumed, produced, finished := f, 0, 0, false;
    }

    /** tinfl_init */
    method Init(f: File)
      modifies this
      ensures file == f && consumed == 0 && produced == 0 && !finished
    {
      file, consumed, produced, finished := f, 0, 0, false;
    }

    /** tinfl_decompress: a negative status is an error. */
    method Decompress(input: seq<Byte>, dict: array<Byte>, next: nat, stream: seq<Byte>) returns (status: int, inSize: nat, outSize: nat)
      requires FileOk(file) && stream == file.stream && consumed + |input| <= file.size && input != []
      requires input == Payload(file)[consumed..consumed + |input|]
      requires dict.Length == DICT_BUFFER_SIZE && next == produced % DICT_BUFFER_SIZE && Window(dict[..], stream, produced)
      modifies this, dict
      ensures file == old(file)
      ensures status < 0 ==> !file.sound
      ensures status >= 0 ==> inSize <= |input| && next + outSize <= DICT_BUFFER_SIZE
      ensures status >= 0 ==> consumed == old(consumed) + inSize && produced == old(produced) + outSize
      ensures status >= 0 ==> Window(dict[..], stream, produced)
      ensures status >= 0 && inSize + outSize == 0 ==> finished
      ensures status >= 0 && finished && !old(finished) ==> produced == |stream|
      ensures old(finished) ==> status >= 0 && finished && inSize + outSize == 0
    {
      if finished {
        return 0, 0, 0;
      }
      var used: int, made: int, ends: bool := *, *, *;
      status := *;
      if status < 0 || !(0 <= used <= |input|) || !(0 <= made <= DICT_BUFFER_SIZE - next) || produced + made > |stream|
         || (ends && produced + made < |stream|) || (!ends && used + made == 0) {
        if !file.sound {
          return -1, 0, 0;
        }
        status, used, made, ends := 0, 1, 0, false;
      }
      inSize, outSize := used, made;
      Write(dict, next, stream, outSize);
      consumed, finished := consumed + inSize, ends;
    }

    /** The next bytes of the stream go to their places in the dictionary. */
    method Write(dict: array<Byte>, next: nat, stream: seq<Byte>, n: nat)
      requires dict.Length == DICT_BUFFER_SIZE && next == produced % DICT_BUFFER_SIZE && Window(dict[..], stream, produced)
      requires produced + n <= |stream| && next + n <= DICT_BUFFER_SIZE
      modifies this`produced, dict
      ensures produced == old(produced) + n && Window(dict[..], stream, produced)
    {
      hide Window;
      var k := 0;
      var p := produced;
      while k < n
        invariant k <= n && produced == p + k && Window(dict[..], stream, produced)
      {
        InRow(p, next, k);
        WindowNext(dict[..], stream, produced);
        dict[next + k] := stream[p + k];
        k := k + 1;
        produced := produced + 1;
      }
    }
  }

  lemma {:induction false} InRow(p: nat, next: nat, k: nat)
    requires next == p % DICT_BUFFER_SIZE && next + k < DICT_BUFFER_SIZE
    ensures (p + k) % DICT_BUFFER_SIZE == next + k
  {
  }

  /** One more byte in its place. */
  lemma {:induction false} WindowNext(dict: seq<Byte>, stream: seq<Byte>, p: nat)
    requires Window(dict, stream, p) && p < |stream|
    ensures Window(dict[p % DICT_BUFFER_SIZE := stream[p]], stream, p + 1)
  {
    M.WindowStep(dict, stream[..p], p % DICT_BUFFER_SIZE, stream[p]);
    assert stream[..p] + [stream[p]] == stream[..p + 1];
  }

  /** The dictionary is large enough for any distance. */
  lemma {:induction false} EveryDistance(sym: nat, extra: nat)
    requires sym < 30 && extra < Pow2(M.DIST_EXTRA[sym])
    ensures 1 <= M.MatchDistance(sym, extra) <= DICT_BUFFER_SIZE
  {
    hide Pow2;
    M.MatchDistances(sym, extra);
  }

  class Handle {
    const file: File

    constructor (file: File)
      ensures this.file == file
    {
      this.file := file;
    }
  }

  const STATUS_SUCCESS: int := 0
  const STATUS_DEVICE_ERROR: int := 1
  const STATUS_READ_ERROR: int := 2
  /** Not statuses of the source: the assertion that payload is left fails, and the loop goes
      round for ever. */
  const STATUS_END: int := 3
  const STATUS_STAYS: int := 4

  /** fs_read: it may fail, unless the file is readable. */
  method FsRead(f: File, n: nat, at: nat) returns (status: int, data: seq<Byte>)
    requires at + n <= |f.bytes|
    ensures status == STATUS_SUCCESS || (status == STATUS_READ_ERROR && !f.readable)
    ensures status == STATUS_SUCCESS ==> data == f.bytes[at..at + n]
  {
    var fails: bool := *;
    if fails && !f.readable {
      return STATUS_READ_ERROR, [];
    }
    return STATUS_SUCCESS, f.bytes[at..at + n];
  }

  /** The start of the payload block that holds offset p. */
  function BlockStart(p: nat): (b: nat)
    ensures b <= p < b + PAYLOAD_BUFFER_SIZE
  {
    p - p % PAYLOAD_BUFFER_SIZE
  }

  /** How much of the payload is in the buffer once the block of offset p has been read. */
  function BlockSize(f: File, p: nat): int {
    Min(f.size - BlockStart(p), PAYLOAD_BUFFER_SIZE)
  }

  /** The block of payload that offset p lies in is in the buffer. */
  ghost predicate Buffered(buf: seq<Byte>, f: File, p: nat)
    requires FileOk(f) && p < f.size
  {
    var b, n := BlockStart(p), BlockSize(f, p);
    |buf| == PAYLOAD_BUFFER_SIZE && buf[..n] == Payload(f)[b..b + n]
  }

  /** Some bytes of the stream from an offset on. */
  ghost predicate Part(data: seq<Byte>, stream: seq<Byte>, offset: nat) {
    data == [] || (offset + |data| <= |stream| && data == stream[offset..offset + |data|])
  }

  lemma {:induction false} PartsJoin(x: seq<Byte>, y: seq<Byte>, stream: seq<Byte>, offset: nat)
    requires Part(x, stream, offset) && Part(y, stream, offset + |x|)
    ensures Part(x + y, stream, offset)
  {
    if y == [] {
      assert x + y == x;
    } else if x == [] {
      assert x + y == y;
    } else {
      assert stream[offset..offset + |x| + |y|] == stream[offset..offset + |x|] + stream[offset + |x|..offset + |x| + |y|];
    }
  }

  class Reader {
    var current: Handle?
    var payloadOffset: nat
    var dictOffset: nat
    var dictAvail: nat
    var outputOffset: nat
    const decoder: Decoder
    const dict: array<Byte>
    const payloadBuffer: array<Byte>

    /** The state belongs to the current handle: the decoder has taken the payload up to
        payloadOffset and given out the stream up to the end of the available data. */
    ghost predicate Valid()
      reads this, decoder, dict, payloadBuffer
    {
      && dict.Length == DICT_BUFFER_SIZE && payloadBuffer.Length == PAYLOAD_BUFFER_SIZE && dict != payloadBuffer
      && (current != null ==> InStep(current.file))
    }

    ghost predicate InStep(f: File)
      requires dict.Length == DICT_BUFFER_SIZE && payloadBuffer.Length == PAYLOAD_BUFFER_SIZE
      reads this, decoder, dict, payloadBuffer
    {
      && FileOk(f) && decoder.file == f && decoder.consumed == payloadOffset <= f.size
      && decoder.produced == outputOffset + dictAvail && Window(dict[..], f.stream, decoder.produced)
      && dictOffset == outputOffset % DICT_BUFFER_SIZE && dictOffset + dictAvail <= DICT_BUFFER_SIZE
      && (decoder.finished ==> decoder.produced == |f.stream|)
      && (payloadOffset % PAYLOAD_BUFFER_SIZE != 0 && payloadOffset < f.size ==> Buffered(payloadBuffer[..], f, payloadOffset))
    }

    constructor ()
      ensures Valid() && current == null && fresh(decoder) && fresh(dict) && fresh(payloadBuffer)
    {
      current := null;
      payloadOffset, dictOffset, dictAvail, outputOffset := 0, 0, 0, 0;
      decoder := new Decoder(File([], 0, 0, [], false, false));
      dict := new Byte[DICT_BUFFER_SIZE];
      payloadBuffer := new Byte[PAYLOAD_BUFFER_SIZE];
    }

    /** Start over at the beginning of the stream. */
    method Restart(handle: Handle)
      requires Valid() && FileOk(handle.file)
      modifies this, decoder
      ensures Valid() && current == handle && outputOffset == 0 && dictAvail == 0
    {
      payloadOffset, dictOffset, dictAvail, outputOffset := 0, 0, 0, 0;
      decoder.Init(handle.file);
      current := handle;
    }

    /** decompress_close */
    method Close(handle: Handle)
      requires Valid()
      modifies this`current
      ensures Valid() && current == if old(current) == handle then null else old(current)
    {
      if current == handle {
        current := null;
      }
    }

    /** The first part of the loop: give out what is available, as far as it is wanted. */
    method Deliver(f: File, offset: nat, count: nat) returns (data: seq<Byte>)
      requires Valid() && current != null && current.file == f && outputOffset <= offset
      modifies this`dictOffset, this`outputOffset, this`dictAvail
      ensures Valid() && |data| <= count && Part(data, f.stream, offset)
      ensures outputOffset <= offset + |data|
      ensures |data| < count ==> dictAvail == 0
    {
      hide Buffered, Window, FileOk;
      data := [];
      if dictAvail > 0 {
        var skip := Min(dictAvail, offset - outputOffset);
        var size := Min(dictAvail - skip, count);
        if size > 0 {
          data := dict[dictOffset + skip..dictOffset + skip + size];
          InDictionary(dict[..], f.stream, outputOffset, dictAvail, skip, size);
        }
        OffsetMoves(outputOffset, dictOffset, skip + size);
        dictOffset := (dictOffset + skip + size) % DICT_BUFFER_SIZE;
        outputOffset := outputOffset + skip + size;
        dictAvail := dictAvail - (skip + size);
      }
    }

    /** The second part of the loop: fetch the next block of payload if it is not there yet,
        and decode some more. */
    method DecodeMore(f: File) returns (status: int)
      requires Valid() && current != null && current.file == f && dictAvail == 0
      modifies this, decoder, dict, payloadBuffer
      ensures Valid() && outputOffset == old(outputOffset)
      ensures status != STATUS_DEVICE_ERROR ==> current == old(current)
      ensures status == STATUS_SUCCESS ==> Left(f) < old(Left(f))
      ensures status != STATUS_SUCCESS ==> Failure(f, status)
    {
      hide Window, Buffered;
      if payloadOffset >= f.size {
        return STATUS_END;
      }
      var inSize := Min(f.size - payloadOffset, PAYLOAD_BUFFER_SIZE - payloadOffset % PAYLOAD_BUFFER_SIZE);
      if payloadOffset % PAYLOAD_BUFFER_SIZE == 0 {
        status := Fetch(f, inSize);
        if status != STATUS_SUCCESS {
          return;
        }
      }
      status := Decode(f, inSize);
    }

    /** tinfl_decompress on what is left of the block. */
    method Decode(f: File, inSize: nat) returns (status: int)
      requires Valid() && current != null && current.file == f && dictAvail == 0
      requires payloadOffset < f.size && Buffered(payloadBuffer[..], f, payloadOffset)
      requires inSize == Min(f.size - payloadOffset, PAYLOAD_BUFFER_SIZE - payloadOffset % PAYLOAD_BUFFER_SIZE)
      modifies this, decoder, dict
      ensures Valid() && outputOffset == old(outputOffset)
      ensures status != STATUS_DEVICE_ERROR ==> current == old(current)
      ensures status == STATUS_SUCCESS ==> Left(f) < old(Left(f))
      ensures status != STATUS_SUCCESS ==> Failure(f, status)
    {
      hide Window, Buffered;
      var at := payloadOffset % PAYLOAD_BUFFER_SIZE;
      InBuffer(payloadBuffer[..], f, payloadOffset, inSize);
      var result, used, made := decoder.Decompress(payloadBuffer[..][at..at + inSize], dict, dictOffset, f.stream);
      if result < 0 {
        current := null;
        return STATUS_DEVICE_ERROR;
      }
      BlockStays(f, payloadOffset, used, payloadBuffer[..]);
      payloadOffset := payloadOffset + used;
      dictAvail := made;
      return if used + made == 0 then STATUS_STAYS else STATUS_SUCCESS;
    }

    /** Why there is no more data: the source cannot be read, or the payload not be decoded, or
        all payload was taken, or the stream has ended before the payload. */
    ghost predicate Failure(f: File, status: int)
      reads this, decoder
    {
      if status == STATUS_READ_ERROR then !f.readable && Waiting(f)
      else if status == STATUS_DEVICE_ERROR then !f.sound && current == null
      else if status == STATUS_END then Waiting(f) && decoder.consumed == f.size
      else status == STATUS_STAYS && Waiting(f) && decoder.finished && decoder.produced == |f.stream|
    }

    /** All that was produced has been given out or skipped. */
    ghost predicate Waiting(f: File)
      reads this, decoder
    {
      current != null && current.file == f && dictAvail == 0 && decoder.produced == outputOffset
    }

    /** What the decoder has still to take and to give. */
    ghost function Left(f: File): int
      reads this, decoder
    {
      f.size - decoder.consumed + |f.stream| - decoder.produced
    }

    method Fetch(f: File, inSize: nat) returns (status: int)
      requires Valid() && current != null && current.file == f && payloadOffset < f.size && payloadOffset % PAYLOAD_BUFFER_SIZE == 0
      requires inSize == Min(f.size - payloadOffset, PAYLOAD_BUFFER_SIZE)
      modifies payloadBuffer
      ensures Valid() && (status == STATUS_SUCCESS ==> Buffered(payloadBuffer[..], f, payloadOffset))
      ensures status == STATUS_SUCCESS || (status == STATUS_READ_ERROR && !f.readable)
    {
      hide Window;
      var data;
      status, data := FsRead(f, inSize, f.start + payloadOffset);
      if status == STATUS_SUCCESS {
        forall k | 0 <= k < inSize {
          payloadBuffer[k] := data[k];
        }
        assert payloadBuffer[..][..inSize] == data;
        PayloadPart(f, payloadOffset, inSize);
      }
      assert dict[..] == old(dict[..]);
    }

    /** decompress_read: a success returns exactly the bytes asked for, whatever was read
        before from this handle or another, and a failure has its reason, found with fewer
        bytes produced than were asked for. */
    method Read(handle: Handle, count0: nat, offset0: nat) returns (status: int, buf: seq<Byte>)
      requires Valid() && FileOk(handle.file)
      modifies this, decoder, dict, payloadBuffer
      ensures Valid()
      ensures |buf| <= count0 && Part(buf, handle.file.stream, offset0)
      ensures status == STATUS_SUCCESS ==> |buf| == count0 && current == handle
      ensures status != STATUS_SUCCESS ==> Failure(handle.file, status)
      ensures status != STATUS_SUCCESS && status != STATUS_DEVICE_ERROR ==>
        current == handle && decoder.produced < offset0 + count0
    {
      var f := handle.file;
      var offset: nat, count: nat := offset0, count0;
      buf := [];
      if current != handle || offset < outputOffset {
        Restart(handle);
      }
      while true
        invariant Valid() && current == handle && outputOffset <= offset
        invariant count + |buf| == count0 && offset == offset0 + |buf| && Part(buf, f.stream, offset0)
        decreases Left(f)
      {
        var data := Deliver(f, offset, count);
        PartsJoin(buf, data, f.stream, offset0);
        buf := buf + data;
        offset := offset + |data|;
        count := count - |data|;
        if count == 0 {
          break;
        }
        status := DecodeMore(f);
        if status != STATUS_SUCCESS {
          return;
        }
      }
      status := STATUS_SUCCESS;
    }
  }

  lemma {:induction false} PayloadPart(f: File, p: nat, n: nat)
    requires FileOk(f) && p + n <= f.size
    ensures f.bytes[f.start + p..f.start + p + n] == Payload(f)[p..p + n]
  {
    var x, y := f.bytes[f.start + p..f.start + p + n], Payload(f)[p..p + n];
    forall k | 0 <= k < n ensures x[k] == y[k] {
    }
  }

  /** The part of the buffered block from p on is the payload from p on. */
  lemma {:induction false} InBuffer(buf: seq<Byte>, f: File, p: nat, n: nat)
    requires FileOk(f) && p < f.size && Buffered(buf, f, p)
    requires n == Min(f.size - p, PAYLOAD_BUFFER_SIZE - p % PAYLOAD_BUFFER_SIZE)
    ensures var at := p % PAYLOAD_BUFFER_SIZE; buf[at..at + n] == Payload(f)[p..p + n]
  {
    var at, b, m := p % PAYLOAD_BUFFER_SIZE, BlockStart(p), BlockSize(f, p);
    assert at + n == m;
    assert buf[at..at + n] == buf[..m][at..];
    assert Payload(f)[p..p + n] == Payload(f)[b..b + m][at..];
  }

  /** Going on within the block keeps it the right one. */
  lemma {:induction false} BlockStays(f: File, p: nat, used: nat, buf: seq<Byte>)
    requires FileOk(f) && p < f.size && Buffered(buf, f, p)
    requires used <= Min(f.size - p, PAYLOAD_BUFFER_SIZE - p % PAYLOAD_BUFFER_SIZE)
    ensures p + used <= f.size
    ensures (p + used) % PAYLOAD_BUFFER_SIZE != 0 && p + used < f.size ==> Buffered(buf, f, p + used)
  {
    if (p + used) % PAYLOAD_BUFFER_SIZE != 0 {
      assert BlockStart(p + used) == BlockStart(p);
    }
  }

  /** A piece of the available data is the stream at its offset. */
  lemma {:induction false} InDictionary(dict: seq<Byte>, stream: seq<Byte>, out: nat, avail: nat, skip: nat, size: nat)
    requires Window(dict, stream, out + avail) && skip + size <= avail && out % DICT_BUFFER_SIZE + avail <= DICT_BUFFER_SIZE
    ensures var at := out % DICT_BUFFER_SIZE + skip;
      out + skip + size <= |stream| && dict[at..at + size] == stream[out + skip..out + skip + size]
  {
    var at := out % DICT_BUFFER_SIZE + skip;
    var x, y := dict[at..at + size], stream[out + skip..out + skip + size];
    forall k | 0 <= k < size ensures x[k] == y[k] {
      InRow(out, out % DICT_BUFFER_SIZE, skip + k);
      assert stream[..out + avail][out + (skip + k)] == stream[out + (skip + k)];
    }
  }

  lemma {:induction false} OffsetMoves(out: nat, at: nat, n: nat)
    requires at == out % DICT_BUFFER_SIZE
    ensures (at + n) % DICT_BUFFER_SIZE == (out + n) % DICT_BUFFER_SIZE
  {
  }
}
