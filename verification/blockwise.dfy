/**
 * The block-wise CoAP resources of the node that serve a protocol-buffer
 * encoding in chunks (res_config.c and res_sample.c). A client asks for the
 * block at byte `offset` with a preferred block size; the handler sends the
 * rest of the encoding when it fits, with `*offset` set to -1 to mark the
 * last block, and otherwise a block of the preferred size, advancing the
 * offset by that size. `buffer_len` is a uint8_t.
 */
module Blockwise {
  import opened Wrappers

  /** The response codes the handlers set; `Content` is the default 2.05. */
  datatype Status = Content | Changed | BadRequest | InternalServerError | RequestEntityTooLarge

  /** One block: its length as the uint8_t `buffer_len` holds it, and the offset the handler hands back. */
  datatype Block = Block(len: nat, next: int)

  /** The values of a uint8_t. */
  const ByteRange := 0x100

  /**
   * The block at `offset` of `written` encoded bytes (res_config.c lines
   * 66-81, res_sample.c lines 46-61). When the preferred size is below 256,
   * a block ends exactly where the next one starts, and the last block ends
   * at the end of the encoding.
   */
  function NextBlock(written: nat, offset: nat, preferred: nat): (b: Block)
    requires offset <= written
    ensures b.len < ByteRange && offset + b.len <= written
    ensures b.next == -1 || offset <= b.next < written
    ensures preferred > 0 && b.next != -1 ==> offset < b.next
    ensures preferred < ByteRange && b.next == -1 ==> offset + b.len == written
    ensures preferred < ByteRange && b.next != -1 ==> offset + b.len == b.next
  {
    if written - offset <= preferred then Block((written - offset) % ByteRange, -1)
    else Block(preferred % ByteRange, offset + preferred)
  }

  /** The bytes of the block at `offset` when they are copied from that offset, as res_config.c does (lines 50, 83). */
  function Payload(enc: seq<bv8>, offset: nat, preferred: nat): (p: seq<bv8>)
    requires offset <= |enc|
    ensures |p| == NextBlock(|enc|, offset, preferred).len
    ensures enc[offset..] == p + enc[offset + |p|..]
  {
    enc[offset..offset + NextBlock(|enc|, offset, preferred).len]
  }

  /** What a client collects by asking for the block at `offset` and then at each offset handed back, until -1. */
  function Transfer(enc: seq<bv8>, offset: nat, preferred: nat): seq<bv8>
    requires offset <= |enc| && preferred > 0
    decreases |enc| - offset
  {
    var b := NextBlock(|enc|, offset, preferred);
    if b.next == -1 then Payload(enc, offset, preferred)
    else Payload(enc, offset, preferred) + Transfer(enc, b.next, preferred)
  }

  /** The blocks tile the encoding: a whole transfer delivers every byte from the first offset on, in order. */
  lemma {:induction false} TransferTiles(enc: seq<bv8>, offset: nat, preferred: nat)
    requires offset <= |enc| && 0 < preferred < ByteRange
    ensures Transfer(enc, offset, preferred) == enc[offset..]
    decreases |enc| - offset
  {
    var b := NextBlock(|enc|, offset, preferred);
    if b.next != -1 {
      TransferTiles(enc, b.next, preferred);
      assert enc[offset..] == Payload(enc, offset, preferred) + enc[b.next..];
    }
  }

  /**
   * The block res_sample.c serves (lines 46-61) when the offset may lie past
   * the encoding: `bytes_written - *offset` is computed on the unsigned
   * size_t, taken to be 32 bits wide as on the CC2538, so a past-the-end
   * offset wraps to a huge difference and takes the branch of a full
   * preferred-size block.
   */
  function SampleBlock(written: nat, offset: nat, preferred: nat): (b: Block)
    ensures offset <= written ==> b == NextBlock(written, offset, preferred)
    ensures offset > written ==> b.len < ByteRange && offset <= b.next && (preferred > 0 ==> offset < b.next)
  {
    if offset <= written then NextBlock(written, offset, preferred)
    else Block(preferred % ByteRange, offset + preferred)
  }

  /** The offset res_sample.c copies from (line 63): the handed-back offset, read after the update. */
  function SampleCopyStartAsWritten(enc: seq<bv8>, offset: nat, preferred: nat): (start: int)
    requires offset <= |enc|
    ensures NextBlock(|enc|, offset, preferred).next == -1 ==> start == -1
    ensures preferred > 0 && NextBlock(|enc|, offset, preferred).next != -1 ==> start > offset
  {
    NextBlock(|enc|, offset, preferred).next
  }

  /**
   * The bytes res_sample.c sends as written, when they lie inside the
   * encoding; `None` when the copy reads before the buffer or past the
   * encoded bytes.
   */
  function SamplePayloadAsWritten(enc: seq<bv8>, offset: nat, preferred: nat): (p: Option<seq<bv8>>)
    requires offset <= |enc|
    ensures NextBlock(|enc|, offset, preferred).next == -1 ==> p.None?
    ensures p.Some? ==> |p.value| == NextBlock(|enc|, offset, preferred).len
  {
    var start := SampleCopyStartAsWritten(enc, offset, preferred);
    var len := NextBlock(|enc|, offset, preferred).len;
    if 0 <= start && start + len <= |enc| then Some(enc[start..start + len]) else None
  }

  /**
   * A 100-byte sample fetched in blocks of 64: the first block as written
   * copies from byte 64, not 0, and runs past the encoding; the last block
   * copies from byte -1. Copying from the requested offset gives bytes 0-63
   * and then 64-99.
   */
  lemma SampleBlocksAsWritten(enc: seq<bv8>)
    requires |enc| == 100
    ensures SampleCopyStartAsWritten(enc, 0, 64) == 64 && SamplePayloadAsWritten(enc, 0, 64).None?
    ensures SampleCopyStartAsWritten(enc, 64, 64) == -1 && SamplePayloadAsWritten(enc, 64, 64).None?
    ensures Payload(enc, 0, 64) == enc[..64] && Payload(enc, 64, 64) == enc[64..]
  {
  }

  /** The static state of res_config.c: the encoding buffer, its fill level and the configuration. */
  class ConfigResource {
    /** SensorConfig_size, fixed by the protocol description. */
    const capacity: nat
    /** pb_buffer. */
    const pbBuffer: array<bv8>
    /** buffer_len, a uint8_t. */
    var bufferLen: nat
    /** config, held as its length-delimited encoding. */
    var config: seq<bv8>

    predicate Valid()
      reads this
    {
      pbBuffer.Length == capacity && bufferLen < ByteRange && |config| <= capacity
    }

    constructor (capacity: nat)
      ensures Valid() && this.capacity == capacity && fresh(pbBuffer)
      ensures bufferLen == 0 && config == []
    {
      this.capacity := capacity;
      pbBuffer := new bv8[capacity](_ => 0);
      bufferLen := 0;
      config := [];
    }

    /**
     * res_get_handler (lines 44-87). At offset 0 the configuration is
     * loaded from the store (`loaded`; `None` when that fails, which is a
     * 500); later blocks serve the configuration held since then. The
     * encoding is written into pb_buffer and the block at the requested
     * offset is copied to `buffer`.
     */
    method Get(offset: nat, preferred: nat, buffer: array<bv8>, loaded: Option<seq<bv8>>) returns (status: Status, next: int)
      requires Valid() && buffer != pbBuffer && preferred <= buffer.Length
      requires offset == 0 && loaded.Some? ==> |loaded.value| <= capacity
      requires offset != 0 ==> offset <= |config|
      modifies this, pbBuffer, buffer
      ensures Valid()
      ensures offset == 0 && loaded.None? ==>
        status == InternalServerError && next == offset
        && config == old(config) && bufferLen == old(bufferLen)
        && pbBuffer[..] == old(pbBuffer[..]) && buffer[..] == old(buffer[..])
      ensures !(offset == 0 && loaded.None?) ==>
        status == Content
        && config == (if offset == 0 then loaded.value else old(config))
        && pbBuffer[..|config|] == config
        && bufferLen == NextBlock(|config|, offset, preferred).len
        && next == NextBlock(|config|, offset, preferred).next
        && buffer[..bufferLen] == Payload(config, offset, preferred)
    {
      if offset == 0 && loaded.None? {
        return InternalServerError, offset;
      }
      if offset == 0 {
        config := loaded.value;
      }
      var enc := config;
      forall i | 0 <= i < |enc| {
        pbBuffer[i] := enc[i];
      }
      var b := NextBlock(|enc|, offset, preferred);
      bufferLen := b.len;
      next := b.next;
      forall i | 0 <= i < bufferLen {
        buffer[i] := pbBuffer[offset + i];
      }
      status := Content;
    }

    /**
     * res_post_handler (lines 89-150). `payload` is the block's payload,
     * `num` and `size` its block1 number and size, `more` its block1 more
     * flag. The payload is stored at num * size; on the last block the
     * assembled bytes are decoded with `decode` and the result saved with
     * the store's verdict `saved`.
     */
    method Post(payload: seq<bv8>, num: nat, size: nat, more: bool, decode: seq<bv8> -> Option<seq<bv8>>, saved: bool)
      returns (status: Status)
      requires Valid()
      requires forall bytes :: decode(bytes).Some? ==> |decode(bytes).value| <= capacity
      modifies this, pbBuffer
      ensures Valid()
      ensures payload == [] ==> status == BadRequest
      ensures payload != [] && num * size + |payload| > capacity ==> status == RequestEntityTooLarge
      ensures payload == [] || num * size + |payload| > capacity ==>
        bufferLen == old(bufferLen) && config == old(config) && pbBuffer[..] == old(pbBuffer[..])
      ensures payload != [] && num * size + |payload| <= capacity ==>
        var at := num * size;
        pbBuffer[..] == old(pbBuffer[..])[..at] + payload + old(pbBuffer[..])[at + |payload|..]
        && bufferLen == (at + |payload|) % ByteRange
        && (more ==> status == Changed && config == old(config))
        && (!more ==> match decode(pbBuffer[..bufferLen])
            case None => status == BadRequest && config == old(config)
            case Some(c) => config == c && status == (if saved then Changed else InternalServerError))
    {
      if payload == [] {
        return BadRequest;
      }
      var at := num * size;
      if at + |payload| > capacity {
        return RequestEntityTooLarge;
      }
      forall i | 0 <= i < |payload| {
        pbBuffer[at + i] := payload[i];
      }
      assert pbBuffer[..] == old(pbBuffer[..])[..at] + payload + old(pbBuffer[..])[at + |payload|..];
      bufferLen := (at + |payload|) % ByteRange;
      if !more {
        var decoded := decode(pbBuffer[..bufferLen]);
        if decoded.None? {
          return BadRequest;
        }
        config := decoded.value;
        if !saved {
          return InternalServerError;
        }
      }
      status := Changed;
    }
  }

  /** The static state of res_sample.c's handler: the encoding buffer and its fill level. */
  class SampleResource {
    /** Sample_size, the largest encoded sample. */
    const capacity: nat
    /** pb_buffer. */
    const pbBuffer: array<bv8>
    /** buffer_len, a uint8_t. */
    var bufferLen: nat

    predicate Valid()
      reads this
    {
      pbBuffer.Length == capacity && bufferLen < ByteRange
    }

    constructor (capacity: nat)
      ensures Valid() && this.capacity == capacity && fresh(pbBuffer) && bufferLen == 0
    {
      this.capacity := capacity;
      pbBuffer := new bv8[capacity](_ => 0);
      bufferLen := 0;
    }

    /**
     * res_get_handler (lines 25-67) with the copy taken from the requested
     * offset. The newest sample is read from the store on every block
     * (`latest`, its encoding; `None` when reading it fails, which is a 500).
     * A sample that shrank since the previous block leaves the offset past
     * its encoding; the block then holds stale bytes of pb_buffer.
     */
    method Get(offset: nat, preferred: nat, buffer: array<bv8>, latest: Option<seq<bv8>>) returns (status: Status, next: int)
      requires Valid() && buffer != pbBuffer && preferred <= buffer.Length
      requires latest.Some? ==> |latest.value| <= capacity
      requires latest.Some? ==> offset + SampleBlock(|latest.value|, offset, preferred).len <= capacity
      modifies this, pbBuffer, buffer
      ensures Valid()
      ensures latest.None? ==>
        status == InternalServerError && next == offset
        && bufferLen == old(bufferLen) && pbBuffer[..] == old(pbBuffer[..]) && buffer[..] == old(buffer[..])
      ensures latest.Some? ==>
        status == Content
        && pbBuffer[..|latest.value|] == latest.value
        && pbBuffer[|latest.value|..] == old(pbBuffer[|latest.value|..])
        && bufferLen == SampleBlock(|latest.value|, offset, preferred).len
        && next == SampleBlock(|latest.value|, offset, preferred).next
        && buffer[..bufferLen] == pbBuffer[offset..offset + bufferLen]
      ensures latest.Some? && offset <= |latest.value| ==> buffer[..bufferLen] == Payload(latest.value, offset, preferred)
    {
      if latest.None? {
        return InternalServerError, offset;
      }
      var enc := latest.value;
      forall i | 0 <= i < |enc| {
        pbBuffer[i] := enc[i];
      }
      var b := SampleBlock(|enc|, offset, preferred);
      bufferLen := b.len;
      next := b.next;
      forall i | 0 <= i < bufferLen {
        buffer[i] := pbBuffer[offset + i];
      }
      status := Content;
    }
  }
}
