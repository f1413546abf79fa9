/**
 * The in-place library (`exchange_inplace`): it writes a fixed NUL-terminated
 * greeting at the start of the caller's buffer when the buffer is large enough,
 * and otherwise leaves the buffer alone and reports 0.
 */
module InPlaceLibrary {
  import opened Bytes
  import opened Abi

  /** The text written into the caller's buffer, without its terminator. */
  const Reply: string := "Hello from dlib (in-place)!"

  /** The reply as the bytes of the C++ string. */
  const ReplyText: seq<byte> := Ascii(Reply)

  /** The bytes the callee writes: the reply text and its NUL. */
  const ReplyBytes: seq<byte> := CStr(ReplyText)

  /** The reply is 27 characters, so 28 bytes are written, the last one the only NUL. */
  lemma ReplyLayout()
    ensures |ReplyText| == 27
    ensures |ReplyBytes| == 28
    ensures ReplyBytes[..27] == ReplyText
    ensures ReplyBytes[27] == NUL
    ensures NulFree(ReplyText)
  {
  }

  /**
   * `exchange_inplace(in_out_data, buffer_size)`: when `buffer_size` leaves no
   * room for the reply and its terminator, nothing is written and 0 is returned;
   * otherwise the reply and its NUL are copied to offset 0 and their length is
   * returned. `buffer_size` must not exceed the memory behind the pointer.
   */
  function ExchangeInplace(inOut: seq<byte>, bufferSize: nat): (r: InPlace)
    requires bufferSize <= |inOut|
    ensures |r.buffer| == |inOut|
    ensures r.written <= bufferSize
    ensures r.written == 0 || r.written == 28
    ensures r.written == 28 <==> 28 <= bufferSize
    ensures r.written == 0 ==> r.buffer == inOut
    ensures r.written == 28 ==> r.buffer[..28] == ReplyBytes
    ensures forall i | 28 <= i < |inOut| :: r.buffer[i] == inOut[i]
    ensures 28 <= |inOut| ==> r.buffer[28..] == inOut[28..]
  {
    ReplyLayout();
    if bufferSize < |ReplyText| + 1 then
      InPlace(inOut, 0)
    else
      // memcpy of length() + 1 bytes of c_str(): the text and its terminator
      MemcpySlices(inOut, ReplyBytes, |ReplyText| + 1);
      assert Memcpy(inOut, ReplyBytes, 28)[28..] == inOut[28..];
      InPlace(Memcpy(inOut, ReplyBytes, |ReplyText| + 1), |ReplyText| + 1)
  }

  /** The capacity boundary: 27 bytes are refused, 28 bytes are enough. */
  lemma CapacityBoundary(inOut: seq<byte>)
    requires 28 <= |inOut|
    ensures ExchangeInplace(inOut, 27) == InPlace(inOut, 0)
    ensures ExchangeInplace(inOut, 28).written == 28
  {
  }

  /** Called with the whole of a buffer of 28 bytes or more, as the add-on calls it. */
  lemma WholeBufferCall(buffer: seq<byte>)
    requires 28 <= |buffer|
    ensures ExchangeInplace(buffer, |buffer|).written == 28
    ensures ExchangeInplace(buffer, |buffer|).buffer[..28] == ReplyBytes
    ensures ExchangeInplace(buffer, |buffer|).buffer[28..] == buffer[28..]
  {
  }

  /** The outcome ignores what the first 28 bytes held before the call. */
  lemma IgnoresPriorContents(a: seq<byte>, b: seq<byte>, bufferSize: nat)
    requires bufferSize <= |a| == |b|
    requires 28 <= bufferSize
    requires a[28..] == b[28..]
    ensures ExchangeInplace(a, bufferSize) == ExchangeInplace(b, bufferSize)
  {
    var ra := ExchangeInplace(a, bufferSize);
    var rb := ExchangeInplace(b, bufferSize);
    assert forall i | 0 <= i < |a| :: ra.buffer[i] == rb.buffer[i] by {
      forall i | 0 <= i < |a|
        ensures ra.buffer[i] == rb.buffer[i]
      {
        if i < 28 {
          assert ra.buffer[i] == ra.buffer[..28][i] == rb.buffer[..28][i] == rb.buffer[i];
        } else {
          assert a[i] == a[28..][i - 28] == b[28..][i - 28] == b[i];
        }
      }
    }
    assert ra.buffer == rb.buffer;
  }

  /** Calling again on the buffer the first call produced changes nothing. */
  lemma Idempotent(inOut: seq<byte>, bufferSize: nat)
    requires bufferSize <= |inOut|
    ensures ExchangeInplace(ExchangeInplace(inOut, bufferSize).buffer, bufferSize)
         == ExchangeInplace(inOut, bufferSize)
  {
    if 28 <= bufferSize {
      var once := ExchangeInplace(inOut, bufferSize);
      IgnoresPriorContents(once.buffer, inOut, bufferSize);
    }
  }

  /**
   * A successful call leaves a C string at the buffer's start that reads back as
   * the reply text, and the returned count covers that text and its terminator.
   */
  lemma WrittenReadsBack(inOut: seq<byte>, bufferSize: nat)
    requires bufferSize <= |inOut|
    requires 28 <= bufferSize
    ensures StrLen(ExchangeInplace(inOut, bufferSize).buffer) == 27
    ensures ExchangeInplace(inOut, bufferSize).buffer[..27] == ReplyText
  {
    ReplyPrefixReadsBack(ExchangeInplace(inOut, bufferSize).buffer);
  }

  /** Any buffer starting with the reply bytes holds the reply text as its C string. */
  lemma ReplyPrefixReadsBack(b: seq<byte>)
    requires 28 <= |b| && b[..28] == ReplyBytes
    ensures StrLen(b) == 27
    ensures b[..27] == ReplyText
  {
    ReplyLayout();
    assert b[..27] == ReplyBytes[..27];
    assert b[27] == ReplyBytes[27];
    StrLenPrefix(b, 27);
  }
}
