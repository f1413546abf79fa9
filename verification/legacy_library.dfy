/**
 * The by-value library (`exchange` and `release_data`): it answers with a freshly
 * allocated block holding a greeting followed by the caller's bytes, and hands the
 * caller a callback that frees that block.
 */
module LegacyLibrary {
  import opened Bytes
  import opened Outcomes
  import opened Abi

  /** The text `exchange` puts in front of the caller's bytes. */
  const Greeting: string := "Hello from the dynamic library! You sent: "

  /** The greeting as the bytes of the C++ string. */
  const GreetingText: seq<byte> := Ascii(Greeting)

  /** A block may be handed to `free`: it is null, or still owned by the library. */
  predicate Releasable(b: Block) {
    b.Block? ==> b.owner == OwnedByLib
  }

  /**
   * `release_data`: a null pointer is left alone; a live block is freed. Freeing
   * a block twice is undefined in C, so the precondition excludes it, and the
   * result says a freed block can never be released again.
   */
  function ReleaseData(b: Block): (r: Block)
    requires Releasable(b)
    ensures b.Null? ==> r == Null
    ensures b.Block? ==> r.Block? && r.bytes == b.bytes && r.owner == Freed
    ensures b.Block? ==> !Releasable(r)
  {
    match b
    case Null => Null
    case Block(bytes, _) => Block(bytes, Freed)
  }

  /**
   * `exchange(data, data_size)`: builds the greeting followed by the `data_size`
   * input bytes (embedded NULs included), and, when `malloc` succeeds (`mallocOk`),
   * returns a copy of that string with its terminator; otherwise a null block of
   * size 0. The release callback is `release_data` either way.
   */
  function Exchange(input: seq<byte>, mallocOk: bool): (r: RetData)
    ensures WellFormed(r)
    ensures r.release == ReleaseDataFn
    ensures !mallocOk ==> r.data == Null && r.dataSize == 0
    ensures mallocOk ==> r.data.Block? && r.data.owner == OwnedByLib
    ensures mallocOk ==> r.dataSize == |r.data.bytes| == 42 + |input| + 1
    ensures mallocOk ==> r.data.bytes[..42] == GreetingText
    ensures mallocOk ==> r.data.bytes[42..42 + |input|] == input
    ensures mallocOk ==> r.data.bytes[42 + |input|] == NUL
  {
    var response := GreetingText + input;
    if mallocOk then
      // malloc(length + 1), then memcpy of all length + 1 bytes of c_str()
      RetData(Block(CStr(response), OwnedByLib), |response| + 1, ReleaseDataFn)
    else
      RetData(Null, 0, ReleaseDataFn)
  }

  /**
   * Reads a response back: the bytes between the greeting and the final NUL, or
   * `None` when the bytes do not have that shape.
   */
  function ParseResponse(bytes: seq<byte>): (r: Option<seq<byte>>)
  {
    if 43 <= |bytes| && bytes[..42] == GreetingText && bytes[|bytes| - 1] == NUL
    then Some(bytes[42..|bytes| - 1])
    else None
  }

  /** Whatever the caller sends comes back verbatim inside the response. */
  lemma ResponseRoundTrip(input: seq<byte>)
    ensures Exchange(input, true).data.Block?
    ensures ParseResponse(Exchange(input, true).data.bytes) == Some(input)
  {
  }

  /**
   * `release_data` is the partner of `exchange`: whatever `exchange` returns may be
   * released once; a block keeps its response and is freed, null stays null,
   * and a second release is excluded.
   */
  lemma ExchangeThenRelease(input: seq<byte>, mallocOk: bool)
    ensures Releasable(Exchange(input, mallocOk).data)
    ensures var freed := ReleaseData(Exchange(input, mallocOk).data);
      && (mallocOk ==> freed.Block? && ParseResponse(freed.bytes) == Some(input) && !Releasable(freed))
      && (!mallocOk ==> freed == Null)
  {
    if mallocOk {
      ResponseRoundTrip(input);
    }
  }

  /** Different inputs give different responses: the response determines what was sent. */
  lemma ResponseInjective(a: seq<byte>, b: seq<byte>)
    requires Exchange(a, true).data.bytes == Exchange(b, true).data.bytes
    ensures a == b
  {
    ResponseRoundTrip(a);
    ResponseRoundTrip(b);
  }

  /**
   * The size reported is the copied length, not the C string length: an embedded
   * NUL in the input ends the response's C string early, while `data_size` still
   * covers every input byte.
   */
  lemma EmbeddedNulShortensCString(input: seq<byte>)
    ensures Exchange(input, true).data.Block?
    ensures StrLen(Exchange(input, true).data.bytes) == 42 + StrLen(input)
    ensures StrLen(input) <= |input| < Exchange(input, true).dataSize - 42
  {
    ResponseLayout(input);
    GreetedCStrLen(input);
  }

  /** Behind the NUL-free greeting, the C string ends where the input's does. */
  lemma GreetedCStrLen(input: seq<byte>)
    ensures StrLen(GreetingText + CStr(input)) == 42 + StrLen(input)
  {
    GreetingIsPlainText();
    StrLenAppend(GreetingText, CStr(input));
    StrLenTerminated(input);
  }

  /** The greeting is 42 bytes long and contains no terminator. */
  lemma GreetingIsPlainText()
    ensures |GreetingText| == 42
    ensures NulFree(GreetingText)
  {
  }

  /** A successful response is the greeting, the input, and one NUL. */
  lemma ResponseLayout(input: seq<byte>)
    ensures Exchange(input, true).data.bytes == GreetingText + CStr(input)
  {
  }
}
