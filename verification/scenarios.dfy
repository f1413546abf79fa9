/**
 * The add-on driving the two libraries of the repository: the by-value library
 * that exports `exchange`, and the in-place library that exports `exchange_inplace`.
 */
module Scenarios {
  import opened Bytes
  import opened Outcomes
  import opened Abi
  import opened Addon
  import LegacyLibrary
  import InPlaceLibrary

  /** The by-value library's image; `mallocOk` says whether its allocation succeeds. */
  function LegacyImage(mallocOk: bool): Library {
    Library(
      {"exchange"},
      input => LegacyLibrary.Exchange(input, mallocOk),
      (buffer: seq<byte>, size: nat) requires size <= |buffer| => InPlace(buffer, 0))
  }

  /** The in-place library's image. */
  function InPlaceImage(): Library {
    Library(
      {"exchange_inplace"},
      input => RetData(Null, 0, NullRelease),
      (buffer: seq<byte>, size: nat) requires size <= |buffer| => InPlaceLibrary.ExchangeInplace(buffer, size))
  }

  /**
   * A platform where only the file named by `path` (up to any NUL) opens, always
   * to the same handle, holding `lib`.
   */
  function Installed(path: string, lib: Library): Platform {
    Platform(q => if q == CPath(path) then Some(Handle(1)) else None, h => lib)
  }

  /** Both libraries keep the interface the add-on relies on. */
  lemma ImagesConform(mallocOk: bool, path: string)
    ensures Sound(Installed(path, LegacyImage(mallocOk)))
    ensures Sound(Installed(path, InPlaceImage()))
  {
  }

  /** The state once an installed library is loaded. */
  const Loaded := State(Some(Handle(1)))

  /** Loading the installed path opens it and reaches `Loaded`. */
  lemma LoadReachesLoaded(path: string, lib: Library)
    ensures LoadDyLib(Unloaded, Installed(path, lib), [JsString(path)])
         == Step(Loaded, Ok(Undefined), [DlOpen(CPath(path), Some(Handle(1)))])
  {
  }

  /**
   * Once the in-place library is loaded, a buffer of 28 bytes or more receives the
   * reply and its NUL at offset 0, the count 28 comes back, and the rest of the
   * buffer is untouched.
   */
  lemma InPlaceWritesReply(path: string, buffer: seq<byte>)
    requires 28 <= |buffer|
    ensures Sound(Installed(path, InPlaceImage()))
    ensures var r := ExchangeDataInPlace(Loaded, Installed(path, InPlaceImage()), [JsBuffer(buffer)]);
      && r.reply.Ok?
      && r.reply.value.count == 28
      && r.reply.value.buffer[..28] == InPlaceLibrary.ReplyBytes
      && r.reply.value.buffer[28..] == buffer[28..]
  {
    InPlaceReplyIsCallee(path, buffer);
    InPlaceLibrary.WholeBufferCall(buffer);
  }

  /** With the in-place library loaded, the add-on hands back exactly what `exchange_inplace` produced. */
  lemma InPlaceReplyIsCallee(path: string, buffer: seq<byte>)
    ensures Sound(Installed(path, InPlaceImage()))
    ensures var out := InPlaceLibrary.ExchangeInplace(buffer, |buffer|);
      ExchangeDataInPlace(Loaded, Installed(path, InPlaceImage()), [JsBuffer(buffer)]).reply
        == Ok(Written(out.buffer, out.written))
  {
    ImagesConform(false, path);
    var p := Installed(path, InPlaceImage());
    assert "exchange_inplace" in p.image(Handle(1)).exports;
    assert p.image(Handle(1)).exchangeInplace(buffer, |buffer|) == InPlaceLibrary.ExchangeInplace(buffer, |buffer|);
  }

  /** Once the in-place library is loaded, a buffer under 28 bytes comes back unchanged with count 0. */
  lemma InPlaceTooSmall(path: string, buffer: seq<byte>)
    requires |buffer| < 28
    ensures Sound(Installed(path, InPlaceImage()))
    ensures ExchangeDataInPlace(Loaded, Installed(path, InPlaceImage()), [JsBuffer(buffer)]).reply
         == Ok(Written(buffer, 0))
  {
    ImagesConform(false, path);
  }

  /**
   * Once the by-value library is loaded and its allocation succeeds, the caller
   * receives the greeting, its own bytes verbatim and the terminator, and the
   * library's block is released exactly once.
   */
  lemma ByValueEchoes(path: string, input: seq<byte>)
    ensures Sound(Installed(path, LegacyImage(true)))
    ensures var r := ExchangeData(Loaded, Installed(path, LegacyImage(true)), [JsBuffer(input)]);
      && r.reply.Ok?
      && r.reply.value == Buffer(LegacyLibrary.GreetingText + input + [NUL])
      && LegacyLibrary.ParseResponse(r.reply.value.data) == Some(input)
      && Releases(r.trace) == 1
  {
    ImagesConform(true, path);
    LegacyLibrary.ResponseRoundTrip(input);
    LegacyLibrary.ResponseLayout(input);
  }

  /** When the by-value library cannot allocate, the call throws and nothing is released. */
  lemma ByValueAllocationFails(path: string, input: seq<byte>)
    ensures Sound(Installed(path, LegacyImage(false)))
    ensures var r := ExchangeData(Loaded, Installed(path, LegacyImage(false)), [JsBuffer(input)]);
      && r.reply == Err(NullData)
      && Releases(r.trace) == 0
  {
    ImagesConform(false, path);
  }

  /** Asking the by-value library for the in-place entry point fails without entering the library. */
  lemma WrongLibraryForInPlace(path: string, buffer: seq<byte>)
    ensures Sound(Installed(path, LegacyImage(true)))
    ensures var r := ExchangeDataInPlace(Loaded, Installed(path, LegacyImage(true)), [JsBuffer(buffer)]);
      && r.reply == Err(SymbolMissing("exchange_inplace"))
      && !Invoked(r.trace)
  {
    ImagesConform(true, path);
  }

  /**
   * Loading a path where nothing is installed fails and leaves the add-on
   * unloaded; the path compared is the string up to its first NUL.
   */
  lemma LoadMissingPath(path: string, other: string, lib: Library)
    requires CPath(other) != CPath(path)
    ensures var r := LoadDyLib(Unloaded, Installed(path, lib), [JsString(other)]);
      && r.reply == Err(OpenFailed(other))
      && r.after == Unloaded
  {
  }

  /**
   * Characters after a NUL in the JavaScript string never reach the loader: the
   * installed library is opened whatever follows the NUL.
   */
  lemma LoadStopsAtNul(path: string, tail: string, lib: Library)
    requires '\0' !in path
    ensures var r := LoadDyLib(Unloaded, Installed(path, lib), [JsString(path + "\0" + tail)]);
      && r.reply == Ok(Undefined)
      && r.after.handle.Some?
  {
    assert path + "\0" + tail == path + ("\0" + tail);
    CPathOfPrefix(path, "\0" + tail);
  }

  /** A NUL-free text followed by a NUL is exactly what the loader sees. */
  lemma {:induction false} CPathOfPrefix(text: string, rest: string)
    requires '\0' !in text
    requires rest != [] && rest[0] == '\0'
    ensures CPath(text + rest) == text
    decreases |text|
  {
    if text == [] {
      assert text + rest == rest;
    } else {
      assert (text + rest)[1..] == text[1..] + rest;
      CPathOfPrefix(text[1..], rest);
    }
  }

  /**
   * A load with no argument (as the first demo page issues it) throws the path
   * type error and stays unloaded, whatever the platform would have opened.
   */
  lemma LoadWithoutArgument(p: Platform)
    ensures var r := LoadDyLib(Unloaded, p, []);
      && r.reply.Err?
      && IsTypeError(r.reply.error)
      && Message(r.reply.error) == "String path expected as first argument"
      && r.after == Unloaded
      && r.trace == []
  {
  }
}
