/**
 * The native add-on: one process-wide library handle, and the four calls that
 * load a library, unload it, and exchange bytes with it by value or in place.
 * The platform loader is an oracle; each call returns the new add-on state, what
 * JavaScript receives (a value or a thrown error), and the platform and library
 * calls it made, in order.
 */
module Addon {
  import opened Bytes
  import opened Outcomes
  import opened Abi
  import LegacyLibrary

  /** A non-null handle returned by `dlopen` / `LoadLibrary`. */
  datatype Handle = Handle(id: nat)

  /**
   * The platform loader: what opening a path yields (`None` for a null handle) and
   * the library image behind each handle. `dlsym` / `GetProcAddress` succeed
   * exactly for the image's exported names.
   */
  datatype Platform = Platform(open: string -> Option<Handle>, image: Handle -> Library)

  /** Every image the platform can hand out keeps the library interface. */
  ghost predicate Sound(p: Platform) {
    forall h :: Conforms(p.image(h))
  }

  /** The global `dylib_handle`: null when no library is loaded. */
  datatype State = State(handle: Option<Handle>)

  /** The state before any library is loaded, and after an unload. */
  const Unloaded := State(None)

  /** The JavaScript values the add-on distinguishes among its arguments. */
  datatype JsValue = JsString(text: string) | JsBuffer(bytes: seq<byte>) | JsOther

  /** What a call hands back to JavaScript when it does not throw. */
  datatype Reply =
    | Undefined
    | Buffer(data: seq<byte>)
    | Written(buffer: seq<byte>, count: nat)

  /** The errors the add-on throws. */
  datatype Error =
    | AlreadyLoaded
    | PathExpected
    | OpenFailed(path: string)
    | NotLoaded(hint: bool)
    | BufferExpected
    | SymbolMissing(symbol: string)
    | NullData

  /** Argument errors are thrown as `TypeError`, the others as `Error`. */
  predicate IsTypeError(e: Error) {
    e.PathExpected? || e.BufferExpected?
  }

  /**
   * The message each error carries; the platform's own diagnostic (`dlerror()` or
   * `GetLastError()`) that follows the colon is not modelled.
   */
  function Message(e: Error): string {
    match e
    case AlreadyLoaded => "Library already loaded"
    case PathExpected => "String path expected as first argument"
    case OpenFailed(path) => "Cannot open library at '" + path + "': "
    case NotLoaded(hint) => if hint then "Library not loaded. Call LoadDyLib first." else "Library not loaded"
    case BufferExpected => "Buffer expected"
    case SymbolMissing(symbol) => "Cannot load symbol '" + symbol + "': "
    case NullData => "Received null data from dynamic library"
  }

  /** Calls the add-on makes into the platform and into the loaded library. */
  datatype Event =
    | DlOpen(path: string, got: Option<Handle>)
    | DlClose(handle: Handle)
    | DlSym(handle: Handle, symbol: string, found: bool)
    | Invoke(handle: Handle, symbol: string)
    | CopyOut(size: nat)
    | Release(handle: Handle)

  /** The outcome of one add-on call. */
  datatype Step = Step(after: State, reply: Result<Reply, Error>, trace: seq<Event>)

  /** The first argument is a JavaScript string. */
  predicate PathGiven(args: seq<JsValue>) {
    1 <= |args| && args[0].JsString?
  }

  /** The first argument is a Node.js `Buffer`. */
  predicate BufferGiven(args: seq<JsValue>) {
    1 <= |args| && args[0].JsBuffer?
  }

  /** The library entry point was called somewhere in the trace. */
  predicate Invoked(trace: seq<Event>) {
    exists i | 0 <= i < |trace| :: trace[i].Invoke?
  }

  /** The number of release callbacks in the trace. */
  function Releases(trace: seq<Event>): nat {
    if trace == [] then 0
    else (if trace[0].Release? then 1 else 0) + Releases(trace[1..])
  }

  /** Every release callback comes after the returned bytes were copied out. */
  predicate ReleaseFollowsCopy(trace: seq<Event>) {
    forall i | 0 <= i < |trace| && trace[i].Release? ::
      exists j | 0 <= j < i :: trace[j].CopyOut?
  }

  /**
   * The path the platform loader sees: it reads `c_str()`, so the text ends at
   * the first NUL character even when the JavaScript string goes on.
   */
  function CPath(text: string): (r: string)
    ensures r <= text
    ensures '\0' !in r
    ensures |r| < |text| ==> text[|r|] == '\0'
  {
    if text == [] || text[0] == '\0' then [] else [text[0]] + CPath(text[1..])
  }

  /**
   * `LoadDyLib(path)`: refuses while a handle is held, before looking at its
   * argument; then refuses a missing or non-string path; then opens the path (up
   * to its first NUL) and stores whatever the platform returned, throwing when
   * that is null. The error message keeps the whole JavaScript string.
   */
  function LoadDyLib(s: State, p: Platform, args: seq<JsValue>): (r: Step)
    ensures s.handle.Some? ==> r == Step(s, Err(AlreadyLoaded), [])
    ensures s.handle.None? && !PathGiven(args) ==> r == Step(s, Err(PathExpected), [])
    ensures s.handle.None? && PathGiven(args) ==>
      var path := args[0].text;
      && r.trace == [DlOpen(CPath(path), p.open(CPath(path)))]
      && (p.open(CPath(path)).None? ==> r.reply == Err(OpenFailed(path)))
    ensures r.reply.Ok? <==> s.handle.None? && PathGiven(args) && p.open(CPath(args[0].text)).Some?
    ensures r.reply.Ok? ==> r.after.handle == p.open(CPath(args[0].text)) && r.reply.value == Undefined
    ensures r.reply.Err? ==> r.after == s
    ensures r.after.handle.Some? <==> s.handle.Some? || r.reply.Ok?
  {
    if s.handle.Some? then
      Step(s, Err(AlreadyLoaded), [])
    else if |args| < 1 || !args[0].JsString? then
      Step(s, Err(PathExpected), [])
    else
      var path := args[0].text;
      var got := p.open(CPath(path));
      Step(State(got), if got.None? then Err(OpenFailed(path)) else Ok(Undefined), [DlOpen(CPath(path), got)])
  }

  /** `UnloadDyLib()`: refuses when nothing is loaded; otherwise closes the handle and clears it. */
  function UnloadDyLib(s: State): (r: Step)
    ensures r.after == Unloaded
    ensures r.reply.Ok? <==> s.handle.Some?
    ensures r.reply.Err? ==> r.reply.error == NotLoaded(false) && r.trace == []
    ensures r.reply.Ok? ==> r.trace == [DlClose(s.handle.value)]
  {
    match s.handle
    case None => Step(s, Err(NotLoaded(false)), [])
    case Some(h) => Step(Unloaded, Ok(Undefined), [DlClose(h)])
  }

  /** The by-value exchange after the call: what JavaScript receives, what is left of the block, and the calls made. */
  datatype Handoff = Handoff(copy: Result<seq<byte>, Error>, block: Block, trace: seq<Event>)

  /**
   * Reads `n` bytes out of a block; only a block the library still owns may be
   * read, so a copy after the release would not be allowed.
   */
  function CopyBlock(b: Block, n: nat): (r: seq<byte>)
    requires b.Block? && b.owner == OwnedByLib && n <= |b.bytes|
    ensures |r| == n
    ensures forall i | 0 <= i < n :: r[i] == b.bytes[i]
  {
    b.bytes[..n]
  }

  /**
   * The last part of `ExchangeData`: a null block throws without releasing anything;
   * otherwise exactly `data_size` bytes are copied into a Node-owned buffer and
   * then, when the callback is non-null, the block is released once.
   */
  function TakeResult(h: Handle, ret: RetData): (o: Handoff)
    requires WellFormed(ret)
    ensures o.copy.Ok? <==> ret.data.Block?
    ensures ret.data.Null? ==> o.copy == Err(NullData) && o.trace == []
    ensures o.copy.Ok? ==> |o.copy.value| == ret.dataSize && o.copy.value == ret.data.bytes[..ret.dataSize]
    ensures Releases(o.trace) == (if ret.data.Block? && ret.release.ReleaseDataFn? then 1 else 0)
    ensures ReleaseFollowsCopy(o.trace)
    ensures o.block.Block? <==> ret.data.Block?
    ensures o.block.Block? ==> (o.block.owner == Freed <==> ret.release.ReleaseDataFn?)
  {
    if ret.data.Null? then
      Handoff(Err(NullData), Null, [])
    else
      var copy := CopyBlock(ret.data, ret.dataSize);
      match ret.release
      case ReleaseDataFn =>
        var freed := LegacyLibrary.ReleaseData(ret.data);
        var trace := [CopyOut(|copy|), Release(h)];
        assert trace[1].Release? && trace[0].CopyOut?;
        assert trace[1..][1..] == [];
        Handoff(Ok(copy), freed, trace)
      case NullRelease =>
        Handoff(Ok(copy), ret.data, [CopyOut(|copy|)])
  }

  /**
   * `ExchangeData(buffer)`: refuses when nothing is loaded, before looking at its
   * argument; then refuses a non-buffer; then resolves `exchange`, calls it with the
   * whole buffer, and hands its result over as `TakeResult` describes.
   */
  function ExchangeData(s: State, p: Platform, args: seq<JsValue>): (r: Step)
    requires Sound(p)
    ensures r.after == s
    ensures s.handle.None? ==> r.reply == Err(NotLoaded(true)) && r.trace == []
    ensures s.handle.Some? && !BufferGiven(args) ==> r.reply == Err(BufferExpected) && r.trace == []
    ensures Invoked(r.trace) <==>
      s.handle.Some? && BufferGiven(args) && "exchange" in p.image(s.handle.value).exports
    ensures s.handle.Some? && BufferGiven(args) && "exchange" !in p.image(s.handle.value).exports ==>
      r.reply == Err(SymbolMissing("exchange"))
    ensures s.handle.Some? && BufferGiven(args) && "exchange" in p.image(s.handle.value).exports ==>
      var ret := p.image(s.handle.value).exchange(args[0].bytes);
      && (r.reply.Ok? <==> ret.data.Block?)
      && (ret.data.Null? ==> r.reply == Err(NullData) && Releases(r.trace) == 0)
    ensures r.reply.Ok? ==>
      && Invoked(r.trace)
      && var ret := p.image(s.handle.value).exchange(args[0].bytes);
         && ret.data.Block?
         && r.reply.value == Buffer(ret.data.bytes[..ret.dataSize])
         && Releases(r.trace) == (if ret.release.ReleaseDataFn? then 1 else 0)
    ensures Releases(r.trace) <= 1
    ensures Releases(r.trace) == 1 ==> r.reply.Ok?
    ensures ReleaseFollowsCopy(r.trace)
  {
    match s.handle
    case None => Step(s, Err(NotLoaded(true)), [])
    case Some(h) =>
      if |args| < 1 || !args[0].JsBuffer? then
        Step(s, Err(BufferExpected), [])
      else
        var lib := p.image(h);
        if "exchange" !in lib.exports then
          Step(s, Err(SymbolMissing("exchange")), [DlSym(h, "exchange", false)])
        else
          var ret := lib.exchange(args[0].bytes);
          var o := TakeResult(h, ret);
          var trace := [DlSym(h, "exchange", true), Invoke(h, "exchange")] + o.trace;
          ReleasesAppend([DlSym(h, "exchange", true), Invoke(h, "exchange")], o.trace);
          assert trace[1].Invoke?;
          Step(s, match o.copy case Ok(bytes) => Ok(Buffer(bytes)) case Err(e) => Err(e), trace)
  }

  /**
   * `ExchangeDataInPlace(buffer)`: refuses when nothing is loaded, before looking at
   * its argument; then refuses a non-buffer; then resolves `exchange_inplace`, calls
   * it with the buffer and its full length, and returns exactly what it returned.
   */
  function ExchangeDataInPlace(s: State, p: Platform, args: seq<JsValue>): (r: Step)
    requires Sound(p)
    ensures r.after == s
    ensures s.handle.None? ==> r.reply == Err(NotLoaded(true)) && r.trace == []
    ensures s.handle.Some? && !BufferGiven(args) ==> r.reply == Err(BufferExpected) && r.trace == []
    ensures Invoked(r.trace) <==>
      s.handle.Some? && BufferGiven(args) && "exchange_inplace" in p.image(s.handle.value).exports
    ensures s.handle.Some? && BufferGiven(args) && "exchange_inplace" !in p.image(s.handle.value).exports ==>
      r.reply == Err(SymbolMissing("exchange_inplace"))
    ensures r.reply.Ok? <==> Invoked(r.trace)
    ensures r.reply.Ok? ==>
      var buffer := args[0].bytes;
      var out := p.image(s.handle.value).exchangeInplace(buffer, |buffer|);
      r.reply.value == Written(out.buffer, out.written) && |out.buffer| == |buffer|
    ensures Releases(r.trace) == 0
  {
    match s.handle
    case None => Step(s, Err(NotLoaded(true)), [])
    case Some(h) =>
      if |args| < 1 || !args[0].JsBuffer? then
        Step(s, Err(BufferExpected), [])
      else
        var lib := p.image(h);
        if "exchange_inplace" !in lib.exports then
          var trace := [DlSym(h, "exchange_inplace", false)];
          assert Releases(trace[1..]) == 0;
          Step(s, Err(SymbolMissing("exchange_inplace")), trace)
        else
          var buffer := args[0].bytes;
          var out := lib.exchangeInplace(buffer, |buffer|);
          var trace := [DlSym(h, "exchange_inplace", true), Invoke(h, "exchange_inplace")];
          assert trace[1].Invoke?;
          assert trace[1..][1..] == [];
          assert Releases(trace[1..]) == 0;
          assert Releases(trace) == 0;
          Step(s, Ok(Written(out.buffer, out.written)), trace)
  }

  /** Release callbacks of a concatenation add up. */
  lemma {:induction false} ReleasesAppend(a: seq<Event>, b: seq<Event>)
    ensures Releases(a + b) == Releases(a) + Releases(b)
    decreases |a|
  {
    if a == [] {
      assert a + b == b;
    } else {
      assert (a + b)[1..] == a[1..] + b;
      ReleasesAppend(a[1..], b);
    }
  }
}
