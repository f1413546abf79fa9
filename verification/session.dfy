/**
 * Sequences of add-on calls from JavaScript, and the discipline they keep towards
 * the platform loader: a library is opened only when none is held, only the held
 * handle is closed, and the library is entered only while it is loaded.
 */
module Session {
  import opened Bytes
  import opened Outcomes
  import opened Abi
  import opened Addon

  /** One call from JavaScript into the add-on's exports. */
  datatype Call =
    | Load(args: seq<JsValue>)
    | Unload
    | Exchange(args: seq<JsValue>)
    | ExchangeInPlace(args: seq<JsValue>)

  /** Dispatches one call to the add-on function that implements it. */
  function Apply(s: State, p: Platform, c: Call): Step
    requires Sound(p)
  {
    match c
    case Load(args) => LoadDyLib(s, p, args)
    case Unload => UnloadDyLib(s)
    case Exchange(args) => ExchangeData(s, p, args)
    case ExchangeInPlace(args) => ExchangeDataInPlace(s, p, args)
  }

  /** The result of a sequence of calls: the final state, every reply, and all calls into the platform. */
  datatype Run = Run(after: State, replies: seq<Result<Reply, Error>>, trace: seq<Event>)

  /** Runs the calls one after another, each from the state the previous one left. */
  function RunCalls(s: State, p: Platform, calls: seq<Call>): (r: Run)
    requires Sound(p)
    ensures |r.replies| == |calls|
    decreases |calls|
  {
    if calls == [] then Run(s, [], [])
    else
      var first := Apply(s, p, calls[0]);
      var rest := RunCalls(first.after, p, calls[1..]);
      Run(rest.after, [first.reply] + rest.replies, first.trace + rest.trace)
  }

  /**
   * Replays a trace against the handle it starts with, as an independent check of
   * the loader discipline: opening needs no handle held, closing and symbol lookup
   * need the very handle held, and entering the library (a call or a release
   * callback) needs some handle held. Returns the handle held at the end, or
   * `None` when the trace breaks the discipline.
   */
  function Replay(held: Option<Handle>, trace: seq<Event>): Option<Option<Handle>>
    decreases |trace|
  {
    if trace == [] then Some(held)
    else
      var ok := match trace[0]
        case DlOpen(_, _) => held.None?
        case DlClose(h) => held == Some(h)
        case DlSym(h, _, _) => held == Some(h)
        case Invoke(h, _) => held == Some(h)
        case CopyOut(_) => true
        case Release(h) => held == Some(h);
      var next := match trace[0]
        case DlOpen(_, got) => got
        case DlClose(_) => None
        case _ => held;
      if ok then Replay(next, trace[1..]) else None
  }

  /** Replaying a concatenation replays the second part from where the first left off. */
  lemma {:induction false} ReplayAppend(held: Option<Handle>, a: seq<Event>, b: seq<Event>)
    ensures Replay(held, a + b) ==
      match Replay(held, a)
      case None => None
      case Some(mid) => Replay(mid, b)
    decreases |a|
  {
    if a == [] {
      assert a + b == b;
    } else {
      assert (a + b)[0] == a[0];
      assert (a + b)[1..] == a[1..] + b;
      var next := match a[0]
        case DlOpen(_, got) => got
        case DlClose(_) => None
        case _ => held;
      ReplayAppend(next, a[1..], b);
    }
  }

  /** Each single call keeps the discipline and leaves the handle its trace says. */
  lemma StepKeepsDiscipline(s: State, p: Platform, c: Call)
    requires Sound(p)
    ensures Replay(s.handle, Apply(s, p, c).trace) == Some(Apply(s, p, c).after.handle)
  {
    match c
    case Load(args) =>
    case Unload =>
    case Exchange(args) => ExchangeKeepsDiscipline(s, p, args);
    case ExchangeInPlace(args) => InPlaceKeepsDiscipline(s, p, args);
  }

  /** The by-value exchange only looks up, enters and releases the held library. */
  lemma ExchangeKeepsDiscipline(s: State, p: Platform, args: seq<JsValue>)
    requires Sound(p)
    ensures Replay(s.handle, ExchangeData(s, p, args).trace) == Some(s.handle)
  {
    var st := ExchangeData(s, p, args);
    if st.trace != [] && s.handle.Some? && BufferGiven(args) && "exchange" in p.image(s.handle.value).exports {
      var h := s.handle.value;
      var o := TakeResult(h, p.image(h).exchange(args[0].bytes));
      var head := [DlSym(h, "exchange", true), Invoke(h, "exchange")];
      assert st.trace == head + o.trace;
      ReplayAppend(s.handle, head, o.trace);
      var call := [Invoke(h, "exchange")];
      assert Replay(s.handle, call) == Some(s.handle) by {
        assert call[1..] == [];
      }
      assert head[1..] == call;
      HandoffKeepsDiscipline(h, p.image(h).exchange(args[0].bytes));
    }
  }

  /** Copying out and releasing need nothing but the held library. */
  lemma HandoffKeepsDiscipline(h: Handle, ret: RetData)
    requires WellFormed(ret)
    ensures Replay(Some(h), TakeResult(h, ret).trace) == Some(Some(h))
  {
    if ret.data.Block? {
      var n := ret.dataSize;
      var released := [Release(h)];
      assert Replay(Some(h), released) == Some(Some(h)) by {
        assert released[1..] == [];
      }
      assert [CopyOut(n), Release(h)][1..] == released;
      assert [CopyOut(n)][1..] == [];
    }
  }

  /** The in-place exchange only looks up and enters the held library. */
  lemma InPlaceKeepsDiscipline(s: State, p: Platform, args: seq<JsValue>)
    requires Sound(p)
    ensures Replay(s.handle, ExchangeDataInPlace(s, p, args).trace) == Some(s.handle)
  {
    var st := ExchangeDataInPlace(s, p, args);
    if st.trace != [] && s.handle.Some? && BufferGiven(args) && "exchange_inplace" in p.image(s.handle.value).exports {
      var h := s.handle.value;
      var call := [Invoke(h, "exchange_inplace")];
      assert Replay(s.handle, call) == Some(s.handle) by {
        assert call[1..] == [];
      }
      assert st.trace == [DlSym(h, "exchange_inplace", true)] + call;
    }
  }

  /**
   * Over any sequence of calls, the add-on keeps the loader discipline, and the
   * handle it ends up holding is the one the platform calls leave held.
   */
  lemma {:induction false} RunKeepsDiscipline(s: State, p: Platform, calls: seq<Call>)
    requires Sound(p)
    ensures Replay(s.handle, RunCalls(s, p, calls).trace) == Some(RunCalls(s, p, calls).after.handle)
    decreases |calls|
  {
    if calls != [] {
      var first := Apply(s, p, calls[0]);
      StepKeepsDiscipline(s, p, calls[0]);
      RunKeepsDiscipline(first.after, p, calls[1..]);
      ReplayAppend(s.handle, first.trace, RunCalls(first.after, p, calls[1..]).trace);
    }
  }

  /** Loading while a library is held fails and keeps the held handle. */
  lemma LoadTwiceFails(s: State, p: Platform, first: seq<JsValue>, second: seq<JsValue>)
    requires Sound(p)
    requires LoadDyLib(s, p, first).reply.Ok?
    ensures var again := RunCalls(s, p, [Load(first), Load(second)]);
      && again.replies[1] == Err(AlreadyLoaded)
      && again.after == LoadDyLib(s, p, first).after
  {
    var once := LoadDyLib(s, p, first);
    assert RunCalls(once.after, p, [Load(second)]) == Run(once.after, [Err(AlreadyLoaded)], []);
  }

  /** A successful load followed by an unload returns to the unloaded state. */
  lemma LoadThenUnload(s: State, p: Platform, args: seq<JsValue>)
    requires Sound(p)
    requires LoadDyLib(s, p, args).reply.Ok?
    ensures var run := RunCalls(s, p, [Load(args), Unload]);
      && run.replies == [Ok(Undefined), Ok(Undefined)]
      && run.after == Unloaded
      && s == Unloaded
  {
    var once := LoadDyLib(s, p, args);
    assert RunCalls(once.after, p, [Unload]) == Run(Unloaded, [Ok(Undefined)], [DlClose(once.after.handle.value)]);
  }

  /** Whatever the state, a second unload in a row fails: nothing is left to close. */
  lemma UnloadTwiceFails(s: State, p: Platform)
    requires Sound(p)
    ensures var run := RunCalls(s, p, [Unload, Unload]);
      && run.replies[1] == Err(NotLoaded(false))
      && run.after == Unloaded
  {
    assert RunCalls(Unloaded, p, [Unload]) == Run(Unloaded, [Err(NotLoaded(false))], []);
  }

  /** A call that exchanges data. */
  predicate IsExchange(c: Call) {
    c.Exchange? || c.ExchangeInPlace?
  }

  /** Exchanges alone never load or unload: any run of them leaves the handle as it was. */
  lemma {:induction false} ExchangesKeepHandle(s: State, p: Platform, calls: seq<Call>)
    requires Sound(p)
    requires forall i | 0 <= i < |calls| :: IsExchange(calls[i])
    ensures RunCalls(s, p, calls).after == s
    decreases |calls|
  {
    if calls != [] {
      assert IsExchange(calls[0]);
      ExchangesKeepHandle(s, p, calls[1..]);
    }
  }

  /** Without a loaded library every exchange fails with the not-loaded error and touches nothing. */
  lemma {:induction false} ExchangesBeforeLoadFail(p: Platform, calls: seq<Call>)
    requires Sound(p)
    requires forall i | 0 <= i < |calls| :: IsExchange(calls[i])
    ensures var run := RunCalls(Unloaded, p, calls);
      && run.trace == []
      && forall i | 0 <= i < |calls| :: run.replies[i] == Err(NotLoaded(true))
    decreases |calls|
  {
    if calls != [] {
      assert IsExchange(calls[0]);
      ExchangesBeforeLoadFail(p, calls[1..]);
    }
  }
}
