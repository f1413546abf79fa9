# Dynamic-library exchange add-on, modelled in Dafny

The repository is a Node.js native add-on (`src/native/addon.cpp`). It holds one
process-wide handle to a dynamically loaded library and registers five exports: `hello`, which
only returns a fixed string, and four calls into the library. `loadDyLib(path)`
opens a library, `unloadDyLib()` closes it, `exchangeData(buffer)` calls the library's
by-value `exchange`, and `exchangeDataInPlace(buffer)` calls its in-place `exchange_inplace`.
Two small libraries come with it:

- the by-value library (`src/native/lib/dlib.cpp`). Its `exchange` allocates a block holding
  a greeting, the caller's bytes and a NUL. It returns that block with its size and the
  `release_data` callback.
- the in-place library (`EXT_APP/backend/dlib.cpp`). Its `exchange_inplace` writes a fixed
  28-byte C string at the start of the caller's buffer when the buffer is large enough.

The model is written as pure functions over immutable values:

- `Bytes`: bytes (`byte`, an integer newtype 0..255), ASCII string literals as bytes,
  `c_str()` (`CStr`), `strlen` (`StrLen`) and `memcpy` (`Memcpy`).
- `Abi`: the ABI between the add-on and a library. It holds `ret_data` (`RetData`), the
  allocated block with an ownership flag (`Block`, `Ownership`: owned by the library, then
  freed), the release pointer, the in-place outcome, and a library image (`Library`: its
  exported names and the behaviour of its two entry points).
- `LegacyLibrary`: `exchange` and `release_data`. Whether `malloc` succeeds is a parameter.
- `InPlaceLibrary`: `exchange_inplace`.
- `Addon`: the state machine over `Option<Handle>`. The platform loader (`dlopen`/`LoadLibrary`,
  `dlsym`/`GetProcAddress`) is an oracle, `Platform`. Each call returns the new state, the
  JavaScript outcome (a `Reply` or a thrown `Error`), and a trace of the calls it made into
  the platform and the library.
- `Session`: sequences of calls, and a replay check that the add-on keeps to the loader's rules.
- `Scenarios`: the add-on driving the two libraries of the repository.

Ownership of the block returned by `exchange` is modelled by a flag on the block, not by a
ghost variable. `CopyBlock` may only read a block the library still owns, and `ReleaseData`
may only free a block that is not already freed. A `Block` is an immutable value, though, so
these preconditions alone do not force an order: the freed block is a new value, and the old
one could still be read. The order and the count are stated by the trace instead. Each call
records `CopyOut` and `Release` events, and the contracts of `TakeResult` and `ExchangeData`
say that the copy comes first (`ReleaseFollowsCopy`) and that there is at most one release
(`Releases`).

`"Hello from dlib (in-place)!"` is 27 characters. The code writes it with its NUL, 28 bytes, and
returns 28 (`EXT_APP/backend/dlib.cpp:15-26`). `src/native/addon.cpp` sets no environment variable
on load or unload, so the model has none.
The in-place entry point is modelled in the two-argument form `(pointer, buffer_size)` that
both the add-on and the library use. The path handed to the loader is `c_str()` of the
JavaScript string, so the loader sees the text only up to its first NUL (`CPath`); the open
error quotes the full text.

## Model

| member | source | states |
|---|---|---|
| Bytes.CStr | src/native/lib/dlib.cpp:36 | `c_str()` of a string is its bytes followed by one NUL: one byte longer, ending in NUL, and the string's bytes come first |
| Bytes.Memcpy | EXT_APP/backend/dlib.cpp:23 | after copying `n` bytes, positions below `n` hold the source's bytes and every later position keeps the destination's byte; the length does not change |
| LegacyLibrary.ReleaseData | src/native/lib/dlib.cpp:17-21 | a null pointer is left alone; a live block becomes freed with its bytes kept, and a freed block can never be released again (a double free is excluded) |
| LegacyLibrary.Exchange | src/native/lib/dlib.cpp:26-47 | the release callback is always `release_data`; when allocation fails the block is null and the size 0; otherwise the library owns the block, its size is 42 + input length + 1, and it holds the 42-byte greeting, then the input bytes verbatim (NULs included), then a NUL |
| LegacyLibrary.ExchangeThenRelease | src/native/lib/dlib.cpp:17-44 | whatever `exchange` returns may be released; releasing a successful response frees it with the response (which still parses back to the input) intact, after which it cannot be released again; a null result stays null |
| LegacyLibrary.ResponseRoundTrip | src/native/lib/dlib.cpp:28-36 | parsing a successful response (greeting, body, final NUL) gives back exactly the bytes sent |
| LegacyLibrary.ResponseInjective | src/native/lib/dlib.cpp:28-29 | two inputs with the same response are equal |
| LegacyLibrary.EmbeddedNulShortensCString | src/native/lib/dlib.cpp:29-42 | the response's C string ends at the input's first NUL (42 + strlen of the input), while the reported size still covers every input byte and the terminator |
| InPlaceLibrary.ReplyLayout | EXT_APP/backend/dlib.cpp:15-26 | derived from the literal itself: the reply text is 27 bytes without a NUL, and the bytes written are those 27 and one NUL, 28 in all |
| InPlaceLibrary.ExchangeInplace | EXT_APP/backend/dlib.cpp:14-27 | the buffer keeps its length; the count is 0 or 28 and never more than `buffer_size`; it is 28 exactly when `buffer_size` is at least 28; on 0 the buffer is unchanged; on 28 the first 28 bytes are the reply and its NUL; bytes at 28 and beyond never change |
| InPlaceLibrary.WholeBufferCall | EXT_APP/backend/dlib.cpp:18-26 | called with its whole length as the size, a buffer of 28 bytes or more gets the reply and its NUL at the start, the count 28, and the rest unchanged |
| InPlaceLibrary.CapacityBoundary | EXT_APP/backend/dlib.cpp:18 | a size of 27 writes nothing and returns 0, and a size of 28 writes and returns 28 |
| InPlaceLibrary.IgnoresPriorContents | EXT_APP/backend/dlib.cpp:14-27 | with room for the reply, the outcome does not depend on what the first 28 bytes held before |
| InPlaceLibrary.Idempotent | EXT_APP/backend/dlib.cpp:14-27 | calling again on the buffer a call produced gives the same buffer and the same count |
| InPlaceLibrary.WrittenReadsBack | EXT_APP/backend/dlib.cpp:23-26 | after a successful call the buffer starts with a C string of length 27 that reads as the reply text |
| Addon.CPath | src/native/addon.cpp:52-57 | the text the loader reads from `c_str()` is a prefix of the JavaScript string with no NUL in it, and it stops only at the string's end or at a NUL |
| Addon.LoadDyLib | src/native/addon.cpp:37-68 | a held handle is refused ("already loaded") before the argument is looked at and stays held; a missing or non-string path is refused and the state stays unloaded; otherwise exactly one open is made, of the path up to its first NUL, and the state becomes what it returned; the call succeeds exactly when that open succeeds, and a failed open throws the open error naming the full path; every failure leaves the state unchanged |
| Addon.UnloadDyLib | src/native/addon.cpp:70-83 | the state is unloaded afterwards; the call succeeds exactly when a handle was held, and then closes exactly that handle; otherwise it fails with "not loaded" and touches nothing |
| Addon.CopyBlock | src/native/addon.cpp:127 | copying `data_size` bytes out of a block the library still owns gives exactly that many bytes, equal to the block's prefix |
| Addon.TakeResult | src/native/addon.cpp:121-135 | a null block throws the null-data error and makes no calls; otherwise the caller receives `data_size` bytes equal to the block's prefix; the release runs once when the callback is non-null and never otherwise, always after the copy; the block ends freed exactly when it was released |
| Addon.ExchangeData | src/native/addon.cpp:86-136 | the handle never changes; without a handle it fails with "not loaded" before any argument check and makes no calls; a non-buffer argument fails; the library is entered exactly when the symbol resolves, and a missing symbol throws the symbol error; once entered, the call succeeds exactly when the returned block is non-null, a null block throws the null-data error with no release; a reply is the first `data_size` bytes of the returned block; at most one release, only on success, and only after the copy |
| Addon.ExchangeDataInPlace | src/native/addon.cpp:139-176 | the handle never changes; without a handle it fails with "not loaded" before any argument check; a non-buffer argument fails; the library is entered exactly when `exchange_inplace` resolves and the call then succeeds; it passes the whole buffer with its full length and returns exactly the callee's buffer and count, with the length unchanged; nothing is released |
| Session.StepKeepsDiscipline | src/native/addon.cpp:37-176 | each single call keeps to the loader's rules, and its final handle is the one its platform calls leave held |
| Session.RunKeepsDiscipline | src/native/addon.cpp:23-28 | over any sequence of calls, opens happen only with no handle held, only the held handle is closed, and the library is entered only while it is loaded; replaying the trace ends at the add-on's final handle |
| Session.LoadTwiceFails | src/native/addon.cpp:40-43 | after a successful load, a second load fails with "already loaded" and the first handle stays |
| Session.LoadThenUnload | src/native/addon.cpp:54-82 | a successful load followed by an unload succeeds twice and returns to the unloaded state |
| Session.UnloadTwiceFails | src/native/addon.cpp:72-82 | from any state, the second of two unloads fails with "not loaded" and the add-on ends unloaded |
| Session.ExchangesKeepHandle | src/native/addon.cpp:86-176 | any sequence of exchanges leaves the add-on's state as it was |
| Session.ExchangesBeforeLoadFail | src/native/addon.cpp:89-145 | with nothing loaded, every exchange of any sequence fails with "not loaded" and makes no platform or library call |
| Scenarios.InPlaceWritesReply | EXT_APP/frontend/renderer.js:46-53 | with the in-place library loaded, a buffer of 28 bytes or more (such as the page's 128-byte buffer) receives the reply and its NUL at offset 0 with count 28, and the rest of the buffer is unchanged |
| Scenarios.InPlaceReplyIsCallee | src/native/addon.cpp:162-175 | with the in-place library loaded, the add-on's reply is exactly the buffer and count that `exchange_inplace` produced on the whole buffer |
| Scenarios.InPlaceTooSmall | EXT_APP/backend/dlib.cpp:18-20 | with the in-place library loaded, a buffer under 28 bytes comes back unchanged with count 0 |
| Scenarios.ByValueEchoes | src/renderer.js:42-47 | with the by-value library loaded and allocation succeeding, the caller receives the greeting, its own bytes and a NUL, the response parses back to the input, and exactly one release happens |
| Scenarios.ByValueAllocationFails | src/native/addon.cpp:121-124 | when the library's allocation fails, the call throws the null-data error and nothing is released |
| Scenarios.WrongLibraryForInPlace | src/native/addon.cpp:162-169 | asking the by-value library for `exchange_inplace` throws the symbol error without entering the library |
| Scenarios.LoadReachesLoaded | src/native/addon.cpp:54-67 | loading an installed library from the unloaded state succeeds, holds its handle, and makes exactly one open call |
| Scenarios.LoadMissingPath | src/native/addon.cpp:54-66 | a path that reaches the loader as a different C string than the installed one throws the open error naming the full path and leaves the add-on unloaded |
| Scenarios.LoadStopsAtNul | src/native/addon.cpp:52-57 | a path with a NUL in it loads the library named by the text before the NUL, whatever follows |
| Scenarios.LoadWithoutArgument | src/native/addon.cpp:46-49 | a load with no argument throws the type error "String path expected as first argument" and stays unloaded without calling the platform |

## Left out

- `Method` (the `hello` export, which returns a fixed string and does not touch the library) and `Init` (registration of the five exports): they hold no logic beyond naming the exports.
- Platform diagnostics: the `dlerror()` / `GetLastError()` text after the colon in the open and symbol errors is not modelled. `Message` gives the fixed part.
- The POSIX and Windows branches differ only in which loader function they call. Both are the one `Platform` oracle.
- The return value of `dlclose` / `FreeLibrary` is ignored by the source, so the model ignores it as well.
- The real loader semantics (search paths, reference counts, lazy binding) are left out. Opening, symbol lookup and the library's behaviour come from `Platform`.
- `malloc` internals are left out. Allocation success is a boolean parameter of `LegacyLibrary.Exchange`. In `Scenarios` it is fixed per library image.
- N-API plumbing is reduced to `JsValue` arguments and a `Result` reply: JavaScript values, `Napi::Buffer` and exceptions. The in-place call mutates the JavaScript buffer in place. The model returns the mutated buffer in the reply instead.
- `Napi::Number::New` turns the returned `size_t` into a double. That conversion is left out. It is exact for this repository's in-place library, which only returns 0 or 28; a count above 2^53 from another library would be rounded, and the model does not show that.
- Concurrency on the unsynchronised global handle is left out. The model is single-threaded.
- `size_t` width is left out: lengths are unbounded naturals. The sizes computed (28, and 43 plus the input length) cannot wrap before `std::string` itself refuses the length.
- The release callback of an arbitrary library is left out. A non-null callback is taken to behave as this repository's `release_data`.
- Library images must keep the interface (`Abi.Conforms`): `exchange` returns a live block of at least `data_size` bytes, and `exchange_inplace` writes only inside the buffer. The add-on relies on both without checking them, so the model requires them of the platform.
- "The input buffer is only read" is not stated as a separate contract. The model is functional, so no operation can change its input.
- `src/main.js` (window lifecycle, IPC), and the DOM handling in `src/renderer.js` and `EXT_APP/frontend/renderer.js`, are host and UI code. Only the calls they make into the add-on appear, in `Scenarios`.
