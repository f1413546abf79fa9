/**
 * The binary interface between the add-on and a dynamically loaded library:
 * the `ret_data` record of the by-value `exchange`, the ownership of the block it
 * points to, the outcome of the in-place `exchange_inplace`, and what a loaded
 * library image offers.
 */
module Abi {
  import opened Bytes

  /**
   * Who may touch a block the library allocated: the library owns it until its
   * release callback frees it; after that nobody may read or free it again.
   */
  datatype Ownership = OwnedByLib | Freed

  /** The `data` pointer of `ret_data`: null, or a heap block with its bytes and owner. */
  datatype Block = Null | Block(bytes: seq<byte>, owner: Ownership)

  /** The `release` function pointer of `ret_data`: null, or the library's `release_data`. */
  datatype ReleaseFn = NullRelease | ReleaseDataFn

  /** `struct ret_data { void* data; size_t data_size; release_callback_t release; }` */
  datatype RetData = RetData(data: Block, dataSize: nat, release: ReleaseFn)

  /**
   * What the add-on relies on when `exchange` returns: a non-null block is still
   * the library's (not yet freed) and holds at least `data_size` readable bytes.
   */
  predicate WellFormed(r: RetData) {
    r.data.Block? ==> r.data.owner == OwnedByLib && r.dataSize <= |r.data.bytes|
  }

  /** The caller's buffer after `exchange_inplace` returns, and the count it returned. */
  datatype InPlace = InPlace(buffer: seq<byte>, written: nat)

  /**
   * A loaded library image: the symbols `dlsym` / `GetProcAddress` can resolve in it,
   * and the behaviour of its two entry points. `exchangeInplace` receives the buffer
   * and the `buffer_size` argument, which the callee may require to fit the buffer.
   */
  datatype Library = Library(
    exports: set<string>,
    exchange: seq<byte> -> RetData,
    exchangeInplace: (seq<byte>, nat) --> InPlace)

  /**
   * The library keeps the interface: `exchange` returns a well-formed record, and
   * `exchange_inplace` accepts a whole buffer with its full length and writes only
   * inside it.
   */
  ghost predicate Conforms(lib: Library) {
    && (forall b :: WellFormed(lib.exchange(b)))
    && (forall b :: lib.exchangeInplace.requires(b, |b|) && |lib.exchangeInplace(b, |b|).buffer| == |b|)
  }
}
