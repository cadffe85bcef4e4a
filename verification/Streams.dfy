/** Streams read in fragments the reader does not choose. */
module Streams {
  import opened Wrappers

  /**
   * A source of bytes or cells. `Read` returns any non-empty piece of what is left, up to the
   * asked length; an empty piece means the end. A source that is going to fail hides
   * its last bytes: once the readable ones are gone, reading is an error.
   */
  class Reader<T> {
    var rest: seq<T>
    var fails: bool

    constructor (data: seq<T>, fails: bool)
      ensures rest == data && this.fails == fails
    {
      rest := data;
      this.fails := fails;
    }

    method Read(max: nat) returns (r: Result<seq<T>, ()>)
      requires max > 0
      modifies this`rest
      ensures r.Failure? <==> old(rest) == [] && fails
      ensures r.Failure? ==> rest == []
      ensures r.Success? ==> |r.value| <= max && r.value + rest == old(rest) && (r.value == [] <==> old(rest) == [])
    {
      if rest == [] {
        return if fails then Failure(()) else Success([]);
      }
      var n: nat :| 1 <= n <= max && n <= |rest|;
      r := Success(rest[..n]);
      rest := rest[n..];
    }

    /** Fill a buffer of `want` bytes, stopping early only at the end of the stream. */
    method ReadFull(want: nat) returns (r: Result<seq<T>, ()>)
      modifies this`rest
      ensures r.Failure? <==> |old(rest)| < want && fails
      ensures r.Success? ==> r.value + rest == old(rest)
                             && |r.value| == (if |old(rest)| < want then |old(rest)| else want)
    {
      var filled: seq<T> := [];
      while |filled| < want
        invariant |filled| <= want && filled + rest == old(rest)
        decreases want - |filled|
      {
        var piece := Read(want - |filled|);
        if piece.Failure? { return Failure(()); }
        if piece.value == [] { break; }
        filled := filled + piece.value;
      }
      r := Success(filled);
    }

    /** Discard up to `n` bytes, at most 64 KiB at a time. */
    method Skip(n: nat) returns (r: Result<(), ()>)
      modifies this`rest
      ensures r.Failure? <==> |old(rest)| < n && fails
      ensures r.Success? ==> rest == old(rest)[if |old(rest)| < n then |old(rest)| else n..]
    {
      var left := n;
      while left > 0
        invariant 0 <= left <= n && n - left <= |old(rest)| && rest == old(rest)[n - left..]
        decreases left
      {
        var piece := Read(if left < 65536 then left else 65536);
        if piece.Failure? { return Failure(()); }
        if piece.value == [] { break; }
        left := left - |piece.value|;
      }
      r := Success(());
    }
  }
}
