/**
 * HTTP header multimaps as Go's `net/http` keeps them (`http.Header`, a map
 * from key to the list of its values in arrival order), the two lookups the
 * gateway performs, and the header copy the handler runs on the request it
 * forwards (cmd/main.go:118-122).
 */
module Http {

  newtype byte = b: int | 0 <= b < 256

  /** A header multimap: each key holds its values in order. */
  type Header = map<string, seq<string>>

  /** `Header.Values(key)`: all values of `key`, empty when the key is absent. */
  function Values(h: Header, key: string): (vs: seq<string>)
    ensures key !in h ==> vs == []
    ensures key in h ==> vs == h[key]
  {
    if key in h then h[key] else []
  }

  /** `Header.Get(key)`: the first value of `key`, or "" when it has none. */
  function Get(h: Header, key: string): (v: string)
    ensures key !in h || h[key] == [] ==> v == ""
    ensures key in h && h[key] != [] ==> v == h[key][0]
  {
    var vs := Values(h, key);
    if |vs| == 0 then "" else vs[0]
  }

  /**
   * The header a request ends up with when every value of `src` has been
   * added, key by key and in order, to an empty header. A key whose value
   * list is empty receives no `Add` call and so does not appear.
   */
  function CopiedHeader(src: Header): (dst: Header)
    ensures forall key :: Values(dst, key) == Values(src, key)
    ensures forall key :: Get(dst, key) == Get(src, key)
    ensures dst.Keys <= src.Keys
    ensures forall key :: key in dst ==> dst[key] != []
    ensures forall key :: key in src && src[key] != [] ==> key in dst
  {
    map key | key in src && src[key] != [] :: src[key]
  }

  /** The keys of `src` in `done` that have at least one value, with those values. */
  ghost function CopiedPart(src: Header, done: set<string>): Header
  {
    map key | key in src && key in done && src[key] != [] :: src[key]
  }

  /** The `Header` of a request under construction, which `Add` extends in place. */
  class RequestHeader {
    var entries: Header

    /** `http.NewRequest` starts the request with an empty header. */
    constructor ()
      ensures entries == map[]
    {
      entries := map[];
    }

    /** `Header.Add(key, value)`: append `value` to the values of `key`. */
    method Add(key: string, value: string)
      modifies this
      ensures entries == old(entries)[key := Values(old(entries), key) + [value]]
    {
      entries := entries[key := Values(entries, key) + [value]];
    }
  }

  /**
   * The copy loop of the handler: for every key of the inbound header, in
   * whatever order the map yields them, add each of its values in order to
   * the fresh header of the outgoing request.
   */
  method CopyHeader(src: Header) returns (dst: RequestHeader)
    ensures fresh(dst)
    ensures dst.entries == CopiedHeader(src)
  {
    dst := new RequestHeader();
    var pending := src.Keys;
    while pending != {}
      invariant pending <= src.Keys
      invariant dst.entries == CopiedPart(src, src.Keys - pending)
      decreases pending
    {
      var key :| key in pending;
      var values := src[key];
      ghost var before := dst.entries;
      assert key !in before;
      var i := 0;
      while i < |values|
        invariant 0 <= i <= |values|
        invariant dst.entries == if i == 0 then before else before[key := values[..i]]
      {
        assert values[..i + 1] == values[..i] + [values[i]];
        dst.Add(key, values[i]);
        i := i + 1;
      }
      assert values[..|values|] == values;
      pending := pending - {key};
      assert dst.entries == CopiedPart(src, src.Keys - pending);
    }
    assert src.Keys - pending == src.Keys;
  }
}
