/** Cached responses on the heap, and copyResponse of core/cache/lru_cache.go: a deep copy that
    shares no storage with its source. */
module Responses {
  import opened Common
  import opened CacheModel

  /** Go's map[string][]string, shared by reference. */
  class Headers {
    var entries: map<Text, array<Text>>

    constructor ()
      ensures entries == map[]
    {
      entries := map[];
    }

    ghost function Arrays(): set<object>
      reads this
    {
      set k | k in entries :: entries[k] as object
    }

    ghost function Contents(): map<Text, seq<Text>>
      reads this, Arrays()
    {
      map k | k in entries :: entries[k][..]
    }
  }

  class CachedResponse {
    var statusCode: int
    var expiry: Option<int>
    var headers: Headers?
    var body: array?<Byte>

    constructor (statusCode: int, expiry: Option<int>, headers: Headers?, body: array?<Byte>)
      ensures this.statusCode == statusCode && this.expiry == expiry && this.headers == headers && this.body == body
    {
      this.statusCode, this.expiry, this.headers, this.body := statusCode, expiry, headers, body;
    }

    /** Every object that a change of this response could go through. */
    ghost function Footprint(): set<object>
      reads this, headers
    {
      {this} + (if headers == null then {} else {headers} + headers.Arrays()) + (if body == null then {} else {body})
    }

    ghost function Value(): Response
      reads this, headers, Footprint()
    {
      Response(statusCode, expiry,
               if headers == null then None else Some(headers.Contents()),
               if body == null then None else Some(body[..]))
    }
  }

  method CopyStrings(src: array<Text>) returns (dst: array<Text>)
    ensures fresh(dst) && dst[..] == old(src[..])
  {
    dst := new Text[src.Length](i requires 0 <= i < src.Length reads src => src[i]);
  }

  method CopyBytes(src: array<Byte>) returns (dst: array<Byte>)
    ensures fresh(dst) && dst[..] == old(src[..])
  {
    dst := new Byte[src.Length](i requires 0 <= i < src.Length reads src => src[i]);
  }

  method CopyHeaders(src: Headers) returns (dst: Headers)
    ensures fresh(dst) && fresh(dst.Arrays()) && dst.Contents() == old(src.Contents())
  {
    dst := new Headers();
    var keys := src.entries.Keys;
    while keys != {}
      invariant fresh(dst) && keys <= src.entries.Keys && dst.entries.Keys == src.entries.Keys - keys
      invariant forall k :: k in dst.entries ==> fresh(dst.entries[k]) && dst.entries[k][..] == src.entries[k][..]
      modifies dst
    {
      var k :| k in keys;
      var copy := CopyStrings(src.entries[k]);
      dst.entries := dst.entries[k := copy];
      keys := keys - {k};
    }
  }

  /** The copy has the same value, and all its storage is new. */
  method CopyResponse(src: CachedResponse?) returns (dst: CachedResponse?)
    ensures dst == null <==> src == null
    ensures dst != null ==> fresh(dst.Footprint()) && dst.Value() == old(src.Value())
  {
    if src == null {
      return null;
    }
    var headers: Headers?, body: array?<Byte> := null, null;
    if src.headers != null {
      headers := CopyHeaders(src.headers);
    }
    if src.body != null {
      body := CopyBytes(src.body);
    }
    dst := new CachedResponse(src.statusCode, src.expiry, headers, body);
    assert headers != null ==> headers.Contents() == old(src.headers.Contents());
  }

  /** The loop of entrySize over the headers, in whatever order the map yields them. */
  method HeadersSize(headers: Headers) returns (size: nat)
    ensures size == HeaderBytes(headers.Contents())
  {
    size := 0;
    ghost var all := headers.Contents();
    ghost var rest := all;
    var keys := headers.entries.Keys;
    while keys != {}
      invariant keys <= all.Keys && rest == map k | k in keys :: all[k]
      invariant size + HeaderBytes(rest) == HeaderBytes(all)
      modifies {}
    {
      var k :| k in keys;
      var values := headers.entries[k];
      HeaderBytesPick(rest, k);
      rest := rest - {k};
      size := size + |k|;
      for i := 0 to values.Length
        invariant size + HeaderBytes(rest) + ValueBytes(values[..]) == HeaderBytes(all) + ValueBytes(values[..i])
        modifies {}
      {
        assert values[..i + 1][..i] == values[..i];
        size := size + |values[i]|;
      }
      assert values[..values.Length] == values[..];
      keys := keys - {k};
    }
    assert rest == map[] && HeaderBytes(rest) == 0;
    assert headers.Contents() == all;
    assert size == HeaderBytes(all);
  }

  method EntrySizeOf(key: Text, resp: CachedResponse) returns (size: nat)
    ensures size == EntrySize(key, resp.Value())
  {
    size := |key| + (if resp.body == null then 0 else resp.body.Length) + 8 + 24;
    if resp.headers != null {
      var headers := HeadersSize(resp.headers);
      size := size + headers;
    }
  }
}
