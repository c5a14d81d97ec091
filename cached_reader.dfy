/**
 * cached_reader.go: a reader that, while capture is on, copies the bytes it
 * hands out into a fixed 4096-byte buffer, dropping whatever does not fit.
 * The `bufio.Reader` underneath is modelled as a `ByteSource` holding the
 * bytes still to come and the error it reports once they are gone.
 */
module CachedReaders {
  import opened Wrappers
  import opened GoStrings

  /** The error a reader reports: end of input, or any other failure. */
  datatype IoError = EOF | ReadFailure(msg: string)

  /** The capacity `NewCachedReader` gives the capture buffer (cached_reader.go:18-19). */
  const CacheCap: int := 4096

  /**
   * The capture rule of cached_reader.go:38-41 and 58-65: the bytes `bs`
   * are appended one at a time while the cache still has room.
   */
  function Capture(cache: seq<byte>, bs: seq<byte>): seq<byte>
    decreases |bs|
  {
    if bs == [] || |cache| >= CacheCap then cache else Capture(cache + [bs[0]], bs[1..])
  }

  /**
   * Capturing into a cache that holds the first bytes of `x` leaves it
   * holding the first bytes of `x + bs`: capture never reorders, never
   * overflows, and drops exactly the bytes past the capacity.
   */
  lemma {:induction false} CaptureIsTake(x: seq<byte>, bs: seq<byte>)
    ensures Capture(Take(x, CacheCap), bs) == Take(x + bs, CacheCap)
    decreases |bs|
  {
    var c := Take(x, CacheCap);
    if bs == [] {
      assert x + bs == x;
    } else if |c| >= CacheCap {
      assert (x + bs)[..CacheCap] == x[..CacheCap];
    } else {
      assert c == x;
      assert c + [bs[0]] == Take(x + [bs[0]], CacheCap);
      CaptureIsTake(x + [bs[0]], bs[1..]);
      assert x + [bs[0]] + bs[1..] == x + bs;
    }
  }

  /** The cache never grows past its capacity and only ever grows at its end. */
  lemma {:induction false} CaptureBounds(cache: seq<byte>, bs: seq<byte>)
    requires |cache| <= CacheCap
    ensures var r := Capture(cache, bs);
      |r| == Min(CacheCap, |cache| + |bs|) && r[..|cache|] == cache && r == (cache + bs)[..|r|]
    decreases |bs|
  {
    if bs != [] && |cache| < CacheCap {
      CaptureBounds(cache + [bs[0]], bs[1..]);
      assert cache + [bs[0]] + bs[1..] == cache + bs;
    }
  }

  /** The `bufio.Reader` beneath: the bytes still to be read and the error reported after them. */
  class ByteSource {
    var rest: seq<byte>
    const final: IoError

    constructor (data: seq<byte>, final: IoError)
      ensures rest == data && this.final == final
    {
      rest := data;
      this.final := final;
    }

    /** `ReadByte`: the next byte, or the final error once the input is used up. */
    method ReadByte() returns (b: byte, err: Option<IoError>)
      modifies this
      ensures old(rest) == [] ==> b == '\0' && err == Some(final) && rest == old(rest)
      ensures old(rest) != [] ==> b == old(rest)[0] && err == None && rest == old(rest)[1..]
    {
      if rest == [] {
        b, err := '\0', Some(final);
      } else {
        b, err := rest[0], None;
        rest := rest[1..];
      }
    }

    /** `Read(p)`: fills as much of `p` as the remaining input allows. */
    method Read(p: array<byte>) returns (n: int, err: Option<IoError>)
      modifies this, p
      ensures p.Length > 0 && old(rest) == [] ==>
        n == 0 && err == Some(final) && rest == old(rest) && p[..] == old(p[..])
      ensures p.Length == 0 || old(rest) != [] ==>
        n == Min(p.Length, |old(rest)|) && err == None &&
        p[..n] == old(rest)[..n] && p[n..] == old(p[n..]) && rest == old(rest)[n..]
    {
      if p.Length > 0 && rest == [] {
        n, err := 0, Some(final);
        return;
      }
      n := Min(p.Length, |rest|);
      err := None;
      forall i | 0 <= i < n {
        p[i] := rest[i];
      }
      rest := rest[n..];
    }
  }

  /** `CachedReader` (cached_reader.go:7-13). */
  class CachedReader {
    const buffer: ByteSource
    const cache: array<byte>
    const cacheCap: int
    var cacheLen: int
    var caching: bool
    /** The bytes handed out while capture was on since the last StartCaching. */
    ghost var captured: seq<byte>

    ghost predicate Valid()
      reads this, cache
    {
      cacheCap == CacheCap && cache.Length == cacheCap &&
      0 <= cacheLen <= cacheCap && cache[..cacheLen] == Take(captured, cacheCap)
    }

    /** `NewCachedReader(r)` (cached_reader.go:15-23). */
    constructor (r: ByteSource)
      ensures Valid() && fresh(cache)
      ensures buffer == r && cacheLen == 0 && !caching && captured == []
    {
      buffer := r;
      cache := new byte[4096](_ => '\0');
      cacheCap := 4096;
      cacheLen := 0;
      caching := false;
      captured := [];
    }

    /** `StartCaching` (cached_reader.go:25-28): empties the cache and turns capture on. */
    method StartCaching()
      requires Valid()
      modifies this
      ensures Valid() && cacheLen == 0 && caching && captured == []
    {
      cacheLen := 0;
      caching := true;
      captured := [];
    }

    /** `StopCaching` (cached_reader.go:49-51): turns capture off; the cache stays readable. */
    method StopCaching()
      requires Valid()
      modifies this
      ensures Valid() && !caching && cacheLen == old(cacheLen) && captured == old(captured)
    {
      caching := false;
    }

    /** `Cache()` (cached_reader.go:45-47): what was captured, truncated to the capacity. */
    function Cache(): (r: seq<byte>)
      requires Valid()
      reads this, cache
      ensures r == Take(captured, CacheCap) && |r| <= CacheCap
    {
      cache[..cacheLen]
    }

    /**
     * `ReadByte` (cached_reader.go:30-43): returns exactly what the
     * underlying reader returns and, when capture is on and the read
     * succeeded, records the byte.
     */
    method ReadByte() returns (b: byte, err: Option<IoError>)
      requires Valid()
      modifies this, buffer, cache
      ensures Valid()
      ensures old(buffer.rest) == [] ==> b == '\0' && err == Some(buffer.final) && buffer.rest == old(buffer.rest)
      ensures old(buffer.rest) != [] ==> b == old(buffer.rest)[0] && err == None && buffer.rest == old(buffer.rest)[1..]
      ensures captured == if caching && err == None then old(captured) + [b] else old(captured)
      ensures caching == old(caching)
      ensures !caching || err != None ==> cacheLen == old(cacheLen) && cache[..] == old(cache[..])
    {
      if !caching {
        b, err := buffer.ReadByte();
        return;
      }
      b, err := buffer.ReadByte();
      if err != None {
        return;
      }
      CaptureIsTake(captured, [b]);
      if cacheLen < cacheCap {
        cache[cacheLen] := b;
        cacheLen := cacheLen + 1;
      }
      captured := captured + [b];
    }

    /**
     * `Read(p)` (cached_reader.go:53-68): returns exactly what the
     * underlying reader returns and, when capture is on and the read
     * succeeded, records the bytes read until the cache is full.
     */
    method Read(p: array<byte>) returns (n: int, err: Option<IoError>)
      requires Valid() && p != cache
      modifies this, buffer, cache, p
      ensures Valid()
      ensures p.Length > 0 && old(buffer.rest) == [] ==>
        n == 0 && err == Some(buffer.final) && buffer.rest == old(buffer.rest) && p[..] == old(p[..])
      ensures p.Length == 0 || old(buffer.rest) != [] ==>
        n == Min(p.Length, |old(buffer.rest)|) && err == None &&
        p[..n] == old(buffer.rest)[..n] && p[n..] == old(p[n..]) && buffer.rest == old(buffer.rest)[n..]
      ensures captured == if caching && err == None then old(captured) + p[..n] else old(captured)
      ensures caching == old(caching)
      ensures !caching || err != None ==> cacheLen == old(cacheLen) && cache[..] == old(cache[..])
    {
      n, err := buffer.Read(p);
      if err != None {
        return;
      }
      if caching {
        CaptureIsTake(captured, p[..n]);
        if cacheLen < cacheCap {
          CopyIn(p, n);
        }
        captured := captured + p[..n];
      }
    }

    /** The copy loop of cached_reader.go:59-65. */
    method CopyIn(p: array<byte>, n: int)
      requires cacheCap == CacheCap && cache.Length == cacheCap && 0 <= cacheLen < cacheCap
      requires p != cache && 0 <= n <= p.Length
      modifies this`cacheLen, cache
      ensures 0 <= cacheLen <= cacheCap
      ensures cache[..cacheLen] == Capture(old(cache[..cacheLen]), p[..n])
    {
      ghost var c0 := cache[..cacheLen];
      var i := 0;
      while i < n
        invariant 0 <= i <= n && cacheLen == |c0| + i < cacheCap
        invariant cache[..cacheLen] == c0 + p[..i]
        invariant Capture(c0, p[..n]) == Capture(c0 + p[..i], p[i..n])
        decreases n - i
      {
        assert Capture(c0 + p[..i], p[i..n]) == Capture(c0 + p[..i] + [p[i]], p[i + 1..n]) by {
          assert p[i..n][0] == p[i] && p[i..n][1..] == p[i + 1..n];
        }
        assert c0 + p[..i] + [p[i]] == c0 + p[..i + 1];
        cache[cacheLen] := p[i];
        cacheLen := cacheLen + 1;
        if cacheLen >= cacheCap {
          assert Capture(c0 + p[..i + 1], p[i + 1..n]) == c0 + p[..i + 1];
          return;
        }
        i := i + 1;
      }
      assert p[i..n] == [];
    }
  }
}
