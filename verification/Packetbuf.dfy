/** utils/src/packetbuf.c: the one packet buffer, shifted in place. */
module Packetbuf {
  import opened Buffers

  const PACKETBUF_SIZE: nat := 128

  /** The attributes and addresses kept beside the packet. */
  datatype Attributes = Attributes(attrs: seq<nat>, addrs: seq<seq<bv8>>)

  function Cleared(a: Attributes): Attributes {
    Attributes(seq(|a.attrs|, _ => 0), seq(|a.addrs|, _ => []))
  }

  method Memcpy(dst: array<bv8>, at: nat, src: array<bv8>, pos: nat, n: nat)
    requires dst != src && at + n <= dst.Length && pos + n <= src.Length
    modifies dst
    ensures dst[..] == Spliced(old(dst[..]), at, Part(src[..], pos, n))
  {
    var i := 0;
    while i < n
      invariant 0 <= i <= n
      invariant forall k | 0 <= k < dst.Length :: dst[k] == if at <= k < at + i then src[pos + k - at] else old(dst[k])
    {
      dst[at + i] := src[pos + i];
      i := i + 1;
    }
  }

  /** m with the bytes of x written over it from at on. */
  function Spliced(m: seq<bv8>, at: nat, x: seq<bv8>): (r: seq<bv8>)
    requires at + |x| <= |m|
    ensures |r| == |m|
  {
    m[..at] + x + m[at + |x|..]
  }

  lemma TwoCopies(m: seq<bv8>, h: seq<bv8>, d: seq<bv8>)
    requires |h| + |d| <= |m|
    ensures Spliced(Spliced(m, 0, h), |h|, d) == h + d + m[|h| + |d|..]
  {}

  /** The n bytes of m from i on. */
  function Part(m: seq<bv8>, i: nat, n: nat): (r: seq<bv8>)
    requires i + n <= |m|
    ensures |r| == n
  {
    m[i..i + n]
  }

  lemma PartOfPart(m: seq<bv8>, i: nat, n: nat, k: nat, l: nat)
    requires i + n <= |m| && k <= l <= n
    ensures Part(m, i, n)[k..l] == Part(m, i + k, l - k)
  {
    var x, y := Part(m, i, n)[k..l], Part(m, i + k, l - k);
    forall j | 0 <= j < l - k ensures x[j] == y[j] {
      assert x[j] == Part(m, i, n)[k + j] == m[i + k + j];
    }
  }

  lemma MovedParts(m: seq<bv8>, dst: nat, src: nat, n: nat)
    requires dst <= src && src + n <= |m|
    ensures Part(Moved(m, dst, src, n), 0, dst) == Part(m, 0, dst)
    ensures Part(Moved(m, dst, src, n), dst, n) == Part(m, src, n)
  {}

  /** m with the bytes from i to top copied up by size. */
  function Raised(m: seq<bv8>, size: nat, i: nat, top: nat): (r: seq<bv8>)
    requires i <= top && top + size <= |m|
    ensures |r| == |m|
  {
    m[..i + size] + m[i..top] + m[top + size..]
  }

  lemma RaisedNothing(m: seq<bv8>, size: nat, top: nat)
    requires top + size <= |m|
    ensures Raised(m, size, top, top) == m
  {}

  lemma RaisedStep(m: seq<bv8>, size: nat, i: nat, top: nat)
    requires i < top && top + size <= |m|
    ensures Raised(m, size, i + 1, top)[i] == m[i]
    ensures Raised(m, size, i, top) == Raised(m, size, i + 1, top)[i + size := m[i]]
  {}

  lemma RaisedPart(m: seq<bv8>, size: nat, top: nat, i: nat, n: nat)
    requires i + n <= top && top + size <= |m|
    ensures Part(Raised(m, size, 0, top), size + i, n) == Part(m, i, n)
  {
    var r := Raised(m, size, 0, top);
    var x, y := Part(r, size + i, n), Part(m, i, n);
    assert r[size..size + top] == m[0..top];
    forall k | 0 <= k < n ensures x[k] == y[k] {
      assert x[k] == r[size + i + k] == r[size..size + top][i + k];
    }
  }

  /** The loop of packetbuf_compact. */
  method ShiftDown(buf: array<bv8>, dst: nat, src: nat, n: nat)
    requires dst <= src && src + n <= buf.Length
    modifies buf
    ensures buf[..] == Moved(old(buf[..]), dst, src, n)
  {
    hide Moved;
    ghost var was := buf[..];
    MovedNothing(was, dst, src);
    for i := 0 to n
      invariant buf[..] == Moved(was, dst, src, i)
    {
      MovedStep(was, dst, src, i);
      assert buf[..][src + i] == buf[src + i];
      buf[dst + i] := buf[src + i];
    }
  }

  /** The loop of packetbuf_hdralloc. */
  method ShiftUp(buf: array<bv8>, size: nat, top: nat)
    requires top + size <= buf.Length
    modifies buf
    ensures buf[..] == Raised(old(buf[..]), size, 0, top)
  {
    hide Raised;
    ghost var was := buf[..];
    RaisedNothing(was, size, top);
    var i := top - 1;
    while i >= 0
      invariant -1 <= i < top
      invariant buf[..] == Raised(was, size, i + 1, top)
    {
      RaisedStep(was, size, i, top);
      assert buf[..][i] == buf[i];
      buf[i + size] := buf[i];
      i := i - 1;
    }
  }

  class Packet {
    const buf: array<bv8>
    var buflen: nat
    var bufptr: nat
    var hdrlen: nat
    var ftrptr: nat
    var attributes: Attributes

    ghost predicate Valid()
      reads this
    {
      buf.Length == PACKETBUF_SIZE && hdrlen + bufptr + buflen <= PACKETBUF_SIZE
    }

    ghost function Header(): seq<bv8>
      requires Valid()
      reads this, buf
    {
      Part(buf[..], 0, hdrlen)
    }

    ghost function Data(): seq<bv8>
      requires Valid()
      reads this, buf
    {
      Part(buf[..], hdrlen + bufptr, buflen)
    }

    /** What goes out: the header and the data, without the gap between them. */
    ghost function Payload(): seq<bv8>
      requires Valid()
      reads this, buf
    {
      Header() + Data()
    }

    constructor (attributes: Attributes)
      ensures Valid() && fresh(buf) && Payload() == [] && this.attributes == attributes
    {
      buf := new bv8[PACKETBUF_SIZE](_ => 0);
      buflen, bufptr, hdrlen, ftrptr := 0, 0, 0, 0;
      this.attributes := attributes;
    }

    /** packetbuf_totlen. */
    function Totlen(): nat
      reads this
    {
      bufptr + hdrlen + buflen
    }

    /** packetbuf_clear. */
    method Clear()
      requires buf.Length == PACKETBUF_SIZE
      modifies this
      ensures Valid() && Header() == [] && Data() == [] && bufptr == 0 && ftrptr == old(ftrptr)
      ensures attributes == Cleared(old(attributes))
    {
      buflen, bufptr := 0, 0;
      hdrlen := 0;
      attributes := Cleared(attributes);
    }

    /** packetbuf_copyfrom. */
    method CopyFrom(from: seq<bv8>) returns (l: nat)
      requires buf.Length == PACKETBUF_SIZE
      modifies this, buf
      ensures Valid() && l == (if |from| < PACKETBUF_SIZE then |from| else PACKETBUF_SIZE)
      ensures Header() == [] && Data() == from[..l] && attributes == Cleared(old(attributes))
    {
      Clear();
      l := if PACKETBUF_SIZE < |from| then PACKETBUF_SIZE else |from|;
      for i := 0 to l
        modifies buf
        invariant buf[..i] == from[..i]
      {
        buf[i] := from[i];
      }
      buflen := l;
    }

    /** packetbuf_compact: the data moves down to the header. */
    method Compact()
      requires Valid()
      modifies `bufptr, buf
      ensures Valid() && bufptr == 0 && Header() == old(Header()) && Data() == old(Data())
    {
      hide Moved, Part;
      if bufptr != 0 {
        MovedParts(buf[..], hdrlen, hdrlen + bufptr, buflen);
        ShiftDown(buf, hdrlen, hdrlen + bufptr, buflen);
        bufptr := 0;
      }
    }

    /** packetbuf_set_datalen. */
    method SetDatalen(len: nat)
      modifies `buflen
      ensures buflen == len
    {
      buflen := len;
    }

    /** packetbuf_copyto.  A length set too high is refused. */
    method CopyTo(to: array<bv8>) returns (n: nat)
      requires hdrlen + buflen <= PACKETBUF_SIZE ==> Valid()
      requires to != buf && to.Length >= PACKETBUF_SIZE
      modifies to
      ensures hdrlen + buflen > PACKETBUF_SIZE ==> n == 0 && to[..] == old(to[..])
      ensures hdrlen + buflen <= PACKETBUF_SIZE ==>
        n == hdrlen + buflen && to[..n] == Payload() && to[n..] == old(to[n..])
    {
      if hdrlen + buflen > PACKETBUF_SIZE {
        return 0;
      }
      hide Part, Spliced;
      ghost var was := to[..];
      n := hdrlen + buflen;
      assert was[n..] == to[n..];
      Memcpy(to, 0, buf, 0, hdrlen);
      Memcpy(to, hdrlen, buf, hdrlen + bufptr, buflen);
      TwoCopies(was, Header(), Data());
      SplitCopy(to[..], Payload(), was[n..]);
      assert to[..n] == to[..][..n] && to[n..] == to[..][n..];
    }

    lemma SplitCopy(to: seq<bv8>, p: seq<bv8>, rest: seq<bv8>)
      requires to == p + rest
      ensures to[..|p|] == p && to[|p|..] == rest
    {}

    /** packetbuf_hdralloc: everything moves up; the new bytes in front are left as they were. */
    method HdrAlloc(size: nat) returns (ok: bool)
      requires Valid()
      modifies `hdrlen, buf
      ensures Valid() && ok == (size + old(Totlen()) <= PACKETBUF_SIZE)
      ensures hdrlen == old(hdrlen) + if ok then size else 0
      ensures Data() == old(Data()) && Header()[if ok then size else 0..] == old(Header())
    {
      assert Header()[0..] == Header();
      if size + Totlen() > PACKETBUF_SIZE {
        return false;
      }
      hide Raised, Part;
      RaisedPart(buf[..], size, Totlen(), 0, hdrlen);
      RaisedPart(buf[..], size, Totlen(), hdrlen + bufptr, buflen);
      ShiftUp(buf, size, Totlen());
      hdrlen := hdrlen + size;
      PartOfPart(buf[..], 0, hdrlen, size, hdrlen);
      ok := true;
    }

    /** packetbuf_hdrreduce: bytes leave the front of the data. */
    method HdrReduce(size: nat) returns (ok: bool)
      requires Valid()
      modifies `bufptr, `buflen
      ensures Valid() && ok == (size <= old(buflen))
      ensures Header() == old(Header()) && Data() == old(Data())[if ok then size else 0..]
    {
      hide Part;
      if buflen < size {
        return false;
      }
      PartOfPart(buf[..], hdrlen + bufptr, buflen, size, buflen);
      bufptr := bufptr + size;
      buflen := buflen - size;
      ok := true;
    }

    /** packetbuf_ftralloc: the data grows at its end. */
    method FtrAlloc(size: nat) returns (ok: bool)
      requires Valid()
      modifies `ftrptr, `buflen
      ensures Valid() && ok == (old(Totlen()) + size <= PACKETBUF_SIZE)
      ensures buflen == old(buflen) + (if ok then size else 0) && (ok ==> ftrptr == old(Totlen()))
      ensures Header() == old(Header()) && Data()[..old(buflen)] == old(Data())
    {
      hide Part;
      if Totlen() + size <= PACKETBUF_SIZE {
        PartOfPart(buf[..], hdrlen + bufptr, buflen + size, 0, buflen);
        ftrptr := Totlen();
        buflen := buflen + size;
        ok := true;
      } else {
        ok := false;
      }
    }

    /** packetbuf_ftrreduce. */
    method FtrReduce(size: nat) returns (ok: bool)
      requires Valid()
      modifies `buflen
      ensures Valid() && ok == (size <= old(buflen))
      ensures Header() == old(Header()) && Data() == old(Data())[..if ok then old(buflen) - size else old(buflen)]
    {
      hide Part;
      if buflen < size {
        ok := false;
      } else {
        PartOfPart(buf[..], hdrlen + bufptr, buflen, 0, buflen - size);
        buflen := buflen - size;
        ok := true;
      }
    }

    /** packetbuf_attr_copyfrom. */
    method AttrCopyFrom(a: Attributes)
      modifies `attributes
      ensures attributes == a
    {
      attributes := a;
    }
  }
}
