/** Byte stuffing of the loader protocol: control bytes are preceded by DLE. */
module Stuffing {
  import opened Bits

  const SOH: U8 := 0x01
  const EOT: U8 := 0x04
  const DLE: U8 := 0x10

  predicate IsControl(b: U8) {
    b == SOH || b == EOT || b == DLE
  }

  /** Read in escape pairs, the string ends in a DLE that has no partner; the code would then
      dereference the end iterator. */
  ghost predicate Dangling(e: seq<U8>) {
    e != [] && if e[0] == DLE then |e| == 1 || Dangling(e[2..]) else Dangling(e[1..])
  }

  ghost function Unescaped(e: seq<U8>): seq<U8>
    requires !Dangling(e)
  {
    if e == [] then []
    else if e[0] == DLE then [e[1]] + Unescaped(e[2..])
    else [e[0]] + Unescaped(e[1..])
  }

  ghost function EscapedByte(b: U8): seq<U8> {
    if IsControl(b) then [DLE, b] else [b]
  }

  ghost function Escaped(d: seq<U8>): seq<U8> {
    if d == [] then [] else EscapedByte(d[0]) + Escaped(d[1..])
  }

  /** Read in escape pairs, only 0x01, 0x04 and 0x10 are escaped and none of them is bare: this
      is what lets a bare SOH or EOT delimit a frame. */
  ghost predicate Canonical(e: seq<U8>) {
    e == [] || if e[0] == 0x10 then |e| >= 2 && e[1] in {0x01, 0x04, 0x10} && Canonical(e[2..])
               else e[0] != 0x01 && e[0] != 0x04 && Canonical(e[1..])
  }

  method EscapeByte(b: U8) returns (escaped: seq<U8>)
    ensures escaped == EscapedByte(b) == if b in {0x01, 0x04, 0x10} then [0x10, b] else [b]
  {
    escaped := [];
    if b == SOH || b == EOT || b == DLE {
      escaped := escaped + [DLE];
    }
    escaped := escaped + [b];
  }

  method Escape(data: seq<U8>) returns (escaped: seq<U8>)
    ensures escaped == Escaped(data)
  {
    escaped := [];
    for i := 0 to |data|
      invariant escaped == Escaped(data[..i])
    {
      var e := EscapeByte(data[i]);
      escaped := escaped + e;
      assert data[..i + 1] == data[..i] + [data[i]];
      EscapedConcat(data[..i], [data[i]]);
      assert [data[i]][1..] == [];
      assert Escaped([data[i]]) == EscapedByte(data[i]) + Escaped([]);
    }
    assert data[..|data|] == data;
  }

  method Unescape(data: seq<U8>) returns (unescaped: seq<U8>)
    requires !Dangling(data)
    ensures unescaped == Unescaped(data)
  {
    unescaped := [];
    var it := 0;
    while it != |data|
      invariant it <= |data| && !Dangling(data[it..])
      invariant unescaped + Unescaped(data[it..]) == Unescaped(data)
      decreases |data| - it
    {
      ghost var rest := data[it..];
      if data[it] == DLE {
        it := it + 1;
        assert rest[2..] == data[it + 1..];
      } else {
        assert rest[1..] == data[it + 1..];
      }
      unescaped := unescaped + [data[it]];
      it := it + 1;
    }
  }

  /** Escaping works byte by byte, so a stream can be escaped in chunks. */
  lemma {:induction false} EscapedConcat(a: seq<U8>, b: seq<U8>)
    ensures Escaped(a + b) == Escaped(a) + Escaped(b)
  {
    if a == [] {
      assert a + b == b;
    } else {
      assert (a + b)[1..] == a[1..] + b;
      EscapedConcat(a[1..], b);
      assert EscapedByte(a[0]) + (Escaped(a[1..]) + Escaped(b)) == Escaped(a) + Escaped(b);
    }
  }

  /** One more byte for every occurrence of a control byte. */
  lemma {:induction false} EscapedLength(d: seq<U8>)
    ensures |Escaped(d)| == |d| + multiset(d)[0x01] + multiset(d)[0x04] + multiset(d)[0x10]
  {
    if d != [] {
      EscapedLength(d[1..]);
      assert d == [d[0]] + d[1..];
      assert multiset(d) == multiset{d[0]} + multiset(d[1..]);
    }
  }

  /** Unescaping undoes escaping, and what was escaped is canonical: it never ends in the
      middle of a pair and shows no SOH or EOT outside one. */
  lemma {:induction false} RoundTrip(d: seq<U8>)
    ensures Canonical(Escaped(d)) && !Dangling(Escaped(d))
    ensures Unescaped(Escaped(d)) == d
  {
    if d != [] {
      RoundTrip(d[1..]);
      var e := Escaped(d);
      if IsControl(d[0]) {
        assert e[2..] == Escaped(d[1..]);
      } else {
        assert e[1..] == Escaped(d[1..]);
      }
    }
  }

  /** The other way round: escaping what was unescaped gives the same bytes back exactly
      when they were canonical. */
  lemma {:induction false} RoundTripBack(e: seq<U8>)
    requires !Dangling(e)
    ensures Escaped(Unescaped(e)) == e <==> Canonical(e)
    decreases |e|
  {
    if e != [] {
      var n := if e[0] == DLE then 2 else 1;
      var b, rest := e[n - 1], e[n..];
      RoundTripBack(rest);
      var u := Unescaped(e);
      assert u[1..] == Unescaped(rest);
      assert Escaped(u) == EscapedByte(b) + Escaped(Unescaped(rest));
      if Escaped(u) == e {
        assert e[..n] == EscapedByte(b) by {
          assert |EscapedByte(b)| == n by {
            assert Escaped(u)[0] == e[0];
          }
        }
        assert Escaped(Unescaped(rest)) == Escaped(u)[n..] == rest;
      }
    }
  }

  /** So the escaped strings are exactly the canonical ones, each of a single message. */
  lemma EscapedImage(e: seq<U8>)
    ensures Canonical(e) <==> exists d :: Escaped(d) == e
  {
    if Canonical(e) {
      CanonicalIsWhole(e);
      RoundTripBack(e);
    }
    if d :| Escaped(d) == e {
      RoundTrip(d);
    }
  }

  lemma {:induction false} CanonicalIsWhole(e: seq<U8>)
    requires Canonical(e)
    ensures !Dangling(e)
  {
    if e != [] {
      if e[0] == DLE {
        CanonicalIsWhole(e[2..]);
      } else {
        CanonicalIsWhole(e[1..]);
      }
    }
  }
}
