/** Bincode with fixed-width little-endian integers, over the types the provers exchange, and the
    cursor buffer that reads and writes it. */
module Bincode {
  import opened Bytes

  /** Types: a u64, a byte array of fixed length, a vector, a struct. */
  datatype Ty = U64 | Raw(n: nat) | Vec(elem: Ty) | Struct(fields: seq<Ty>)

  datatype Val = Num(n: u64) | Blob(bytes: seq<byte>) | List(items: seq<Val>) | Record(vals: seq<Val>)

  predicate HasType(v: Val, t: Ty)
    decreases v
  {
    match v
    case Num(_) => t.U64?
    case Blob(b) => t.Raw? && |b| == t.n
    case List(vs) => t.Vec? && |vs| < TWO64 && forall i :: 0 <= i < |vs| ==> HasType(vs[i], t.elem)
    case Record(vs) => t.Struct? && |vs| == |t.fields| && forall i :: 0 <= i < |vs| ==> HasType(vs[i], t.fields[i])
  }

  function Encode(v: Val): seq<byte>
    decreases v, 0
  {
    match v
    case Num(n) => LE8(n)
    case Blob(b) => b
    case List(vs) => LE(|vs|, 8) + EncodeAll(vs)
    case Record(vs) => EncodeAll(vs)
  }

  function EncodeAll(vs: seq<Val>): seq<byte>
    decreases vs, 0
  {
    if vs == [] then [] else Encode(vs[0]) + EncodeAll(vs[1..])
  }

  /** Decodes a value of a type off the front of the input. */
  function Decode(t: Ty, s: seq<byte>): Option<(Val, seq<byte>)>
    decreases t, 0
  {
    match t
    case U64 => if |s| < 8 then None else Some((Num(FromLE8(s[..8])), s[8..]))
    case Raw(n) => if |s| < n then None else Some((Blob(s[..n]), s[n..]))
    case Vec(e) =>
      if |s| < 8 then None
      else
        var r := DecodeMany(e, FromLE8(s[..8]), s[8..]);
        if r.None? then None else Some((List(r.value.0), r.value.1))
    case Struct(ts) =>
      var r := DecodeEach(ts, s);
      if r.None? then None else Some((Record(r.value.0), r.value.1))
  }

  function DecodeMany(e: Ty, n: nat, s: seq<byte>): Option<(seq<Val>, seq<byte>)>
    decreases e, 1 + n
  {
    if n == 0 then Some(([], s))
    else
      var first := Decode(e, s);
      if first.None? then None
      else
        var rest := DecodeMany(e, n - 1, first.value.1);
        if rest.None? then None else Some(([first.value.0] + rest.value.0, rest.value.1))
  }

  function DecodeEach(ts: seq<Ty>, s: seq<byte>): Option<(seq<Val>, seq<byte>)>
    decreases ts, 0
  {
    if ts == [] then Some(([], s))
    else
      var first := Decode(ts[0], s);
      if first.None? then None
      else
        var rest := DecodeEach(ts[1..], first.value.1);
        if rest.None? then None else Some(([first.value.0] + rest.value.0, rest.value.1))
  }

  lemma EncodeAllCons(v: Val, vs: seq<Val>)
    ensures EncodeAll([v] + vs) == Encode(v) + EncodeAll(vs)
  {
    assert ([v] + vs)[1..] == vs;
  }

  lemma {:induction false} EncodeAllAppend(vs: seq<Val>, v: Val)
    ensures EncodeAll(vs + [v]) == EncodeAll(vs) + Encode(v)
    decreases |vs|
  {
    if vs == [] {
      assert [] + [v] == [v] && [v][1..] == [];
    } else {
      EncodeAllAppend(vs[1..], v);
      assert vs + [v] == [vs[0]] + (vs[1..] + [v]);
      EncodeAllCons(vs[0], vs[1..] + [v]);
      ConcatAssociative(Encode(vs[0]), EncodeAll(vs[1..]), Encode(v));
    }
  }

  // ----- decoding inverts encoding -----

  ghost predicate HasTypes(vs: seq<Val>, ts: seq<Ty>) {
    |vs| == |ts| && forall i :: 0 <= i < |vs| ==> HasType(vs[i], ts[i])
  }

  lemma {:induction false} DecodeOfEncode(v: Val, t: Ty, rest: seq<byte>)
    requires HasType(v, t)
    ensures Decode(t, Encode(v) + rest) == Some((v, rest))
    decreases v, 0
  {
    var s := Encode(v) + rest;
    match v {
      case Num(n) =>
        assert s[..8] == LE8(n) && s[8..] == rest;
        LE8RoundTrip(n);
      case Blob(b) =>
        assert s[..|b|] == b && s[|b|..] == rest;
      case List(vs) =>
        assert s[..8] == LE8(|vs|) && s[8..] == EncodeAll(vs) + rest;
        LE8RoundTrip(|vs|);
        DecodeManyOfEncode(vs, t.elem, rest);
      case Record(vs) =>
        DecodeEachOfEncode(vs, t.fields, rest);
    }
  }

  lemma {:induction false} DecodeManyOfEncode(vs: seq<Val>, e: Ty, rest: seq<byte>)
    requires forall i :: 0 <= i < |vs| ==> HasType(vs[i], e)
    ensures DecodeMany(e, |vs|, EncodeAll(vs) + rest) == Some((vs, rest))
    decreases vs, 0
  {
    if vs == [] {
      assert EncodeAll(vs) + rest == rest;
    } else {
      ConcatAssociative(Encode(vs[0]), EncodeAll(vs[1..]), rest);
      DecodeOfEncode(vs[0], e, EncodeAll(vs[1..]) + rest);
      DecodeManyOfEncode(vs[1..], e, rest);
      assert vs == [vs[0]] + vs[1..];
    }
  }

  /** Values written one after another are read back in order by their types, leaving the rest. */
  lemma {:induction false} DecodeEachOfEncode(vs: seq<Val>, ts: seq<Ty>, rest: seq<byte>)
    requires HasTypes(vs, ts)
    ensures DecodeEach(ts, EncodeAll(vs) + rest) == Some((vs, rest))
    decreases vs, 0
  {
    if vs == [] {
      assert EncodeAll(vs) + rest == rest;
    } else {
      ConcatAssociative(Encode(vs[0]), EncodeAll(vs[1..]), rest);
      DecodeOfEncode(vs[0], ts[0], EncodeAll(vs[1..]) + rest);
      DecodeEachOfEncode(vs[1..], ts[1..], rest);
      assert vs == [vs[0]] + vs[1..];
    }
  }

  // ----- encoding inverts decoding -----

  /** What decodes is the encoding of what it decodes to: no two inputs mean the same value. */
  lemma {:induction false} EncodeOfDecode(t: Ty, s: seq<byte>)
    requires Decode(t, s).Some?
    ensures var (v, rest) := Decode(t, s).value; HasType(v, t) && s == Encode(v) + rest
    decreases t, 0
  {
    match t {
      case U64 =>
        LEOfFromLE(s[..8]);
        assert s == s[..8] + s[8..];
      case Raw(n) =>
        assert s == s[..n] + s[n..];
      case Vec(e) =>
        var n := FromLE8(s[..8]);
        EncodeOfDecodeMany(e, n, s[8..]);
        var (vs, rest) := DecodeMany(e, n, s[8..]).value;
        LEOfFromLE(s[..8]);
        assert s == s[..8] + s[8..];
        ConcatAssociative(s[..8], EncodeAll(vs), rest);
      case Struct(ts) =>
        EncodeOfDecodeEach(ts, s);
    }
  }

  lemma {:induction false} EncodeOfDecodeMany(e: Ty, n: nat, s: seq<byte>)
    requires DecodeMany(e, n, s).Some?
    ensures var (vs, rest) := DecodeMany(e, n, s).value;
            |vs| == n && (forall i :: 0 <= i < n ==> HasType(vs[i], e)) && s == EncodeAll(vs) + rest
    decreases e, 1 + n
  {
    if n > 0 {
      EncodeOfDecode(e, s);
      var (v, s') := Decode(e, s).value;
      EncodeOfDecodeMany(e, n - 1, s');
      var (vs, rest) := DecodeMany(e, n - 1, s').value;
      EncodeAllCons(v, vs);
      ConcatAssociative(Encode(v), EncodeAll(vs), rest);
    }
  }

  lemma {:induction false} EncodeOfDecodeEach(ts: seq<Ty>, s: seq<byte>)
    requires DecodeEach(ts, s).Some?
    ensures var (vs, rest) := DecodeEach(ts, s).value; HasTypes(vs, ts) && s == EncodeAll(vs) + rest
    decreases ts, 0
  {
    if ts != [] {
      EncodeOfDecode(ts[0], s);
      var (v, s') := Decode(ts[0], s).value;
      EncodeOfDecodeEach(ts[1..], s');
      var (vs, rest) := DecodeEach(ts[1..], s').value;
      EncodeAllCons(v, vs);
      ConcatAssociative(Encode(v), EncodeAll(vs), rest);
    }
  }

  // ----- the cursor buffer -----

  class Buffer {
    var data: seq<byte>
    var ptr: nat

    ghost predicate Valid()
      reads this
    {
      ptr <= |data|
    }

    constructor From(data: seq<byte>)
      ensures Valid() && this.data == data && ptr == 0
    {
      this.data := data;
      this.ptr := 0;
    }

    /** Reads a value at the cursor and moves past its serialized size. None is the source's panic. */
    method Read(t: Ty) returns (r: Option<Val>)
      requires Valid()
      modifies this`ptr
      ensures Valid()
      ensures r.Some? <==> Decode(t, data[old(ptr)..]).Some?
      ensures r.None? ==> ptr == old(ptr)
      ensures r.Some? ==> Decode(t, data[old(ptr)..]) == Some((r.value, data[ptr..])) && HasType(r.value, t)
                          && data[old(ptr)..] == Encode(r.value) + data[ptr..]
    {
      var d := Decode(t, data[ptr..]);
      if d.None? {
        return None;
      }
      EncodeOfDecode(t, data[ptr..]);
      var nbBytes := |Encode(d.value.0)|;
      assert data[ptr..][nbBytes..] == d.value.1;
      assert data[ptr..][nbBytes..] == data[ptr + nbBytes..];
      ptr := ptr + nbBytes;
      r := Some(d.value.0);
    }

    method Write(v: Val)
      requires Valid()
      modifies this`data
      ensures Valid() && data == old(data) + Encode(v)
    {
      data := data + Encode(v);
    }
  }

  /** Any sequence of writes is returned in order by the same sequence of typed reads, which leave
      the cursor at the end of the data. */
  method WriteThenRead(ws: seq<Val>, ts: seq<Ty>) returns (vs: seq<Val>, cursor: nat, size: nat)
    requires HasTypes(ws, ts)
    ensures vs == ws && cursor == size
  {
    var b := new Buffer.From([]);
    for i := 0 to |ws|
      invariant b.Valid() && b.ptr == 0 && b.data == EncodeAll(ws[..i])
    {
      b.Write(ws[i]);
      EncodeAllAppend(ws[..i], ws[i]);
      assert ws[..i] + [ws[i]] == ws[..i + 1];
    }
    assert ws[..|ws|] == ws;
    vs := [];
    for i := 0 to |ts|
      invariant b.Valid() && vs == ws[..i]
      invariant b.data[b.ptr..] == EncodeAll(ws[i..])
    {
      EncodeAllCons(ws[i], ws[i + 1..]);
      assert [ws[i]] + ws[i + 1..] == ws[i..];
      DecodeOfEncode(ws[i], ts[i], EncodeAll(ws[i + 1..]));
      var v := b.Read(ts[i]);
      vs := vs + [v.value];
    }
    cursor, size := b.ptr, |b.data|;
    assert ws[|ws|..] == [];
    assert |b.data[b.ptr..]| == 0;
  }
}
