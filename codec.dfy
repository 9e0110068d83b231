/**
 * The binary map encoding of faasmctl/util/batch.py: a 4-byte pair count,
 * then for every entry, in the dictionary's iteration order, the key and then
 * the value, each as a 4-byte length followed by the string's UTF-8 bytes.
 *
 * The length the code writes is `len(string)`, a count of characters, while
 * the bytes that follow are the UTF-8 encoding. `EncodeString`/`EncodeMap`
 * model the code as written; `EncodeStringIntended`/`EncodeMapIntended` write
 * the byte count instead. `DecodeMap`, a decoder driven by the length
 * prefixes, inverts the intended encoding on every map and the written one
 * on ASCII text, where the two encodings coincide; one non-ASCII key is
 * enough to break the written one. The methods
 * `SerializeString` and `SerializeMap` write the intended encoding.
 */
module MapCodec {
  import opened Wrappers
  import opened Bytes
  import Utf8

  /** One item of a Python dict of strings: key, then value. */
  type Entry = (string, string)

  /** The items of a dict, in its iteration (insertion) order. */
  type StrMap = seq<Entry>

  predicate AllAscii(m: StrMap) {
    forall i :: 0 <= i < |m| ==> Utf8.IsAscii(m[i].0) && Utf8.IsAscii(m[i].1)
  }

  // ----- The encoding as written -----

  /** `struct.pack('I', len(s))` succeeds. */
  predicate StringPackable(s: string) {
    |s| < U32Bound
  }

  predicate EntriesPackable(m: StrMap) {
    forall i :: 0 <= i < |m| ==> StringPackable(m[i].0) && StringPackable(m[i].1)
  }

  /** `serialize_map(m)` raises no `struct.error`. */
  predicate Packable(m: StrMap) {
    |m| < U32Bound && EntriesPackable(m)
  }

  /** What `serialize_string` appends: the character count, then the UTF-8 bytes. */
  function EncodeString(s: string): (r: seq<byte>)
    requires StringPackable(s)
    ensures |r| >= 4 && ReadU32(r) == |s|
    ensures r[4..] == Utf8.Encode(s)
  {
    ReadU32OfU32(|s|, Utf8.Encode(s));
    U32(|s|) + Utf8.Encode(s)
  }

  function EncodeEntry(e: Entry): seq<byte>
    requires StringPackable(e.0) && StringPackable(e.1)
  {
    EncodeString(e.0) + EncodeString(e.1)
  }

  function EncodeEntries(m: StrMap): seq<byte>
    requires EntriesPackable(m)
  {
    if m == [] then [] else EncodeEntry(m[0]) + EncodeEntries(m[1..])
  }

  /** What `serialize_map` returns. */
  function EncodeMap(m: StrMap): (r: seq<byte>)
    requires Packable(m)
    ensures |r| >= 4 && ReadU32(r) == |m|
    ensures r[4..] == EncodeEntries(m)
  {
    ReadU32OfU32(|m|, EncodeEntries(m));
    U32(|m|) + EncodeEntries(m)
  }

  // ----- The intended encoding: lengths counted in bytes -----

  predicate StringPackableIntended(s: string) {
    |Utf8.Encode(s)| < U32Bound
  }

  predicate EntriesPackableIntended(m: StrMap) {
    forall i :: 0 <= i < |m| ==> StringPackableIntended(m[i].0) && StringPackableIntended(m[i].1)
  }

  predicate PackableIntended(m: StrMap) {
    |m| < U32Bound && EntriesPackableIntended(m)
  }

  function EncodeStringIntended(s: string): seq<byte>
    requires StringPackableIntended(s)
  {
    U32(|Utf8.Encode(s)|) + Utf8.Encode(s)
  }

  function EncodeEntryIntended(e: Entry): seq<byte>
    requires StringPackableIntended(e.0) && StringPackableIntended(e.1)
  {
    EncodeStringIntended(e.0) + EncodeStringIntended(e.1)
  }

  function EncodeEntriesIntended(m: StrMap): seq<byte>
    requires EntriesPackableIntended(m)
  {
    if m == [] then [] else EncodeEntryIntended(m[0]) + EncodeEntriesIntended(m[1..])
  }

  function EncodeMapIntended(m: StrMap): seq<byte>
    requires PackableIntended(m)
  {
    U32(|m|) + EncodeEntriesIntended(m)
  }

  // ----- The decoder -----

  /** A length-prefixed string at the front of `b`, and what follows it. */
  function DecodeString(b: seq<byte>): (r: Option<(string, seq<byte>)>)
    ensures r.Some? ==> |r.value.1| <= |b| - 4 && r.value.1 == b[|b| - |r.value.1|..]
  {
    if |b| < 4 then None
    else
      var n := ReadU32(b);
      if |b| - 4 < n then None
      else match Utf8.Decode(b[4..4 + n])
        case None => None
        case Some(s) => Some((s, b[4 + n..]))
  }

  /** `count` entries at the front of `b`, and what follows them. */
  function DecodeEntries(b: seq<byte>, count: nat): (r: Option<(StrMap, seq<byte>)>)
    ensures r.Some? ==> |r.value.0| == count && |r.value.1| <= |b|
    decreases count
  {
    if count == 0 then Some(([], b))
    else match DecodeString(b)
      case None => None
      case Some((k, b1)) =>
        match DecodeString(b1)
        case None => None
        case Some((v, b2)) =>
          match DecodeEntries(b2, count - 1)
          case None => None
          case Some((m, b3)) => Some(([(k, v)] + m, b3))
  }

  /** The map a whole blob holds; trailing bytes make it malformed. */
  function DecodeMap(b: seq<byte>): (r: Option<StrMap>)
    ensures r.Some? ==> |b| >= 4 && |r.value| == ReadU32(b)
    ensures r.Some? ==> DecodeEntries(b[4..], ReadU32(b)) == Some((r.value, []))
  {
    if |b| < 4 then None
    else match DecodeEntries(b[4..], ReadU32(b))
      case Some((m, rest)) => if rest == [] then Some(m) else None
      case None => None
  }

  // ----- Sizes and prefixes -----

  /** Σ (4 + byteLen(k) + 4 + byteLen(v)) over the entries. */
  function EntriesSize(m: StrMap): nat {
    if m == [] then 0
    else 4 + |Utf8.Encode(m[0].0)| + 4 + |Utf8.Encode(m[0].1)| + EntriesSize(m[1..])
  }

  /** `serialize_string` appends 4 bytes holding `len(s)`, then the UTF-8 bytes;
      for ASCII text that count is the number of bytes that follow. */
  lemma StringLayout(s: string)
    requires StringPackable(s)
    ensures |EncodeString(s)| == 4 + |Utf8.Encode(s)|
    ensures ReadU32(EncodeString(s)) == |s|
    ensures EncodeString(s)[4..] == Utf8.Encode(s)
    ensures Utf8.IsAscii(s) ==> ReadU32(EncodeString(s)) == |EncodeString(s)| - 4
  {
    ReadU32OfU32(|s|, Utf8.Encode(s));
    Utf8.EncodeLength(s);
  }

  /** The blob starts with the pair count and is 4 + Σ(4 + byteLen(k) + 4 + byteLen(v)) long. */
  lemma MapLayout(m: StrMap)
    requires Packable(m)
    ensures ReadU32(EncodeMap(m)) == |m|
    ensures |EncodeMap(m)| == 4 + EntriesSize(m)
  {
    ReadU32OfU32(|m|, EncodeEntries(m));
    EntriesLength(m);
  }

  lemma {:induction false} EntriesLength(m: StrMap)
    requires EntriesPackable(m)
    ensures |EncodeEntries(m)| == EntriesSize(m)
  {
    if m != [] {
      assert EntriesPackable(m[1..]) by {
        forall i | 0 <= i < |m| - 1 ensures StringPackable(m[1..][i].0) && StringPackable(m[1..][i].1) {
          assert m[1..][i] == m[i + 1];
        }
      }
      EntriesLength(m[1..]);
    }
  }

  /** Appending one entry to the dict appends its encoding: how `serialize_map`'s loop builds the blob. */
  lemma {:induction false} EncodeEntriesIntendedSnoc(m: StrMap, e: Entry)
    requires EntriesPackableIntended(m) && StringPackableIntended(e.0) && StringPackableIntended(e.1)
    ensures EntriesPackableIntended(m + [e])
    ensures EncodeEntriesIntended(m + [e]) == EncodeEntriesIntended(m) + EncodeEntryIntended(e)
  {
    assert EntriesPackableIntended(m + [e]) by {
      forall i | 0 <= i < |m| + 1
        ensures StringPackableIntended((m + [e])[i].0) && StringPackableIntended((m + [e])[i].1)
      {
        if i < |m| { assert (m + [e])[i] == m[i]; }
      }
    }
    if m == [] {
      assert [] + [e] == [e];
    } else {
      assert (m + [e])[1..] == m[1..] + [e];
      assert EntriesPackableIntended(m[1..]) by {
        forall i | 0 <= i < |m| - 1
          ensures StringPackableIntended(m[1..][i].0) && StringPackableIntended(m[1..][i].1)
        {
          assert m[1..][i] == m[i + 1];
        }
      }
      EncodeEntriesIntendedSnoc(m[1..], e);
    }
  }

  /** With byte-length prefixes every prefix is the size of the block after it,
      and the blob is still 4 + Σ(4 + byteLen(k) + 4 + byteLen(v)) bytes. */
  lemma MapLayoutIntended(m: StrMap)
    requires PackableIntended(m)
    ensures ReadU32(EncodeMapIntended(m)) == |m|
    ensures |EncodeMapIntended(m)| == 4 + EntriesSize(m)
  {
    ReadU32OfU32(|m|, EncodeEntriesIntended(m));
    EntriesLengthIntended(m);
  }

  lemma {:induction false} EntriesLengthIntended(m: StrMap)
    requires EntriesPackableIntended(m)
    ensures |EncodeEntriesIntended(m)| == EntriesSize(m)
  {
    if m != [] {
      assert EntriesPackableIntended(m[1..]) by {
        forall i | 0 <= i < |m| - 1
          ensures StringPackableIntended(m[1..][i].0) && StringPackableIntended(m[1..][i].1)
        {
          assert m[1..][i] == m[i + 1];
        }
      }
      EntriesLengthIntended(m[1..]);
    }
  }

  // ----- Round trips -----

  lemma DecodeStringIntended(s: string, rest: seq<byte>)
    requires StringPackableIntended(s)
    ensures DecodeString(EncodeStringIntended(s) + rest) == Some((s, rest))
  {
    var p := Utf8.Encode(s);
    var b := EncodeStringIntended(s) + rest;
    ReadU32OfU32(|p|, p + rest);
    assert b == U32(|p|) + (p + rest);
    assert b[4..4 + |p|] == p;
    assert b[4 + |p|..] == rest;
    Utf8.DecodeEncode(s);
  }

  /** The first entry's two strings, then the rest of the dict. */
  lemma EntriesIntendedCons(m: StrMap, rest: seq<byte>)
    requires m != [] && EntriesPackableIntended(m)
    ensures EntriesPackableIntended(m[1..])
    ensures EncodeEntriesIntended(m) + rest
         == EncodeStringIntended(m[0].0) + (EncodeStringIntended(m[0].1) + (EncodeEntriesIntended(m[1..]) + rest))
  {
    forall i | 0 <= i < |m| - 1
      ensures StringPackableIntended(m[1..][i].0) && StringPackableIntended(m[1..][i].1)
    {
      assert m[1..][i] == m[i + 1];
    }
    var a, b, c := EncodeStringIntended(m[0].0), EncodeStringIntended(m[0].1), EncodeEntriesIntended(m[1..]);
    assert EncodeEntriesIntended(m) == (a + b) + c;
    Append4(a, b, c, rest);
  }

  lemma Append4(a: seq<byte>, b: seq<byte>, c: seq<byte>, d: seq<byte>)
    ensures (a + b) + c + d == a + (b + (c + d))
  { }

  lemma {:induction false} DecodeEntriesIntended(m: StrMap, rest: seq<byte>)
    requires EntriesPackableIntended(m)
    ensures DecodeEntries(EncodeEntriesIntended(m) + rest, |m|) == Some((m, rest))
  {
    if m == [] {
      assert EncodeEntriesIntended(m) + rest == rest;
    } else {
      var k, v := m[0].0, m[0].1;
      EntriesIntendedCons(m, rest);
      var tail := EncodeEntriesIntended(m[1..]) + rest;
      var b1 := EncodeStringIntended(v) + tail;
      DecodeStringIntended(k, b1);
      DecodeStringIntended(v, tail);
      DecodeEntriesIntended(m[1..], rest);
      assert [(k, v)] + m[1..] == m;
    }
  }

  /** The intended encoding round-trips for every map: the empty map, empty strings and multi-byte text included. */
  lemma RoundTripIntended(m: StrMap)
    requires PackableIntended(m)
    ensures DecodeMap(EncodeMapIntended(m)) == Some(m)
  {
    var b := EncodeMapIntended(m);
    ReadU32OfU32(|m|, EncodeEntriesIntended(m));
    DecodeEntriesIntended(m, []);
    assert b[4..] == EncodeEntriesIntended(m) + [];
  }

  /** The encoding as written is the intended one exactly when all text is ASCII. */
  lemma {:induction false} AsWrittenIsIntendedIffAscii(m: StrMap)
    requires Packable(m)
    ensures AllAscii(m) ==> PackableIntended(m) && EncodeMap(m) == EncodeMapIntended(m)
    ensures PackableIntended(m) && EncodeMap(m) == EncodeMapIntended(m) ==> AllAscii(m)
  {
    if AllAscii(m) {
      forall i | 0 <= i < |m|
        ensures |Utf8.Encode(m[i].0)| == |m[i].0| && |Utf8.Encode(m[i].1)| == |m[i].1|
      {
        Utf8.EncodeLength(m[i].0);
        Utf8.EncodeLength(m[i].1);
      }
      EntriesAgreeOnAscii(m);
    }
    if PackableIntended(m) && EncodeMap(m) == EncodeMapIntended(m) {
      assert EncodeMap(m)[4..] == EncodeEntries(m);
      assert EncodeMapIntended(m)[4..] == EncodeEntriesIntended(m);
      EntriesAgreeOnlyOnAscii(m);
    }
  }

  lemma {:induction false} EntriesAgreeOnAscii(m: StrMap)
    requires Packable(m) && AllAscii(m)
    requires forall i :: 0 <= i < |m| ==> |Utf8.Encode(m[i].0)| == |m[i].0| && |Utf8.Encode(m[i].1)| == |m[i].1|
    ensures PackableIntended(m) && EncodeEntries(m) == EncodeEntriesIntended(m)
  {
    if m != [] {
      assert Packable(m[1..]) && AllAscii(m[1..]) by {
        forall i | 0 <= i < |m| - 1 ensures m[1..][i] == m[i + 1] { }
      }
      assert forall i :: 0 <= i < |m| - 1 ==> m[1..][i] == m[i + 1];
      EntriesAgreeOnAscii(m[1..]);
    }
  }

  lemma {:induction false} EntriesAgreeOnlyOnAscii(m: StrMap)
    requires EntriesPackable(m) && PackableIntended(m)
    requires EncodeEntries(m) == EncodeEntriesIntended(m)
    ensures AllAscii(m)
  {
    if m != [] {
      HeadAgreesOnlyOnAscii(m);
      EntriesAgreeOnlyOnAscii(m[1..]);
      forall i | 0 <= i < |m| ensures Utf8.IsAscii(m[i].0) && Utf8.IsAscii(m[i].1) {
        if i > 0 { assert m[i] == m[1..][i - 1]; }
      }
    }
  }

  /** When both encodings of a non-empty dict agree, its first entry is ASCII and
      the encodings of the rest agree. */
  lemma HeadAgreesOnlyOnAscii(m: StrMap)
    requires m != [] && EntriesPackable(m) && PackableIntended(m)
    requires EncodeEntries(m) == EncodeEntriesIntended(m)
    ensures Utf8.IsAscii(m[0].0) && Utf8.IsAscii(m[0].1)
    ensures EntriesPackable(m[1..]) && PackableIntended(m[1..])
    ensures EncodeEntries(m[1..]) == EncodeEntriesIntended(m[1..])
  {
    var k, v := m[0].0, m[0].1;
    var a := EncodeEntries(m);
    var pk := Utf8.Encode(k);
    var pv := Utf8.Encode(v);
    // The key's length prefixes agree, so the key is ASCII.
    assert a[..4] == U32(|k|);
    assert EncodeEntriesIntended(m)[..4] == U32(|pk|);
    U32Injective(|k|, |pk|);
    Utf8.EncodeLength(k);
    // Then the value's prefixes sit at the same offset and agree too.
    assert a[4 + |pk|..][..4] == U32(|v|);
    assert EncodeEntriesIntended(m)[4 + |pk|..][..4] == U32(|pv|);
    U32Injective(|v|, |pv|);
    Utf8.EncodeLength(v);
    // What follows is the rest of the dict, encoded both ways.
    var off := 8 + |pk| + |pv|;
    assert a[off..] == EncodeEntries(m[1..]);
    assert EncodeEntriesIntended(m)[off..] == EncodeEntriesIntended(m[1..]);
    forall i | 0 <= i < |m| - 1 ensures m[1..][i] == m[i + 1] { }
  }

  /** For ASCII text the encoding as written round-trips: the decoder recovers the pairs in order. */
  lemma AsciiRoundTrip(m: StrMap)
    requires Packable(m) && AllAscii(m)
    ensures DecodeMap(EncodeMap(m)) == Some(m)
  {
    AsWrittenIsIntendedIffAscii(m);
    RoundTripIntended(m);
  }

  /** A one-character non-ASCII key breaks the encoding as written: its prefix
      says 1, so the decoder takes half of the two-byte character. */
  lemma NonAsciiKeyBreaksDecoding()
    ensures Packable([("é", "")])
    ensures DecodeMap(EncodeMap([("é", "")])) == None
  {
    var m: StrMap := [("é", "")];
    assert EntriesPackable(m);
    assert Utf8.EncodeChar('é') == [0xC3, 0xA9];
    assert Utf8.Encode("é") == [0xC3, 0xA9];
    assert Utf8.Encode("") == [];
    var tail: seq<byte> := [0xC3, 0xA9] + U32(0);
    var body := U32(1) + tail;
    assert EncodeEntries(m) == EncodeEntry(("é", "")) + EncodeEntries([]);
    assert EncodeEntry(("é", "")) == body;
    assert EncodeMap(m) == U32(1) + body;
    ReadU32OfU32(1, body);
    assert EncodeMap(m)[4..] == body;
    assert body[4..5] == [0xC3];
    assert Utf8.DecodeChar([0xC3]) == None;
    assert Utf8.Decode([0xC3]) == None;
    assert DecodeString(body) == None;
  }

  // ----- serialize_string and serialize_map, with byte-length prefixes -----

  lemma NotPackableAt(m: StrMap, i: nat)
    requires i < |m| && !(StringPackableIntended(m[i].0) && StringPackableIntended(m[i].1))
    ensures !PackableIntended(m)
  {
  }

  /** One more entry of `m` serialized: the prefix of the dict grows by one entry. */
  lemma PrefixStep(head: seq<byte>, m: StrMap, i: nat)
    requires i < |m| && EntriesPackableIntended(m[..i])
    requires StringPackableIntended(m[i].0) && StringPackableIntended(m[i].1)
    ensures EntriesPackableIntended(m[..i + 1])
    ensures head + EncodeEntriesIntended(m[..i + 1]) == (head + EncodeEntriesIntended(m[..i])) + EncodeEntryIntended(m[i])
  {
    assert m[..i + 1] == m[..i] + [m[i]];
    EncodeEntriesIntendedSnoc(m[..i], m[i]);
  }

  /** `serialize_string(buffer, s)`, writing the byte length of the UTF-8 form as
      the prefix: append the prefix and the bytes of `s`; `ok` is false where
      `struct.pack` raises, and the buffer is then untouched. */
  method SerializeString(buffer: ByteArray, s: string) returns (ok: bool)
    modifies buffer
    ensures ok == StringPackableIntended(s)
    ensures ok ==> buffer.data == old(buffer.data) + EncodeStringIntended(s)
    ensures !ok ==> buffer.data == old(buffer.data)
  {
    var encoded := Utf8.Encode(s);
    if |encoded| >= U32Bound {
      return false;
    }
    buffer.Extend(U32(|encoded|));
    buffer.Extend(encoded);
    return true;
  }

  /** The body of `serialize_map`'s loop: the key, then the value. When either
      fails the caller drops the buffer, so its contents then do not matter. */
  method SerializeEntry(buffer: ByteArray, e: Entry) returns (ok: bool)
    modifies buffer
    ensures ok == (StringPackableIntended(e.0) && StringPackableIntended(e.1))
    ensures ok ==> buffer.data == old(buffer.data) + EncodeEntryIntended(e)
  {
    ok := SerializeString(buffer, e.0);
    if ok {
      ok := SerializeString(buffer, e.1);
      if ok {
        assert buffer.data == old(buffer.data) + EncodeStringIntended(e.0) + EncodeStringIntended(e.1);
      }
    }
  }

  /** `serialize_map(m)`: a fresh buffer holding the encoding of `m`, or `None` where `struct.pack` raises. */
  method SerializeMap(m: StrMap) returns (r: Option<ByteArray>)
    ensures r.Some? <==> PackableIntended(m)
    ensures r.Some? ==> fresh(r.value) && r.value.data == EncodeMapIntended(m)
  {
    var buffer := new ByteArray();
    if |m| >= U32Bound {
      return None;
    }
    buffer.Extend(U32(|m|));
    for i := 0 to |m|
      invariant EntriesPackableIntended(m[..i])
      invariant buffer.data == U32(|m|) + EncodeEntriesIntended(m[..i])
    {
      var ok := SerializeEntry(buffer, m[i]);
      if !ok {
        NotPackableAt(m, i);
        return None;
      }
      PrefixStep(U32(|m|), m, i);
    }
    assert m[..|m|] == m;
    return Some(buffer);
  }
}
