/** The byte form of a manifest: `ORGM`, a version, the size and the chunk count, then
    one fixed-width entry per chunk. */
module ManifestCodec {
  import opened Tilings
  import opened Bytes
  import opened Manifests

  /** A chunk's address as stored: 32 bytes. */
  type Digest = seq<byte>

  const DIGEST_LEN: nat := 32
  const OBJECT_HEADER_LEN: nat := 5
  const HEADER_LEN: nat := 17
  const ENTRY_LEN: nat := 36
  const TAG: seq<byte> := [79, 82, 71, 77]
  const VERSION: byte := 1

  datatype Encoded = Bytes_(bytes: seq<byte>) | TooManyChunks

  datatype Decoded = Decoded(m: Manifest<Digest>) | Malformed | Unsupported(version: byte) | Corrupt

  // ----- little-endian fields

  function Pow256(width: nat): nat {
    if width == 0 then 1 else 256 * Pow256(width - 1)
  }

  function ToLE(n: nat, width: nat): (r: seq<byte>)
    ensures |r| == width
  {
    if width == 0 then [] else [(n % 256) as byte] + ToLE(n / 256, width - 1)
  }

  function FromLE(bytes: seq<byte>): nat {
    if bytes == [] then 0 else bytes[0] as nat + 256 * FromLE(bytes[1..])
  }

  lemma {:induction false} LERoundTrip(n: nat, width: nat)
    requires n < Pow256(width)
    ensures FromLE(ToLE(n, width)) == n
  {
    if width == 0 {
    } else {
      var r := ToLE(n, width);
      assert r[1..] == ToLE(n / 256, width - 1);
      LERoundTrip(n / 256, width - 1);
    }
  }

  lemma FourBytes(b: seq<byte>)
    requires |b| == 4
    ensures FromLE(b) == b[0] as nat + 0x100 * b[1] as nat + 0x1_0000 * b[2] as nat + 0x100_0000 * b[3] as nat
  {
    assert FromLE(b[3..]) == b[3] as nat + 256 * FromLE(b[3..][1..]) == b[3] as nat;
    assert b[2..][1..] == b[3..] && b[1..][1..] == b[2..];
    assert FromLE(b[2..]) == b[2] as nat + 256 * FromLE(b[3..]);
    assert FromLE(b[1..]) == b[1] as nat + 256 * FromLE(b[2..]);
  }

  lemma EightBytes(b: seq<byte>)
    requires |b| == 8
    ensures FromLE(b) == b[0] as nat + 0x100 * b[1] as nat + 0x1_0000 * b[2] as nat + 0x100_0000 * b[3] as nat
                         + 0x1_0000_0000 * FromLE(b[4..])
  {
    assert b[3..][1..] == b[4..] && b[2..][1..] == b[3..] && b[1..][1..] == b[2..];
    assert FromLE(b[3..]) == b[3] as nat + 256 * FromLE(b[4..]);
    assert FromLE(b[2..]) == b[2] as nat + 256 * FromLE(b[3..]);
    assert FromLE(b[1..]) == b[1] as nat + 256 * FromLE(b[2..]);
  }

  /** What the bytes of a 32-bit and of a 64-bit field stand for, the lowest first. */
  lemma FieldBytes(n: nat)
    ensures n < U32 ==>
      var b := ToLE(n, 4);
      n == b[0] as nat + 0x100 * b[1] as nat + 0x1_0000 * b[2] as nat + 0x100_0000 * b[3] as nat
    ensures n < U64 ==>
      var b := ToLE(n, 8);
      n == b[0] as nat + 0x100 * b[1] as nat + 0x1_0000 * b[2] as nat + 0x100_0000 * b[3] as nat
           + 0x1_0000_0000 * (b[4] as nat + 0x100 * b[5] as nat + 0x1_0000 * b[6] as nat + 0x100_0000 * b[7] as nat)
  {
    hide ToLE, FromLE;
    Widths();
    if n < U32 {
      LERoundTrip(n, 4);
      FourBytes(ToLE(n, 4));
    }
    if n < U64 {
      LERoundTrip(n, 8);
      EightBytes(ToLE(n, 8));
      FourBytes(ToLE(n, 8)[4..]);
    }
  }

  lemma DivMod(low: nat, high: nat)
    requires low < 256
    ensures (low + 256 * high) % 256 == low && (low + 256 * high) / 256 == high
  {
  }

  lemma ToLEStep(n: nat, width: nat)
    requires width > 0
    ensures ToLE(n, width) == [(n % 256) as byte] + ToLE(n / 256, width - 1)
  {
  }

  lemma {:induction false} LECanonical(bytes: seq<byte>)
    ensures FromLE(bytes) < Pow256(|bytes|)
    ensures ToLE(FromLE(bytes), |bytes|) == bytes
  {
    if bytes == [] {
    } else {
      hide ToLE;
      var low, high := bytes[0] as nat, FromLE(bytes[1..]);
      LECanonical(bytes[1..]);
      DivMod(low, high);
      ToLEStep(low + 256 * high, |bytes|);
      assert bytes == [bytes[0]] + bytes[1..];
    }
  }

  lemma Widths()
    ensures Pow256(4) == U32 && Pow256(8) == U64
  {
    assert Pow256(1) == 256;
    assert Pow256(2) == 256 * Pow256(1);
    assert Pow256(3) == 256 * Pow256(2);
    assert Pow256(4) == 256 * Pow256(3);
    assert Pow256(5) == 256 * Pow256(4);
    assert Pow256(6) == 256 * Pow256(5);
    assert Pow256(7) == 256 * Pow256(6);
    assert Pow256(8) == 256 * Pow256(7);
  }

  // ----- the encoding

  /** The fields fit their widths. */
  ghost predicate FitsWidths(m: Manifest<Digest>) {
    && m.size < U64
    && forall i | 0 <= i < |m.chunks| :: |m.chunks[i].hash| == DIGEST_LEN && m.chunks[i].len < U32
  }

  function Entry(c: ChunkRef<Digest>): seq<byte> {
    c.hash + ToLE(c.len, 4)
  }

  ghost function Entries(chunks: seq<ChunkRef<Digest>>): seq<byte> {
    if chunks == [] then [] else Entries(chunks[..|chunks|-1]) + Entry(chunks[|chunks|-1])
  }

  ghost function Encoding(m: Manifest<Digest>): seq<byte> {
    TAG + [VERSION] + ToLE(m.size, 8) + ToLE(|m.chunks|, 4) + Entries(m.chunks)
  }

  method Encode(m: Manifest<Digest>) returns (r: Encoded)
    ensures r == if |m.chunks| < U32 then Bytes_(Encoding(m)) else TooManyChunks
  {
    hide ToLE, Entry;
    if |m.chunks| >= U32 {
      return TooManyChunks;
    }
    var out := TAG + [VERSION];
    out := out + ToLE(m.size, 8);
    out := out + ToLE(|m.chunks|, 4);
    ghost var header := out;
    assert m.chunks[..0] == [] && header + [] == header;
    for k := 0 to |m.chunks|
      invariant out == header + Entries(m.chunks[..k])
    {
      EntriesStep(m.chunks, k);
      Concat3(header, Entries(m.chunks[..k]), Entry(m.chunks[k]));
      out := out + Entry(m.chunks[k]);
    }
    assert m.chunks[..|m.chunks|] == m.chunks;
    r := Bytes_(out);
  }

  lemma EntriesStep(chunks: seq<ChunkRef<Digest>>, k: nat)
    requires k < |chunks|
    ensures Entries(chunks[..k+1]) == Entries(chunks[..k]) + Entry(chunks[k])
  {
    assert chunks[..k+1][..k] == chunks[..k];
  }

  lemma {:induction false} EntriesLength(chunks: seq<ChunkRef<Digest>>)
    requires forall i | 0 <= i < |chunks| :: |chunks[i].hash| == DIGEST_LEN
    ensures |Entries(chunks)| == |chunks| * ENTRY_LEN
  {
    if chunks == [] {
    } else {
      EntriesLength(chunks[..|chunks|-1]);
    }
  }

  /** The fields of an encoding sit at fixed places. */
  lemma EncodingFields(m: Manifest<Digest>)
    requires FitsWidths(m)
    ensures var e := Encoding(m);
      && |e| == HEADER_LEN + |m.chunks| * ENTRY_LEN
      && e[..4] == [79, 82, 71, 77] && e[4] == 1
      && e[5..13] == ToLE(m.size, 8) && e[13..17] == ToLE(|m.chunks|, 4)
      && e[HEADER_LEN..] == Entries(m.chunks)
  {
    hide ToLE, Entries;
    EntriesLength(m.chunks);
    var size, count, entries := ToLE(m.size, 8), ToLE(|m.chunks|, 4), Entries(m.chunks);
    var e := TAG + [VERSION] + size + count + entries;
    assert e[5..13] == size && e[13..17] == count && e[17..] == entries && e[..4] == TAG;
  }

  lemma EntryInjective(a: ChunkRef<Digest>, b: ChunkRef<Digest>)
    requires |a.hash| == |b.hash| == DIGEST_LEN && a.len < U32 && b.len < U32
    requires Entry(a) == Entry(b)
    ensures a == b
  {
    hide ToLE;
    Widths();
    LERoundTrip(a.len, 4);
    LERoundTrip(b.len, 4);
    assert a.hash == Entry(a)[..DIGEST_LEN] == Entry(b)[..DIGEST_LEN] == b.hash;
    assert ToLE(a.len, 4) == Entry(a)[DIGEST_LEN..] == Entry(b)[DIGEST_LEN..] == ToLE(b.len, 4);
  }

  /** The last entry can be cut off. */
  lemma EntriesCut(chunks: seq<ChunkRef<Digest>>)
    requires chunks != [] && forall i | 0 <= i < |chunks| :: |chunks[i].hash| == DIGEST_LEN
    ensures var n := |chunks| - 1;
      && n * ENTRY_LEN <= |Entries(chunks)|
      && Entries(chunks)[..n * ENTRY_LEN] == Entries(chunks[..n])
      && Entries(chunks)[n * ENTRY_LEN..] == Entry(chunks[n])
  {
    hide Entries, Entry;
    var n := |chunks| - 1;
    EntriesStep(chunks, n);
    assert chunks[..n+1] == chunks;
    EntriesLength(chunks[..n]);
  }

  lemma {:induction false} EntriesInjective(a: seq<ChunkRef<Digest>>, b: seq<ChunkRef<Digest>>)
    requires forall i | 0 <= i < |a| :: |a[i].hash| == DIGEST_LEN && a[i].len < U32
    requires forall i | 0 <= i < |b| :: |b[i].hash| == DIGEST_LEN && b[i].len < U32
    requires Entries(a) == Entries(b)
    ensures a == b
  {
    hide Entries, Entry;
    EntriesLength(a);
    EntriesLength(b);
    if a == [] {
      assert b == [];
    } else {
      var n := |a| - 1;
      EntriesCut(a);
      EntriesCut(b);
      EntriesInjective(a[..n], b[..n]);
      EntryInjective(a[n], b[n]);
      assert a == a[..n] + [a[n]] && b == b[..n] + [b[n]];
    }
  }

  /** Two manifests never encode alike, so the address names the manifest. */
  lemma EncodingInjective(a: Manifest<Digest>, b: Manifest<Digest>)
    requires FitsWidths(a) && FitsWidths(b)
    requires Encoding(a) == Encoding(b)
    ensures a == b
  {
    hide Encoding, Entries, ToLE;
    EncodingFields(a);
    EncodingFields(b);
    Widths();
    LERoundTrip(a.size, 8);
    LERoundTrip(b.size, 8);
    EntriesInjective(a.chunks, b.chunks);
  }

  /** What an accepted manifest is: fields within their widths, few enough chunks,
      and a size that is the sum of the chunk lengths. */
  ghost predicate IsManifest(m: Manifest<Digest>) {
    IsDeclared(m) && m.size == Lens(m.chunks)
  }

  /** What can be written down at all, whatever size it declares. */
  ghost predicate IsDeclared(m: Manifest<Digest>) {
    FitsWidths(m) && |m.chunks| < U32
  }

  /** The sum of the lengths of as many chunks as can be declared fits 64 bits. */
  lemma {:induction false} LensBound(chunks: seq<ChunkRef<Digest>>)
    requires forall i | 0 <= i < |chunks| :: chunks[i].len < U32
    ensures Lens(chunks) <= |chunks| * (U32 - 1)
    ensures |chunks| < U32 ==> Lens(chunks) < U64
  {
    if chunks == [] {
    } else {
      assert chunks[0].len < U32;
      LensBound(chunks[1..]);
    }
  }

  /** Whether the bytes carry the manifest tag. */
  predicate Tagged(bytes: seq<byte>) {
    |bytes| >= OBJECT_HEADER_LEN && bytes[..4] == TAG
  }

  /** Dispatch on the header's version. Corrupt is what lays a manifest out whose chunks
      do not add up to the size it declares, malformed what lays none out. */
  method Decode(bytes: seq<byte>) returns (r: Decoded)
    ensures r.Decoded? ==> IsManifest(r.m) && Encoding(r.m) == bytes
    ensures forall m :: IsManifest(m) && Encoding(m) == bytes ==> r == Decoded(m)
    ensures Tagged(bytes) && bytes[4] > VERSION <==> r.Unsupported?
    ensures r.Unsupported? ==> r.version == bytes[4]
    ensures r.Corrupt? <==> exists m | IsDeclared(m) && m.size != Lens(m.chunks) :: Encoding(m) == bytes
    ensures r.Malformed? || r.Unsupported? <==> forall m | IsDeclared(m) :: Encoding(m) != bytes
  {
    hide Encoding, Lens;
    if !Tagged(bytes) || bytes[4] == 0 {
      r := Malformed;
    } else if bytes[4] > VERSION {
      r := Unsupported(bytes[4]);
    } else {
      r := DecodeV1(bytes);
    }
    forall m | IsDeclared(m) && Encoding(m) == bytes
      ensures Tagged(bytes) && bytes[4] == VERSION
    {
      EncodingFields(m);
    }
  }

  method DecodeV1(bytes: seq<byte>) returns (r: Decoded)
    requires Tagged(bytes) && bytes[4] == VERSION
    ensures r.Decoded? ==> IsManifest(r.m) && Encoding(r.m) == bytes
    ensures forall m :: IsManifest(m) && Encoding(m) == bytes ==> r == Decoded(m)
    ensures !r.Unsupported?
    ensures r.Corrupt? <==> exists m | IsDeclared(m) && m.size != Lens(m.chunks) :: Encoding(m) == bytes
    ensures r.Malformed? <==> forall m | IsDeclared(m) :: Encoding(m) != bytes
  {
    hide Encoding, Entries, ToLE, FromLE, Lens;
    if |bytes| < HEADER_LEN {
      ShortIsNone(bytes);
      return Malformed;
    }
    Widths();
    LECanonical(bytes[5..13]);
    LECanonical(bytes[13..17]);
    var size, count := FromLE(bytes[5..13]), FromLE(bytes[13..17]);
    if |bytes| != HEADER_LEN + count * ENTRY_LEN {
      WrongLengthIsNone(bytes, count);
      return Malformed;
    }
    var chunks: seq<ChunkRef<Digest>>, off: nat := [], HEADER_LEN;
    NoEntries();
    assert bytes[HEADER_LEN..HEADER_LEN] == [];
    for k := 0 to count
      invariant |chunks| == k && off == HEADER_LEN + k * ENTRY_LEN <= |bytes|
      invariant forall i | 0 <= i < k :: |chunks[i].hash| == DIGEST_LEN && chunks[i].len < U32
      invariant Entries(chunks) == bytes[HEADER_LEN..off]
    {
      OneMoreEntry(k, count, |bytes|);
      LECanonical(bytes[off + 32..off + 36]);
      var c := ChunkRef(bytes[off..off + 32], FromLE(bytes[off + 32..off + 36]));
      assert Entry(c) == bytes[off..off + ENTRY_LEN];
      assert bytes[HEADER_LEN..off + ENTRY_LEN] == bytes[HEADER_LEN..off] + bytes[off..off + ENTRY_LEN];
      EntriesAppend(chunks, c);
      chunks := chunks + [c];
      off := off + ENTRY_LEN;
    }
    var m := Manifest(size, chunks);
    assert bytes[HEADER_LEN..off] == bytes[HEADER_LEN..];
    Reassembled(bytes, m);
    LensBound(chunks);
    var total := Lens(chunks);
    forall other | IsDeclared(other) && Encoding(other) == bytes
      ensures other == m
    {
      EncodingInjective(other, m);
    }
    r := if total != size then Corrupt else Decoded(m);
  }

  lemma OneMoreEntry(k: nat, count: nat, len: nat)
    requires k < count && len == HEADER_LEN + count * ENTRY_LEN
    ensures HEADER_LEN + k * ENTRY_LEN + ENTRY_LEN <= len
    ensures HEADER_LEN + k * ENTRY_LEN + ENTRY_LEN == HEADER_LEN + (k + 1) * ENTRY_LEN
  {
  }

  lemma NoEntries()
    ensures Entries([]) == []
  {
  }

  lemma EntriesAppend(chunks: seq<ChunkRef<Digest>>, c: ChunkRef<Digest>)
    ensures Entries(chunks + [c]) == Entries(chunks) + Entry(c)
  {
    assert (chunks + [c])[..|chunks|] == chunks;
  }

  lemma ShortIsNone(bytes: seq<byte>)
    requires |bytes| < HEADER_LEN
    ensures forall m | IsDeclared(m) :: Encoding(m) != bytes
  {
    hide Encoding, Lens;
    forall m | IsDeclared(m)
      ensures Encoding(m) != bytes
    {
      EncodingFields(m);
    }
  }

  lemma WrongLengthIsNone(bytes: seq<byte>, count: nat)
    requires |bytes| >= HEADER_LEN && count == FromLE(bytes[13..17]) && |bytes| != HEADER_LEN + count * ENTRY_LEN
    ensures forall m | IsDeclared(m) :: Encoding(m) != bytes
  {
    hide Encoding, Lens, FromLE, ToLE;
    Widths();
    forall m | IsDeclared(m)
      ensures Encoding(m) != bytes
    {
      EncodingFields(m);
      LERoundTrip(|m.chunks|, 4);
    }
  }

  lemma Reassembled(bytes: seq<byte>, m: Manifest<Digest>)
    requires |bytes| >= HEADER_LEN && Tagged(bytes) && bytes[4] == VERSION
    requires m.size == FromLE(bytes[5..13]) && |m.chunks| == FromLE(bytes[13..17])
    requires Entries(m.chunks) == bytes[HEADER_LEN..]
    ensures Encoding(m) == bytes
  {
    hide Entries, ToLE, FromLE;
    LECanonical(bytes[5..13]);
    LECanonical(bytes[13..17]);
    assert bytes == bytes[..4] + [bytes[4]] + bytes[5..13] + bytes[13..17] + bytes[17..];
  }

  /** Encode, then decode: the identity on every manifest. */
  method RoundTrip(m: Manifest<Digest>) returns (r: Decoded)
    requires IsManifest(m)
    ensures r == Decoded(m)
  {
    hide Encoding, Lens;
    var e := Encode(m);
    r := Decode(e.bytes);
  }
}
