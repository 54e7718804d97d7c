/** File bodies as ordered chunk lists over a content store, and the byte sequences
    they stand for. */
module Manifests {
  import opened Bytes

  /** A reference to one stored chunk. */
  datatype ChunkRef<H> = ChunkRef(hash: H, len: nat)

  datatype Manifest<H> = Manifest(size: nat, chunks: seq<ChunkRef<H>>)

  type Objects<H> = map<H, seq<byte>>

  /** Bytes a chunk list covers. */
  function Lens<H>(chunks: seq<ChunkRef<H>>): nat {
    if chunks == [] then 0 else chunks[0].len + Lens(chunks[1..])
  }

  function Stored<H(==)>(objects: Objects<H>, hash: H): seq<byte> {
    if hash in objects then objects[hash] else []
  }

  /** The bytes a chunk list stands for. */
  ghost function Body<H>(objects: Objects<H>, chunks: seq<ChunkRef<H>>): seq<byte> {
    if chunks == [] then [] else Stored(objects, chunks[0].hash) + Body(objects, chunks[1..])
  }

  /** Every chunk is stored at the length its reference declares. */
  ghost predicate Present<H>(objects: Objects<H>, chunks: seq<ChunkRef<H>>) {
    forall i | 0 <= i < |chunks| ::
      chunks[i].hash in objects && |objects[chunks[i].hash]| == chunks[i].len && chunks[i].len < U32
  }

  /** What `decode` guarantees of a manifest, and the store of its chunks. */
  ghost predicate Fits<H>(objects: Objects<H>, m: Manifest<H>) {
    Present(objects, m.chunks) && m.size == Lens(m.chunks) && m.size < U64
  }

  /** No stored object is lost or altered. */
  ghost predicate Extends<H>(before: Objects<H>, after: Objects<H>) {
    forall h | h in before :: h in after && after[h] == before[h]
  }

  // ----- laws

  lemma {:induction false} BodyLength<H>(objects: Objects<H>, chunks: seq<ChunkRef<H>>)
    requires Present(objects, chunks)
    ensures |Body(objects, chunks)| == Lens(chunks)
  {
    if chunks == [] {
    } else {
      PresentTail(objects, chunks);
      BodyLength(objects, chunks[1..]);
      assert chunks[0].hash in objects;
    }
  }

  lemma PresentTail<H>(objects: Objects<H>, chunks: seq<ChunkRef<H>>)
    requires Present(objects, chunks) && chunks != []
    ensures Present(objects, chunks[1..])
  {
    forall i | 0 <= i < |chunks[1..]|
      ensures var c := chunks[1..][i]; c.hash in objects && |objects[c.hash]| == c.len && c.len < U32
    {
      assert chunks[1..][i] == chunks[i+1];
    }
  }

  lemma {:induction false} BodyAppend<H>(objects: Objects<H>, a: seq<ChunkRef<H>>, b: seq<ChunkRef<H>>)
    ensures Body(objects, a + b) == Body(objects, a) + Body(objects, b)
    ensures Lens(a + b) == Lens(a) + Lens(b)
  {
    if a == [] {
      assert a + b == b;
    } else {
      assert (a + b)[1..] == a[1..] + b;
      BodyAppend(objects, a[1..], b);
    }
  }

  lemma PresentAppend<H>(objects: Objects<H>, a: seq<ChunkRef<H>>, b: seq<ChunkRef<H>>)
    ensures Present(objects, a + b) <==> Present(objects, a) && Present(objects, b)
  {
    var s := a + b;
    if Present(objects, s) {
      assert forall i | 0 <= i < |a| :: a[i] == s[i];
      assert forall i | 0 <= i < |b| :: b[i] == s[|a| + i];
    }
  }

  lemma BodyOne<H>(objects: Objects<H>, c: ChunkRef<H>)
    ensures Body(objects, [c]) == Stored(objects, c.hash)
    ensures Lens([c]) == c.len
  {
    assert [c][1..] == [];
  }

  lemma BodyNone<H>(objects: Objects<H>)
    ensures Body(objects, []) == [] && Lens<H>([]) == 0 && Present(objects, [])
  {
  }

  /** Adding objects changes no body. */
  lemma {:induction false} BodyExtends<H>(before: Objects<H>, after: Objects<H>, chunks: seq<ChunkRef<H>>)
    requires Extends(before, after) && Present(before, chunks)
    ensures Present(after, chunks) && Body(after, chunks) == Body(before, chunks)
  {
    if chunks == [] {
    } else {
      PresentTail(before, chunks);
      BodyExtends(before, after, chunks[1..]);
      assert chunks[0].hash in before;
      assert Present(after, [chunks[0]] + chunks[1..]) by {
        PresentAppend(after, [chunks[0]], chunks[1..]);
      }
      assert chunks == [chunks[0]] + chunks[1..];
    }
  }

  lemma ExtendsTransitive<H>(a: Objects<H>, b: Objects<H>, c: Objects<H>)
    requires Extends(a, b) && Extends(b, c)
    ensures Extends(a, c)
  {
  }

  /** A chunk list cut at an index. */
  lemma BodySplit<H>(objects: Objects<H>, chunks: seq<ChunkRef<H>>, k: nat)
    requires k <= |chunks| && Present(objects, chunks)
    ensures Present(objects, chunks[..k]) && Present(objects, chunks[k..])
    ensures Body(objects, chunks) == Body(objects, chunks[..k]) + Body(objects, chunks[k..])
    ensures Lens(chunks) == Lens(chunks[..k]) + Lens(chunks[k..])
    ensures |Body(objects, chunks[..k])| == Lens(chunks[..k]) && |Body(objects, chunks[k..])| == Lens(chunks[k..])
  {
    hide Body, Lens, Present;
    assert chunks == chunks[..k] + chunks[k..];
    BodyAppend(objects, chunks[..k], chunks[k..]);
    PresentAppend(objects, chunks[..k], chunks[k..]);
    BodyLength(objects, chunks[..k]);
    BodyLength(objects, chunks[k..]);
  }

  /** One more chunk of a list. */
  lemma BodyStep<H>(objects: Objects<H>, chunks: seq<ChunkRef<H>>, k: nat)
    requires k < |chunks| && Present(objects, chunks)
    ensures Body(objects, chunks[..k+1]) == Body(objects, chunks[..k]) + Stored(objects, chunks[k].hash)
    ensures Lens(chunks[..k+1]) == Lens(chunks[..k]) + chunks[k].len
    ensures |Stored(objects, chunks[k].hash)| == chunks[k].len
    ensures |Body(objects, chunks[..k])| == Lens(chunks[..k])
  {
    BodySplit(objects, chunks, k);
    hide Body, Lens;
    assert chunks[..k+1] == chunks[..k] + [chunks[k]];
    BodyAppend(objects, chunks[..k], [chunks[k]]);
    BodyOne(objects, chunks[k]);
  }

  // ----- what an edit does to a flat byte sequence

  /** The bytes, extended with zeros up to `n`. */
  ghost function Padded(flat: seq<byte>, n: nat): seq<byte> {
    if n <= |flat| then flat else flat + Zeros(n - |flat|)
  }

  /** Zero-fill up to the offset, then overwrite from there. */
  ghost function Patch(flat: seq<byte>, offset: nat, data: seq<byte>): seq<byte> {
    var base := Padded(flat, offset);
    base[..offset] + data + if offset + |data| < |base| then base[offset + |data|..] else []
  }

  /** A write of nothing does nothing, not even extend. */
  ghost function Written(flat: seq<byte>, offset: nat, data: seq<byte>): seq<byte> {
    if data == [] then flat else Patch(flat, offset, data)
  }

  ghost function Resized(flat: seq<byte>, size: nat): seq<byte> {
    if size <= |flat| then flat[..size] else Padded(flat, size)
  }

  /** The bytes of a window, clipped to the end. */
  ghost function Window(flat: seq<byte>, offset: nat, len: nat): seq<byte> {
    if offset >= |flat| then [] else if offset + len <= |flat| then flat[offset..offset+len] else flat[offset..]
  }

  lemma PatchLength(flat: seq<byte>, offset: nat, data: seq<byte>)
    ensures |Patch(flat, offset, data)| == (var base := if |flat| < offset then offset else |flat|;
                                            if base < offset + |data| then offset + |data| else base)
    ensures forall i | 0 <= i < |Patch(flat, offset, data)| ::
      Patch(flat, offset, data)[i] == if offset <= i < offset + |data| then data[i - offset]
                                      else if i < |flat| then flat[i] else 0
  {
  }

  /** A write, byte by byte: the data where it lands, zeros in a gap before it, all else as
      it was; a write of nothing changes nothing. */
  lemma WrittenBytes(flat: seq<byte>, offset: nat, data: seq<byte>)
    ensures var written := Written(flat, offset, data);
      && |written| == (if data == [] || offset + |data| < |flat| then |flat| else offset + |data|)
      && forall i | 0 <= i < |written| ::
           written[i] == if offset <= i < offset + |data| then data[i - offset] else if i < |flat| then flat[i] else 0
  {
    hide Patch;
    PatchLength(flat, offset, data);
  }

  /** A truncation keeps what fits, and fills up with zeros. */
  lemma ResizedBytes(flat: seq<byte>, size: nat)
    ensures |Resized(flat, size)| == size
    ensures forall i | 0 <= i < size :: Resized(flat, size)[i] == if i < |flat| then flat[i] else 0
  {
  }

  /** A window reads the bytes at its offset, as far as there are any. */
  lemma WindowBytes(flat: seq<byte>, offset: nat, len: nat)
    ensures var window := Window(flat, offset, len);
      && |window| == (if offset >= |flat| then 0 else if offset + len < |flat| then len else |flat| - offset)
      && forall i | 0 <= i < |window| :: window[i] == flat[offset + i]
  {
  }
}
