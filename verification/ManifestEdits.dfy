/** Editing a file body through its chunk list: only the chunks an edit touches are
    read back, and whatever boundaries the chunker picks the body reads as the flat
    byte sequence would. */
module ManifestEdits {
  import opened Tilings
  import opened Bytes
  import opened Manifests

  const MAX_CHUNK: nat := 262144
  const HOLE_CHUNK: nat := MAX_CHUNK
  const SPLICE_MARGIN: nat := 1

  /** The edited body: no manifest at all for an empty one. */
  datatype Edit<H> = Edited(body: Option<Manifest<H>>) | TooLarge

  ghost function FlatOf<H>(objects: Objects<H>, body: Option<Manifest<H>>): seq<byte> {
    match body
    case None => []
    case Some(m) => Body(objects, m.chunks)
  }

  function ChunksOf<H>(body: Option<Manifest<H>>): nat {
    if body.Some? then |body.value.chunks| else 0
  }

  ghost predicate GoodBody<H>(objects: Objects<H>, body: Option<Manifest<H>>) {
    body.Some? ==> Fits(objects, body.value)
  }

  function SumOf(lens: seq<nat>): nat {
    if lens == [] then 0 else lens[0] + SumOf(lens[1..])
  }

  /** Cut points of a buffer: any pieces of at most `MAX_CHUNK` bytes that cover it. */
  method ChunkBounds(data: seq<byte>) returns (lens: seq<nat>)
    ensures SumOf(lens) == |data|
    ensures forall i | 0 <= i < |lens| :: 0 < lens[i] <= MAX_CHUNK
  {
    lens := [];
    var left: nat := |data|;
    while left > 0
      invariant left <= |data| && SumOf(lens) == |data| - left
      invariant forall i | 0 <= i < |lens| :: 0 < lens[i] <= MAX_CHUNK
    {
      var n := if left < MAX_CHUNK then left else MAX_CHUNK;
      assert ([n] + lens)[1..] == lens;
      lens := [n] + lens;
      left := left - n;
    }
  }

  /** The existing bytes of a region, extended to `len`, with `data` over them at `at`. */
  method PatchedRegion(mid: seq<byte>, len: nat, at: nat, data: seq<byte>) returns (region: array<byte>)
    requires at <= |mid| && len == if |mid| < at + |data| then at + |data| else |mid|
    ensures fresh(region) && region[..] == Patch(mid, at, data)
  {
    region := new byte[len];
    forall i | 0 <= i < len {
      region[i] := if i < |mid| then mid[i] else 0;
    }
    forall i | 0 <= i < |data| {
      region[at + i] := data[i];
    }
    PatchLength(mid, at, data);
  }

  // ----- flat facts

  /** Patching inside the middle of a body is patching the body. */
  lemma PatchMiddle(before: seq<byte>, mid: seq<byte>, after: seq<byte>, offset: nat, data: seq<byte>)
    requires |before| <= offset <= |before| + |mid|
    requires after == [] || offset + |data| <= |before| + |mid|
    ensures Patch(before + mid + after, offset, data) == before + Patch(mid, offset - |before|, data) + after
  {
    hide Patch;
    PatchLength(before + mid + after, offset, data);
    PatchLength(mid, offset - |before|, data);
  }

  lemma PatchPastEnd(flat: seq<byte>, offset: nat, data: seq<byte>)
    requires offset > |flat|
    ensures Patch(flat, offset, data) == flat + Zeros(offset - |flat|) + data
  {
  }

  lemma SliceOfSlice(s: seq<byte>, a: nat, b: nat, from: nat, to: nat)
    requires a <= b <= |s| && from <= to <= b - a
    ensures s[a..b][from..to] == s[a + from..a + to]
  {
    forall i | 0 <= i < to - from
      ensures s[a..b][from..to][i] == s[a + from..a + to][i]
    {
    }
  }

  /** A chunk's place in the body. */
  lemma ChunkAt<H>(objects: Objects<H>, chunks: seq<ChunkRef<H>>, k: nat)
    requires Present(objects, chunks) && k < |chunks|
    ensures chunks[k].hash in objects && chunks[k].len < U32
    ensures var start, end := Lens(chunks[..k]), Lens(chunks[..k+1]);
      && start + chunks[k].len == end <= |Body(objects, chunks)|
      && Stored(objects, chunks[k].hash) == Body(objects, chunks)[start..end]
  {
    hide Body, Lens, Present;
    BodyStep(objects, chunks, k);
    BodySplit(objects, chunks, k);
    BodySplit(objects, chunks, k + 1);
    OneOf(objects, chunks, k);
  }

  ghost predicate CollisionFree<H(!new)>(address: seq<byte> -> H) {
    forall a, b :: address(a) == address(b) ==> a == b
  }

  /** The part of the engine that edits bodies, over a content-addressed store. */
  class BodyStore<H(==,!new)> {
    const address: seq<byte> -> H
    var objects: Objects<H>

    ghost predicate Valid()
      reads this
    {
      CollisionFree(address) && forall h | h in objects :: address(objects[h]) == h
    }

    constructor (address: seq<byte> -> H)
      requires CollisionFree(address)
      ensures Valid() && objects == map[]
    {
      this.address := address;
      objects := map[];
    }

    method Put(bytes: seq<byte>) returns (h: H)
      requires Valid()
      modifies this`objects
      ensures Valid() && Extends(old(objects), objects)
      ensures h in objects && objects[h] == bytes
    {
      h := address(bytes);
      objects := objects[h := bytes];
    }

    /** Chunk `data` and append the chunks. */
    method AppendChunked(chunks: seq<ChunkRef<H>>, data: seq<byte>) returns (out: seq<ChunkRef<H>>)
      requires Valid() && Present(objects, chunks)
      modifies this`objects
      ensures Valid() && Extends(old(objects), objects)
      ensures Present(objects, out) && Lens(out) == Lens(chunks) + |data|
      ensures Body(objects, out) == Body(old(objects), chunks) + data
      ensures |out| <= |chunks| + |data|
    {
      hide Body, Lens, Present, Valid, SumOf;
      var lens := ChunkBounds(data);
      out := chunks;
      var off: nat := 0;
      ghost var origin := Body(objects, chunks);
      assert lens[0..] == lens && origin + data[..0] == origin;
      for k := 0 to |lens|
        invariant Valid() && Extends(old(objects), objects) && Present(objects, out)
        invariant off + SumOf(lens[k..]) == |data|
        invariant Lens(out) == Lens(chunks) + off && |out| <= |chunks| + off
        invariant Body(objects, out) == origin + data[..off]
      {
        SumStep(lens, k);
        out := AppendOne(out, data[off..off + lens[k]]);
        assert data[..off + lens[k]] == data[..off] + data[off..off + lens[k]];
        off := off + lens[k];
      }
      assert lens[|lens|..] == [] && SumOf([]) == 0 by {
        SumNone();
      }
      assert data[..off] == data;
    }

    /** Store one chunk and append its reference. */
    method AppendOne(chunks: seq<ChunkRef<H>>, piece: seq<byte>) returns (out: seq<ChunkRef<H>>)
      requires Valid() && Present(objects, chunks) && |piece| < U32
      modifies this`objects
      ensures Valid() && Extends(old(objects), objects)
      ensures Present(objects, out) && Lens(out) == Lens(chunks) + |piece|
      ensures Body(objects, out) == Body(old(objects), chunks) + piece
      ensures |out| == |chunks| + 1
    {
      hide Body, Lens, Present, Valid;
      var hash := Put(piece);
      BodyExtends(old(objects), objects, chunks);
      OneChunkPresent(objects, hash, piece);
      BodyOne(objects, ChunkRef(hash, |piece|));
      BodyAppend(objects, chunks, [ChunkRef(hash, |piece|)]);
      PresentAppend(objects, chunks, [ChunkRef(hash, |piece|)]);
      out := chunks + [ChunkRef(hash, |piece|)];
    }

    /** Append `len` bytes of zeros: one shared full chunk, repeated, and a remainder. */
    method AppendHole(chunks: seq<ChunkRef<H>>, len: nat) returns (out: seq<ChunkRef<H>>)
      requires Valid() && Present(objects, chunks)
      modifies this`objects
      ensures Valid() && Extends(old(objects), objects)
      ensures Present(objects, out) && Lens(out) == Lens(chunks) + len
      ensures Body(objects, out) == Body(old(objects), chunks) + Zeros(len)
      ensures |out| <= |chunks| + len
    {
      hide Body, Lens, Present, Valid, Zeros;
      out := chunks;
      ghost var origin := Body(objects, chunks);
      if len == 0 {
        assert Zeros(0) == [] && origin + [] == origin;
        return;
      }
      var full, rest := len / HOLE_CHUNK, len % HOLE_CHUNK;
      assert Zeros(0) == [] && origin + [] == origin;
      if full > 0 {
        var hash := Put(Zeros(HOLE_CHUNK));
        BodyExtends(old(objects), objects, chunks);
        for i := 0 to full
          invariant Valid() && Extends(old(objects), objects) && Present(objects, out)
          invariant hash in objects && objects[hash] == Zeros(HOLE_CHUNK)
          invariant Lens(out) == Lens(chunks) + i * HOLE_CHUNK && |out| == |chunks| + i
          invariant Body(objects, out) == origin + Zeros(i * HOLE_CHUNK)
        {
          OneChunkPresent(objects, hash, Zeros(HOLE_CHUNK));
          BodyOne(objects, ChunkRef(hash, HOLE_CHUNK));
          BodyAppend(objects, out, [ChunkRef(hash, HOLE_CHUNK)]);
          PresentAppend(objects, out, [ChunkRef(hash, HOLE_CHUNK)]);
          Concat3(origin, Zeros(i * HOLE_CHUNK), Zeros(HOLE_CHUNK));
          ZerosAppend(i * HOLE_CHUNK, HOLE_CHUNK);
          assert i * HOLE_CHUNK + HOLE_CHUNK == (i + 1) * HOLE_CHUNK;
          out := out + [ChunkRef(hash, HOLE_CHUNK)];
        }
      }
      if rest > 0 {
        Concat3(origin, Zeros(full * HOLE_CHUNK), Zeros(rest));
        ZerosAppend(full * HOLE_CHUNK, rest);
        ghost var middle := objects;
        out := AppendOne(out, Zeros(rest));
        ExtendsTransitive(old(objects), middle, objects);
      }
    }

    /** A manifest whose count does not fit the format's 32-bit field is refused. */
    method Seal(m: Manifest<H>) returns (r: Edit<H>)
      ensures r == if |m.chunks| < U32 then Edited(Some(m)) else TooLarge
    {
      r := if |m.chunks| < U32 then Edited(Some(m)) else TooLarge;
    }

    /** Name the body a manifest already spells out; no chunk is written, and a body of no
        chunks has no manifest. */
    method AddressOf(m: Manifest<H>) returns (r: Edit<H>)
      requires Fits(objects, m)
      ensures r.Edited? ==> GoodBody(objects, r.body) && FlatOf(objects, r.body) == Body(objects, m.chunks)
      ensures r.TooLarge? ==> |m.chunks| >= U32
      ensures r.Edited? ==> ChunksOf(r.body) == |m.chunks|
    {
      if m.chunks == [] {
        return Edited(None);
      }
      r := Seal(m);
    }

    /** Apply `data` at `offset` without rechunking the whole file. */
    method SpliceBody(m: Manifest<H>, offset: nat, data: seq<byte>) returns (r: Edit<H>)
      requires Valid() && Fits(objects, m)
      modifies this`objects
      ensures Valid() && Extends(old(objects), objects)
      ensures offset + |data| >= U64 ==> r.TooLarge?
      ensures offset + |data| < U64 && |m.chunks| + |Written(Body(old(objects), m.chunks), offset, data)| < U32 ==>
        r.Edited?
      ensures r.Edited? ==> GoodBody(objects, r.body)
      ensures r.Edited? ==> FlatOf(objects, r.body) == Written(Body(old(objects), m.chunks), offset, data)
      ensures r.Edited? ==> ChunksOf(r.body) <= |m.chunks| + |Written(Body(old(objects), m.chunks), offset, data)|
    {
      hide Body, Lens, Present, Valid, Zeros, Patch, Extends;
      ExtendsItself(objects);
      var end := offset + |data|;
      if end >= U64 {
        return TooLarge;
      }
      if data == [] {
        r := AddressOf(m);
        return;
      }
      PatchLength(Body(objects, m.chunks), offset, data);
      BodyLength(objects, m.chunks);
      var chunks := m.chunks;
      if offset > m.size {
        PatchPastEnd(Body(objects, m.chunks), offset, data);
        var holed := AppendHole(m.chunks, offset - m.size);
        ghost var middle := objects;
        chunks := AppendChunked(holed, data);
        ExtendsTransitive(old(objects), middle, objects);
      } else {
        chunks := SpliceRegion(m, offset, data);
      }
      r := Seal(Manifest(if m.size < end then end else m.size, chunks));
    }

    /** The chunk list after a write inside the body or at its end: the chunks it touches
        are read back, patched and chunked afresh. */
    method SpliceRegion(m: Manifest<H>, offset: nat, data: seq<byte>) returns (chunks: seq<ChunkRef<H>>)
      requires Valid() && Fits(objects, m) && data != [] && offset <= m.size
      modifies this`objects
      ensures Valid() && Extends(old(objects), objects) && Present(objects, chunks)
      ensures Body(objects, chunks) == Patch(Body(old(objects), m.chunks), offset, data)
      ensures Lens(chunks) == if m.size < offset + |data| then offset + |data| else m.size
      ensures |chunks| <= |m.chunks| + |Patch(Body(old(objects), m.chunks), offset, data)|
    {
      hide Body, Lens, Present, Valid, Zeros, Patch, Extends;
      var end, n := offset + |data|, |m.chunks|;
      ghost var flat := Body(objects, m.chunks);
      BodyLength(objects, m.chunks);
      var lo, hi := AffectedChunks(m, offset, end);
      var stop := if n == 0 then 0 else hi + 1;
      var replaced := m.chunks[lo..stop];
      BodySplit(objects, m.chunks, lo);
      BodySplit(objects, m.chunks, stop);
      ThreeParts(objects, m.chunks, lo, stop);
      BodyNone<H>(objects);
      assert stop == n ==> m.chunks[stop..] == [];
      var regionStart := Lens(m.chunks[..lo]);
      var coveredEnd := regionStart + Lens(replaced);
      var regionEnd := if coveredEnd < end then end else coveredEnd;
      ghost var before, after := Body(objects, m.chunks[..lo]), Body(objects, m.chunks[stop..]);
      var mid := Reassemble(replaced);
      var region := PatchedRegion(mid, regionEnd - regionStart, offset - regionStart, data);
      PatchMiddle(before, mid, after, offset, data);
      PatchLength(flat, offset, data);
      chunks := AppendChunked(m.chunks[..lo], region[..]);
      BodyExtends(old(objects), objects, m.chunks[stop..]);
      BodyAppend(objects, chunks, m.chunks[stop..]);
      PresentAppend(objects, chunks, m.chunks[stop..]);
      BodyLength(objects, chunks + m.chunks[stop..]);
      chunks := chunks + m.chunks[stop..];
    }

    /** The stored bytes of a chunk list. */
    method Reassemble(chunks: seq<ChunkRef<H>>) returns (bytes: seq<byte>)
      requires Present(objects, chunks)
      ensures bytes == Body(objects, chunks)
    {
      hide Body, Lens, Present;
      bytes := [];
      BodyNone<H>(objects);
      assert chunks[..0] == [];
      for k := 0 to |chunks|
        invariant bytes == Body(objects, chunks[..k])
      {
        BodyStep(objects, chunks, k);
        bytes := bytes + Stored(objects, chunks[k].hash);
      }
      assert chunks[..|chunks|] == chunks;
    }

    /** The chunks a write touches, widened so boundaries can be found afresh: nothing
        before them reaches past the offset, nothing after them begins before the end. */
    method AffectedChunks(m: Manifest<H>, offset: nat, end: nat) returns (lo: nat, hi: nat)
      requires Fits(objects, m) && offset <= m.size && offset < end
      ensures m.chunks == [] ==> lo == hi == 0
      ensures m.chunks != [] ==> lo <= hi < |m.chunks|
      ensures Lens(m.chunks[..lo]) <= offset
      ensures m.chunks != [] ==> offset <= Lens(m.chunks[..hi+1])
      ensures m.chunks != [] && hi + 1 < |m.chunks| ==> end <= Lens(m.chunks[..hi+1])
    {
      hide Body, Lens, Present;
      var n := |m.chunks|;
      lo, hi := n, 0;
      var found, pos: nat := false, 0;
      BodyNone<H>(objects);
      assert m.chunks[..0] == [];
      for k := 0 to n
        invariant pos == Lens(m.chunks[..k])
        invariant !found ==> pos <= offset && lo == n
        invariant found ==> lo <= hi < k && Lens(m.chunks[..lo]) <= offset < pos
        invariant found ==> offset < Lens(m.chunks[..hi+1]) && (hi == k - 1 || end <= Lens(m.chunks[..hi+1]))
        invariant found ==> Lens(m.chunks[..hi+1]) <= pos
      {
        BodyStep(objects, m.chunks, k);
        var cs, ce := pos, pos + m.chunks[k].len;
        pos := ce;
        if ce > offset && cs < end {
          if !found {
            lo := k;
            found := true;
          }
          hi := k;
        }
      }
      assert m.chunks[..n] == m.chunks;
      if !found {
        if n == 0 {
          lo, hi := 0, 0;
        } else {
          LensGrow(objects, m.chunks, n - 1, n);
          lo, hi := n - 1, n - 1;
        }
      }
      if n == 0 {
        return 0, 0;
      }
      var lo' := if lo < SPLICE_MARGIN then 0 else lo - SPLICE_MARGIN;
      var hi' := if hi + SPLICE_MARGIN < n - 1 then hi + SPLICE_MARGIN else n - 1;
      LensGrow(objects, m.chunks, lo', lo);
      LensGrow(objects, m.chunks, hi + 1, hi' + 1);
      lo, hi := lo', hi';
    }

    /** Truncate, or extend with zeros, without rechunking what is kept. */
    method ResizeBody(m: Manifest<H>, size: nat) returns (r: Edit<H>)
      requires Valid() && Fits(objects, m) && size < U64
      modifies this`objects
      ensures Valid() && Extends(old(objects), objects)
      ensures |m.chunks| + size < U32 ==> r.Edited?
      ensures r.Edited? ==> GoodBody(objects, r.body)
      ensures r.Edited? ==> FlatOf(objects, r.body) == Resized(Body(old(objects), m.chunks), size)
      ensures r.Edited? ==> ChunksOf(r.body) <= |m.chunks| + size
    {
      hide Body, Lens, Present, Valid, Zeros, Extends;
      ExtendsItself(objects);
      ghost var flat := Body(objects, m.chunks);
      BodyLength(objects, m.chunks);
      if size == m.size {
        assert flat[..size] == flat;
        r := AddressOf(m);
        return;
      }
      if size == 0 {
        return Edited(None);
      }
      if size > m.size {
        var holed := AppendHole(m.chunks, size - m.size);
        r := Seal(Manifest(size, holed));
        return;
      }
      var kept: seq<ChunkRef<H>>, pos: nat := [], 0;
      var straddler: Option<(ChunkRef<H>, nat)> := None;
      BodyNone<H>(objects);
      assert m.chunks[..0] == [] && m.chunks[..|m.chunks|] == m.chunks;
      var k := 0;
      while k < |m.chunks|
        invariant 0 <= k <= |m.chunks|
        invariant objects == old(objects)
        invariant kept == m.chunks[..k] && pos == Lens(kept) <= size
        invariant straddler == None
        decreases |m.chunks| - k
      {
        var c := m.chunks[k];
        BodyStep(objects, m.chunks, k);
        var cs, ce := pos, pos + c.len;
        if ce <= size {
          assert m.chunks[..k+1] == m.chunks[..k] + [c];
          kept := kept + [c];
          pos := ce;
        } else {
          if cs < size {
            straddler := Some((c, cs));
          }
          break;
        }
        k := k + 1;
      }
      BodySplit(objects, m.chunks, k);
      var chunks := kept;
      if straddler.Some? {
        var (c, cs) := straddler.value;
        BodyStep(objects, m.chunks, k);
        BodySplit(objects, m.chunks, k + 1);
        var bytes := Stored(objects, c.hash)[..size - cs];
        assert flat[..size] == Body(objects, kept) + bytes;
        chunks := AppendChunked(chunks, bytes);
      } else {
        assert flat[..size] == Body(objects, kept);
      }
      r := Seal(Manifest(size, chunks));
    }

    /** Split a chunk list at a byte position; only a chunk straddling it is restored. */
    method SplitChunksAt(chunks: seq<ChunkRef<H>>, at: nat) returns (before: seq<ChunkRef<H>>, after: seq<ChunkRef<H>>)
      requires Valid() && Present(objects, chunks)
      modifies this`objects
      ensures Valid() && Extends(old(objects), objects)
      ensures Present(objects, before) && Present(objects, after)
      ensures var cut := if at < |Body(old(objects), chunks)| then at else |Body(old(objects), chunks)|;
        && Body(objects, before) == Body(old(objects), chunks)[..cut]
        && Body(objects, after) == Body(old(objects), chunks)[cut..]
      ensures |before| <= |chunks| && |after| <= |chunks|
    {
      hide Body, Lens, Present, Valid, Extends, Before, After;
      ExtendsItself(objects);
      before, after := [], [];
      var pos: nat := 0;
      ghost var all := Body(objects, chunks);
      BodyNone<H>(objects);
      BodyLength(objects, chunks);
      assert chunks[..0] == [];
      CutStart(all, at);
      for k := 0 to |chunks|
        invariant Valid() && Extends(old(objects), objects)
        invariant Present(objects, chunks) && Body(objects, chunks) == all
        invariant Present(objects, before) && Present(objects, after)
        invariant pos == Lens(chunks[..k]) <= |all| && |before| <= k && |after| <= k
        invariant Body(objects, before) == Before(all, at, pos) && Body(objects, after) == After(all, at, pos)
      {
        var c := chunks[k];
        ChunkAt(objects, chunks, k);
        ghost var objects0 := objects;
        var cs, ce := pos, pos + c.len;
        OneOf(objects, chunks, k);
        BodyOne(objects, c);
        CutStep(all, at, cs, ce);
        if ce <= at {
          BodyAppend(objects, before, [c]);
          PresentAppend(objects, before, [c]);
          before := before + [c];
        } else if cs >= at {
          BodyAppend(objects, after, [c]);
          PresentAppend(objects, after, [c]);
          after := after + [c];
        } else {
          var head := at - cs;
          var bytes := Stored(objects, c.hash);
          before := AppendOne(before, bytes[..head]);
          ghost var middle := objects;
          BodyExtends(objects0, middle, after);
          BodyExtends(objects0, middle, chunks);
          after := AppendOne(after, bytes[head..]);
          BodyExtends(middle, objects, before);
          BodyExtends(middle, objects, chunks);
          ExtendsTransitive(objects0, middle, objects);
          ExtendsTransitive(old(objects), objects0, objects);
        }
        pos := ce;
      }
      CutEnd(all, at);
      assert chunks[..|chunks|] == chunks;
    }

    /** The chunks of a byte range, clamped to the end. */
    method SliceChunks(m: Manifest<H>, offset: nat, len: nat) returns (mid: seq<ChunkRef<H>>)
      requires Valid() && Fits(objects, m)
      modifies this`objects
      ensures Valid() && Extends(old(objects), objects)
      ensures Present(objects, mid)
      ensures Body(objects, mid) == Window(Body(old(objects), m.chunks), offset, len)
      ensures |mid| <= |m.chunks|
    {
      hide Body, Lens, Present, Valid, Extends;
      ExtendsItself(objects);
      BodyLength(objects, m.chunks);
      ghost var flat := Body(objects, m.chunks);
      var sum := SatAdd(offset, len);
      var end := if sum < m.size then sum else m.size;
      if offset >= end {
        BodyNone<H>(objects);
        assert Window(flat, offset, len) == [];
        return [];
      }
      var _, tail := SplitChunksAt(m.chunks, offset);
      ghost var middle := objects;
      var inside, _ := SplitChunksAt(tail, end - offset);
      mid := inside;
      ExtendsTransitive(old(objects), middle, objects);
      assert flat[offset..][..end - offset] == flat[offset..end];
    }

    /** What stands before `offset`, a gap filled with a hole, and what stands from `end`. */
    method PartsAround(m: Manifest<H>, offset: nat, end: nat) returns (before: seq<ChunkRef<H>>, tail: seq<ChunkRef<H>>)
      requires Valid() && Fits(objects, m) && offset <= end
      modifies this`objects
      ensures Valid() && Extends(old(objects), objects)
      ensures Present(objects, before) && Present(objects, tail)
      ensures Body(objects, before) == Padded(Body(old(objects), m.chunks), offset)[..offset]
      ensures var flat := Body(old(objects), m.chunks);
        Body(objects, tail) == if end < |flat| then flat[end..] else []
      ensures |before| <= |m.chunks| + offset && |tail| <= |m.chunks|
    {
      hide Body, Lens, Present, Valid, Zeros, Extends;
      ExtendsItself(objects);
      BodyLength(objects, m.chunks);
      var head := m.chunks;
      if offset > m.size {
        head := AppendHole(head, offset - m.size);
      }
      ghost var o1 := objects;
      BodyExtends(old(objects), o1, m.chunks);
      var after;
      before, after := SplitChunksAt(head, offset);
      ghost var o2 := objects;
      ExtendsTransitive(old(objects), o1, o2);
      BodyExtends(old(objects), o2, m.chunks);
      BodyNone<H>(objects);
      tail := [];
      if end < m.size {
        after, tail := SplitChunksAt(m.chunks, end);
        BodyExtends(o2, objects, before);
        ExtendsTransitive(old(objects), o2, objects);
      }
    }

    /** Replace the range starting at `offset` with the given chunks, like for like. */
    method ReplaceRange(m: Manifest<H>, offset: nat, new_: seq<ChunkRef<H>>) returns (r: Edit<H>)
      requires Valid() && Fits(objects, m) && Present(objects, new_)
      modifies this`objects
      ensures Valid() && Extends(old(objects), objects)
      ensures offset + Lens(new_) >= U64 ==> r.TooLarge?
      ensures offset + Lens(new_) < U64 && 2 * |m.chunks| + |new_| + offset < U32 ==> r.Edited?
      ensures r.Edited? ==> GoodBody(objects, r.body)
      ensures r.Edited? ==>
        FlatOf(objects, r.body) == Patch(Body(old(objects), m.chunks), offset, Body(old(objects), new_))
      ensures r.Edited? ==> ChunksOf(r.body) <= 2 * |m.chunks| + |new_| + offset
    {
      hide Body, Lens, Present, Valid, Zeros, Patch, Padded, Extends;
      ExtendsItself(objects);
      ghost var flat := Body(objects, m.chunks);
      BodyLength(objects, m.chunks);
      BodyLength(objects, new_);
      var end := offset + Lens(new_);
      if end >= U64 {
        return TooLarge;
      }
      var before, tail := PartsAround(m, offset, end);
      BodyExtends(old(objects), objects, new_);
      ReplacedParts(objects, flat, offset, before, new_, tail);
      var chunks := before + new_ + tail;
      var size := Lens(chunks);
      if size == 0 {
        return Edited(None);
      }
      r := Seal(Manifest(size, chunks));
    }

    /** The pieces of stored chunks that cover a byte range. */
    method CoveringChunks(m: Manifest<H>, off: nat, end: nat) returns (plan: seq<(H, nat, nat)>)
      requires Fits(objects, m) && off < end <= m.size
      ensures PlanFits(objects, plan)
      ensures end <= |Body(objects, m.chunks)|
      ensures Planned(objects, plan) == Body(objects, m.chunks)[off..end]
    {
      hide Body, Lens, Present, Planned, PlanFits, Covered, Stored;
      ghost var all := Body(objects, m.chunks);
      BodyLength(objects, m.chunks);
      CoveredEnds(all, off, end);
      plan := [];
      var pos: nat := 0;
      BodyNone<H>(objects);
      PlannedNone(objects);
      assert m.chunks[..0] == [];
      var k := 0;
      while k < |m.chunks|
        invariant 0 <= k <= |m.chunks| && pos == Lens(m.chunks[..k]) <= |all|
        invariant PlanFits(objects, plan)
        invariant Planned(objects, plan) == Covered(all, off, end, pos)
        decreases |m.chunks| - k
      {
        var c := m.chunks[k];
        ChunkAt(objects, m.chunks, k);
        var cstart, cend := pos, pos + c.len;
        PlanCovers(objects, plan, c, all, off, end, cstart);
        pos := cend;
        k := k + 1;
        if cend <= off {
          continue;
        }
        if cstart >= end {
          break;
        }
        var from := (if off < cstart then cstart else off) - cstart;
        var to := (if end < cend then end else cend) - cstart;
        plan := plan + [(c.hash, from, to - from)];
      }
      assert k == |m.chunks| ==> m.chunks[..k] == m.chunks;
    }

    /** Read a byte range, fetching only the chunks that overlap it. */
    method ReadRange(m: Manifest<H>, off: nat, len: nat) returns (bytes: seq<byte>)
      requires Fits(objects, m)
      ensures bytes == Window(Body(objects, m.chunks), off, len)
    {
      hide Body, Lens, Present, Planned, PlanFits;
      BodyLength(objects, m.chunks);
      var sum := SatAdd(off, len);
      var end := if sum < m.size then sum else m.size;
      if off >= end {
        return [];
      }
      var plan := CoveringChunks(m, off, end);
      bytes := [];
      PlannedNone(objects);
      assert plan[..0] == [];
      for k := 0 to |plan|
        invariant bytes == Planned(objects, plan[..k])
      {
        var (hash, from, n) := plan[k];
        PlanStep(objects, plan, k);
        bytes := bytes + Stored(objects, hash)[from..from + n];
      }
      assert plan[..|plan|] == plan;
    }
  }

  // ----- any sequence of edits

  /** Write bytes, change the size, or copy a range of another body over this one. */
  datatype Request<H> =
    | Write(offset: nat, data: seq<byte>)
    | Truncate(size: nat)
    | CopyIn(offset: nat, donor: Manifest<H>, start: nat, len: nat)

  ghost function Applied<H>(objects: Objects<H>, flat: seq<byte>, request: Request<H>): seq<byte> {
    match request
    case Write(offset, data) => Written(flat, offset, data)
    case Truncate(size) => Resized(flat, size)
    case CopyIn(offset, donor, start, len) => Patch(flat, offset, Window(Body(objects, donor.chunks), start, len))
  }

  ghost function AllApplied<H>(objects: Objects<H>, flat: seq<byte>, requests: seq<Request<H>>): seq<byte> {
    if requests == [] then flat
    else Applied(objects, AllApplied(objects, flat, requests[..|requests|-1]), requests[|requests|-1])
  }

  /** More chunks than one edit of a body of `n` chunks, reading as `flat` after it, can
      leave. */
  ghost function MostAfter<H>(n: nat, request: Request<H>, flat: seq<byte>): nat {
    match request
    case CopyIn(offset, donor, _, _) => 2 * n + |donor.chunks| + offset
    case _ => n + |flat|
  }

  ghost function MostChunks<H>(objects: Objects<H>, flat: seq<byte>, n: nat, requests: seq<Request<H>>): nat {
    if requests == [] then n
    else
      var earlier := MostChunks(objects, flat, n, requests[..|requests|-1]);
      MostAfter(earlier, requests[|requests|-1], AllApplied(objects, flat, requests))
  }

  predicate WithinWidth<H>(request: Request<H>) {
    match request
    case Write(offset, data) => offset + |data| < U64
    case Truncate(size) => size < U64
    case CopyIn(offset, _, _, len) => offset + len < U64
  }

  lemma {:induction false} MostGrows<H>(objects: Objects<H>, flat: seq<byte>, n: nat, requests: seq<Request<H>>, k: nat)
    requires k <= |requests|
    ensures MostChunks(objects, flat, n, requests[..k]) <= MostChunks(objects, flat, n, requests)
    decreases |requests|
  {
    hide AllApplied;
    if k < |requests| {
      MostGrows(objects, flat, n, requests[..|requests|-1], k);
      assert requests[..|requests|-1][..k] == requests[..k];
    } else {
      assert requests[..k] == requests;
    }
  }

  lemma RequestStep<H>(objects: Objects<H>, flat: seq<byte>, n: nat, requests: seq<Request<H>>, k: nat)
    requires k < |requests|
    ensures AllApplied(objects, flat, requests[..k+1])
         == Applied(objects, AllApplied(objects, flat, requests[..k]), requests[k])
    ensures MostChunks(objects, flat, n, requests[..k+1])
         == MostAfter(MostChunks(objects, flat, n, requests[..k]), requests[k],
                      AllApplied(objects, flat, requests[..k+1]))
  {
    hide Applied, MostAfter;
    assert requests[..k+1][..k] == requests[..k];
  }

  /** One request answered through the engine's edits. */
  method EditOnce<H(==,!new)>(store: BodyStore<H>, body: Option<Manifest<H>>, request: Request<H>) returns (r: Edit<H>)
    requires store.Valid() && GoodBody(store.objects, body)
    requires request.Truncate? ==> request.size < U64
    requires request.CopyIn? ==> Fits(store.objects, request.donor)
    modifies store`objects
    ensures store.Valid() && Extends(old(store.objects), store.objects)
    ensures r.Edited? ==> GoodBody(store.objects, r.body)
    ensures r.Edited? ==>
      FlatOf(store.objects, r.body) == Applied(old(store.objects), FlatOf(old(store.objects), body), request)
    ensures var flat := Applied(old(store.objects), FlatOf(old(store.objects), body), request);
      && (r.Edited? ==> ChunksOf(r.body) <= MostAfter(ChunksOf(body), request, flat))
      && (r.TooLarge? ==> !WithinWidth(request) || MostAfter(ChunksOf(body), request, flat) >= U32)
  {
    hide Body, Lens, Present, store.Valid, Extends, Written, Resized, Patch, Window;
    BodyNone<H>(store.objects);
    var m := if body.Some? then body.value else Manifest(0, []);
    match request {
      case Write(offset, data) =>
        r := store.SpliceBody(m, offset, data);
      case Truncate(size) =>
        ResizedLength(FlatOf(store.objects, body), size);
        r := store.ResizeBody(m, size);
      case CopyIn(offset, donor, start, len) =>
        var taken := store.SliceChunks(donor, start, len);
        ghost var middle := store.objects;
        FitsExtended(old(store.objects), middle, m);
        WindowLength(Body(old(store.objects), donor.chunks), start, len);
        BodyLength(middle, taken);
        r := store.ReplaceRange(m, offset, taken);
        ExtendsTransitive(old(store.objects), middle, store.objects);
    }
  }

  /** A file edited request after request reads as the flat bytes edited alike. A file
      without a manifest is an empty one. It is refused only past the widths, or with more
      chunks than the format can count. */
  method EditFile<H(==,!new)>(store: BodyStore<H>, body: Option<Manifest<H>>, requests: seq<Request<H>>)
    returns (r: Edit<H>)
    requires store.Valid() && GoodBody(store.objects, body)
    requires forall i | 0 <= i < |requests| && requests[i].Truncate? :: requests[i].size < U64
    requires forall i | 0 <= i < |requests| && requests[i].CopyIn? :: Fits(store.objects, requests[i].donor)
    modifies store`objects
    ensures store.Valid() && Extends(old(store.objects), store.objects)
    ensures r.Edited? ==> GoodBody(store.objects, r.body)
    ensures r.Edited? ==>
      FlatOf(store.objects, r.body) == AllApplied(old(store.objects), FlatOf(old(store.objects), body), requests)
    ensures r.TooLarge? ==>
      || (exists i :: 0 <= i < |requests| && !WithinWidth(requests[i]))
      || MostChunks(old(store.objects), FlatOf(old(store.objects), body), ChunksOf(body), requests) >= U32
  {
    hide Body, Lens, Present, store.Valid, Extends, Written, Resized, Patch, Window, Applied, AllApplied, MostChunks;
    r := Edited(body);
    ghost var objects := store.objects;
    ghost var flat, n := FlatOf(objects, body), ChunksOf(body);
    ExtendsItself(objects);
    NoRequests(objects, flat, n);
    assert requests[..0] == [];
    for k := 0 to |requests|
      invariant store.Valid() && Extends(objects, store.objects)
      invariant r.Edited? && GoodBody(store.objects, r.body)
      invariant FlatOf(store.objects, r.body) == AllApplied(objects, flat, requests[..k])
      invariant ChunksOf(r.body) <= MostChunks(objects, flat, n, requests[..k])
    {
      ghost var before := store.objects;
      RequestStep(objects, flat, n, requests, k);
      MostGrows(objects, flat, n, requests, k + 1);
      if requests[k].CopyIn? {
        FitsExtended(objects, before, requests[k].donor);
      }
      AppliedExtended(objects, before, AllApplied(objects, flat, requests[..k]), requests[k]);
      r := EditOnce(store, r.body, requests[k]);
      ExtendsTransitive(objects, before, store.objects);
      if r.TooLarge? {
        return;
      }
    }
    assert requests[..|requests|] == requests;
  }

  lemma NoRequests<H>(objects: Objects<H>, flat: seq<byte>, n: nat)
    ensures AllApplied(objects, flat, []) == flat && MostChunks(objects, flat, n, []) == n
  {
  }

  lemma FitsExtended<H>(before: Objects<H>, after: Objects<H>, m: Manifest<H>)
    requires Extends(before, after) && Fits(before, m)
    ensures Fits(after, m) && Body(after, m.chunks) == Body(before, m.chunks)
  {
    hide Body, Lens, Extends;
    BodyExtends(before, after, m.chunks);
  }

  lemma AppliedExtended<H>(before: Objects<H>, after: Objects<H>, flat: seq<byte>, request: Request<H>)
    requires request.CopyIn? ==> Body(after, request.donor.chunks) == Body(before, request.donor.chunks)
    ensures Applied(after, flat, request) == Applied(before, flat, request)
  {
  }

  lemma ResizedLength(flat: seq<byte>, size: nat)
    ensures |Resized(flat, size)| == size
  {
  }

  lemma WindowLength(flat: seq<byte>, offset: nat, len: nat)
    ensures |Window(flat, offset, len)| <= len
  {
  }

  // ----- small facts the methods lean on

  lemma SumStep(lens: seq<nat>, k: nat)
    requires k < |lens|
    ensures SumOf(lens[k..]) == lens[k] + SumOf(lens[k+1..])
  {
    assert lens[k..][1..] == lens[k+1..];
  }

  lemma SumNone()
    ensures SumOf([]) == 0
  {
  }

  lemma ExtendsItself<H>(objects: Objects<H>)
    ensures Extends(objects, objects)
  {
  }

  lemma OneChunkPresent<H>(objects: Objects<H>, hash: H, bytes: seq<byte>)
    requires hash in objects && objects[hash] == bytes && |bytes| < U32
    ensures Present(objects, [ChunkRef(hash, |bytes|)])
  {
  }

  lemma OneOf<H>(objects: Objects<H>, chunks: seq<ChunkRef<H>>, k: nat)
    requires Present(objects, chunks) && k < |chunks|
    ensures Present(objects, [chunks[k]])
    ensures chunks[k].hash in objects && |objects[chunks[k].hash]| == chunks[k].len < U32
  {
  }

  lemma LensGrow<H>(objects: Objects<H>, chunks: seq<ChunkRef<H>>, a: nat, b: nat)
    requires Present(objects, chunks) && a <= b <= |chunks|
    ensures Lens(chunks[..a]) <= Lens(chunks[..b])
  {
    hide Body, Lens, Present;
    assert chunks[..b][..a] == chunks[..a];
    BodySplit(objects, chunks, b);
    BodySplit(objects, chunks[..b], a);
  }

  lemma ThreeParts<H>(objects: Objects<H>, chunks: seq<ChunkRef<H>>, lo: nat, stop: nat)
    requires Present(objects, chunks) && lo <= stop <= |chunks|
    ensures Present(objects, chunks[lo..stop])
    ensures Body(objects, chunks)
         == Body(objects, chunks[..lo]) + Body(objects, chunks[lo..stop]) + Body(objects, chunks[stop..])
    ensures |Body(objects, chunks[lo..stop])| == Lens(chunks[lo..stop])
    ensures Lens(chunks[..stop]) == Lens(chunks[..lo]) + Lens(chunks[lo..stop])
  {
    hide Body, Lens, Present;
    BodySplit(objects, chunks, stop);
    assert chunks[..stop][..lo] == chunks[..lo] && chunks[..stop][lo..] == chunks[lo..stop];
    BodySplit(objects, chunks[..stop], lo);
  }

  lemma PatchParts(flat: seq<byte>, offset: nat, data: seq<byte>, before: seq<byte>, tail: seq<byte>)
    requires before == Padded(flat, offset)[..offset]
    requires tail == if offset + |data| < |flat| then flat[offset + |data|..] else []
    ensures Patch(flat, offset, data) == before + data + tail
  {
    hide Zeros;
  }

  /** The chunks before, the new ones and those after, in a row. */
  lemma ReplacedParts<H>(objects: Objects<H>, flat: seq<byte>, offset: nat, before: seq<ChunkRef<H>>,
                         new_: seq<ChunkRef<H>>, tail: seq<ChunkRef<H>>)
    requires Present(objects, before) && Present(objects, new_) && Present(objects, tail)
    requires Body(objects, before) == Padded(flat, offset)[..offset]
    requires var end := offset + |Body(objects, new_)|;
      Body(objects, tail) == if end < |flat| then flat[end..] else []
    ensures Present(objects, before + new_ + tail)
    ensures Body(objects, before + new_ + tail) == Patch(flat, offset, Body(objects, new_))
    ensures var base, end := if |flat| < offset then offset else |flat|, offset + |Body(objects, new_)|;
      Lens(before + new_ + tail) == |Patch(flat, offset, Body(objects, new_))| == if base < end then end else base
  {
    hide Body, Lens, Present, Zeros, Patch;
    PatchParts(flat, offset, Body(objects, new_), Body(objects, before), Body(objects, tail));
    BodyAppend(objects, before, new_);
    PresentAppend(objects, before, new_);
    BodyAppend(objects, before + new_, tail);
    PresentAppend(objects, before + new_, tail);
    BodyLength(objects, before + new_ + tail);
    PatchLength(flat, offset, Body(objects, new_));
  }

  /** Of the first `pos` bytes, those before the cut and those after it. */
  ghost function Before(all: seq<byte>, at: nat, pos: nat): seq<byte>
    requires pos <= |all|
  {
    all[..if at < pos then at else pos]
  }

  ghost function After(all: seq<byte>, at: nat, pos: nat): seq<byte>
    requires pos <= |all|
  {
    all[if at < pos then at else pos..pos]
  }

  lemma CutStart(all: seq<byte>, at: nat)
    ensures Before(all, at, 0) == [] && After(all, at, 0) == []
  {
  }

  lemma CutEnd(all: seq<byte>, at: nat)
    ensures var cut := if at < |all| then at else |all|;
      Before(all, at, |all|) == all[..cut] && After(all, at, |all|) == all[cut..]
  {
  }

  /** The next chunk goes to one side whole, or a part to each. */
  lemma CutStep(all: seq<byte>, at: nat, cs: nat, ce: nat)
    requires cs <= ce <= |all|
    ensures ce <= at ==>
      Before(all, at, ce) == Before(all, at, cs) + all[cs..ce] && After(all, at, ce) == After(all, at, cs)
    ensures at < ce && cs >= at ==>
      Before(all, at, ce) == Before(all, at, cs) && After(all, at, ce) == After(all, at, cs) + all[cs..ce]
    ensures cs < at < ce ==>
      && Before(all, at, ce) == Before(all, at, cs) + all[cs..ce][..at - cs]
      && After(all, at, ce) == After(all, at, cs) + all[cs..ce][at - cs..]
  {
  }

  /** The part of a window that lies before `pos`. */
  ghost function Covered(all: seq<byte>, off: nat, end: nat, pos: nat): seq<byte>
    requires off < end <= |all| && pos <= |all|
  {
    if pos <= off then [] else all[off..if pos < end then pos else end]
  }

  lemma CoveredEnds(all: seq<byte>, off: nat, end: nat)
    requires off < end <= |all|
    ensures Covered(all, off, end, 0) == []
    ensures forall pos: nat | end <= pos <= |all| :: Covered(all, off, end, pos) == all[off..end]
  {
  }

  /** A chunk before the window or after it adds nothing, one inside adds its overlap. */
  lemma CoverStep(all: seq<byte>, off: nat, end: nat, cs: nat, ce: nat)
    requires off < end <= |all| && cs <= ce <= |all|
    ensures ce <= off || cs >= end ==> Covered(all, off, end, ce) == Covered(all, off, end, cs)
    ensures ce > off && cs < end ==>
      var from, to := (if off < cs then cs else off) - cs, (if end < ce then end else ce) - cs;
      && 0 <= from <= to <= ce - cs
      && Covered(all, off, end, ce) == Covered(all, off, end, cs) + all[cs..ce][from..to]
  {
    if ce > off && cs < end {
      var from, to := (if off < cs then cs else off) - cs, (if end < ce then end else ce) - cs;
      SliceOfSlice(all, cs, ce, from, to);
      if cs > off {
        assert all[off..cs + to] == all[off..cs] + all[cs..cs + to];
      }
    }
  }

  ghost predicate PlanFits<H>(objects: Objects<H>, plan: seq<(H, nat, nat)>) {
    forall i | 0 <= i < |plan| :: plan[i].0 in objects && plan[i].1 + plan[i].2 <= |objects[plan[i].0]|
  }

  /** The bytes a plan fetches, piece after piece. */
  ghost function Planned<H>(objects: Objects<H>, plan: seq<(H, nat, nat)>): seq<byte> {
    if plan == [] then []
    else
      var (hash, from, n) := plan[|plan|-1];
      Planned(objects, plan[..|plan|-1])
      + if from + n <= |Stored(objects, hash)| then Stored(objects, hash)[from..from+n] else []
  }

  lemma PlannedNone<H>(objects: Objects<H>)
    ensures Planned(objects, []) == [] && PlanFits(objects, [])
  {
  }

  lemma PlannedAppend<H>(objects: Objects<H>, plan: seq<(H, nat, nat)>, hash: H, from: nat, n: nat)
    requires PlanFits(objects, plan) && hash in objects && from + n <= |objects[hash]|
    ensures PlanFits(objects, plan + [(hash, from, n)])
    ensures Planned(objects, plan + [(hash, from, n)]) == Planned(objects, plan) + objects[hash][from..from+n]
  {
    assert (plan + [(hash, from, n)])[..|plan|] == plan;
  }

  /** What the walk does with one chunk keeps the plan covering the window so far. */
  lemma PlanCovers<H>(objects: Objects<H>, plan: seq<(H, nat, nat)>, c: ChunkRef<H>, all: seq<byte>, off: nat,
                      end: nat, cs: nat)
    requires off < end <= |all| && c.hash in objects && cs + c.len <= |all|
    requires PlanFits(objects, plan) && Planned(objects, plan) == Covered(all, off, end, cs)
    requires Stored(objects, c.hash) == all[cs..cs + c.len]
    ensures var ce := cs + c.len;
      if ce <= off || cs >= end then Planned(objects, plan) == Covered(all, off, end, ce)
      else
        var from, to := (if off < cs then cs else off) - cs, (if end < ce then end else ce) - cs;
        && 0 <= from <= to
        && PlanFits(objects, plan + [(c.hash, from, to - from)])
        && Planned(objects, plan + [(c.hash, from, to - from)]) == Covered(all, off, end, ce)
  {
    hide Planned, PlanFits, Covered;
    var ce := cs + c.len;
    CoverStep(all, off, end, cs, ce);
    if ce > off && cs < end {
      var from, to := (if off < cs then cs else off) - cs, (if end < ce then end else ce) - cs;
      PlannedPiece(objects, plan, c.hash, from, to);
    }
  }

  lemma PlannedPiece<H>(objects: Objects<H>, plan: seq<(H, nat, nat)>, hash: H, from: nat, to: nat)
    requires PlanFits(objects, plan) && hash in objects && from <= to <= |Stored(objects, hash)|
    ensures PlanFits(objects, plan + [(hash, from, to - from)])
    ensures Planned(objects, plan + [(hash, from, to - from)])
         == Planned(objects, plan) + Stored(objects, hash)[from..to]
  {
    hide Planned, PlanFits;
    PlannedAppend(objects, plan, hash, from, to - from);
  }

  lemma PlanStep<H>(objects: Objects<H>, plan: seq<(H, nat, nat)>, k: nat)
    requires PlanFits(objects, plan) && k < |plan|
    ensures plan[k].0 in objects && plan[k].1 + plan[k].2 <= |Stored(objects, plan[k].0)|
    ensures Planned(objects, plan[..k+1])
         == Planned(objects, plan[..k]) + Stored(objects, plan[k].0)[plan[k].1..plan[k].1 + plan[k].2]
  {
    assert plan[..k+1][..k] == plan[..k];
  }
}
