/**
 Live-mask batches: entries travel in chunks of up to eight, each chunk behind one mask
 byte whose bit `i` says whether entry `i` carries its optional value. Entry writers and
 readers may thread a state of their own from entry to entry.
 */
module LiveMask {
  import opened Wire
  import opened Sequences
  import opened Bits

  /** How one entry is written and read; `S` is what both sides remember between entries. */
  datatype EntryCodec<!S, !T, !U> = EntryCodec(
    live: T -> bool,
    emit: (S, T) -> (S, seq<byte>),
    read: (S, bool, seq<byte>) -> Decoded<(S, U)>)

  function Batch(remaining: nat): nat { if remaining < 8 then remaining else 8 }

  function LiveBits<S, T, U>(codec: EntryCodec<S, T, U>, chunk: seq<T>): (r: seq<bool>)
    ensures |r| == |chunk|
    ensures forall i :: 0 <= i < |chunk| ==> r[i] == codec.live(chunk[i])
  {
    seq(|chunk|, i requires 0 <= i < |chunk| => codec.live(chunk[i]))
  }

  function EmitChunk<S, T, U>(codec: EntryCodec<S, T, U>, state: S, chunk: seq<T>): (S, seq<byte>) {
    if chunk == [] then (state, [])
    else
      var (state', head) := codec.emit(state, chunk[0]);
      var (state'', tail) := EmitChunk(codec, state', chunk[1..]);
      (state'', head + tail)
  }

  function MaskByte<S, T, U>(codec: EntryCodec<S, T, U>, chunk: seq<T>): byte
    requires |chunk| <= 8
  {
    Pow2Monotone(|chunk|, 8);
    MaskOf(LiveBits(codec, chunk))
  }

  function WriteBatches<S, T, U>(codec: EntryCodec<S, T, U>, state: S, entries: seq<T>): seq<byte>
    decreases |entries|
  {
    if entries == [] then []
    else
      var n := Batch(|entries|);
      var (state', body) := EmitChunk(codec, state, entries[..n]);
      [MaskByte(codec, entries[..n])] + body + WriteBatches(codec, state', entries[n..])
  }

  /** What decoding `more` adds to the entries already decoded. */
  function Continue<S, U>(out: seq<U>, more: Decoded<(S, seq<U>)>): Decoded<(S, seq<U>)> {
    match more
    case Ok((state, tail), rest) => Ok((state, out + tail), rest)
    case Err(e) => Err(e)
  }

  function Prepend<U>(out: seq<U>, more: Decoded<seq<U>>): Decoded<seq<U>> {
    match more
    case Ok(tail, rest) => Ok(out + tail, rest)
    case Err(e) => Err(e)
  }

  lemma ContinueLaws<S, U>(a: seq<U>, b: seq<U>, more: Decoded<(S, seq<U>)>)
    ensures Continue([], more) == more
    ensures Continue(a, Continue(b, more)) == Continue(a + b, more)
  {
    if more.Ok? {
      assert [] + more.value.1 == more.value.1;
      assert a + (b + more.value.1) == a + b + more.value.1;
    }
  }

  lemma PrependLaws<U>(a: seq<U>, b: seq<U>, more: Decoded<seq<U>>)
    ensures Prepend([], more) == more
    ensures Prepend(a, Prepend(b, more)) == Prepend(a + b, more)
  {
    if more.Ok? {
      assert [] + more.value == more.value;
      assert a + (b + more.value) == a + b + more.value;
    }
  }

  function ReadChunk<S, T, U>(codec: EntryCodec<S, T, U>, state: S, mask: byte, bit: nat, batch: nat, s: seq<byte>)
    : Decoded<(S, seq<U>)>
    requires bit <= batch
    decreases batch - bit
  {
    if bit == batch then Ok((state, []), s)
    else
      var (head, rest) :- codec.read(state, Bit(mask, bit), s);
      Continue([head.1], ReadChunk(codec, head.0, mask, bit + 1, batch, rest))
  }

  function ReadBatches<S, T, U>(codec: EntryCodec<S, T, U>, state: S, total: nat, s: seq<byte>): Decoded<seq<U>>
    decreases total
  {
    if total == 0 then Ok([], s)
    else
      var (mask, body) :- ReadByte(s);
      var (chunk, rest) :- ReadChunk(codec, state, mask, 0, Batch(total), body);
      Prepend(chunk.1, ReadBatches(codec, chunk.0, total - Batch(total), rest))
  }

  /**
   An entry is faithful when reading it back, from the state it was written in, gives its
   image and the next state.
   */
  ghost predicate Faithful<S(!new), T, U>(codec: EntryCodec<S, T, U>, image: T -> U, entry: T) {
    forall state: S, rest: seq<byte> ::
      codec.read(state, codec.live(entry), codec.emit(state, entry).1 + rest)
      == Ok((codec.emit(state, entry).0, image(entry)), rest)
  }

  function Images<T, U>(image: T -> U, entries: seq<T>): (r: seq<U>)
    ensures |r| == |entries|
    ensures forall i :: 0 <= i < |r| ==> r[i] == image(entries[i])
  {
    seq(|entries|, i requires 0 <= i < |entries| => image(entries[i]))
  }

  lemma {:induction false} ReadChunkInvertsEmit<S(!new), T, U>(codec: EntryCodec<S, T, U>, image: T -> U, state: S,
                                                               chunk: seq<T>, bit: nat, mask: byte, rest: seq<byte>)
    requires forall x :: x in chunk ==> Faithful(codec, image, x)
    requires bit <= |chunk|
    requires forall i :: bit <= i < |chunk| ==> Bit(mask, i) == codec.live(chunk[i])
    ensures var (state', body) := EmitChunk(codec, state, chunk[bit..]);
            ReadChunk(codec, state, mask, bit, |chunk|, body + rest)
            == Ok((state', Images(image, chunk[bit..])), rest)
    decreases |chunk| - bit
  {
    if bit < |chunk| {
      var x := chunk[bit];
      var (state', head) := codec.emit(state, x);
      var (state'', tail) := EmitChunk(codec, state', chunk[bit + 1..]);
      assert chunk[bit..][1..] == chunk[bit + 1..];
      assert head + tail + rest == head + (tail + rest);
      assert Faithful(codec, image, x);
      ReadChunkInvertsEmit(codec, image, state', chunk, bit + 1, mask, rest);
      assert Images(image, chunk[bit..]) == [image(x)] + Images(image, chunk[bit + 1..]);
    }
  }

  /** Reading as many entries as were written gives them back and consumes exactly their bytes. */
  lemma {:induction false} ReadInvertsWrite<S(!new), T, U>(codec: EntryCodec<S, T, U>, image: T -> U, state: S,
                                                           entries: seq<T>, rest: seq<byte>)
    requires forall x :: x in entries ==> Faithful(codec, image, x)
    ensures ReadBatches(codec, state, |entries|, WriteBatches(codec, state, entries) + rest)
         == Ok(Images(image, entries), rest)
    decreases |entries|
  {
    if entries != [] {
      var n := Batch(|entries|);
      var chunk := entries[..n];
      var (state', body) := EmitChunk(codec, state, chunk);
      var more := WriteBatches(codec, state', entries[n..]);
      var s := WriteBatches(codec, state, entries) + rest;
      assert s == [MaskByte(codec, chunk)] + (body + (more + rest));
      ReadChunkInverts(codec, image, state, chunk, more + rest);
      ReadInvertsWrite(codec, image, state', entries[n..], rest);
      assert Images(image, entries) == Images(image, chunk) + Images(image, entries[n..]);
    }
  }

  lemma ReadChunkInverts<S(!new), T, U>(codec: EntryCodec<S, T, U>, image: T -> U, state: S, chunk: seq<T>,
                                        rest: seq<byte>)
    requires |chunk| <= 8 && forall x :: x in chunk ==> Faithful(codec, image, x)
    ensures var (state', body) := EmitChunk(codec, state, chunk);
            ReadChunk(codec, state, MaskByte(codec, chunk), 0, |chunk|, body + rest)
            == Ok((state', Images(image, chunk)), rest)
  {
    forall i | 0 <= i < |chunk|
      ensures Bit(MaskByte(codec, chunk), i) == codec.live(chunk[i])
    {
      MaskBit(LiveBits(codec, chunk), i);
    }
    assert chunk[0..] == chunk;
    ReadChunkInvertsEmit(codec, image, state, chunk, 0, MaskByte(codec, chunk), rest);
  }

  /** Every entry the codec reads, from whatever bytes, satisfies `p`. */
  ghost predicate ReadsOnly<S(!new), T, U>(codec: EntryCodec<S, T, U>, p: U -> bool) {
    forall state: S, live: bool, s: seq<byte> ::
      codec.read(state, live, s).Ok? ==> p(codec.read(state, live, s).value.1)
  }

  ghost predicate AllSatisfy<U>(p: U -> bool, entries: seq<U>) { forall i :: 0 <= i < |entries| ==> p(entries[i]) }

  lemma {:induction false} ReadChunkSatisfies<S(!new), T, U>(codec: EntryCodec<S, T, U>, p: U -> bool, state: S,
                                                             mask: byte, bit: nat, batch: nat, s: seq<byte>)
    requires ReadsOnly(codec, p) && bit <= batch
    ensures var r := ReadChunk(codec, state, mask, bit, batch, s);
            r.Ok? ==> |r.value.1| == batch - bit && AllSatisfy(p, r.value.1)
    decreases batch - bit
  {
    if bit < batch {
      var head := codec.read(state, Bit(mask, bit), s);
      if head.Ok? {
        ReadChunkSatisfies(codec, p, head.value.0, mask, bit + 1, batch, head.rest);
      }
    }
  }

  /** Whatever bytes are read, as many entries come out as were asked for, and each is one the codec reads. */
  lemma {:induction false} ReadEntriesSatisfy<S(!new), T, U>(codec: EntryCodec<S, T, U>, p: U -> bool, state: S,
                                                             total: nat, s: seq<byte>)
    requires ReadsOnly(codec, p)
    ensures var r := ReadBatches(codec, state, total, s); r.Ok? ==> |r.value| == total && AllSatisfy(p, r.value)
    decreases total
  {
    if total > 0 && ReadByte(s).Ok? {
      var mask, body := ReadByte(s).value, ReadByte(s).rest;
      ReadChunkSatisfies(codec, p, state, mask, 0, Batch(total), body);
      var chunk := ReadChunk(codec, state, mask, 0, Batch(total), body);
      if chunk.Ok? {
        ReadEntriesSatisfy(codec, p, chunk.value.0, total - Batch(total), chunk.rest);
      }
    }
  }

  method ChunkMask<S, T, U>(codec: EntryCodec<S, T, U>, chunk: seq<T>) returns (mask: byte)
    requires |chunk| <= 8
    ensures mask == MaskByte(codec, chunk)
  {
    var m := 0;
    for bit := 0 to |chunk|
      invariant m == MaskOf(LiveBits(codec, chunk[..bit]))
    {
      MaskAppend(LiveBits(codec, chunk[..bit]), codec.live(chunk[bit]));
      assert LiveBits(codec, chunk[..bit + 1]) == LiveBits(codec, chunk[..bit]) + [codec.live(chunk[bit])];
      if codec.live(chunk[bit]) {
        m := m + Pow2(bit);
      }
    }
    assert chunk[..|chunk|] == chunk;
    assert m == MaskByte(codec, chunk);
    mask := m;
  }

  /** The writing loop: a mask byte for each chunk, then the chunk's entries. */
  method WriteLiveMaskBatches<S, T, U>(codec: EntryCodec<S, T, U>, state: S, entries: seq<T>)
    returns (out: seq<byte>)
    ensures out == WriteBatches(codec, state, entries)
  {
    var start, st := 0, state;
    out := [];
    assert entries[0..] == entries;
    while start < |entries|
      invariant start <= |entries|
      invariant out + WriteBatches(codec, st, entries[start..]) == WriteBatches(codec, state, entries)
    {
      var batch := Batch(|entries| - start);
      var chunk := entries[start..start + batch];
      assert entries[start..][..batch] == chunk && entries[start..][batch..] == entries[start + batch..];
      var mask := ChunkMask(codec, chunk);
      var next, body := WriteChunk(codec, st, chunk);
      ghost var more := WriteBatches(codec, next, entries[start + batch..]);
      assert WriteBatches(codec, st, entries[start..]) == [mask] + body + more;
      Reassociate(out, [mask] + body, more);
      out := out + ([mask] + body);
      start, st := start + batch, next;
    }
    assert out + [] == out;
  }

  method WriteChunk<S, T, U>(codec: EntryCodec<S, T, U>, state: S, chunk: seq<T>)
    returns (state': S, out: seq<byte>)
    ensures (state', out) == EmitChunk(codec, state, chunk)
  {
    state', out := state, [];
    assert chunk[0..] == chunk;
    for i := 0 to |chunk|
      invariant EmitChunk(codec, state', chunk[i..]).0 == EmitChunk(codec, state, chunk).0
      invariant out + EmitChunk(codec, state', chunk[i..]).1 == EmitChunk(codec, state, chunk).1
    {
      var (next, bytes) := codec.emit(state', chunk[i]);
      assert chunk[i..][1..] == chunk[i + 1..];
      out := out + bytes;
      state' := next;
    }
    assert out + [] == out;
  }

  /** The reading loop, stopping at the first entry that does not decode. */
  method ReadLiveMaskBatches<S, T, U>(codec: EntryCodec<S, T, U>, state: S, total: nat, s: seq<byte>)
    returns (r: Decoded<seq<U>>)
    ensures r == ReadBatches(codec, state, total, s)
  {
    var out, remaining, st, rest := [], total, state, s;
    PrependLaws(out, out, ReadBatches(codec, state, total, s));
    while remaining > 0
      invariant ReadBatches(codec, state, total, s) == Prepend(out, ReadBatches(codec, st, remaining, rest))
    {
      var mask :- ReadByte(rest);
      var batch := Batch(remaining);
      var chunk := ReadEntries(codec, st, mask.0, batch, mask.1);
      if chunk.Err? {
        return Err(chunk.error);
      }
      PrependLaws(out, chunk.value.1, ReadBatches(codec, chunk.value.0, remaining - batch, chunk.rest));
      st, out, rest := chunk.value.0, out + chunk.value.1, chunk.rest;
      remaining := remaining - batch;
    }
    assert out + [] == out;
    r := Ok(out, rest);
  }

  method ReadEntries<S, T, U>(codec: EntryCodec<S, T, U>, state: S, mask: byte, batch: nat, s: seq<byte>)
    returns (r: Decoded<(S, seq<U>)>)
    ensures r == ReadChunk(codec, state, mask, 0, batch, s)
  {
    var out, st, rest := [], state, s;
    ContinueLaws(out, out, ReadChunk(codec, state, mask, 0, batch, s));
    for bit := 0 to batch
      invariant ReadChunk(codec, state, mask, 0, batch, s)
             == Continue(out, ReadChunk(codec, st, mask, bit, batch, rest))
    {
      var entry :- codec.read(st, Bit(mask, bit), rest);
      ContinueLaws(out, [entry.0.1], ReadChunk(codec, entry.0.0, mask, bit + 1, batch, entry.1));
      st, out, rest := entry.0.0, out + [entry.0.1], entry.1;
    }
    assert out + [] == out;
    r := Ok((st, out), rest);
  }
}
