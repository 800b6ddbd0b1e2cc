/** The residual buffer of the complex sink: samples from successive calls are gathered into whole FFT blocks. */
module SinkBuffer {
  import opened Sequences

  /** The consecutive whole blocks of a stream. */
  function BlocksOf<T>(stream: seq<T>, size: nat): seq<seq<T>>
    requires size > 0
    decreases |stream|
  {
    if |stream| < size then [] else [stream[..size]] + BlocksOf(stream[size..], size)
  }

  ghost predicate Gathered<T>(stream: seq<T>, blocks: seq<seq<T>>, rest: seq<T>, size: nat) {
    && stream == Flatten(blocks) + rest && |rest| < size
    && forall k :: 0 <= k < |blocks| ==> |blocks[k]| == size
  }

  /** Gathered blocks are the blocks of the stream, wherever it was cut into calls. */
  lemma {:induction false} GatheredBlocks<T>(stream: seq<T>, blocks: seq<seq<T>>, rest: seq<T>, size: nat)
    requires size > 0 && Gathered(stream, blocks, rest, size)
    ensures blocks == BlocksOf(stream, size)
    decreases |blocks|
  {
    if blocks == [] {
    } else {
      FlattenCons(blocks);
      assert stream[..size] == blocks[0];
      assert stream[size..] == Flatten(blocks[1..]) + rest;
      GatheredBlocks(stream[size..], blocks[1..], rest, size);
      assert blocks == [blocks[0]] + blocks[1..];
    }
  }

  lemma GatheredMore<T>(stream: seq<T>, blocks: seq<seq<T>>, held: seq<T>, items: seq<T>, size: nat)
    requires Gathered(stream, blocks, held, size) && |held| + |items| <= size
    ensures |held| + |items| < size ==> Gathered(stream + items, blocks, held + items, size)
    ensures |held| + |items| == size ==> Gathered(stream + items, blocks + [held + items], [], size)
  {
    assert stream + items == Flatten(blocks) + (held + items);
    FlattenSnoc(blocks, held + items);
    assert Flatten(blocks) + (held + items) == Flatten(blocks + [held + items]) + [];
  }

  /** Items used by a call with `n` items offered, when `index` are already held: all of them while the
      block does not fill; after the first block, all but as many as were held. */
  function Consumed(n: nat, index: nat, size: nat): nat
    requires index < size
  {
    if n < size - index then n else if n <= size then size - index else n - index
  }

  /** The loop variables, `first` items having been held at the start: the copying is that far behind the counter. */
  ghost predicate Behind(i: nat, consumed: nat, index: nat, first: nat, n: nat, size: nat)
    requires first < size
  {
    && consumed <= n && (i == 0 || i >= size)
    && (i == 0 ==> consumed == 0 && index == first)
    && (0 < i < n ==> consumed == i - first && index == 0)
    && (0 < i && n <= i ==> consumed == Consumed(n, first, size))
  }

  lemma BehindStep(i: nat, consumed: nat, index: nat, first: nat, n: nat, size: nat)
    requires first < size && i < n && Behind(i, consumed, index, first, n, size)
    ensures consumed <= i && index < size
    ensures var full := n - i >= size - index;
            Behind(i + size, consumed + if full then size - index else n - i, if full then 0 else index + n - i,
                   first, n, size)
  {
  }

  lemma NotStarted(first: nat, n: nat, size: nat)
    requires first < size
    ensures Behind(0, 0, first, first, n, size)
  {
  }

  lemma AllUsed(i: nat, consumed: nat, index: nat, first: nat, n: nat, size: nat)
    requires first < size && n <= i && Behind(i, consumed, index, first, n, size)
    ensures consumed == Consumed(n, first, size)
  {
  }

  class Sink<T(0)> {
    var fftsize: nat
    var index: nat
    var residbuf: array<T>
    /** The samples taken since the last change of size, and the blocks sent to the FFT. */
    ghost var stream: seq<T>
    ghost var blocks: seq<seq<T>>

    ghost predicate Valid()
      reads this, residbuf
    {
      && residbuf.Length == fftsize && index < fftsize
      && Gathered(stream, blocks, residbuf[..index], fftsize)
    }

    constructor (fftsize: nat)
      requires fftsize > 0
      ensures Valid() && fresh(residbuf) && this.fftsize == fftsize && stream == [] && blocks == []
    {
      this.fftsize, index := fftsize, 0;
      residbuf := new T[fftsize];
      stream, blocks := [], [];
    }

    /** A change of size throws away what is held. */
    method FftResize(newSize: nat)
      requires Valid() && newSize > 0
      modifies this
      ensures Valid() && fftsize == newSize
      ensures newSize == old(fftsize) ==> residbuf == old(residbuf) && index == old(index)
      ensures newSize == old(fftsize) ==> stream == old(stream) && blocks == old(blocks)
      ensures newSize != old(fftsize) ==> fresh(residbuf) && index == 0 && stream == [] && blocks == []
    {
      if newSize != fftsize {
        residbuf := new T[newSize];
        fftsize := newSize;
        index := 0;
        stream, blocks := [], [];
      }
    }

    /** Copy items in at the index. */
    method Hold(items: seq<T>)
      requires index + |items| <= residbuf.Length
      modifies residbuf
      ensures residbuf[..index + |items|] == old(residbuf[..index]) + items
    {
      forall k | 0 <= k < |items| {
        residbuf[index + k] := items[k];
      }
    }

    /** Fill the buffer and send it off. */
    method Complete(items: seq<T>)
      requires Valid() && |items| == fftsize - index
      modifies this`index, this`stream, this`blocks, residbuf
      ensures Valid() && index == 0 && stream == old(stream) + items
      ensures |blocks| == old(|blocks|) + 1
    {
      hide Gathered;
      GatheredMore(stream, blocks, residbuf[..index], items, fftsize);
      Hold(items);
      assert residbuf[..] == residbuf[..fftsize] == old(residbuf[..index]) + items;
      index := 0;
      assert residbuf[..0] == [];
      stream := stream + items;
      blocks := blocks + [residbuf[..]];
    }

    /** Keep items for next time. */
    method Keep(items: seq<T>)
      requires Valid() && |items| < fftsize - index
      modifies this`index, this`stream, residbuf
      ensures Valid() && index == old(index) + |items| && stream == old(stream) + items
    {
      hide Gathered;
      GatheredMore(stream, blocks, residbuf[..index], items, fftsize);
      Hold(items);
      index := index + |items|;
      stream := stream + items;
    }

    /** The body of the work loop: use `n` items from `j` on, if `datasize` are thought to be left. */
    method Take(input: seq<T>, j: nat, datasize: nat) returns (n: nat)
      requires Valid() && j + datasize <= |input|
      modifies this`index, this`stream, this`blocks, residbuf
      ensures fftsize == old(fftsize)
      ensures n == if datasize >= fftsize - old(index) then fftsize - old(index) else datasize
      ensures Valid() && stream == old(stream) + input[j..j + n]
      ensures index == if datasize >= fftsize - old(index) then 0 else old(index) + datasize
    {
      hide Gathered;
      var resid := fftsize - index;
      if datasize >= resid {
        Complete(input[j..j + resid]);
        n := resid;
      } else {
        Keep(input[j..j + datasize]);
        n := datasize;
      }
    }

    /** The loop steps by whole blocks while the copying starts part of a block behind it. */
    method Gather(noutputItems: nat, input: seq<T>) returns (consumed: nat)
      requires Valid() && noutputItems <= |input|
      modifies this`index, this`stream, this`blocks, residbuf
      ensures Valid() && fftsize == old(fftsize)
      ensures consumed <= noutputItems && consumed == Consumed(noutputItems, old(index), fftsize)
      ensures stream == old(stream) + input[..consumed]
    {
      hide Gathered, Behind, Consumed;
      ghost var first := index;
      consumed := 0;
      var i := 0;
      assert stream + input[..0] == stream;
      NotStarted(first, noutputItems, fftsize);
      while i < noutputItems
        invariant Valid() && first < fftsize == old(fftsize)
        invariant Behind(i, consumed, index, first, noutputItems, fftsize)
        invariant consumed <= noutputItems && stream == old(stream) + input[..consumed]
        decreases noutputItems - i
      {
        BehindStep(i, consumed, index, first, noutputItems, fftsize);
        var n := Take(input, consumed, noutputItems - i);
        assert input[..consumed + n] == input[..consumed] + input[consumed..consumed + n];
        consumed := consumed + n;
        i := i + fftsize;
      }
      AllUsed(i, consumed, index, first, noutputItems, fftsize);
    }

    /** `guiSize` is the FFT size the application wants. */
    method GeneralWork(noutputItems: nat, input: seq<T>, guiSize: nat) returns (consumed: nat)
      requires Valid() && noutputItems <= |input| && guiSize > 0
      modifies this, residbuf
      ensures Valid() && fftsize == guiSize
      ensures consumed <= noutputItems
      ensures guiSize == old(fftsize) ==> consumed == Consumed(noutputItems, old(index), guiSize)
      ensures guiSize != old(fftsize) ==> consumed == noutputItems
      ensures stream == (if guiSize == old(fftsize) then old(stream) else []) + input[..consumed]
      ensures blocks == BlocksOf(stream, fftsize)
    {
      hide Gathered, BlocksOf, Consumed;
      FftResize(guiSize);
      NothingHeld(noutputItems, guiSize);
      consumed := Gather(noutputItems, input);
      GatheredBlocks(stream, blocks, residbuf[..index], fftsize);
    }
  }

  lemma NothingHeld(n: nat, size: nat)
    requires size > 0
    ensures Consumed(n, 0, size) == n
  {
  }
}
