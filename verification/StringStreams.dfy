// A stream of characters kept in chunks, the first of them inside the object.
module StringStreams {
  import opened Sets

  // The allocator of chunks.
  class ChunkHeap {
    ghost var live: set<array<char>>

    constructor ()
      ensures live == {}
    {
      live := {};
    }

    method Malloc(n: nat) returns (b: array<char>)
      modifies this
      ensures fresh(b) && b.Length == n && b !in old(live) && live == old(live) + {b}
    {
      b := new char[n];
      live := live + {b};
    }

    method Free(b: array<char>)
      requires b in live
      modifies this
      ensures live == old(live) - {b}
    {
      live := live - {b};
    }
  }

  datatype Buffer = Buffer(buffer: array<char>, offset: nat, size: nat)

  // Copy characters to a place in a buffer.
  method Memcpy(to: array<char>, at: nat, s: string)
    requires at + |s| <= to.Length
    modifies to
    ensures to[..at] == old(to[..at]) && to[at..at + |s|] == s && to[at + |s|..] == old(to[at + |s|..])
  {
    for i := 0 to |s|
      invariant to[..at] == old(to[..at]) && to[at..at + i] == s[..i] && to[at + |s|..] == old(to[at + |s|..])
    {
      to[at + i] := s[i];
    }
  }

  class StringStream {
    const stackSize: nat
    const blockSize: nat
    const heap: ChunkHeap
    const stackBuffer: array<char>
    var savedBuffers: seq<Buffer>
    var currentBuffer: Buffer
    // The heap chunks in the order they were allocated, and what was appended since the
    // last reset.
    ghost var chunks: seq<array<char>>
    ghost var contents: string

    // The stack buffer and the chunks hold the text in order, one buffer record each, and
    // all but the last are full.
    ghost predicate Shaped()
      reads this
    {
      && stackBuffer.Length == stackSize && stackBuffer !in chunks && Distinct(chunks)
      && |savedBuffers| == |chunks|
      && (forall i :: 0 <= i < |savedBuffers| ==>
          savedBuffers[i].buffer == (if i == 0 then stackBuffer else chunks[i - 1]))
      && (forall i :: 0 <= i < |savedBuffers| ==>
          savedBuffers[i].offset == savedBuffers[i].size == savedBuffers[i].buffer.Length)
      && currentBuffer.buffer == (if chunks == [] then stackBuffer else chunks[|chunks| - 1])
      && currentBuffer.offset <= currentBuffer.size == currentBuffer.buffer.Length
    }

    ghost predicate Valid()
      reads this, heap, stackBuffer, Elements(chunks)
    {
      && Shaped() && stackBuffer !in heap.live && Elements(chunks) <= heap.live
      && contents == Concat(savedBuffers) + currentBuffer.buffer[..currentBuffer.offset]
    }

    constructor (heap: ChunkHeap, stackSize: nat, blockSize: nat)
      requires forall b :: b in heap.live ==> allocated(b)
      ensures Valid() && contents == "" && chunks == [] && fresh(this) && fresh(stackBuffer)
      ensures this.heap == heap && this.stackSize == stackSize && this.blockSize == blockSize
    {
      this.heap, this.stackSize, this.blockSize := heap, stackSize, blockSize;
      var storage := new char[stackSize];
      stackBuffer := storage;
      savedBuffers, chunks := [], [];
      currentBuffer := Buffer(storage, 0, stackSize);
      contents := "";
    }

    // Add text: fill the current chunk, and put what is left over in a new one.
    method Append(text: string)
      requires Valid()
      modifies this, heap, stackBuffer, Elements(chunks)
      ensures Valid() && contents == old(contents) + text
      ensures old(chunks) <= chunks && fresh(Elements(chunks) - old(Elements(chunks)))
      ensures heap.live == old(heap.live) + Elements(chunks[|old(chunks)|..])
      ensures |chunks| == |old(chunks)| + (if |text| <= old(currentBuffer.size - currentBuffer.offset) then 0 else 1)
    {
      hide Concat;
      var avail := currentBuffer.size - currentBuffer.offset;
      if avail < |text| {
        if avail > 0 {
          Fill(text[..avail]);
        }
        StartChunk(text[avail..]);
        assert text == text[..avail] + text[avail..];
      } else {
        Fill(text);
      }
    }

    // Copy text that fits into the current chunk.
    method Fill(text: string)
      requires Valid() && |text| <= currentBuffer.size - currentBuffer.offset
      modifies `currentBuffer, `contents, currentBuffer.buffer
      ensures Valid() && contents == old(contents) + text
      ensures currentBuffer == old(currentBuffer).(offset := old(currentBuffer).offset + |text|)
    {
      hide Concat;
      ghost var before := Concat(savedBuffers);
      Memcpy(currentBuffer.buffer, currentBuffer.offset, text);
      currentBuffer := currentBuffer.(offset := currentBuffer.offset + |text|);
      contents := contents + text;
      assert Concat(savedBuffers) == before;
    }

    // The current chunk is full: save it and put the text in a chunk of its own.
    method StartChunk(text: string)
      requires Valid() && currentBuffer.offset == currentBuffer.size
      modifies this, heap
      ensures Valid() && contents == old(contents) + text
      ensures |chunks| == |old(chunks)| + 1 && old(chunks) <= chunks && fresh(chunks[|chunks| - 1])
      ensures heap.live == old(heap.live) + {chunks[|chunks| - 1]}
      ensures currentBuffer.size == if |text| > blockSize then |text| else blockSize
    {
      hide Concat;
      ConcatLast(savedBuffers, currentBuffer);
      savedBuffers := savedBuffers + [currentBuffer];
      var targetSize := if |text| > blockSize then |text| else blockSize;
      var buffer := heap.Malloc(targetSize);
      ghost var before := Concat(savedBuffers);
      Memcpy(buffer, 0, text);
      assert Concat(savedBuffers) == before;
      currentBuffer := Buffer(buffer, |text|, targetSize);
      chunks := chunks + [buffer];
      contents := contents + text;
    }

    // The whole text.
    method Str() returns (r: string)
      requires Valid()
      ensures r == contents
    {
      r := "";
      for i := 0 to |savedBuffers|
        invariant r == Concat(savedBuffers[..i])
      {
        ConcatLast(savedBuffers[..i], savedBuffers[i]);
        assert savedBuffers[..i + 1] == savedBuffers[..i] + [savedBuffers[i]];
        r := r + savedBuffers[i].buffer[..savedBuffers[i].offset];
      }
      assert savedBuffers[..|savedBuffers|] == savedBuffers;
      r := r + currentBuffer.buffer[..currentBuffer.offset];
    }

    // Free every heap chunk, once, and never the stack buffer; then start over.
    method Reset()
      requires Valid()
      modifies this, heap
      ensures Valid() && contents == "" && chunks == []
      ensures heap.live == old(heap.live) - old(Elements(chunks))
    {
      hide Concat;
      for i := 0 to |savedBuffers|
        invariant savedBuffers == old(savedBuffers) && currentBuffer == old(currentBuffer) && chunks == old(chunks)
        invariant heap.live == old(heap.live) - Elements(chunks[..if i == 0 then 0 else i - 1])
      {
        if savedBuffers[i].buffer != stackBuffer {
          assert chunks[..i] == chunks[..i - 1] + [chunks[i - 1]];
          heap.Free(savedBuffers[i].buffer);
        }
      }
      if currentBuffer.buffer != stackBuffer {
        assert chunks == chunks[..|chunks| - 1] + [chunks[|chunks| - 1]];
        heap.Free(currentBuffer.buffer);
      }
      savedBuffers, chunks := [], [];
      currentBuffer := Buffer(stackBuffer, 0, stackSize);
      contents := "";
      ConcatNone();
    }
  }

  lemma ConcatNone()
    ensures Concat([]) == ""
  {}

  lemma ConcatLast(bs: seq<Buffer>, b: Buffer)
    requires forall x :: x in bs + [b] ==> x.offset <= x.buffer.Length
    ensures Concat(bs + [b]) == Concat(bs) + b.buffer[..b.offset]
  {}

  // The text in a list of buffers.
  ghost function Concat(bs: seq<Buffer>): string
    requires forall b :: b in bs ==> b.offset <= b.buffer.Length
    reads set b | b in bs :: b.buffer
  {
    if bs == [] then "" else Concat(bs[..|bs| - 1]) + bs[|bs| - 1].buffer[..bs[|bs| - 1].offset]
  }
}
