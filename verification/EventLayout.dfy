/** How fragments lie in an event buffer of shared memory, and how they are counted by walking from header to header
    (artdaq/DAQrate/SharedMemoryEventManager.cc:263-292 and 387-411). Positions and sizes are in words. */
module EventLayout {

  // A word of the buffer, as it reads when it is taken for the first word of a fragment header.
  datatype Word = Word(wordCount: nat, kind: nat)

  type Block = seq<Word>

  // A fragment in memory: it has room for a header, and its header tells its length.
  predicate Framed(b: Block, headerWords: nat) {
    0 < headerWords <= |b| && b[0].wordCount == |b|
  }

  ghost predicate AllFramed(blocks: seq<Block>, headerWords: nat) {
    forall i :: 0 <= i < |blocks| ==> Framed(blocks[i], headerWords)
  }

  function Memory(blocks: seq<Block>): seq<Word> {
    if blocks == [] then [] else blocks[0] + Memory(blocks[1..])
  }

  ghost function Headers(blocks: seq<Block>, headerWords: nat): seq<Word>
    requires AllFramed(blocks, headerWords)
  {
    if blocks == [] then []
    else
      assert Framed(blocks[0], headerWords);
      [blocks[0][0]] + Headers(blocks[1..], headerWords)
  }

  // The headers met by stepping through memory by word_count. (A zero count would never step on.)
  function Walk(memory: seq<Word>): seq<Word> {
    if memory == [] then []
    else if memory[0].wordCount == 0 || memory[0].wordCount > |memory| then [memory[0]]
    else [memory[0]] + Walk(memory[memory[0].wordCount..])
  }

  // The walk meets each written header once, in order, whatever the bodies contain.
  lemma {:induction false} WalkMeetsEveryHeader(blocks: seq<Block>, headerWords: nat)
    requires AllFramed(blocks, headerWords)
    ensures Walk(Memory(blocks)) == Headers(blocks, headerWords) && |Walk(Memory(blocks))| == |blocks|
  {
    if blocks != [] {
      var rest := blocks[1..];
      assert forall i :: 0 <= i < |rest| ==> rest[i] == blocks[i + 1];
      WalkMeetsEveryHeader(rest, headerWords);
      assert Memory(blocks)[|blocks[0]|..] == Memory(rest);
    }
  }

  lemma {:induction false} MemoryOfMore(blocks: seq<Block>, b: Block)
    ensures Memory(blocks + [b]) == Memory(blocks) + b
  {
    if blocks == [] {
      assert [b][1..] == [];
    } else {
      assert (blocks + [b])[1..] == blocks[1..] + [b];
      MemoryOfMore(blocks[1..], b);
    }
  }

  lemma {:induction false} MemorySplits(blocks: seq<Block>, k: nat)
    requires k <= |blocks|
    ensures Memory(blocks) == Memory(blocks[..k]) + Memory(blocks[k..])
  {
    if k == 0 {
      assert blocks[k..] == blocks;
    } else {
      assert blocks[..k][1..] == blocks[1..][..k - 1] && blocks[1..][k - 1..] == blocks[k..];
      MemorySplits(blocks[1..], k - 1);
    }
  }

  // Writing inside one block changes that block only.
  lemma MemoryOfUpdate(blocks: seq<Block>, k: nat, i: nat, w: Word)
    requires k < |blocks| && i < |blocks[k]|
    ensures var start := |Memory(blocks[..k])|;
            start + i < |Memory(blocks)| && Memory(blocks[k := blocks[k][i := w]]) == Memory(blocks)[start + i := w]
  {
    var after := blocks[k := blocks[k][i := w]];
    MemorySplits(blocks, k);
    MemorySplits(after, k);
    assert after[..k] == blocks[..k];
    assert blocks[k..][1..] == blocks[k + 1..] && after[k..][1..] == blocks[k + 1..];
    assert Memory(blocks[k..]) == blocks[k] + Memory(blocks[k + 1..]);
    assert Memory(after[k..]) == blocks[k][i := w] + Memory(blocks[k + 1..]);
    UpdateInside(Memory(blocks[..k]), blocks[k], Memory(blocks[k + 1..]), i, w);
  }

  lemma UpdateInside(a: seq<Word>, b: seq<Word>, c: seq<Word>, i: nat, w: Word)
    requires i < |b|
    ensures a + (b[i := w] + c) == (a + (b + c))[|a| + i := w]
  {
  }

  // The fragments a count selects: all of them when asked for the invalid type.
  predicate Selects(kind: nat, invalidKind: nat, header: Word) {
    kind == invalidKind || header.kind == kind
  }

  function Count(headers: seq<Word>, kind: nat, invalidKind: nat): nat {
    if headers == [] then 0
    else (if Selects(kind, invalidKind, headers[0]) then 1 else 0) + Count(headers[1..], kind, invalidKind)
  }

  lemma {:induction false} CountOfAll(headers: seq<Word>, invalidKind: nat)
    ensures Count(headers, invalidKind, invalidKind) == |headers|
  {
    if headers != [] { CountOfAll(headers[1..], invalidKind); }
  }

  // The positions of the fragments of one type.
  ghost function Positions(headers: seq<Word>, kind: nat): set<nat> {
    set i: nat | i < |headers| && headers[i].kind == kind
  }

  function Shifted(s: set<nat>): set<nat> {
    set i | i in s :: i + 1
  }

  lemma InShifted(s: set<nat>, j: nat)
    ensures j in Shifted(s) <==> j > 0 && j - 1 in s
  {
  }

  lemma {:induction false} ShiftedSize(s: set<nat>)
    ensures |Shifted(s)| == |s|
    decreases s
  {
    if s != {} {
      var x :| x in s;
      ShiftedSize(s - {x});
      forall j: nat ensures j in Shifted(s) <==> j in Shifted(s - {x}) + {x + 1} {
        InShifted(s, j);
        InShifted(s - {x}, j);
      }
      InShifted(s - {x}, x + 1);
      assert Shifted(s) == Shifted(s - {x}) + {x + 1};
    }
  }

  // For any other type the count is that of its fragments.
  lemma {:induction false} CountOfOneKind(headers: seq<Word>, kind: nat, invalidKind: nat)
    requires kind != invalidKind
    ensures Count(headers, kind, invalidKind) == |Positions(headers, kind)|
  {
    if headers != [] {
      var rest := Positions(headers[1..], kind);
      CountOfOneKind(headers[1..], kind, invalidKind);
      ShiftedSize(rest);
      forall j: nat
        ensures j in Positions(headers, kind) <==> j in Shifted(rest) || (j == 0 && headers[0].kind == kind)
      {
        InShifted(rest, j);
      }
      assert 0 !in Shifted(rest);
      assert Positions(headers, kind) == Shifted(rest) + if headers[0].kind == kind then {0} else {};
    }
  }

  // ---------------------------------------------------------------- where the headers come to lie

  // The write position after a header that announces wordCount words, in a buffer of the given size.
  function After(position: nat, wordCount: nat, headerWords: nat, size: nat): nat {
    if position + headerWords > size then position
    else if position + wordCount <= size then position + wordCount
    else position + headerWords
  }

  // After headers that announce these counts.
  function Position(start: nat, counts: seq<nat>, headerWords: nat, size: nat): nat {
    if counts == [] then start
    else After(Position(start, counts[..|counts| - 1], headerWords, size), counts[|counts| - 1], headerWords, size)
  }

  // How many of them there was room for.
  function Kept(start: nat, counts: seq<nat>, headerWords: nat, size: nat): nat {
    if counts == [] then 0
    else
      var front := counts[..|counts| - 1];
      Kept(start, front, headerWords, size)
      + if Position(start, front, headerWords, size) + headerWords <= size then 1 else 0
  }

  lemma OneMoreHeader(start: nat, counts: seq<nat>, count: nat, headerWords: nat, size: nat)
    ensures var position := Position(start, counts, headerWords, size);
            && Position(start, counts + [count], headerWords, size) == After(position, count, headerWords, size)
            && Kept(start, counts + [count], headerWords, size)
               == Kept(start, counts, headerWords, size) + if position + headerWords <= size then 1 else 0
  {
    assert (counts + [count])[..|counts + [count]| - 1] == counts;
  }

  lemma SlicesJoin(s: seq<Word>, a: nat, m: nat, n: nat)
    requires a <= m <= n <= |s|
    ensures s[a..n] == s[a..m] + s[m..n]
  {
  }

  // All of them are kept if and only if there was room for the last one: once a header does not fit, none does.
  lemma {:induction false} AllAreKeptIff(start: nat, counts: seq<nat>, headerWords: nat, size: nat)
    ensures Kept(start, counts, headerWords, size) <= |counts|
    ensures counts != [] ==>
              (Kept(start, counts, headerWords, size) == |counts|
               <==> Position(start, counts[..|counts| - 1], headerWords, size) + headerWords <= size)
  {
    if counts != [] { AllAreKeptIff(start, counts[..|counts| - 1], headerWords, size); }
  }

  datatype HeaderResult = Reserved(body: nat) | Oversize | NoRoomForHeader

  class EventBuffer {
    const memory: array<Word>
    const eventHeaderWords: nat
    const headerWords: nat
    const invalidKind: nat
    var writePos: nat
    var readPos: nat
    ghost var blocks: seq<Block>
    ghost var announced: seq<nat>   // the word counts of all headers that were to be written

    ghost predicate Valid()
      reads this, memory
    {
      && 0 < headerWords
      && eventHeaderWords <= writePos <= memory.Length
      && AllFramed(blocks, headerWords)
      && memory[eventHeaderWords..writePos] == Memory(blocks)
      && writePos == Position(eventHeaderWords, announced, headerWords, memory.Length)
      && |blocks| == Kept(eventHeaderWords, announced, headerWords, memory.Length)
    }

    constructor (words: nat, eventHeaderWords: nat, headerWords: nat, invalidKind: nat)
      requires eventHeaderWords <= words && 0 < headerWords
      ensures Valid() && blocks == [] && announced == [] && fresh(memory)
    {
      memory := new Word[words](_ => Word(0, 0));
      this.eventHeaderWords, this.headerWords, this.invalidKind := eventHeaderWords, headerWords, invalidKind;
      writePos, readPos := eventHeaderWords, 0;
      blocks, announced := [], [];
    }

    // Write the header and reserve room for the body; a body that does not fit leaves a bare, invalid header.
    method WriteHeader(header: seq<Word>) returns (r: HeaderResult)
      requires Valid() && |header| == headerWords && header[0].wordCount >= headerWords
      modifies this, memory
      ensures Valid() && announced == old(announced) + [header[0].wordCount]
      ensures r.NoRoomForHeader? <==> old(writePos) + headerWords > memory.Length
      ensures r.NoRoomForHeader? ==> blocks == old(blocks)
      ensures r.Reserved? <==> old(writePos) + header[0].wordCount <= memory.Length
      ensures !r.NoRoomForHeader? ==> |blocks| == |old(blocks)| + 1 && blocks[..|old(blocks)|] == old(blocks)
      ensures !r.NoRoomForHeader? ==> BlockWritten(r, blocks[|old(blocks)|], header, old(writePos))
    {
      OneMoreHeader(eventHeaderWords, announced, header[0].wordCount, headerWords, memory.Length);
      announced := announced + [header[0].wordCount];
      if writePos + headerWords > memory.Length {
        return NoRoomForHeader;
      }
      ghost var start := writePos;
      r := Reserve(header);
      ghost var b := memory[start..writePos];
      MemoryOfMore(blocks, b);
      blocks := blocks + [b];
      SlicesJoin(memory[..], eventHeaderWords, start, writePos);
      assert memory[eventHeaderWords..start] == memory[..start][eventHeaderWords..];
      assert old(memory[eventHeaderWords..start]) == old(memory[..start])[eventHeaderWords..];
    }

    // The new block: the header as given, with a body of the size it announces - or without a body and invalid.
    ghost predicate BlockWritten(r: HeaderResult, b: Block, header: seq<Word>, start: nat)
      requires |header| == headerWords && 0 < headerWords
    {
      && Framed(b, headerWords)
      && (r.Reserved? ==> r.body == start + headerWords && b[..headerWords] == header)
      && (r.Oversize? ==> b == [Word(headerWords, invalidKind)] + header[1..])
    }

    method Reserve(header: seq<Word>) returns (r: HeaderResult)
      requires 0 < headerWords == |header| && header[0].wordCount >= headerWords
      requires writePos + headerWords <= memory.Length
      modifies this`writePos, memory
      ensures old(writePos) + headerWords <= writePos <= memory.Length
      ensures memory[..old(writePos)] == old(memory[..writePos])
      ensures BlockWritten(r, memory[old(writePos)..writePos], header, old(writePos))
      ensures r.Reserved? <==> old(writePos) + header[0].wordCount <= memory.Length
      ensures writePos == After(old(writePos), header[0].wordCount, headerWords, memory.Length)
      ensures !r.NoRoomForHeader?
    {
      var start := writePos;
      PutWords(start, header);
      writePos := writePos + headerWords;
      assert memory[start] == memory[start..writePos][0];
      var bodyWords := header[0].wordCount - headerWords;
      r := Reserved(writePos);
      if bodyWords > 0 {
        if writePos + bodyWords <= memory.Length {
          writePos := writePos + bodyWords;
        } else {
          memory[start] := Word(headerWords, invalidKind);
          r := Oversize;
        }
      }
    }

    method PutWords(start: nat, words: seq<Word>)
      requires start + |words| <= memory.Length
      modifies memory
      ensures memory[start..start + |words|] == words
      ensures memory[..start] == old(memory[..start])
      ensures memory[start + |words|..] == old(memory[start + |words|..])
    {
      for i := 0 to |words|
        invariant memory[start..start + i] == words[..i]
        invariant memory[..start] == old(memory[..start])
        invariant memory[start + |words|..] == old(memory[start + |words|..])
      {
        memory[start + i] := words[i];
      }
    }

    // A receiver stores one word of a fragment body at the address it was given.
    method StoreBodyWord(position: nat, w: Word, ghost k: nat)
      requires Valid() && k < |blocks|
      requires var start := eventHeaderWords + |Memory(blocks[..k])|;
               start + headerWords <= position < start + |blocks[k]|
      modifies this`blocks, memory
      ensures Valid()
      ensures var i := position - eventHeaderWords - |Memory(old(blocks)[..k])|;
              blocks == old(blocks)[k := old(blocks)[k][i := w]]
    {
      ghost var i := position - eventHeaderWords - |Memory(blocks[..k])|;
      MemoryOfUpdate(blocks, k, i, w);
      memory[position] := w;
      assert memory[eventHeaderWords..writePos] == Memory(blocks)[position - eventHeaderWords := w];
      blocks := blocks[k := blocks[k][i := w]];
    }

    // All headers that were to be written are there if and only if there was room for the last one.
    lemma HoldsAllIff()
      requires Valid() && announced != []
      ensures var front := announced[..|announced| - 1];
              |blocks| == |announced|
              <==> Position(eventHeaderWords, front, headerWords, memory.Length) + headerWords <= memory.Length
    {
      AllAreKeptIff(eventHeaderWords, announced, headerWords, memory.Length);
    }

    // GetFragmentCountInBuffer
    method GetFragmentCount(kind: nat) returns (count: nat)
      requires Valid()
      modifies this`readPos
      ensures Valid() && readPos == writePos
      ensures count == Count(Headers(blocks, headerWords), kind, invalidKind)
      ensures kind == invalidKind ==> count == |blocks|
      ensures kind != invalidKind ==> count == |Positions(Headers(blocks, headerWords), kind)|
    {
      readPos := eventHeaderWords;
      count := 0;
      ghost var k := 0;
      assert blocks[0..] == blocks;
      while readPos < writePos
        invariant eventHeaderWords <= readPos <= writePos && k <= |blocks|
        invariant memory[readPos..writePos] == Memory(blocks[k..])
        invariant AllFramed(blocks[k..], headerWords)
        invariant count + Count(Headers(blocks[k..], headerWords), kind, invalidKind)
               == Count(Headers(blocks, headerWords), kind, invalidKind)
        decreases writePos - readPos
      {
        ghost var rest := blocks[k..];
        assert rest != [] && rest[1..] == blocks[k + 1..];
        assert memory[readPos] == memory[readPos..writePos][0] == rest[0][0];
        var header := memory[readPos];
        assert memory[readPos + header.wordCount..writePos] == memory[readPos..writePos][header.wordCount..]
          == Memory(rest[1..]);
        readPos := readPos + header.wordCount;
        k := k + 1;
        if Selects(kind, invalidKind, header) {
          count := count + 1;
        }
      }
      NoMemoryNoBlocks(blocks[k..], headerWords);
      if kind == invalidKind {
        HeadersOfAll(blocks, headerWords, invalidKind);
      } else {
        CountOfOneKind(Headers(blocks, headerWords), kind, invalidKind);
      }
    }
  }

  lemma HeadersOfAll(blocks: seq<Block>, headerWords: nat, invalidKind: nat)
    requires AllFramed(blocks, headerWords)
    ensures Count(Headers(blocks, headerWords), invalidKind, invalidKind) == |blocks|
  {
    CountOfAll(Headers(blocks, headerWords), invalidKind);
    WalkMeetsEveryHeader(blocks, headerWords);
  }

  lemma NoMemoryNoBlocks(blocks: seq<Block>, headerWords: nat)
    requires AllFramed(blocks, headerWords) && Memory(blocks) == []
    ensures blocks == []
  {
    assert blocks == [] || Framed(blocks[0], headerWords);
  }
}
