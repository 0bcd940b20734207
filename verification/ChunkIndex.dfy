/** Chunks: the index of chunks with the Bloom filter in front of it. */
module ChunkIndex {
  import opened Sequences
  import opened BloomFilters

  /** A shared pointer to a chunk: its identity and the hash of the chunk. */
  datatype Chunk = Chunk(id: nat, hash: Hash)

  predicate IsNull(h: Hash) {
    forall i :: 0 <= i < HASH_SIZE ==> h[i] == 0
  }

  /** QMultiHash::values: what was inserted under h, the latest first. */
  function Select(entries: seq<Chunk>, h: Hash): seq<Chunk> {
    if entries == [] then []
    else if entries[0].hash == h then [entries[0]] + Select(entries[1..], h)
    else Select(entries[1..], h)
  }

  /** QMultiHash::remove: every entry of this chunk. */
  function Without(entries: seq<Chunk>, c: Chunk): (r: seq<Chunk>)
    ensures forall x :: x in r <==> x in entries && x != c
  {
    if entries == [] then []
    else if entries[0] == c then Without(entries[1..], c)
    else [entries[0]] + Without(entries[1..], c)
  }

  lemma {:induction false} SelectIff(entries: seq<Chunk>, h: Hash)
    ensures Select(entries, h) == [] <==> forall c :: c in entries ==> c.hash != h
    ensures forall c :: c in Select(entries, h) <==> c in entries && c.hash == h
  {
    if entries == [] {
    } else {
      SelectIff(entries[1..], h);
    }
  }

  lemma Behind(a: seq<Chunk>, c: Chunk, b: seq<Chunk>)
    requires a != []
    ensures (a + [c] + b)[0] == a[0] && (a + [c] + b)[1..] == a[1..] + [c] + b
  {
  }

  lemma Joined(x: seq<Chunk>, a: seq<Chunk>, c: seq<Chunk>, b: seq<Chunk>)
    ensures x + (a + c + b) == (x + a) + c + b
  {
  }

  /** The answer keeps the order of the entries and says each as often as it is there. */
  lemma {:induction false} SelectAppend(a: seq<Chunk>, c: Chunk, b: seq<Chunk>, h: Hash)
    ensures Select([], h) == []
    ensures Select(a + [c] + b, h) == Select(a, h) + (if c.hash == h then [c] else []) + Select(b, h)
  {
    if a == [] {
      assert (a + [c] + b)[1..] == b;
    } else {
      SelectAppend(a[1..], c, b, h);
      Behind(a, c, b);
      if a[0].hash == h { Joined([a[0]], Select(a[1..], h), if c.hash == h then [c] else [], Select(b, h)); }
    }
  }

  /** Removal takes every entry of the chunk out and keeps the others in their order. */
  lemma {:induction false} WithoutAppend(a: seq<Chunk>, x: Chunk, b: seq<Chunk>, c: Chunk)
    ensures Without([], c) == []
    ensures Without(a + [x] + b, c) == Without(a, c) + (if x == c then [] else [x]) + Without(b, c)
  {
    if a == [] {
      assert (a + [x] + b)[1..] == b;
    } else {
      WithoutAppend(a[1..], x, b, c);
      Behind(a, x, b);
      if a[0] != c { Joined([a[0]], Without(a[1..], c), if x == c then [] else [x], Without(b, c)); }
    }
  }

  /** The answer begins with the first entry under h. */
  lemma SelectFirst(entries: seq<Chunk>, h: Hash)
    ensures forall a, c, b :: entries == a + [c] + b && c.hash == h && (forall x :: x in a ==> x.hash != h) ==>
              Select(entries, h) != [] && Select(entries, h)[0] == c
  {
    forall a, c, b | entries == a + [c] + b && c.hash == h && (forall x :: x in a ==> x.hash != h)
      ensures Select(entries, h) != [] && Select(entries, h)[0] == c
    {
      SelectAppend(a, c, b, h);
      SelectIff(a, h);
    }
  }

  /** Removing a chunk takes it out of the answer for its own hash and out of no other. */
  lemma {:induction false} SelectWithout(entries: seq<Chunk>, c: Chunk, h: Hash)
    ensures Select(Without(entries, c), h) == if h == c.hash then Without(Select(entries, h), c) else Select(entries, h)
  {
    if entries == [] {
    } else {
      SelectWithout(entries[1..], c, h);
    }
  }

  lemma {:induction false} WithoutAbsent(entries: seq<Chunk>, c: Chunk)
    requires c !in entries
    ensures Without(entries, c) == entries
  {
    if entries == [] {
    } else {
      WithoutAbsent(entries[1..], c);
    }
  }

  class Chunks {
    const filter: BloomFilter
    var entries: seq<Chunk>

    /** Whatever is stored was added to the filter since it was last reset. */
    ghost predicate Valid()
      reads this, filter, filter.bitArray
    {
      filter.Valid() && forall c :: c in entries ==> c.hash in filter.added && !IsNull(c.hash)
    }

    constructor (w: nat, k: nat)
      requires InRange(w, k)
      ensures Valid() && entries == [] && fresh(filter) && fresh(filter.bitArray)
    {
      filter := new BloomFilter(w, k);
      entries := [];
    }

    method Add(chunk: Chunk)
      requires Valid()
      modifies this, filter, filter.bitArray
      ensures Valid()
      ensures entries == if forall i :: 0 <= i < 28 ==> chunk.hash[i] == 0 then old(entries) else [chunk] + old(entries)
    {
      if IsNull(chunk.hash) { return; }
      entries := [chunk] + entries;
      filter.Add(chunk.hash);
    }

    method Rm(chunk: Chunk)
      requires Valid()
      modifies this, filter, filter.bitArray
      ensures Valid() && entries == Without(old(entries), chunk)
    {
      if IsNull(chunk.hash) {
        WithoutAbsent(entries, chunk);
        return;
      }
      entries := Without(entries, chunk);
      if entries == [] { filter.Reset(); }
    }

    /** The filter never changes an answer. */
    method Values(h: Hash) returns (r: seq<Chunk>)
      requires Valid()
      ensures r == Select(entries, h)
    {
      SelectIff(entries, h);
      if IsNull(h) { return []; }
      var maybe := filter.Test(h);
      if !maybe { return []; }
      return Select(entries, h);
    }

    method Value(h: Hash) returns (r: Option<Chunk>)
      requires Valid()
      ensures r == None <==> forall c :: c in entries ==> c.hash != h
      ensures forall a, c, b :: entries == a + [c] + b && c.hash == h && (forall x :: x in a ==> x.hash != h) ==>
                r == Some(c)
    {
      SelectIff(entries, h);
      SelectFirst(entries, h);
      if IsNull(h) { return None; }
      var maybe := filter.Test(h);
      if !maybe { return None; }
      var found := Select(entries, h);
      return if found == [] then None else Some(found[0]);
    }

    method Contains(h: Hash) returns (r: bool)
      requires Valid()
      ensures r <==> exists c :: c in entries && c.hash == h
    {
      SelectIff(entries, h);
      if IsNull(h) { return false; }
      var maybe := filter.Test(h);
      if !maybe { return false; }
      return Select(entries, h) != [];
    }
  }

  lemma SecondGoes(first: Chunk, second: Chunk)
    requires first != second
    ensures Without([second] + [first], second) == [first]
  {
    assert ([second] + [first])[1..] == [first];
    assert [first][1..] == [] && Without([first], second) == [first] + Without([], second);
  }

  /** Two copies of one file: the chunk that was added last is found, and the other one when that is
      removed. */
  method LatestIsFound(index: Chunks, first: Chunk, second: Chunk) returns (a: Option<Chunk>, b: Option<Chunk>)
    requires index.Valid() && index.entries == [] && first.hash == second.hash && first != second && !IsNull(first.hash)
    modifies index, index.filter, index.filter.bitArray
    ensures a == Some(second) && b == Some(first)
  {
    index.Add(first);
    index.Add(second);
    assert index.entries == [] + [second] + [first];
    a := index.Value(second.hash);
    SecondGoes(first, second);
    index.Rm(second);
    assert index.entries == [] + [first] + [];
    b := index.Value(first.hash);
  }
}
