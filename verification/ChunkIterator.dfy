/** The chunks seen while a file's header was read, and the iterator over them. */
module ChunkIterator {
  import opened Bits
  import opened Endian
  import opened Wrappers

  datatype Chunk = Chunk(hash: nat, mark32: nat, offset: int, length: nat)

  /** hash_of_str, in 64 bits. */
  function StringHash(s: seq<Byte>): (h: nat)
  {
    if s == [] then 0 else (StringHash(s[..|s| - 1]) * 0x7F + s[|s| - 1]) % 0x1_0000_0000_0000_0000
  }

  /** What lay on the stack behind a short marker. */
  type Stale = s: seq<Byte> | |s| == 3 witness [0, 0, 0]

  /** A marker of up to four bytes is its own hash: the first four bytes of a string of five. */
  function MarkerHash(marker: seq<Byte>, stale: Stale): nat
  {
    if |marker| > 4 then StringHash(marker) else FromLittle((marker + [0] + stale)[..4])
  }

  /** From three characters on, the hash is that of the marker alone. */
  lemma HashOfMarker(marker: seq<Byte>, stale: Stale)
    ensures |marker| == 4 ==> MarkerHash(marker, stale) == FromLittle(marker)
    ensures |marker| == 3 ==> MarkerHash(marker, stale) == FromLittle(marker + [0])
    ensures |marker| > 4 ==> MarkerHash(marker, stale) == StringHash(marker)
  {
    if |marker| == 4 { assert (marker + [0] + stale)[..4] == marker; }
    if |marker| == 3 { assert (marker + [0] + stale)[..4] == marker + [0]; }
  }

  /** Below that it depends on the stack. */
  lemma HashOfShortMarker(x: Byte, stale: Stale)
    ensures MarkerHash([x], stale) == x as int + 0x1_0000 * (stale[0] as int) + 0x100_0000 * (stale[1] as int)
  {
    var a, b, c, bytes := [stale[1]], [stale[0], stale[1]], [0, stale[0], stale[1]], [x, 0, stale[0], stale[1]];
    assert ([x] + [0] + stale)[..4] == bytes && bytes[1..] == c && c[1..] == b && b[1..] == a && a[1..] == [];
    var s0: int, s1: int := stale[0], stale[1];
    assert FromLittle(a) == s1;
    assert FromLittle(b) == s0 + 256 * s1;
    assert FromLittle(c) == 256 * (s0 + 256 * s1);
  }

  lemma NothingHashed()
    ensures StringHash([]) == 0
  {
  }

  lemma HashOneMore(s: seq<Byte>, b: Byte)
    ensures StringHash(s + [b]) == (StringHash(s) * 127 + b) % 0x1_0000_0000_0000_0000
  {
    assert (s + [b])[..|s|] == s;
  }

  /** A longer one is hashed with the factor 127. */
  lemma HashOfLongMarker(stale: Stale)
    ensures MarkerHash([76, 73, 83, 84, 50], stale) == 19921874100
  {
    hide StringHash;
    NothingHashed();
    HashOneMore([], 76);
    HashOneMore([76], 73);
    HashOneMore([76, 73], 83);
    HashOneMore([76, 73, 83], 84);
    HashOneMore([76, 73, 83, 84], 50);
    assert [76, 73] + [83] == [76, 73, 83] && [76, 73, 83] + [84] == [76, 73, 83, 84];
    assert [76, 73, 83, 84] + [50] == [76, 73, 83, 84, 50] && [] + [76] == [76] && [76] + [73] == [76, 73];
  }

  predicate Wanted(c: Chunk, hash: nat) { hash == 0 || c.hash == hash }

  /** The indices of the wanted chunks from `from` on, in order. */
  function Matches(chunks: seq<Chunk>, hash: nat, from: nat): (r: seq<nat>)
    decreases |chunks| - from
  {
    if from >= |chunks| then []
    else (if Wanted(chunks[from], hash) then [from] else []) + Matches(chunks, hash, from + 1)
  }

  /** Every match is a wanted chunk. */
  lemma {:induction false} MatchWanted(chunks: seq<Chunk>, hash: nat, from: nat, i: nat)
    requires i < |Matches(chunks, hash, from)|
    ensures var k := Matches(chunks, hash, from)[i]; from <= k < |chunks| && (hash == 0 || chunks[k].hash == hash)
    decreases |chunks| - from
  {
    if Wanted(chunks[from], hash) {
      if i > 0 { MatchWanted(chunks, hash, from + 1, i - 1); }
    } else {
      EmptyFirst([], Matches(chunks, hash, from + 1));
      MatchWanted(chunks, hash, from + 1, i);
    }
  }

  /** The matches are increasing. */
  lemma {:induction false} MatchesIncrease(chunks: seq<Chunk>, hash: nat, from: nat, i: nat, j: nat)
    requires i < j < |Matches(chunks, hash, from)|
    ensures Matches(chunks, hash, from)[i] < Matches(chunks, hash, from)[j]
    decreases |chunks| - from
  {
    hide Wanted;
    if !Wanted(chunks[from], hash) {
      EmptyFirst([], Matches(chunks, hash, from + 1));
      MatchesIncrease(chunks, hash, from + 1, i, j);
    } else if i > 0 {
      MatchesIncrease(chunks, hash, from + 1, i - 1, j - 1);
    } else {
      MatchWanted(chunks, hash, from + 1, j - 1);
    }
  }

  /** Every wanted chunk is matched. */
  lemma {:induction false} MatchesComplete(chunks: seq<Chunk>, hash: nat, from: nat, k: nat)
    requires from <= k < |chunks| && (hash == 0 || chunks[k].hash == hash)
    ensures k in Matches(chunks, hash, from)
    decreases |chunks| - from
  {
    if from < k { MatchesComplete(chunks, hash, from + 1, k); }
  }

  /** So for a hash that is not 0 the matches are the chunks with it, in order. */
  lemma {:induction false} MatchesExactly(chunks: seq<Chunk>, hash: nat)
    requires hash != 0
    ensures var m := Matches(chunks, hash, 0);
            && (forall k :: 0 <= k < |chunks| ==> (k in m <==> chunks[k].hash == hash))
            && (forall i, j :: 0 <= i < j < |m| ==> m[i] < m[j])
  {
    hide Matches;
    var m := Matches(chunks, hash, 0);
    forall k | 0 <= k < |chunks| ensures k in m <==> chunks[k].hash == hash {
      if chunks[k].hash == hash { MatchesComplete(chunks, hash, 0, k); }
      if k in m {
        var i :| 0 <= i < |m| && m[i] == k;
        MatchWanted(chunks, hash, 0, i);
      }
    }
    forall i, j | 0 <= i < j < |m| ensures m[i] < m[j] { MatchesIncrease(chunks, hash, 0, i, j); }
  }

  /** Unwanted chunks can be skipped. */
  lemma {:induction false} SkipUnwanted(chunks: seq<Chunk>, hash: nat, from: nat, k: nat)
    requires from <= k <= |chunks| && forall i :: from <= i < k ==> !Wanted(chunks[i], hash)
    ensures Matches(chunks, hash, from) == Matches(chunks, hash, k)
    decreases k - from
  {
    hide Wanted;
    if from < k {
      SkipUnwanted(chunks, hash, from + 1, k);
      EmptyFirst([], Matches(chunks, hash, from + 1));
    }
  }

  class ChunkList {
    /** READ_CHUNKS: an array that is longer than what is used of it. */
    var storage: array<Chunk>
    var used: nat
    /** The iterator's position and hash. */
    var current: nat
    var hash: nat

    ghost predicate Valid()
      reads `storage, `used
    {
      used <= storage.Length
    }

    ghost function Stored(): seq<Chunk>
      requires Valid()
      reads `storage, `used, storage
    {
      storage[..used]
    }

    constructor ()
      ensures Valid() && Stored() == [] && current == 0 && hash == 0 && fresh(storage)
    {
      storage := new Chunk[0];
      used, current, hash := 0, 0, 0;
    }

    /** psf_store_read_chunk */
    method Store(c: Chunk)
      requires Valid()
      modifies `storage, `used, storage
      ensures Valid() && Stored() == old(Stored()) + [c] && (storage == old(storage) || fresh(storage))
    {
      var before := storage;
      if storage.Length == 0 {
        used := 0;
        storage := new Chunk[20](_ => c);
      } else if used == storage.Length {
        var grown := new Chunk[3 * (storage.Length + 1) / 2](_ => c);
        forall k | 0 <= k < before.Length { grown[k] := before[k]; }
        storage := grown;
      }
      assert storage[..used] == before[..used];
      ghost var kept := storage[..used];
      storage[used] := c;
      assert storage[..used] == kept;
      used := used + 1;
    }

    /** psf_find_read_chunk_str */
    method Find(wanted: nat) returns (index: Option<nat>)
      requires Valid()
      ensures index.None? ==> forall k :: 0 <= k < used ==> Stored()[k].hash != wanted
      ensures index.Some? ==> index.value < used && Stored()[index.value].hash == wanted
      ensures index.Some? ==> forall k :: 0 <= k < index.value ==> Stored()[k].hash != wanted
    {
      var k := 0;
      while k < used
        invariant k <= used && forall i :: 0 <= i < k ==> Stored()[i].hash != wanted
      {
        if storage[k].hash == wanted {
          return Some(k);
        }
        k := k + 1;
      }
      index := None;
    }

    /** psf_get_chunk_iterator. Without a marker the hash of an earlier search stays. The hash is
        computed twice, on two stacks. */
    method Get(marker: Option<seq<Byte>>, stale: Stale, kept: Stale) returns (found: bool)
      requires Valid()
      modifies `current, `hash
      ensures Valid() && (!found ==> current == old(current) && hash == old(hash))
      ensures marker.None? ==> found == (used > 0) && (found ==> current == 0 && hash == old(hash))
      ensures marker.Some? && found ==> hash == MarkerHash(marker.value, kept)
      ensures marker.Some? && found ==> current < used && Stored()[current].hash == MarkerHash(marker.value, stale)
      ensures marker.Some? && found ==>
                forall k :: 0 <= k < current ==> Stored()[k].hash != MarkerHash(marker.value, stale)
      ensures marker.Some? && !found ==>
                forall k :: 0 <= k < used ==> Stored()[k].hash != MarkerHash(marker.value, stale)
      ensures marker.Some? && MarkerHash(marker.value, stale) == MarkerHash(marker.value, kept) != 0 ==>
                found == (Matches(Stored(), MarkerHash(marker.value, stale), 0) != []) && (found ==> At(0))
    {
      hide MarkerHash;
      match marker
      case None =>
        found := used > 0;
        if found { current := 0; }
      case Some(m) =>
        var wanted := MarkerHash(m, stale);
        var index := Find(wanted);
        found := index.Some?;
        var stop := if found then index.value else used;
        if wanted != 0 { SkipUnwanted(Stored(), wanted, 0, stop); }
        if found {
          hash := MarkerHash(m, kept);
          current := index.value;
        }
    }

    /** The iterator stands on the first wanted chunk from `from` on. */
    ghost predicate At(from: nat)
      requires Valid()
      reads `storage, `used, `current, `hash, storage
    {
      && current < used && Wanted(Stored()[current], hash)
      && Matches(Stored(), hash, from) == [current] + Matches(Stored(), hash, current + 1)
    }

    /** psf_next_chunk_iterator: on to the next wanted chunk, or cleared. */
    method Next() returns (found: bool)
      requires Valid()
      modifies `current, `hash
      ensures Valid() && found == (Matches(Stored(), old(hash), old(current) + 1) != [])
      ensures found ==> hash == old(hash) && At(old(current) + 1) && old(current) < current < used
      ensures !found ==> current == 0 && hash == 0
    {
      current := current + 1;
      ghost var from := current;
      if hash != 0 {
        var k := current;
        while k < used
          invariant current == from <= k && hash == old(hash) && (k <= used || k == from)
          invariant forall i :: from <= i < k && i < used ==> !Wanted(Stored()[i], hash)
        {
          if storage[k].hash == hash {
            SkipUnwanted(Stored(), hash, from, k);
            current := k;
            return true;
          }
          k := k + 1;
        }
        if from <= used { SkipUnwanted(Stored(), hash, from, used); }
      } else if current < used {
        return true;
      }
      current, hash := 0, 0;
      found := false;
    }
  }

  /** get followed by next as long as it answers: the visited indices, for markers with a hash of
      their own. */
  method VisitAll(c: ChunkList, marker: seq<Byte>, stale: Stale, kept: Stale) returns (visited: seq<nat>)
    requires c.Valid() && MarkerHash(marker, stale) == MarkerHash(marker, kept) != 0
    modifies c`current, c`hash
    ensures c.Valid() && visited == Matches(c.Stored(), MarkerHash(marker, stale), 0)
    ensures visited != [] ==> c.current == 0 && c.hash == 0
  {
    hide Matches, MarkerHash, Wanted;
    ghost var all, hash := c.Stored(), MarkerHash(marker, stale);
    visited := [];
    var found := c.Get(Some(marker), stale, kept);
    while found
      invariant c.Valid() && c.Stored() == all
      invariant found ==> c.hash == hash && c.current < c.used
      invariant found ==> Matches(all, hash, 0) == visited + ([c.current] + Matches(all, hash, c.current + 1))
      invariant !found ==> Matches(all, hash, 0) == visited && (visited != [] ==> c.current == 0 && c.hash == 0)
      decreases if found then c.used - c.current else 0
    {
      var k := c.current;
      ConcatAssoc(visited, [k], Matches(all, hash, k + 1));
      visited := visited + [k];
      found := c.Next();
      EmptyLast(visited, Matches(all, hash, k + 1));
    }
  }

  /** The same without a marker. The first chunk is visited and then those the iterator's hash
      allows, which an unfinished search may have left behind. */
  method VisitEvery(c: ChunkList) returns (visited: seq<nat>)
    requires c.Valid()
    modifies c`current, c`hash
    ensures c.Valid() && visited == if c.used == 0 then [] else [0] + Matches(c.Stored(), old(c.hash), 1)
  {
    hide Matches, Wanted;
    ghost var all, hash := c.Stored(), c.hash;
    var found := c.Get(None, [0, 0, 0], [0, 0, 0]);
    if !found {
      return [];
    }
    visited := [0];
    found := c.Next();
    EmptyLast([0], Matches(all, hash, 1));
    while found
      invariant c.Valid() && c.Stored() == all
      invariant found ==> c.hash == hash && c.current < c.used
      invariant found ==> [0] + Matches(all, hash, 1) == visited + ([c.current] + Matches(all, hash, c.current + 1))
      invariant !found ==> [0] + Matches(all, hash, 1) == visited
      decreases if found then c.used - c.current else 0
    {
      var k := c.current;
      ConcatAssoc(visited, [k], Matches(all, hash, k + 1));
      visited := visited + [k];
      found := c.Next();
      EmptyLast(visited, Matches(all, hash, k + 1));
    }
  }

  /** So every chunk is visited exactly when all behind the first are wanted. */
  lemma {:induction false} EveryChunk(chunks: seq<Chunk>, hash: nat, from: nat)
    requires from <= |chunks|
    ensures |Matches(chunks, hash, from)| <= |chunks| - from
    ensures |Matches(chunks, hash, from)| == |chunks| - from
            <==> forall k :: from <= k < |chunks| ==> hash == 0 || chunks[k].hash == hash
    decreases |chunks| - from
  {
    if from < |chunks| { EveryChunk(chunks, hash, from + 1); }
  }

  /** Three chunks with markers of their own: a search for the second that is not finished makes an
      iteration over all chunks end there, and the third is never visited. */
  method UnfinishedSearch(first: seq<Byte>, second: seq<Byte>, third: seq<Byte>) returns (visited: seq<nat>)
    requires |first| == |second| == |third| == 4
    requires FromLittle(second) != 0 && FromLittle(first) != FromLittle(second)
             && FromLittle(second) != FromLittle(third)
    ensures visited == [0, 1]
  {
    hide FromLittle, MarkerHash, Matches, Wanted;
    var c := new ChunkList();
    c.Store(Chunk(FromLittle(first), FromLittle(first), 0, 0));
    c.Store(Chunk(FromLittle(second), FromLittle(second), 0, 0));
    c.Store(Chunk(FromLittle(third), FromLittle(third), 0, 0));
    HashOfMarker(second, [0, 0, 0]);
    var found := c.Get(Some(second), [0, 0, 0], [0, 0, 0]);
    ghost var all := c.Stored();
    assert all[1].hash == FromLittle(second);
    OnlySecond(all, FromLittle(second));
    visited := VisitEvery(c);
  }

  lemma OnlySecond(all: seq<Chunk>, hash: nat)
    requires |all| == 3 && all[1].hash == hash != 0 && all[2].hash != hash
    ensures Matches(all, hash, 1) == [1]
  {
    assert Matches(all, hash, 3) == [];
    assert Matches(all, hash, 2) == [];
  }
}
