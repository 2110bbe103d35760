/** m_header as a read-ahead cache of the file's first bytes: bump_header_allocation, header_read
    and binheader_seekf. */
module Header {
  import opened Bits
  import opened HeaderRoom

  class HeaderBuffer {
    var ptr: array<Byte>
    /** The next byte to hand out, or to write. */
    var indx: nat
    /** How many bytes of the file the buffer holds. */
    var end: nat
    var bigEndian: bool
    /** The file being read and the physical position in it. */
    const file: seq<Byte>
    var pos: nat

    ghost predicate Valid()
      reads this
    {
      indx <= ptr.Length && end <= ptr.Length && INITIAL_HEADER_SIZE <= ptr.Length <= CAP
    }

    /** The buffer is a copy of the file up to the physical position. */
    ghost predicate Coherent()
      reads `ptr, `indx, `end, `pos, ptr
    {
      indx <= end && Cached()
    }

    ghost predicate Cached()
      reads `ptr, `end, `pos, ptr
    {
      pos == end && Copied(end)
    }

    ghost predicate Copied(n: nat)
      reads `ptr, ptr
    {
      n <= ptr.Length && n <= |file| && ptr[..n] == file[..n]
    }

    constructor (file: seq<Byte>)
      ensures Valid() && Coherent() && this.file == file && indx == end == 0 && ptr.Length == INITIAL_HEADER_SIZE
      ensures !bigEndian && fresh(ptr)
    {
      this.file := file;
      ptr := new Byte[INITIAL_HEADER_SIZE](_ => 0);
      indx, end, pos, bigEndian := 0, 0, 0, false;
    }

    /** bump_header_allocation: what was asked for fits behind the index, old bytes stay, new ones
        are zero; or nothing changes. */
    method Bump(needed: int) returns (denied: bool)
      requires Valid()
      modifies this`ptr
      ensures Valid() && denied == Denied(old(ptr.Length), needed)
      ensures denied ==> ptr == old(ptr)
      ensures !denied ==> fresh(ptr) && ptr.Length == NewLen(old(ptr.Length), needed) && indx + needed <= ptr.Length
      ensures !denied ==> ptr.Length > old(ptr.Length) && ptr[..old(ptr.Length)] == old(ptr[..])
      ensures !denied ==> forall k :: old(ptr.Length) <= k < ptr.Length ==> ptr[k] == 0
    {
      var len := ptr.Length;
      var newlen;
      if needed > len {
        newlen := 2 * (if needed > INITIAL_HEADER_SIZE then needed else INITIAL_HEADER_SIZE);
      } else {
        newlen := 2 * len;
      }
      if newlen > CAP {
        return true;
      }
      var old_ptr := ptr;
      var grown := new Byte[newlen](_ => 0);
      forall k | 0 <= k < len { grown[k] := old_ptr[k]; }
      assert grown[..len] == old_ptr[..];
      ptr := grown;
      denied := false;
    }

    /** The check in front of every access: room for `needed` bytes, or a denial. */
    method MakeRoom(needed: int) returns (denied: bool)
      requires Valid()
      modifies this`ptr
      ensures Valid() && (ptr == old(ptr) || fresh(ptr)) && denied == Refused(old(ptr.Length), indx + needed, needed)
      ensures ptr.Length == LenAfter(old(ptr.Length), indx + needed, needed) >= old(ptr.Length)
      ensures !denied ==> indx + needed <= ptr.Length
      ensures ptr[..old(ptr.Length)] == old(ptr[..]) && (old(Coherent()) ==> Coherent())
    {
      denied := false;
      if indx + needed >= ptr.Length {
        ghost var before := ptr[..];
        denied := Bump(needed);
        Kept(before);
      }
    }

    lemma Kept(before: seq<Byte>)
      requires end <= |before| <= ptr.Length && before == ptr[..|before|]
      ensures ptr[..end] == before[..end]
    {
    }

    /** fread to the end of the cache: as much as the file still has, up to `target`. */
    method ReadAhead(target: nat) returns (count: nat)
      requires Valid() && end < target <= ptr.Length
      modifies this`pos, ptr
      ensures Valid() && count <= target - end
      ensures old(pos) >= |file| ==> count == 0 && pos == old(pos)
      ensures old(Cached()) ==>
                count == (if target <= |file| then target else |file|) - end
                && Copied(end + count) && pos == end + count
    {
      if pos >= |file| {
        return 0;
      }
      var bytes := target - end;
      count := if pos + bytes <= |file| then bytes else |file| - pos;
      Fread(count);
      if pos == end { Joined(end, count); }
      pos := pos + count;
    }

    /** The bytes behind the physical position, put behind the cache. */
    method Fread(count: nat)
      requires end + count <= ptr.Length && pos + count <= |file|
      modifies ptr
      ensures ptr[..end + count] == old(ptr[..end]) + file[pos..pos + count]
    {
      ghost var before := ptr[..end];
      forall k | 0 <= k < count { ptr[end + k] := file[pos + k]; }
      assert ptr[..end] == before;
      assert ptr[end..end + count] == file[pos..pos + count];
    }

    lemma Joined(a: nat, b: nat)
      requires a + b <= |file|
      ensures file[..a] + file[a..a + b] == file[..a + b]
    {
    }

    /** The fread of header_read: the cache is to reach `target`. A short read moves the physical
        position without the cache taking note. */
    method Fill(target: nat) returns (short: bool, count: nat)
      requires Valid() && target <= ptr.Length
      modifies this`end, this`pos, ptr
      ensures old(end) <= end <= ptr.Length && (!short ==> target <= end)
      ensures old(pos) >= |file| && target > old(end) ==> short && count == 0 && end == old(end) && pos == old(pos)
      ensures old(Cached()) && target <= |file| ==>
                !short && Cached() && end == if target > old(end) then target else old(end)
      ensures old(Cached()) && target > |file| ==>
                short && count == |file| - old(end) && end == old(end) && (Cached() <==> end == |file|) && pos == |file|
    {
      short, count := false, 0;
      if target > end {
        var missing := target - end;
        count := ReadAhead(target);
        if count != missing {
          short := true;
          return;
        }
        end := end + count;
      }
    }

    /** header_read: all the bytes at the logical position, or none. */
    method Read(bytes: nat) returns (count: nat, data: seq<Byte>)
      requires Valid()
      modifies this`ptr, this`indx, this`end, this`pos, ptr
      ensures Valid() && (ptr == old(ptr) || fresh(ptr)) && (data != [] ==> |data| == bytes)
      ensures ptr.Length == LenAfter(old(ptr.Length), old(indx) + bytes, bytes)
      ensures Refused(old(ptr.Length), old(indx) + bytes, bytes) ==>
                count == 0 && data == [] && indx == old(indx) && (old(Coherent()) ==> Coherent())
      ensures old(Coherent()) && !Refused(old(ptr.Length), old(indx) + bytes, bytes) && old(indx) + bytes <= |file| ==>
                count == bytes && data == file[old(indx)..old(indx) + bytes] && indx == old(indx) + bytes && Coherent()
                && end == if indx > old(end) then indx else old(end)
      ensures old(Coherent()) && !Refused(old(ptr.Length), old(indx) + bytes, bytes) && old(indx) + bytes > |file| ==>
                count == |file| - old(end) && data == [] && indx == old(indx) && (Coherent() <==> old(end) == |file|)
                && pos == |file| && end == old(end)
      ensures old(pos) >= |file| && old(indx) + bytes > old(end) ==>
                count == 0 && data == [] && indx == old(indx) && end == old(end) && pos == old(pos)
    {
      hide Refused, LenAfter, HeaderBuffer.Copied;
      data, count := [], 0;
      var denied := MakeRoom(bytes);
      if denied {
        return;
      }
      var short;
      short, count := Fill(indx + bytes);
      if short {
        return;
      }
      data := ptr[indx..indx + bytes];
      if Copied(end) { Slice(indx, bytes); }
      indx := indx + bytes;
      count := bytes;
    }

    lemma Slice(at: nat, n: nat)
      requires Copied(end) && at + n <= end
      ensures end <= |file| && end <= ptr.Length && ptr[at..at + n] == file[at..at + n]
    {
      SameSlice(ptr[..], file, end, at, n);
    }

    /** binheader_seekf from the start. Behind a denied growth only the physical position moves. */
    method SeekSet(position: nat)
      requires Valid()
      modifies this`ptr, this`indx, this`end, this`pos, ptr
      ensures Valid() && (ptr == old(ptr) || fresh(ptr))
      ensures ptr.Length == LenAfter(old(ptr.Length), old(indx) + position, position)
      ensures position > ptr.Length ==> indx == old(indx) && pos == position && end == old(end)
      ensures position <= ptr.Length ==> indx == position
      ensures old(Coherent()) && position <= ptr.Length ==>
                Cached()
                && end == (if position <= old(end) then old(end) else if position <= |file| then position else |file|)
      ensures old(Coherent()) ==> (Coherent() <==> position <= ptr.Length && position <= |file|)
    {
      hide Refused, LenAfter;
      var denied := MakeRoom(position);
      if position > ptr.Length {
        pos := position;
        return;
      }
      if position > end {
        var count := ReadAhead(position);
        end := end + count;
      }
      indx := position;
    }

    /** binheader_seekf from the current position: within the cache by as much as it says, else as far
        as the file goes, and not at all in front of its start. */
    method SeekCur(position: int)
      requires Valid()
      modifies this`ptr, this`indx, this`end, this`pos, ptr
      ensures Valid() && (ptr == old(ptr) || fresh(ptr))
      ensures ptr.Length == LenAfter(old(ptr.Length), old(indx) + position, position)
      ensures old(Coherent()) && old(indx) + position < 0 ==> indx == old(indx) && Coherent()
      ensures old(indx) < ptr.Length && 0 <= old(indx) + position <= old(end) ==>
                indx == old(indx) + position && end == old(end) && pos == old(pos)
      ensures old(Coherent()) && old(indx) < ptr.Length && 0 <= old(indx) + position <= ptr.Length ==>
                indx == (if old(indx) + position <= |file| then old(indx) + position else |file|) && Coherent()
      ensures old(Coherent()) && old(indx) < ptr.Length && old(indx) + position > ptr.Length ==>
                indx == old(end) == end && pos == old(pos) + position && !Coherent()
      ensures old(indx) >= ptr.Length && old(indx) + position >= 0 ==>
                indx == old(indx) && end == old(end)
                && pos == if old(pos) + position < 0 then old(pos) else old(pos) + position
      ensures old(indx) == old(end) && position >= 0 ==> indx == end
    {
      hide Refused, LenAfter;
      var denied := MakeRoom(position);
      if indx + position < 0 {
        return;
      }
      if indx >= ptr.Length {
        pos := if pos + position < 0 then pos else pos + position;
        return;
      }
      if indx + position <= end {
        indx := indx + position;
        return;
      }
      if indx + position > ptr.Length {
        indx := end;
        pos := pos + position;
        return;
      }
      var count := ReadAhead(indx + position);
      end := end + count;
      indx := end;
    }
  }

  /** Any run of seeks and reads that is granted its room and stays in the file delivers the bytes
      of the file at the logical positions, and the cache is coherent after it. */
  method Run(h: HeaderBuffer, ops: seq<Op>) returns (out: seq<seq<Byte>>)
    requires h.Valid() && h.Coherent() && h.indx < h.ptr.Length
    requires AllFit(Cursor(h.indx, h.ptr.Length), ops, |h.file|)
    modifies h, h.ptr
    ensures out == Delivered(old(Cursor(h.indx, h.ptr.Length)), ops, h.file)
    ensures h.Valid() && h.Coherent()
    ensures Cursor(h.indx, h.ptr.Length) == After(old(Cursor(h.indx, h.ptr.Length)), ops, |h.file|)
  {
    hide AllFit, After, Delivered, Next, Fits, HeaderBuffer.Coherent;
    ghost var c := Cursor(h.indx, h.ptr.Length);
    out := [];
    var k := 0;
    RunStart(c, ops, h.file);
    while k < |ops|
      invariant k <= |ops| && h.Valid() && h.Coherent() && h.indx < h.ptr.Length
      invariant (h.ptr == old(h.ptr) || fresh(h.ptr))
      invariant AllFit(c, ops[..k], |h.file|) && out == Delivered(c, ops[..k], h.file)
      invariant Cursor(h.indx, h.ptr.Length) == After(c, ops[..k], |h.file|)
    {
      OneMore(c, ops, h.file, k);
      var data := RunOne(h, ops[k]);
      out := out + data;
      k := k + 1;
    }
    assert ops[..k] == ops;
  }

  /** One operation of a run. */
  method RunOne(h: HeaderBuffer, op: Op) returns (out: seq<seq<Byte>>)
    requires h.Valid() && h.Coherent() && h.indx < h.ptr.Length
    requires Fits(Cursor(h.indx, h.ptr.Length), op, |h.file|)
    modifies h, h.ptr
    ensures h.Valid() && h.Coherent() && h.indx < h.ptr.Length && (h.ptr == old(h.ptr) || fresh(h.ptr))
    ensures Cursor(h.indx, h.ptr.Length) == Next(old(Cursor(h.indx, h.ptr.Length)), op, |h.file|)
    ensures out == match op case Read(count) => [h.file[old(h.indx)..old(h.indx) + count]] case _ => []
  {
    hide LenAfter, Refused;
    out := [];
    RoomBehind(Cursor(h.indx, h.ptr.Length), op, |h.file|);
    match op {
      case SeekSet(target) => h.SeekSet(target);
      case SeekCur(step) => h.SeekCur(step);
      case Read(count) =>
        var _, data := h.Read(count);
        out := [data];
    }
  }

  /** After a read that ran past the end of the file, a shorter one that lies within the file, but
      not within the cache, fails as well. */
  method RetryFails(h: HeaderBuffer, bytes: nat, fewer: nat) returns (data: seq<Byte>)
    requires h.Valid() && h.Coherent() && !Refused(h.ptr.Length, h.indx + bytes, bytes)
    requires h.end < h.indx + fewer <= |h.file| < h.indx + bytes
    modifies h, h.ptr
    ensures h.Valid() && !h.Coherent() && h.indx == old(h.indx) && data == []
  {
    var _, none := h.Read(bytes);
    var _, retried := h.Read(fewer);
    data := retried;
  }

  lemma RunStart(c: Cursor, ops: seq<Op>, file: seq<Byte>)
    ensures AllFit(c, ops[..0], |file|) && Delivered(c, ops[..0], file) == [] && After(c, ops[..0], |file|) == c
  {
  }

  /** A granted operation leaves room behind the index. */
  lemma RoomBehind(c: Cursor, op: Op, size: nat)
    requires Fits(c, op, size) && c.at < c.len && INITIAL_HEADER_SIZE <= c.len
    ensures Next(c, op, size).at < Next(c, op, size).len
    ensures match op
            case SeekSet(target) => target <= Next(c, op, size).len
            case SeekCur(step) => c.at + step <= Next(c, op, size).len && c.len <= Next(c, op, size).len
            case Read(count) => true
  {
  }

  lemma SameSlice<T>(s: seq<T>, t: seq<T>, end: nat, at: nat, n: nat)
    requires at + n <= end <= |s| && end <= |t| && s[..end] == t[..end]
    ensures s[at..at + n] == t[at..at + n]
  {
    assert forall k :: at <= k < at + n ==> s[k] == s[..end][k] && t[k] == t[..end][k];
  }
}
