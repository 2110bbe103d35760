/** How the header buffer grows, and what a run of seeks and reads means on the file itself. */
module HeaderRoom {
  import opened Bits

  const INITIAL_HEADER_SIZE := 256
  /** Buffers longer than this are denied. */
  const CAP := 100 * 1024

  /** The length bump_header_allocation asks for. */
  function NewLen(len: nat, needed: int): (r: nat)
  {
    if needed > len then 2 * (if needed > INITIAL_HEADER_SIZE then needed else INITIAL_HEADER_SIZE) else 2 * len
  }

  predicate Denied(len: nat, needed: int) { NewLen(len, needed) > CAP }

  /** A buffer of `len` bytes too short for `target`, and growth by `needed` denied. */
  predicate Refused(len: nat, target: int, needed: int) { target >= len && Denied(len, needed) }

  /** The length after an operation that reaches for `target` and asks for `needed`. */
  function LenAfter(len: nat, target: int, needed: int): nat
  {
    if target >= len && !Denied(len, needed) then NewLen(len, needed) else len
  }

  // ----- Runs -----

  datatype Op = SeekSet(target: nat) | SeekCur(step: int) | Read(count: nat)

  /** Where the next byte comes from, and the length of the buffer. */
  datatype Cursor = Cursor(at: nat, len: nat)

  /** A relative seek stops at the end of the file and ignores a target before its start. */
  function Moved(at: nat, step: int, size: nat): nat
  {
    if at + step < 0 then at else if at + step > size then size else at + step
  }

  function Next(c: Cursor, op: Op, size: nat): Cursor
  {
    match op
    case SeekSet(target) => Cursor(target, LenAfter(c.len, c.at + target, target))
    case SeekCur(step) => Cursor(Moved(c.at, step, size), LenAfter(c.len, c.at + step, step))
    case Read(count) => Cursor(c.at + count, LenAfter(c.len, c.at + count, count))
  }

  /** The operation is granted its room, and absolute seeks and reads stay within the file. */
  predicate Fits(c: Cursor, op: Op, size: nat)
  {
    match op
    case SeekSet(target) => target <= size && !Refused(c.len, c.at + target, target)
    case SeekCur(step) => !Refused(c.len, c.at + step, step)
    case Read(count) => c.at + count <= size && !Refused(c.len, c.at + count, count)
  }

  function After(c: Cursor, ops: seq<Op>, size: nat): Cursor
  {
    if ops == [] then c else Next(After(c, ops[..|ops| - 1], size), ops[|ops| - 1], size)
  }

  predicate AllFit(c: Cursor, ops: seq<Op>, size: nat)
  {
    ops == [] || (AllFit(c, ops[..|ops| - 1], size) && Fits(After(c, ops[..|ops| - 1], size), ops[|ops| - 1], size))
  }

  /** What the reads of a run deliver: slices of the file. */
  function Delivered(c: Cursor, ops: seq<Op>, file: seq<Byte>): (r: seq<seq<Byte>>)
    requires AllFit(c, ops, |file|)
  {
    if ops == [] then []
    else
      var last := |ops| - 1;
      var at := After(c, ops[..last], |file|).at;
      Delivered(c, ops[..last], file) + match ops[last] case Read(count) => [file[at..at + count]] case _ => []
  }

  /** Operations that stay in the first 25 KiB are always granted. */
  predicate Low(c: Cursor, op: Op)
  {
    c.at <= CAP / 4 &&
    match op
    case SeekSet(target) => target <= CAP / 4
    case SeekCur(step) => c.at + step <= CAP / 4
    case Read(count) => c.at + count <= CAP / 4
  }

  lemma LowIsGranted(c: Cursor, op: Op, size: nat)
    requires Low(c, op) && c.len <= CAP
    ensures match op
            case SeekSet(target) => !Refused(c.len, c.at + target, target)
            case SeekCur(step) => !Refused(c.len, c.at + step, step)
            case Read(count) => !Refused(c.len, c.at + count, count)
    ensures Next(c, op, size).len <= CAP
  {
  }

  predicate AllLow(c: Cursor, ops: seq<Op>, size: nat)
  {
    ops == [] || (AllLow(c, ops[..|ops| - 1], size) && Low(After(c, ops[..|ops| - 1], size), ops[|ops| - 1])
                  && InFile(After(c, ops[..|ops| - 1], size), ops[|ops| - 1], size))
  }

  predicate InFile(c: Cursor, op: Op, size: nat)
  {
    match op
    case SeekSet(target) => target <= size
    case SeekCur(step) => true
    case Read(count) => c.at + count <= size
  }

  /** A run within the file and the first 25 KiB meets no refusal. */
  lemma {:induction false} LowRunFits(c: Cursor, ops: seq<Op>, size: nat)
    requires c.len <= CAP && AllLow(c, ops, size)
    ensures AllFit(c, ops, size) && After(c, ops, size).len <= CAP
  {
    hide Low;
    if ops != [] {
      var last := |ops| - 1;
      LowRunFits(c, ops[..last], size);
      LowIsGranted(After(c, ops[..last], size), ops[last], size);
    }
  }

  lemma {:induction false} OneMore(c: Cursor, ops: seq<Op>, file: seq<Byte>, k: nat)
    requires k < |ops| && AllFit(c, ops, |file|)
    ensures AllFit(c, ops[..k], |file|) && AllFit(c, ops[..k + 1], |file|)
    ensures Fits(After(c, ops[..k], |file|), ops[k], |file|)
    ensures After(c, ops[..k + 1], |file|) == Next(After(c, ops[..k], |file|), ops[k], |file|)
    ensures Delivered(c, ops[..k + 1], file) == Delivered(c, ops[..k], file)
              + match ops[k]
                case Read(count) =>
                  var at := After(c, ops[..k], |file|).at;
                  [file[at..at + count]]
                case _ => []
    decreases |ops|
  {
    var last := |ops| - 1;
    if k == last {
      assert ops[..k + 1] == ops;
    } else {
      OneMore(c, ops[..last], file, k);
      assert ops[..last][..k] == ops[..k] && ops[..last][..k + 1] == ops[..k + 1];
    }
  }

  // ----- What runs deliver -----

  lemma {:induction false} Appended(c: Cursor, ops: seq<Op>, op: Op, file: seq<Byte>)
    ensures AllFit(c, ops + [op], |file|)
       <==> AllFit(c, ops, |file|) && Fits(After(c, ops, |file|), op, |file|)
    ensures After(c, ops + [op], |file|) == Next(After(c, ops, |file|), op, |file|)
    ensures AllFit(c, ops + [op], |file|) ==>
              Delivered(c, ops + [op], file)
              == Delivered(c, ops, file)
                 + match op
                   case Read(count) =>
                     var at := After(c, ops, |file|).at;
                     [file[at..at + count]]
                   case _ => []
  {
    assert (ops + [op])[..|ops|] == ops && (ops + [op])[|ops|] == op;
  }

  /** After a seek back over what was read, the same bytes are read again. */
  lemma {:induction false} ReadAgain(c: Cursor, ops: seq<Op>, n: nat, file: seq<Byte>)
    requires AllFit(c, ops + [Read(n)] + [SeekCur(0 - n)] + [Read(n)], |file|)
    ensures AllFit(c, ops, |file|)
    ensures var at := After(c, ops, |file|).at;
            && at + n <= |file|
            && Delivered(c, ops + [Read(n)] + [SeekCur(0 - n)] + [Read(n)], file)
               == Delivered(c, ops, file) + [file[at..at + n], file[at..at + n]]
            && After(c, ops + [Read(n)] + [SeekCur(0 - n)] + [Read(n)], |file|).at == at + n
  {
    hide AllFit, After, Delivered, Refused, LenAfter;
    Appended(c, ops, Read(n), file);
    Appended(c, ops + [Read(n)], SeekCur(0 - n), file);
    Appended(c, ops + [Read(n)] + [SeekCur(0 - n)], Read(n), file);
  }

  /** Two reads deliver in two pieces what lies in the file there, by whatever seek they were reached. */
  lemma {:induction false} ReadOn(c: Cursor, ops: seq<Op>, k: nat, m: nat, n: nat, file: seq<Byte>)
    requires AllFit(c, ops + [SeekSet(k)] + [Read(m)] + [Read(n)], |file|)
    ensures AllFit(c, ops, |file|) && k + m + n <= |file|
    ensures Delivered(c, ops + [SeekSet(k)] + [Read(m)] + [Read(n)], file)
         == Delivered(c, ops, file) + [file[k..k + m], file[k + m..k + m + n]]
    ensures After(c, ops + [SeekSet(k)] + [Read(m)] + [Read(n)], |file|).at == k + m + n
  {
    hide AllFit, After, Delivered, Refused, LenAfter;
    Appended(c, ops, SeekSet(k), file);
    Appended(c, ops + [SeekSet(k)], Read(m), file);
    Appended(c, ops + [SeekSet(k)] + [Read(m)], Read(n), file);
  }

  /** A seek forward passes over bytes as a read of them would. */
  lemma {:induction false} SkipIsRead(c: Cursor, ops: seq<Op>, m: nat, n: nat, file: seq<Byte>)
    requires AllFit(c, ops + [SeekCur(m)] + [Read(n)], |file|) && After(c, ops, |file|).at + m <= |file|
    ensures AllFit(c, ops, |file|) && AllFit(c, ops + [Read(m)] + [Read(n)], |file|)
    ensures var at := After(c, ops, |file|).at;
            && at + m + n <= |file|
            && Delivered(c, ops + [SeekCur(m)] + [Read(n)], file)
               == Delivered(c, ops, file) + [file[at + m..at + m + n]]
            && After(c, ops + [SeekCur(m)] + [Read(n)], |file|) == After(c, ops + [Read(m)] + [Read(n)], |file|)
  {
    hide AllFit, After, Delivered, Refused, LenAfter;
    Appended(c, ops, SeekCur(m), file);
    Appended(c, ops + [SeekCur(m)], Read(n), file);
    Appended(c, ops, Read(m), file);
    Appended(c, ops + [Read(m)], Read(n), file);
  }
}
