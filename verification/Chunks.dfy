/** A run of calls: the pieces handed over, joined, and the sizes asked for, summed. */
module Chunks {
  function Flatten<T>(chunks: seq<seq<T>>): (r: seq<T>)
  {
    if chunks == [] then [] else Flatten(chunks[..|chunks| - 1]) + chunks[|chunks| - 1]
  }

  lemma {:induction false} FlattenOneMore<T>(chunks: seq<seq<T>>, k: nat)
    requires k < |chunks|
    ensures Flatten(chunks[..k + 1]) == Flatten(chunks[..k]) + chunks[k]
  {
    assert chunks[..k + 1][..k] == chunks[..k];
  }

  lemma FlattenNone<T>()
    ensures Flatten<T>([]) == []
  {
  }

  lemma {:induction false} FlattenPrefix<T>(chunks: seq<seq<T>>, k: nat)
    requires k < |chunks|
    ensures var at := |Flatten(chunks[..k])|;
            at + |chunks[k]| <= |Flatten(chunks)| && Flatten(chunks)[at..at + |chunks[k]|] == chunks[k]
    decreases |chunks|
  {
    var last := |chunks| - 1;
    if k < last {
      FlattenPrefix(chunks[..last], k);
      assert chunks[..last][..k] == chunks[..k];
    }
  }

  lemma {:induction false} FlattenGrows<T>(chunks: seq<seq<T>>, j: nat, k: nat)
    requires j <= k <= |chunks|
    ensures |Flatten(chunks[..j])| <= |Flatten(chunks[..k])|
    decreases k
  {
    hide Flatten;
    if j < k {
      FlattenOneMore(chunks, k - 1);
      FlattenGrows(chunks, j, k - 1);
    }
  }

  function Sum(ns: seq<nat>): (r: nat)
  {
    if ns == [] then 0 else ns[0] + Sum(ns[1..])
  }

  lemma {:induction false} SumOneMore(ns: seq<nat>, k: nat)
    requires k < |ns|
    ensures Sum(ns[..k + 1]) == Sum(ns[..k]) + ns[k]
    decreases k
  {
    if k == 0 {
      assert ns[..1][1..] == ns[..0];
    } else {
      assert ns[..k + 1][1..] == ns[1..][..k] && ns[..k][1..] == ns[1..][..k - 1];
      SumOneMore(ns[1..], k - 1);
    }
  }

  lemma {:induction false} SumMonotone(ns: seq<nat>, k: nat)
    requires k <= |ns|
    ensures Sum(ns[..k]) <= Sum(ns)
    decreases |ns| - k
  {
    if k < |ns| {
      SumOneMore(ns, k);
      SumMonotone(ns, k + 1);
    } else {
      assert ns[..k] == ns;
    }
  }

  lemma SliceStep<T>(s: seq<T>, a: nat, n: nat)
    requires a + n <= |s|
    ensures s[a..][..n] == s[a..a + n] && s[a..][n..] == s[a + n..] && s[..a] + s[a..a + n] == s[..a + n]
  {
  }
}
