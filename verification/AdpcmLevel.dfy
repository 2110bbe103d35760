/** A signal that stays where it is, silence above all, is reconstructed without error. */
module AdpcmLevel {
  import opened Bits
  import opened Pcm
  import opened AdpcmStream
  import ImaCode
  import ImaBlock
  import MsCode
  import MsBlock

  /** Every channel keeps its value. */
  predicate Level(ch: int, s: seq<int>)
  {
    ch >= 1 && forall k :: ch <= k < |s| ==> s[k] == s[k - ch]
  }

  predicate Silent(s: seq<int>) { forall k :: 0 <= k < |s| ==> s[k] == 0 }

  /** The IMA encoder stays at the least step. */
  lemma {:induction false} ImaLevel(ch: int, s: seq<int>, index: seq<int>, k: int)
    requires (ch == 1 || ch == 2) && AllInt16(s) && index == seq(ch, _ => 0) && 0 <= k < |s| && Level(ch, s)
    ensures ImaBlock.ValidIndices(ch, index)
    ensures ImaBlock.EncoderAt(ch, s, index, k) == ImaCode.Predictor(s[k], 0)
    ensures k >= ch ==> ImaBlock.CodeAt(ch, s, index, k) == 0
    decreases k
  {
    hide ImaBlock.EncoderAt, ImaCode.Reconstruct, ImaCode.CodeFor;
    ImaBlock.EncoderStep(ch, s, index, k);
    if k >= ch {
      ImaLevel(ch, s, index, k - ch);
      ImaCode.LevelKept(s[k]);
    }
  }

  /** And so does the Microsoft one, which has chosen the first predictor. */
  lemma {:induction false} MsLevel(ch: int, s: seq<int>, k: int)
    requires (ch == 1 || ch == 2) && |s| >= 5 * ch && AllInt16(s) && ch <= k < |s| && Level(ch, s)
    ensures MsBlock.EncoderAt(ch, s, k) == MsCode.MsState(s[k], s[k], 16)
    decreases k
  {
    hide MsBlock.EncoderAt, MsCode.EncoderNext, MsCode.BestPredictor, MsCode.BestDelta;
    MsBlock.EncoderStep(ch, s, k);
    FirstFrames(ch, s);
    MsCode.LineChoice(s, ch, s[0], 0);
    if k >= 2 * ch {
      MsLevel(ch, s, k - ch);
      MsCode.LevelKept(s[k]);
    }
  }

  lemma FirstFrames(ch: int, s: seq<int>)
    requires (ch == 1 || ch == 2) && |s| >= 5 * ch && Level(ch, s)
    ensures forall i :: 0 <= i < 5 ==> s[i * ch] == s[0] + i * 0
  {
    assert s[1 * ch] == s[0 * ch] && s[2 * ch] == s[1 * ch] && s[3 * ch] == s[2 * ch] && s[4 * ch] == s[3 * ch];
  }

  /** A block of a level signal, from a fresh state. */
  lemma {:induction false} LevelBlock(codec: Codec, s: seq<int>)
    requires codec.Writable() && codec.ValidBlock(s) && Level(codec.channels, s)
    ensures codec.Reconstructed(s, StartCarry(codec)) == s && codec.Carry(s, StartCarry(codec)) == StartCarry(codec)
    ensures codec.StepsFit(s)
    ensures Silent(s) ==> Silent(codec.Worked(s, StartCarry(codec)))
  {
    hide Codec.Reconstructed, Codec.Carry, Codec.StepsFit, Codec.Worked, Codec.BlockSamples, StartCarry;
    match codec
    case WavIma(_, _) => ImaLevelBlock(codec, s);
    case MsAdpcm(_, _) => MsLevelBlock(codec, s);
  }

  lemma {:induction false} ImaLevelBlock(codec: Codec, s: seq<int>)
    requires codec.WavIma? && codec.Writable() && codec.ValidBlock(s) && Level(codec.channels, s)
    ensures codec.Reconstructed(s, StartCarry(codec)) == s && codec.Carry(s, StartCarry(codec)) == StartCarry(codec)
    ensures codec.StepsFit(s)
    ensures Silent(s) ==> Silent(codec.Worked(s, StartCarry(codec)))
  {
    hide ImaBlock.EncoderAt, ImaBlock.CodeAt, Codec.BlockSamples;
    var ch, index := codec.channels, StartCarry(codec);
    forall k | 0 <= k < |s|
      ensures ImaBlock.EncoderAt(ch, s, index, k) == ImaCode.Predictor(s[k], 0)
      ensures k >= ch ==> ImaBlock.CodeAt(ch, s, index, k) == 0
    {
      ImaLevel(ch, s, index, k);
    }
  }

  lemma {:induction false} MsLevelBlock(codec: Codec, s: seq<int>)
    requires codec.MsAdpcm? && codec.Writable() && codec.ValidBlock(s) && Level(codec.channels, s)
    ensures codec.Reconstructed(s, StartCarry(codec)) == s && codec.Carry(s, StartCarry(codec)) == StartCarry(codec)
    ensures codec.StepsFit(s)
    ensures Silent(s) ==> Silent(codec.Worked(s, StartCarry(codec)))
  {
    hide MsBlock.EncoderAt;
    var ch := codec.channels;
    forall k | ch <= k < |s| ensures MsBlock.EncoderAt(ch, s, k) == MsCode.MsState(s[k], s[k], 16) {
      MsLevel(ch, s, k);
    }
  }

  /** A run of blocks of it. */
  lemma {:induction false} LevelStream(codec: Codec, s: seq<int>)
    requires codec.Writable() && AllInt16(s) && Level(codec.channels, s) && Leftover(codec.BlockSamples(), s) == []
    ensures ReconstructStream(codec, StartCarry(codec), s) == s && StepsFitStream(codec, s)
    decreases |s|
  {
    hide Codec.Carry, Codec.BlockSamples, Codec.Reconstructed, Codec.StepsFit, StartCarry;
    var n := codec.BlockSamples();
    if |s| >= n {
      LevelBlock(codec, s[..n]);
      LevelStream(codec, s[n..]);
    }
  }

  /** Silence leaves silence in the buffer. */
  lemma {:induction false} SilentResidue(codec: Codec, s: seq<int>)
    requires codec.Writable() && AllInt16(s) && Silent(s)
    ensures Silent(Residue(codec, StartCarry(codec), seq(codec.BlockSamples(), _ => 0), s))
    decreases |s|
  {
    hide Codec.Carry, Codec.BlockSamples, Codec.Worked, StartCarry;
    var n := codec.BlockSamples();
    if |s| >= n {
      LevelBlock(codec, s[..n]);
      assert codec.AfterBlock(s[..n], StartCarry(codec)) == seq(n, _ => 0);
      SilentResidue(codec, s[n..]);
    }
  }

  /** The signal, gone on with for `n` samples. */
  function Extended(ch: int, s: seq<int>, n: nat): (r: seq<int>)
    requires 1 <= ch <= |s|
    ensures |r| == |s| + n && r[..|s|] == s
    decreases n
  {
    if n == 0 then s else
      var e := Extended(ch, s, n - 1);
      e + [e[|e| - ch]]
  }

  lemma {:induction false} ExtendedLevel(ch: int, s: seq<int>, n: nat)
    requires 1 <= ch <= |s| && Level(ch, s) && AllInt16(s)
    ensures Level(ch, Extended(ch, s, n)) && AllInt16(Extended(ch, s, n))
    decreases n
  {
    if n > 0 { ExtendedLevel(ch, s, n - 1); }
  }
}
