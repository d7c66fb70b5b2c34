/** Log blocks as bytes: 1021 addresses, then keep duration, time and the address of the next log
    block.  Unused words are all ones here, which the gatekeeper skips as off the disk. */
module LogBlocks {
  import opened Bytes
  import opened Replay
  import opened LogChain

  /** The words one after the other, each least significant byte first. */
  function Words(words: seq<u32>): (b: seq<byte>)
    ensures |b| == 4 * |words|
  {
    if words == [] then [] else Words(words[..|words| - 1]) + Bytes32(words[|words| - 1])
  }

  lemma {:induction false} WordsAt(words: seq<u32>, i: nat)
    requires i < |words|
    ensures U32(Words(words), 4 * i) == words[i]
    decreases |words|
  {
    hide Bytes32, Word4;
    var n := |words| - 1;
    var b, most := Words(words), Words(words[..n]);
    if i < n {
      WordsAt(words[..n], i);
      assert b[4 * i] == most[4 * i] && b[4 * i + 1] == most[4 * i + 1];
      assert b[4 * i + 2] == most[4 * i + 2] && b[4 * i + 3] == most[4 * i + 3];
    } else {
      WordRoundTrip(words[n]);
      var last := Bytes32(words[n]);
      assert b[4 * n] == last[0] && b[4 * n + 1] == last[1] && b[4 * n + 2] == last[2] && b[4 * n + 3] == last[3];
    }
  }

  function LogWords(pbas: seq<nat>, keep: u32, now: u32, next: u32): (words: seq<u32>)
    requires |pbas| <= 1021 && forall i :: 0 <= i < |pbas| ==> pbas[i] < TOTAL_BLOCKS
    ensures |words| == 1024
  {
    seq(1021, i requires 0 <= i < 1021 => if i < |pbas| then pbas[i] else 0xFFFF_FFFF) + [keep, now, next]
  }

  function LogBlock(pbas: seq<nat>, keep: u32, now: u32, next: u32): (b: Block)
    requires |pbas| <= 1021 && forall i :: 0 <= i < |pbas| ==> pbas[i] < TOTAL_BLOCKS
  {
    Words(LogWords(pbas, keep, now, next))
  }

  lemma {:induction false} PbasOfBlock(pbas: seq<nat>, keep: u32, now: u32, next: u32, n: nat)
    requires |pbas| <= 1021 && (forall i :: 0 <= i < |pbas| ==> pbas[i] < TOTAL_BLOCKS) && n <= 1021
    ensures LogPbas(LogBlock(pbas, keep, now, next), 0, n) == if n <= |pbas| then pbas[..n] else pbas
  {
    hide Word4, Words;
    if n > 0 {
      PbasOfBlock(pbas, keep, now, next, n - 1);
      WordsAt(LogWords(pbas, keep, now, next), n - 1);
      if n <= |pbas| { assert pbas[..n] == pbas[..n - 1] + [pbas[n - 1]]; }
    }
  }

  /** Reading back what was written. */
  lemma LogBlockRoundTrip(pbas: seq<nat>, keep: u32, now: u32, next: u32)
    requires |pbas| <= 1021 && forall i :: 0 <= i < |pbas| ==> pbas[i] < TOTAL_BLOCKS
    ensures Tx(LogBlock(pbas, keep, now, next)) == Transaction(pbas, keep, now)
    ensures Pointer(LogBlock(pbas, keep, now, next)) == next
  {
    hide Word4, Words, LogPbas;
    var words := LogWords(pbas, keep, now, next);
    PbasOfBlock(pbas, keep, now, next, 1021);
    WordsAt(words, 1021);
    WordsAt(words, 1022);
    WordsAt(words, 1023);
    assert pbas[..|pbas|] == pbas;
  }
}
