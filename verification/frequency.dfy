/** `cnt_freq`: the character histogram the Huffman tree is built from. */
module Frequency {

  /** The histogram has one entry per code point 0..255. */
  const AlphabetSize: nat := 256

  /** The characters of `text` that have an entry in the histogram, in order. */
  function Bytes(text: string): string
  {
    if |text| == 0 then []
    else (if text[0] as int < AlphabetSize then [text[0]] else []) + Bytes(text[1..])
  }

  /** The sum of a sequence of integers. */
  function Sum(xs: seq<int>): int
  {
    if |xs| == 0 then 0 else xs[0] + Sum(xs[1..])
  }

  lemma {:induction false} SumUpdate(xs: seq<int>, i: int, v: int)
    requires 0 <= i < |xs|
    ensures Sum(xs[i := v]) == Sum(xs) - xs[i] + v
  {
    if i == 0 {
      assert xs[i := v][1..] == xs[1..];
    } else {
      assert xs[i := v][1..] == xs[1..][i - 1 := v];
      SumUpdate(xs[1..], i - 1, v);
    }
  }

  /** `cnt_freq`: entry `c` is the number of occurrences of the character with
      code point `c`; characters above 255 are skipped. */
  function CntFreq(text: string): (freq: seq<nat>)
    ensures |freq| == AlphabetSize
    ensures forall c :: 0 <= c < AlphabetSize ==> freq[c] == multiset(text)[c as char]
  {
    if |text| == 0 then seq(AlphabetSize, _ => 0)
    else
      var freq := CntFreq(text[1..]);
      var code := text[0] as int;
      assert text == [text[0]] + text[1..];
      if code < AlphabetSize then freq[code := freq[code] + 1] else freq
  }

  /** The histogram accounts for exactly the characters that have an entry. */
  lemma {:induction false} CntFreqSum(text: string)
    ensures Sum(CntFreq(text)) == |Bytes(text)|
  {
    if |text| > 0 {
      CntFreqSum(text[1..]);
      var code := text[0] as int;
      if code < AlphabetSize {
        SumUpdate(CntFreq(text[1..]), code, CntFreq(text[1..])[code] + 1);
      }
    } else {
      var zeros: seq<int> := seq(AlphabetSize, _ => 0);
      ZeroSum(zeros);
    }
  }

  lemma {:induction false} ZeroSum(xs: seq<int>)
    requires forall i :: 0 <= i < |xs| ==> xs[i] == 0
    ensures Sum(xs) == 0
  {
    if |xs| > 0 {
      ZeroSum(xs[1..]);
    }
  }

  /** On text made only of code points 0..255 every character is counted. */
  lemma {:induction false} CntFreqSumOfByteText(text: string)
    requires forall i :: 0 <= i < |text| ==> text[i] as int < AlphabetSize
    ensures Sum(CntFreq(text)) == |text|
  {
    AllBytes(text);
    CntFreqSum(text);
  }

  lemma {:induction false} AllBytes(text: string)
    requires forall i :: 0 <= i < |text| ==> text[i] as int < AlphabetSize
    ensures Bytes(text) == text
  {
    if |text| > 0 {
      AllBytes(text[1..]);
      assert text == [text[0]] + text[1..];
    }
  }
}
