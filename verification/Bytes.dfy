/** Unsigned machine integers and the big-endian wire order of `put16` and `get16`. */
module Bytes {

  type Byte = b: int | 0 <= b < 0x100
  type Word = w: int | 0 <= w < 0x1_0000

  function Put16(w: Word): (s: seq<Byte>) {
    [w / 0x100, w % 0x100]
  }

  function Get16(s: seq<Byte>, at: nat): Word
    requires at + 1 < |s|
  {
    (s[at] as int) * 0x100 + s[at + 1]
  }

  /** A word, high byte first. */
  function Pair(high: Byte, low: Byte): Word {
    0x100 * (high as int) + low
  }

  /** The words of `ws`, each as two big-endian bytes. */
  function PutWords(ws: seq<Word>): (s: seq<Byte>)
    ensures |s| == 2 * |ws|
  {
    seq(2 * |ws|, k requires 0 <= k < 2 * |ws| => if k % 2 == 0 then ws[k / 2] / 0x100 else ws[k / 2] % 0x100)
  }

  /** The `n` big-endian words of `s` that start at byte `at`. */
  function GetWords(s: seq<Byte>, at: nat, n: nat): (ws: seq<Word>)
    requires at + 2 * n <= |s|
    ensures |ws| == n
  {
    seq(n, i requires 0 <= i < n => Get16(s, at + 2 * i))
  }

  /** Words survive the wire, wherever in a message they were put. */
  lemma PutGetWords(s: seq<Byte>, at: nat, ws: seq<Word>)
    requires at + 2 * |ws| <= |s|
    requires s[at..at + 2 * |ws|] == PutWords(ws)
    ensures GetWords(s, at, |ws|) == ws
  {
    forall i | 0 <= i < |ws|
      ensures Get16(s, at + 2 * i) == ws[i]
    {
      PutWordsAt(ws, i);
      assert s[at + 2 * i] == s[at..at + 2 * |ws|][2 * i];
      assert s[at + 2 * i + 1] == s[at..at + 2 * |ws|][2 * i + 1];
    }
  }

  lemma PutWordsAt(ws: seq<Word>, i: nat)
    requires i < |ws|
    ensures PutWords(ws)[2 * i] == ws[i] / 0x100 && PutWords(ws)[2 * i + 1] == ws[i] % 0x100
  {
    assert 2 * i / 2 == i && (2 * i + 1) / 2 == i;
  }

  /** Writes `ws` over the front of `old`: what a copy loop leaves in a fixed array. */
  function Overwrite<T>(was: seq<T>, ws: seq<T>): (s: seq<T>)
    requires |ws| <= |was|
    ensures |s| == |was|
  {
    ws + was[|ws|..]
  }

  /** The loop that reads `n` registers out of a message into the front of a buffer. */
  method LoadWords(dest: array<Word>, s: seq<Byte>, at: nat, n: nat)
    requires at + 2 * n <= |s| && n <= dest.Length
    modifies dest
    ensures dest[..] == Overwrite(old(dest[..]), GetWords(s, at, n))
  {
    for i := 0 to n
      invariant forall k :: 0 <= k < i ==> dest[k] == GetWords(s, at, n)[k]
      invariant forall k :: i <= k < dest.Length ==> dest[k] == old(dest[k])
    {
      dest[i] := Get16(s, at + 2 * i);
    }
    assert dest[..n] == GetWords(s, at, n) && dest[n..] == old(dest[n..]);
  }
}
