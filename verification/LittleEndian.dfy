/** Words from bytes and bytes from words, the lowest byte first. */
module LittleEndian {
  import opened Arith
  import opened Words
  import opened Limbs

  /** The word at byte i. */
  function Word(s: seq<u8>, i: nat): u32
    requires i + 4 <= |s|
  {
    var a: int, b: int, c: int, d: int := s[i], s[i + 1], s[i + 2], s[i + 3];
    a + 0x100 * b + 0x1_0000 * c + 0x100_0000 * d
  }

  lemma {:induction false} WordsOfBytes(s: seq<u8>, x: seq<u32>)
    requires |s| == 4 * |x| && forall j :: 0 <= j < |x| ==> x[j] == Word(s, 4 * j)
    ensures Val(x, WORD32) == Val(s, 256)
  {
    if |x| > 0 {
      var t, y := s[4..], x[1..];
      forall j | 0 <= j < |y| ensures y[j] == Word(t, 4 * j) { assert y[j] == x[j + 1]; }
      WordsOfBytes(t, y);
      assert s[1..][1..] == s[2..] && s[2..][1..] == s[3..] && s[3..][1..] == t;
      assert Val(s, 256) == s[0] + 256 * Val(s[1..], 256);
      assert Val(s[1..], 256) == s[1] + 256 * Val(s[2..], 256);
      assert Val(s[2..], 256) == s[2] + 256 * Val(s[3..], 256);
      assert Val(s[3..], 256) == s[3] + 256 * Val(t, 256);
      assert x[0] == Word(s, 4 * 0);
    }
  }

  lemma FourWords(x: seq<int>)
    requires |x| == 4
    ensures Val(x, WORD32) == x[0] + WORD32 * x[1] + 0x1_0000_0000_0000_0000 * x[2] + 0x1_0000_0000_0000_0000_0000_0000 * x[3]
  {
    assert x[1..][1..] == x[2..] && x[2..][1..] == x[3..] && x[3..][1..] == [];
    assert Val(x[3..], WORD32) == x[3] + WORD32 * Val([], WORD32);
    assert Val(x[2..], WORD32) == x[2] + WORD32 * Val(x[3..], WORD32);
    assert Val(x[1..], WORD32) == x[1] + WORD32 * Val(x[2..], WORD32);
  }

  /** U32TO8 */
  function ByteOf(v: u32, i: nat): u8
    requires i < 4
  {
    if i == 0 then v % 0x100 else if i == 1 then v / 0x100 % 0x100 else if i == 2 then v / 0x1_0000 % 0x100 else v / 0x100_0000
  }

  lemma BytesOfWord(v: u32)
    ensures v == ByteOf(v, 0) + 0x100 * ByteOf(v, 1) + 0x1_0000 * ByteOf(v, 2) + 0x100_0000 * ByteOf(v, 3)
  {
    DivMod(v, 0x100);
    DivMod(v / 0x100, 0x100);
    DivDiv(v, 0x100, 0x100);
    DivMod(v / 0x1_0000, 0x100);
    DivDiv(v, 0x1_0000, 0x100);
  }
}
