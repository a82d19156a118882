/** Little-endian integers in byte sequences, and single writes into them. */
module Bytes {
  import opened Words

  type Byte = b: nat | b < 256 witness 0

  function Encode(v: nat, n: nat): (s: seq<Byte>)
    ensures |s| == n
  {
    if n == 0 then [] else [v % 256] + Encode(v / 256, n - 1)
  }

  function Decode(s: seq<Byte>): nat {
    if |s| == 0 then 0 else s[0] + 256 * Decode(s[1..])
  }

  /** `v < 256^n` */
  predicate FitsIn(v: nat, n: nat) {
    if n == 0 then v == 0 else FitsIn(v / 256, n - 1)
  }

  lemma {:induction false} DecodeEncode(v: nat, n: nat)
    requires FitsIn(v, n)
    ensures Decode(Encode(v, n)) == v
    decreases n
  {
    if n != 0 {
      DecodeEncode(v / 256, n - 1);
      assert Encode(v, n)[1..] == Encode(v / 256, n - 1);
    }
  }

  lemma {:induction false} FitsBelow(v: nat, n: nat)
    requires v < Pow2(8 * n)
    ensures FitsIn(v, n)
    decreases n
  {
    hide Pow2;
    if n == 0 {
      Pow2Zero();
    } else {
      Pow2Byte(8 * (n - 1));
      FitsBelow(v / 256, n - 1);
    }
  }

  lemma WordFits(v: Word)
    ensures FitsIn(v, 8)
  {
    WordWidth();
    FitsBelow(v, 8);
  }

  lemma U32Fits(v: nat)
    requires v < U32
    ensures FitsIn(v, 4)
  {
    HalfWidth();
    FitsBelow(v, 4);
  }

  /** The sequence with `data` written at offset `o`. */
  function Put(m: seq<Byte>, o: nat, data: seq<Byte>): (r: seq<Byte>)
    requires o + |data| <= |m|
    ensures |r| == |m|
  {
    m[..o] + data + m[o + |data|..]
  }

  lemma PutSlices(m: seq<Byte>, o: nat, data: seq<Byte>, lo: nat, hi: nat)
    requires o + |data| <= |m| && lo <= hi <= |m|
    ensures Put(m, o, data)[o..o + |data|] == data
    ensures hi <= o || o + |data| <= lo ==> Put(m, o, data)[lo..hi] == m[lo..hi]
  {
    var r := Put(m, o, data);
    assert r[o..o + |data|] == data;
    if hi <= o {
      assert r[..o] == m[..o];
      assert r[lo..hi] == r[..o][lo..hi] == m[..o][lo..hi] == m[lo..hi];
    } else if o + |data| <= lo {
      var e := o + |data|;
      assert r[e..] == m[e..];
      assert r[lo..hi] == r[e..][lo - e..hi - e] == m[e..][lo - e..hi - e] == m[lo..hi];
    }
  }
}
