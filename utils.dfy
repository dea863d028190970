/** The Internet checksum of src/utils.py: a 16-bit one's-complement sum with
    end-around carry (RFC 1071, sections 1 and 2), computed on some host and
    passed through htons before it is returned. */
module Utils {
  import opened Common

  /** The byte order of the machine the code runs on. It decides what
      array("H") reads from memory and what htons/ntohs do. */
  datatype ByteOrder = BigEndian | LittleEndian

  const Modulus := 0x1_0000    // 2^16: the width of one word
  const OnesModulus := 0xffff  // 2^16 - 1: one's-complement arithmetic works modulo this

  /** Exchanges the two bytes of a 16-bit value. */
  function Swap16(x: int): (r: int)
    requires IsU16(x)
    ensures IsU16(r) && r / 0x100 == x % 0x100 && r % 0x100 == x / 0x100
  {
    (x % 0x100) * 0x100 + x / 0x100
  }

  /** socket.htons, and equally socket.ntohs, which is the same permutation:
      the identity on a big-endian host, a byte swap on a little-endian one. */
  function Htons(host: ByteOrder, x: int): (r: int)
    requires IsU16(x)
    ensures IsU16(r)
    ensures host.BigEndian? ==> r == x
    ensures host.LittleEndian? ==> r / 0x100 == x % 0x100 && r % 0x100 == x / 0x100
  {
    if host.BigEndian? then x else Swap16(x)
  }

  /** ntohs undoes htons on either host. */
  lemma HtonsInvolution(host: ByteOrder, x: int)
    requires IsU16(x)
    ensures Htons(host, Htons(host, x)) == x
  {
    if host.LittleEndian? {
      var r := Swap16(x);
      var r' := Swap16(r);
      assert r' / 0x100 == x / 0x100 && r' % 0x100 == x % 0x100;
    }
  }

  /** The element array("H", data) yields for the two memory bytes b0, b1. */
  function NativeWord(host: ByteOrder, b0: Byte, b1: Byte): (w: int)
    ensures IsU16(w)
  {
    if host.BigEndian? then b0 as int * 0x100 + b1 else b1 as int * 0x100 + b0
  }

  /** ntohs undoes array("H")'s host order: every word is read big-endian,
      data[2i] * 256 + data[2i+1], whatever the host. */
  lemma NtohsOfNativeWord(host: ByteOrder, b0: Byte, b1: Byte)
    ensures Htons(host, NativeWord(host, b0, b1)) == b0 as int * 0x100 + b1
  {
  }

  /** The input as the loop reads it: with one zero byte appended when its
      length is odd. */
  function Padded(data: Bytes): (p: Bytes)
    ensures |p| % 2 == 0 && |data| <= |p| <= |data| + 1
    ensures p[..|data|] == data && forall i | |data| <= i < |p| :: p[i] == 0
  {
    if |data| % 2 != 0 then data + [0] else data
  }

  /** The sequence of big-endian 16-bit words of an even-length buffer. */
  function Words(p: Bytes): (ws: seq<int>)
    requires |p| % 2 == 0
    ensures |ws| == |p| / 2
  {
    seq(|p| / 2, i requires 0 <= i < |p| / 2 => p[2 * i] as int * 0x100 + p[2 * i + 1])
  }

  predicate AllWords(ws: seq<int>) {
    forall i | 0 <= i < |ws| :: IsU16(ws[i])
  }

  /** One step of the loop: add a word, fold the carry back into bit 0 and
      keep 16 bits. For x >= 0, x >> 16 is x / 2^16 and x & 0xffff is x % 2^16. */
  function Fold(acc: int, w: int): (r: int)
    ensures 0 <= r <= 0xffff
  {
    (acc + w + (acc + w) / Modulus) % Modulus
  }

  /** The running sum after the loop has folded every word of ws, in order. */
  function FoldedSum(ws: seq<int>): int {
    if |ws| == 0 then 0 else Fold(FoldedSum(ws[..|ws| - 1]), ws[|ws| - 1])
  }

  /** The same running sum, read two bytes at a time from an even-length
      buffer, as the loop reads it. */
  function WordFold(p: Bytes): int
    requires |p| % 2 == 0
    decreases |p|
  {
    if |p| == 0 then 0 else Fold(WordFold(p[..|p| - 2]), p[|p| - 2] as int * 0x100 + p[|p| - 1])
  }

  /** Reading the buffer two bytes at a time folds exactly its words. */
  lemma {:induction false} WordFoldIsFoldedSum(p: Bytes)
    requires |p| % 2 == 0
    ensures WordFold(p) == FoldedSum(Words(p))
    decreases |p|
  {
    if |p| > 0 {
      var front := p[..|p| - 2];
      WordFoldIsFoldedSum(front);
      var ws := Words(p);
      assert ws[..|ws| - 1] == Words(front);
    }
  }

  /** The plain integer sum of the words. */
  function Sum(ws: seq<int>): int {
    if |ws| == 0 then 0 else Sum(ws[..|ws| - 1]) + ws[|ws| - 1]
  }

  /** The one's-complement representative of a non-negative sum s: 0 stays 0,
      every other value is the member of [1, 0xffff] congruent to s mod 0xffff. */
  function EndAround(s: int): int
    requires s >= 0
  {
    if s == 0 then 0 else (s - 1) % OnesModulus + 1
  }

  /** The checksum value before htons (src/utils.py:6-15 without its
      last conversion): 0xffff minus the folded sum of the padded words. */
  function InternetChecksum(data: Bytes): (c: int)
    ensures IsU16(c)
    ensures |data| == 0 ==> c == 0xffff
  {
    0xffff - WordFold(Padded(data))
  }

  /** What ones_complement_checksum returns on the given host. */
  function Checksum(host: ByteOrder, data: Bytes): (c: int)
    ensures IsU16(c)
  {
    Htons(host, InternetChecksum(data))
  }

  /** ones_complement_checksum (src/utils.py:5-15), run on a host with the
      given byte order. */
  method OnesComplementChecksum(host: ByteOrder, data: Bytes) returns (c: int)
    ensures c == Checksum(host, data)
    ensures IsU16(c)
  {
    var d := data;
    if |d| % 2 != 0 {
      d := d + [0];
    }
    var checksum := 0;
    for i := 0 to |d| / 2
      invariant checksum == WordFold(d[..2 * i])
    {
      var subword := NativeWord(host, d[2 * i], d[2 * i + 1]);
      NtohsOfNativeWord(host, d[2 * i], d[2 * i + 1]);
      checksum := checksum + Htons(host, subword);
      checksum := (checksum + checksum / Modulus) % Modulus;
      assert d[..2 * (i + 1)][..2 * i] == d[..2 * i];
    }
    assert d[..|d|] == d;
    c := Htons(host, 0xffff - checksum);
  }

  /** Folding one more word into a sum's representative gives the
      representative of the larger sum. */
  lemma FoldStep(s: int, w: int)
    requires s >= 0 && IsU16(w)
    ensures Fold(EndAround(s), w) == EndAround(s + w)
  {
    if s == 0 {
      if w != 0 {
        ModOfRemainder(w - 1, 0, w - 1);
      }
    } else {
      var q, r := (s - 1) / OnesModulus, (s - 1) % OnesModulus;
      if r + w < OnesModulus {
        ModOfRemainder(s + w - 1, q, r + w);
      } else {
        ModOfRemainder(s + w - 1, q + 1, r + w - OnesModulus);
      }
    }
  }

  lemma ModOfRemainder(a: int, q: int, r: int)
    requires a == q * OnesModulus + r && 0 <= r < OnesModulus
    ensures a % OnesModulus == r
  {
  }

  /** The loop's running sum is the end-around-carry representative of the
      plain sum of the words: 0 only when that sum is 0. */
  lemma {:induction false} FoldedSumIsEndAroundSum(ws: seq<int>)
    requires AllWords(ws)
    ensures Sum(ws) >= 0
    ensures FoldedSum(ws) == EndAround(Sum(ws))
  {
    if |ws| > 0 {
      var front := ws[..|ws| - 1];
      assert AllWords(front) by {
        forall i | 0 <= i < |front| ensures IsU16(front[i]) {
          assert front[i] == ws[i];
        }
      }
      FoldedSumIsEndAroundSum(front);
      FoldStep(Sum(front), ws[|ws| - 1]);
    }
  }

  /** The representative is congruent to the sum it stands for. */
  lemma EndAroundCongruent(s: int)
    requires s >= 0
    ensures EndAround(s) % OnesModulus == s % OnesModulus
  {
    if s > 0 {
      var q, r := (s - 1) / OnesModulus, (s - 1) % OnesModulus;
      if r + 1 < OnesModulus {
        ModOfRemainder(s, q, r + 1);
        ModOfRemainder(r + 1, 0, r + 1);
      } else {
        ModOfRemainder(s, q + 1, 0);
        ModOfRemainder(r + 1, 1, 0);
      }
    }
  }

  /** The end-around carry property (RFC 1071, section 2): the loop's final
      running sum is congruent modulo 0xffff to the plain sum of the words. */
  lemma FoldedSumCongruent(ws: seq<int>)
    requires AllWords(ws)
    ensures FoldedSum(ws) % OnesModulus == Sum(ws) % OnesModulus
  {
    FoldedSumIsEndAroundSum(ws);
    EndAroundCongruent(Sum(ws));
  }

  /** Replacing one word changes the plain sum by the difference. */
  lemma {:induction false} SumUpdate(ws: seq<int>, k: nat, v: int)
    requires k < |ws|
    ensures Sum(ws[k := v]) == Sum(ws) - ws[k] + v
  {
    var n := |ws|;
    if k == n - 1 {
      assert ws[k := v][..n - 1] == ws[..n - 1];
    } else {
      assert ws[k := v][..n - 1] == ws[..n - 1][k := v];
      SumUpdate(ws[..n - 1], k, v);
    }
  }

  /** Writing a 16-bit value big-endian at an aligned offset replaces the
      corresponding word and nothing else. */
  lemma WordsOfPatched(data: Bytes, k: nat, c: int)
    requires 2 * k + 1 < |data| && IsU16(c)
    ensures Words(Padded(data[..2 * k] + BE16(c) + data[2 * k + 2..]))
         == Words(Padded(data))[k := c]
  {
    var patched := data[..2 * k] + BE16(c) + data[2 * k + 2..];
    assert |patched| == |data|;
    var p, p' := Padded(data), Padded(patched);
    assert |p| == |p'|;
    forall j | 0 <= j < |p| && j != 2 * k && j != 2 * k + 1
      ensures p'[j] == p[j]
    {
      if j < |data| {
        assert p'[j] == patched[j] && p[j] == data[j];
      }
    }
    assert p'[2 * k] == c / 0x100 && p'[2 * k + 1] == c % 0x100 by {
      assert p'[2 * k] == patched[2 * k] && p'[2 * k + 1] == patched[2 * k + 1];
    }
    var w, w' := Words(p), Words(p');
    forall i | 0 <= i < |w|
      ensures w'[i] == w[k := c][i]
    {
      if i != k {
        assert p'[2 * i] == p[2 * i] && p'[2 * i + 1] == p[2 * i + 1];
      }
    }
  }

  /** The representative of s plus the complement of s's representative is
      0xffff, the one's-complement "negative zero". */
  lemma ComplementSum(s: int)
    requires s >= 0
    ensures s + OnesModulus - EndAround(s) >= 0
    ensures EndAround(s + OnesModulus - EndAround(s)) == OnesModulus
  {
    if s == 0 {
      ModOfRemainder(OnesModulus - 1, 0, OnesModulus - 1);
    } else {
      var q, r := (s - 1) / OnesModulus, (s - 1) % OnesModulus;
      ModOfRemainder(s + OnesModulus - EndAround(s) - 1, q, OnesModulus - 1);
    }
  }

  /** Self-verification (RFC 1071, section 1): zero an aligned word, store the
      checksum there big-endian, and the checksum of the result is 0. */
  lemma ChecksumSelfVerifies(data: Bytes, k: nat)
    requires 2 * k + 1 < |data| && data[2 * k] == 0 && data[2 * k + 1] == 0
    ensures InternetChecksum(data[..2 * k] + BE16(InternetChecksum(data)) + data[2 * k + 2..]) == 0
  {
    var c := InternetChecksum(data);
    var ws := Words(Padded(data));
    var ws' := ws[k := c];
    WordsOfPatched(data, k, c);
    assert ws[k] == 0 by {
      assert Padded(data)[2 * k] == 0 && Padded(data)[2 * k + 1] == 0;
    }
    assert AllWords(ws);
    assert AllWords(ws') by {
      forall i | 0 <= i < |ws'| ensures IsU16(ws'[i]) {
        if i != k { assert ws'[i] == ws[i]; }
      }
    }
    WordFoldIsFoldedSum(Padded(data));
    WordFoldIsFoldedSum(Padded(data[..2 * k] + BE16(c) + data[2 * k + 2..]));
    FoldedSumIsEndAroundSum(ws);
    FoldedSumIsEndAroundSum(ws');
    SumUpdate(ws, k, c);
    ComplementSum(Sum(ws));
  }

  /** The same, for a zeroed checksum field between two parts of the message. */
  lemma ChecksumPatchVerifies(head: Bytes, tail: Bytes)
    requires |head| % 2 == 0
    ensures InternetChecksum(head + BE16(InternetChecksum(head + BE16(0) + tail)) + tail) == 0
  {
    var z := head + BE16(0) + tail;
    var k := |head| / 2;
    assert z[..2 * k] == head;
    assert z[2 * k + 2..] == tail;
    ChecksumSelfVerifies(z, k);
  }

  /** On a big-endian host htons is the identity and the function returns the
      Internet checksum itself. */
  lemma BigEndianChecksum(data: Bytes)
    ensures Checksum(BigEndian, data) == InternetChecksum(data)
  {
  }

  /** On a little-endian host the returned value is byte-swapped, so once it is
      written big-endian the buffer no longer verifies. Input [0, 1, 0, 0]:
      the checksum 0xfffe comes back as 0xfeff, and [0, 1, 0xfe, 0xff] sums to
      0xff00, whose complement 0x00ff is not 0. */
  lemma LittleEndianChecksumFails()
    ensures var d: Bytes := [0, 1, 0, 0];
            var patched := d[..2] + BE16(Checksum(LittleEndian, d));
            Checksum(LittleEndian, d) == 0xfeff
            && patched == [0, 1, 0xfe, 0xff]
            && InternetChecksum(patched) == 0x00ff
  {
    var d: Bytes := [0, 1, 0, 0];
    assert WordFold(d) == 1 by {
      assert d[..2] == [0, 1];
      assert d[..2][..0] == [];
    }
    var patched: Bytes := [0, 1, 0xfe, 0xff];
    assert WordFold(patched) == 0xff00 by {
      assert patched[..2] == [0, 1];
      assert patched[..2][..0] == [];
    }
  }
}
