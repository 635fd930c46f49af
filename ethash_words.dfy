/**
 * The bit and byte layer of the Ethash light cache
 * (apps/honted_abci/native/ethashcache/src/lib.rs, lines 21-73).
 *
 * A Rust `u8` is a `bv8` and a `u32` a `bv32`, so that `>>`, `<<`, `&`, `^`
 * and `+` keep their fixed-width meaning. A Rust `[u32; 16]` or `[u8; 64]` is
 * a value (it is copied, not shared), so it is a sequence of fixed length here;
 * the methods fill a local array the way the Rust functions fill their
 * `let mut` arrays, and hand back its contents.
 */
module EthashWords {

  type Byte = bv8
  type Word = bv32

  const HASH_SIZE_BYTES: nat := 64
  const HASH_SIZE_WORDS: nat := 16

  /** A hash as sixteen little-endian words, Rust `[u32; HASH_SIZE_WORDS]`. */
  type Hash = s: seq<Word> | |s| == HASH_SIZE_WORDS
    witness [0, 0, 0, 0, 0, 0, 0, 0, 0, 0, 0, 0, 0, 0, 0, 0]

  /** A hash as 64 bytes, Rust `[u8; HASH_SIZE_BYTES]`. */
  type HashOctets = s: seq<Byte> | |s| == HASH_SIZE_BYTES
    witness seq(64, _ => 0)

  /** Reference meaning of `xor`: the word-wise exclusive or of two hashes. */
  function XorWords(v1: Hash, v2: Hash): Hash
  {
    seq(HASH_SIZE_WORDS, i requires 0 <= i < HASH_SIZE_WORDS => v1[i] ^ v2[i])
  }

  /** `xor` (lib.rs:29-35): fills a zeroed array word by word. */
  method Xor(v1: Hash, v2: Hash) returns (v3: Hash)
    ensures forall i :: 0 <= i < HASH_SIZE_WORDS ==> v3[i] == v1[i] ^ v2[i]
    ensures v3 == XorWords(v1, v2)
  {
    var a := new Word[HASH_SIZE_WORDS](_ => 0);
    for i := 0 to HASH_SIZE_WORDS
      invariant forall j :: 0 <= j < i ==> a[j] == v1[j] ^ v2[j]
    {
      a[i] := v1[i] ^ v2[i];
    }
    v3 := a[..];
  }

  lemma XorWordsCommutes(v1: Hash, v2: Hash)
    ensures XorWords(v1, v2) == XorWords(v2, v1)
  {
  }

  lemma XorWordsSelfIsZero(v: Hash)
    ensures XorWords(v, v) == seq(HASH_SIZE_WORDS, _ => 0)
  {
  }

  lemma XorWordsCancels(v1: Hash, v2: Hash)
    ensures XorWords(XorWords(v1, v2), v2) == v1
  {
  }

  /** The four test vectors of lib.rs:180-185, each word of the hash alike. */
  lemma XorTestVectors()
    ensures XorWords(seq(16, _ => 10), seq(16, _ => 1)) == seq(16, _ => 11)
    ensures XorWords(seq(16, _ => 1), seq(16, _ => 10)) == seq(16, _ => 11)
    ensures XorWords(seq(16, _ => 9), seq(16, _ => 9)) == seq(16, _ => 0)
    ensures XorWords(seq(16, _ => 16), seq(16, _ => 256)) == seq(16, _ => 272)
  {
  }

  /**
   * `little_endian_to_int` (lib.rs:59-61) reads the first four bytes, least
   * significant first. The sum of the shifted bytes, taken in 64 bits, stays
   * below 2^32, so the 32-bit additions of the source never overflow.
   */
  function LittleEndianToInt(le: seq<Byte>): (r: Word)
    requires |le| >= 4
    ensures (le[0] as bv64) + ((le[1] as bv64) << 8) + ((le[2] as bv64) << 16)
            + ((le[3] as bv64) << 24) < 0x1_0000_0000
    ensures r as bv64 == (le[0] as bv64) + ((le[1] as bv64) << 8) + ((le[2] as bv64) << 16)
                         + ((le[3] as bv64) << 24)
  {
    le[0] as Word + ((le[1] as Word) << 8) + ((le[2] as Word) << 16) + ((le[3] as Word) << 24)
  }

  /** `int_to_little_endian` (lib.rs:51-57): four bytes, least significant first. */
  function IntToLittleEndian(x: Word): (le: seq<Byte>)
    ensures |le| == 4
  {
    var b1 := ((x >> 24) & 0xff) as Byte;
    var b2 := ((x >> 16) & 0xff) as Byte;
    var b3 := ((x >> 8) & 0xff) as Byte;
    var b4 := (x & 0xff) as Byte;
    [b4, b3, b2, b1]
  }

  /** The four bytes of `x` read back as `x`. */
  lemma WordRoundTrip(x: Word)
    ensures LittleEndianToInt(IntToLittleEndian(x)) == x
  {
  }

  lemma LittleEndianRoundTrip(le: seq<Byte>)
    requires |le| == 4
    ensures IntToLittleEndian(LittleEndianToInt(le)) == le
  {
  }

  /**
   * The test vectors of lib.rs:188-197, and the words of the serialisation
   * test of lib.rs:200-206 that have more than one non-zero byte.
   */
  lemma LittleEndianTestVectors()
    ensures IntToLittleEndian(10) == [10, 0, 0, 0]
    ensures IntToLittleEndian(1025) == [1, 4, 0, 0]
    ensures IntToLittleEndian(32000) == [0, 125, 0, 0]
    ensures IntToLittleEndian(970) == [202, 3, 0, 0]
    ensures IntToLittleEndian(4123) == [27, 16, 0, 0]
    ensures IntToLittleEndian(12351) == [63, 48, 0, 0]
    ensures IntToLittleEndian(15123) == [19, 59, 0, 0]
    ensures IntToLittleEndian(256) == [0, 1, 0, 0]
    ensures IntToLittleEndian(4231) == [135, 16, 0, 0]
    ensures LittleEndianToInt([10, 0, 0, 0]) == 10
    ensures LittleEndianToInt([1, 4, 0, 0]) == 1025
  {
  }

  /** Reference serialisation: every word in turn, each as its four little-endian bytes. */
  function WordsToBytes(ws: seq<Word>): (bs: seq<Byte>)
    ensures |bs| == 4 * |ws|
  {
    if ws == [] then [] else IntToLittleEndian(ws[0]) + WordsToBytes(ws[1..])
  }

  /** Reference deserialisation: every group of four bytes in turn, read as one word. */
  function BytesToWords(bs: seq<Byte>): (ws: seq<Word>)
    requires |bs| % 4 == 0
    ensures |ws| == |bs| / 4
  {
    if bs == [] then [] else [LittleEndianToInt(bs[..4])] + BytesToWords(bs[4..])
  }

  /** Byte `4 * i + j` of a serialisation is byte `j` of word `i`. */
  lemma {:induction false} WordsToBytesAt(ws: seq<Word>, i: nat, j: nat)
    requires i < |ws| && j < 4
    ensures WordsToBytes(ws)[4 * i + j] == IntToLittleEndian(ws[i])[j]
  {
    if i > 0 {
      WordsToBytesAt(ws[1..], i - 1, j);
    }
  }

  /** Word `i` of a deserialisation is read from bytes `4 * i` to `4 * i + 3`. */
  lemma {:induction false} BytesToWordsAt(bs: seq<Byte>, i: nat)
    requires |bs| % 4 == 0 && i < |bs| / 4
    ensures BytesToWords(bs)[i] == LittleEndianToInt(bs[4 * i..4 * i + 4])
  {
    if i > 0 {
      BytesToWordsAt(bs[4..], i - 1);
      assert bs[4..][4 * (i - 1)..4 * (i - 1) + 4] == bs[4 * i..4 * i + 4];
    }
  }

  lemma {:induction false} WordsRoundTrip(ws: seq<Word>)
    ensures BytesToWords(WordsToBytes(ws)) == ws
  {
    if ws != [] {
      var bs := WordsToBytes(ws);
      assert bs[..4] == IntToLittleEndian(ws[0]);
      assert bs[4..] == WordsToBytes(ws[1..]);
      WordsRoundTrip(ws[1..]);
    }
  }

  lemma {:induction false} BytesRoundTrip(bs: seq<Byte>)
    requires |bs| % 4 == 0
    ensures WordsToBytes(BytesToWords(bs)) == bs
  {
    if bs != [] {
      var ws := BytesToWords(bs);
      assert ws[0] == LittleEndianToInt(bs[..4]);
      assert ws[1..] == BytesToWords(bs[4..]);
      LittleEndianRoundTrip(bs[..4]);
      BytesRoundTrip(bs[4..]);
      assert bs == bs[..4] + bs[4..];
    }
  }

  /** The serialisation of a hash, as a `HashOctets` value. */
  function Serialized(v: Hash): HashOctets
  {
    WordsToBytes(v)
  }

  /** The hash that 64 bytes deserialise to. */
  function Deserialized(b: HashOctets): Hash
  {
    BytesToWords(b)
  }

  lemma SerializeRoundTrip(v: Hash, b: HashOctets)
    ensures Deserialized(Serialized(v)) == v
    ensures Serialized(Deserialized(b)) == b
  {
    WordsRoundTrip(v);
    BytesRoundTrip(b);
  }

  /** Serialising one more word appends its four bytes. */
  lemma {:induction false} WordsToBytesAppend(ws: seq<Word>, w: Word)
    ensures WordsToBytes(ws + [w]) == WordsToBytes(ws) + IntToLittleEndian(w)
  {
    if ws != [] {
      assert (ws + [w])[1..] == ws[1..] + [w];
      WordsToBytesAppend(ws[1..], w);
    }
  }

  /** Writing four bytes just after a prefix extends the prefix by them. */
  lemma PlaceBytes(before: seq<Byte>, after: seq<Byte>, at: nat, le: seq<Byte>)
    requires |le| == 4 && at + 4 <= |before|
    requires after == before[at := le[0]][at + 1 := le[1]][at + 2 := le[2]][at + 3 := le[3]]
    ensures after[..at + 4] == before[..at] + le
  {
  }

  /** The serialisation of `v` holds word `i` in bytes `4 * i` to `4 * i + 3`, least significant first. */
  lemma SerializedAt(v: Hash)
    ensures forall i, j :: 0 <= i < HASH_SIZE_WORDS && 0 <= j < 4 ==>
              Serialized(v)[4 * i + j] == IntToLittleEndian(v[i])[j]
  {
    forall i, j | 0 <= i < HASH_SIZE_WORDS && 0 <= j < 4
      ensures Serialized(v)[4 * i + j] == IntToLittleEndian(v[i])[j]
    {
      WordsToBytesAt(v, i, j);
    }
  }

  /**
   * `serialize_hash` (lib.rs:37-49): word `i` goes, least significant byte
   * first, into bytes `4 * i` to `4 * i + 3` of a zeroed 64-byte array.
   */
  method SerializeHash(v: Hash) returns (serialized: HashOctets)
    ensures forall i, j :: 0 <= i < HASH_SIZE_WORDS && 0 <= j < 4 ==>
              serialized[4 * i + j] == IntToLittleEndian(v[i])[j]
    ensures serialized == Serialized(v)
  {
    var a := new Byte[HASH_SIZE_BYTES](_ => 0);
    for i := 0 to |v|
      invariant a[..4 * i] == WordsToBytes(v[..i])
    {
      ghost var before := a[..];
      var item := v[i];
      var littleEndian := IntToLittleEndian(item);
      var serializedIdx := 4 * i;
      a[serializedIdx] := littleEndian[0];
      a[serializedIdx + 1] := littleEndian[1];
      a[serializedIdx + 2] := littleEndian[2];
      a[serializedIdx + 3] := littleEndian[3];
      PlaceBytes(before, a[..], serializedIdx, littleEndian);
      WordsToBytesAppend(v[..i], item);
      assert v[..i + 1] == v[..i] + [item];
    }
    serialized := a[..];
    assert serialized == a[..4 * |v|] && v[..|v|] == v;
    SerializedAt(v);
  }

  /**
   * `deserialize_hash` (lib.rs:63-73): walks the bytes four at a time; the byte
   * index stays four times the word index, every slice is in bounds, and the
   * loop ends having written all sixteen words.
   */
  method DeserializeHash(v: HashOctets) returns (deserialized: Hash)
    ensures forall i :: 0 <= i < HASH_SIZE_WORDS ==>
              deserialized[i] == LittleEndianToInt(v[4 * i..4 * i + 4])
    ensures deserialized == Deserialized(v)
  {
    var vIdx := 0;
    var a := new Word[HASH_SIZE_WORDS](_ => 0);
    var dsIdx := 0;
    while vIdx < |v|
      invariant vIdx == 4 * dsIdx && dsIdx <= HASH_SIZE_WORDS
      invariant forall k :: 0 <= k < dsIdx ==> a[k] == LittleEndianToInt(v[4 * k..4 * k + 4])
    {
      a[dsIdx] := LittleEndianToInt(v[vIdx..vIdx + 4]);
      vIdx := vIdx + 4;
      dsIdx := dsIdx + 1;
    }
    assert dsIdx == HASH_SIZE_WORDS;
    deserialized := a[..];
    forall k | 0 <= k < HASH_SIZE_WORDS
      ensures deserialized[k] == Deserialized(v)[k]
    {
      BytesToWordsAt(v, k);
    }
  }
}
