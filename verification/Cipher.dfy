/** The cipher made of MD5 in cipher-feedback mode. */
module Cipher {
  import opened Arith
  import opened Options

  type Bits = bv8

  const BLOCKSIZE: nat := 16
  const MAXKEY: nat := 256

  /** A hash of sixteen bytes. */
  type Hash = seq<Bits> -> seq<Bits>

  ghost predicate IsHash(md5: Hash) {
    forall s :: |md5(s)| == BLOCKSIZE
  }

  function Xor(s: seq<Bits>, t: seq<Bits>): (r: seq<Bits>)
    requires |s| == |t|
    ensures |r| == |s|
  {
    seq(|s|, i requires 0 <= i < |s| => s[i] ^ t[i])
  }

  lemma {:induction false} XorByte(a: Bits, b: Bits)
    ensures a ^ (a ^ b) == b
  {
  }

  lemma {:induction false} XorTwice(s: seq<Bits>, t: seq<Bits>)
    requires |s| == |t|
    ensures Xor(s, Xor(s, t)) == t
  {
    forall i | 0 <= i < |s|
      ensures Xor(s, Xor(s, t))[i] == t[i]
    {
      XorByte(s[i], t[i]);
    }
  }

  /** The chunk that one round takes. */
  function Chunk(s: seq<Bits>): nat {
    if |s| < BLOCKSIZE then |s| else BLOCKSIZE
  }

  /** The ciphertext of msg: each chunk xored with the hash of the block, and then put into the block. */
  ghost function Encoded(md5: Hash, block: seq<Bits>, msg: seq<Bits>): (r: seq<Bits>)
    requires IsHash(md5) && |block| >= BLOCKSIZE
    ensures |r| == |msg|
    decreases |msg|
  {
    if msg == [] then [] else
      var n := Chunk(msg);
      var code := Xor(md5(block)[..n], msg[..n]);
      code + Encoded(md5, code + block[n..], msg[n..])
  }

  /** The plaintext of cypher: the same keystream, fed back with the cipher chunk. */
  ghost function Decoded(md5: Hash, block: seq<Bits>, cypher: seq<Bits>): (r: seq<Bits>)
    requires IsHash(md5) && |block| >= BLOCKSIZE
    ensures |r| == |cypher|
    decreases |cypher|
  {
    if cypher == [] then [] else
      var n := Chunk(cypher);
      Xor(md5(block)[..n], cypher[..n]) + Decoded(md5, cypher[..n] + block[n..], cypher[n..])
  }

  /** Both sides keep the same block after every chunk, so that each chunk comes back. */
  lemma {:induction false} DecodeEncoded(md5: Hash, block: seq<Bits>, msg: seq<Bits>)
    requires IsHash(md5) && |block| >= BLOCKSIZE
    ensures Decoded(md5, block, Encoded(md5, block, msg)) == msg
    decreases |msg|
  {
    if msg == [] {
    } else {
      hide IsHash;
      var n := Chunk(msg);
      HashLength(md5, block);
      var key := md5(block)[..n];
      var code := Xor(key, msg[..n]);
      var rest := Encoded(md5, code + block[n..], msg[n..]);
      var cypher := code + rest;
      assert cypher[..n] == code && cypher[n..] == rest;
      XorTwice(key, msg[..n]);
      DecodeEncoded(md5, code + block[n..], msg[n..]);
      assert msg[..n] + msg[n..] == msg;
    }
  }

  /**
   * Each chunk of the ciphertext is the chunk of the message xored with a hash: of the first block, or of the
   * ciphertext chunk before it followed by what the first block holds behind its first sixteen bytes.
   */
  lemma {:induction false} ChunkOf(md5: Hash, block: seq<Bits>, msg: seq<Bits>, i: nat)
    requires IsHash(md5) && |block| >= BLOCKSIZE && 16 * i < |msg|
    ensures var code, e := Encoded(md5, block, msg), if 16 * i + 16 <= |msg| then 16 * i + 16 else |msg|;
            var b := if i == 0 then block else code[16 * i - 16..16 * i] + block[16..];
            |md5(b)| == 16 && code[16 * i..e] == Xor(md5(b)[..e - 16 * i], msg[16 * i..e])
    decreases i
  {
    hide IsHash, Xor, Encoded, Chunk;
    var code, e := Encoded(md5, block, msg), if 16 * i + 16 <= |msg| then 16 * i + 16 else |msg|;
    EncodedParts(md5, block, msg);
    if i == 0 {
      assert code[0..e] == code[..e] && msg[0..e] == msg[..e];
    } else {
      var next := code[..16] + block[16..];
      ChunkOf(md5, next, msg[16..], i - 1);
      Behind16(msg, 16 * i, e);
      Behind16(code, 16 * i, e);
      assert next[16..] == block[16..];
      if i > 1 {
        Behind16(code, 16 * i - 16, 16 * i);
      }
    }
  }

  lemma {:induction false} Behind16(s: seq<Bits>, a: nat, b: nat)
    requires 16 <= a <= b <= |s|
    ensures s[16..][a - 16..b - 16] == s[a..b]
  {
  }

  /** The first chunk of the ciphertext, and the rest. */
  lemma {:induction false} EncodedParts(md5: Hash, block: seq<Bits>, msg: seq<Bits>)
    requires IsHash(md5) && |block| >= BLOCKSIZE && msg != []
    ensures |md5(block)| == 16
    ensures var code, n := Encoded(md5, block, msg), if |msg| < 16 then |msg| else 16;
            && |code| == |msg| && code[..n] == Xor(md5(block)[..n], msg[..n])
            && (n == 16 ==> code[16..] == Encoded(md5, code[..16] + block[16..], msg[16..]))
  {
    var code, n := Encoded(md5, block, msg), Chunk(msg);
    HashLength(md5, block);
    var c := Xor(md5(block)[..n], msg[..n]);
    var rest := Encoded(md5, c + block[n..], msg[n..]);
    assert code == c + rest && code[..n] == c && code[n..] == rest;
  }

  lemma {:induction false} HashLength(md5: Hash, s: seq<Bits>)
    requires IsHash(md5)
    ensures |md5(s)| == BLOCKSIZE
  {
  }

  // ---- The code ----

  /** The seed, filled up with zeros to sixteen bytes, and the key. */
  ghost function Block(seed: seq<Bits>, key: seq<Bits>): (b: seq<Bits>)
    requires |seed| <= BLOCKSIZE
    ensures |b| == BLOCKSIZE + |key|
  {
    seed + seq(BLOCKSIZE - |seed|, _ => 0) + key
  }

  method InitBlock(seed: seq<Bits>, key: seq<Bits>, block: array<Bits>) returns (lblock: nat)
    requires |seed| <= BLOCKSIZE && |key| <= MAXKEY && block.Length == BLOCKSIZE + MAXKEY
    modifies block
    ensures lblock == BLOCKSIZE + |key| && block[..lblock] == Block(seed, key)
    ensures forall k | 0 <= k < BLOCKSIZE + |key| ::
              block[k] == if k < |seed| then seed[k] else if k < BLOCKSIZE then 0 else key[k - BLOCKSIZE]
  {
    forall i | 0 <= i < BLOCKSIZE {
      block[i] := if i < |seed| then seed[i] else 0;
    }
    forall i | 0 <= i < |key| {
      block[BLOCKSIZE + i] := key[i];
    }
    lblock := |key| + BLOCKSIZE;
  }

  /** code ^= s for the bytes of one chunk of s from at on. */
  method XorChunk(code: array<Bits>, s: seq<Bits>, at: nat) returns (i: nat)
    requires code.Length == BLOCKSIZE && at < |s|
    modifies code
    ensures i == Chunk(s[at..]) && code[..i] == Xor(old(code[..i]), s[at..at + i])
  {
    i := 0;
    while i < BLOCKSIZE && at + i < |s|
      invariant i <= BLOCKSIZE && at + i <= |s|
      invariant forall k | 0 <= k < i :: code[k] == old(code[k]) ^ s[at + k]
      invariant forall k | i <= k < BLOCKSIZE :: code[k] == old(code[k])
    {
      code[i] := code[i] ^ s[at + i];
      i := i + 1;
    }
  }

  method HashBlock(md5: Hash, block: array<Bits>, lblock: nat) returns (code: array<Bits>)
    requires IsHash(md5) && lblock <= block.Length
    ensures fresh(code) && code[..] == md5(block[..lblock]) && code.Length == BLOCKSIZE
  {
    var h := md5(block[..lblock]);
    code := new Bits[BLOCKSIZE](i requires 0 <= i < |h| => h[i]);
  }

  /** memcpy(block, s, |s|) */
  method CopyTo(block: array<Bits>, s: seq<Bits>, ghost lblock: nat)
    requires |s| <= lblock <= block.Length
    modifies block
    ensures block[..lblock] == s + old(block[..lblock])[|s|..]
  {
    forall i | 0 <= i < |s| {
      block[i] := s[i];
    }
  }

  method CodeStream(md5: Hash, msg: seq<Bits>, block: array<Bits>, lblock: nat) returns (b: seq<Bits>)
    requires IsHash(md5) && BLOCKSIZE <= lblock <= block.Length
    modifies block
    ensures b == Encoded(md5, old(block[..lblock]), msg)
  {
    hide IsHash, Xor;
    b := [];
    var at := 0;
    ghost var all := Encoded(md5, block[..lblock], msg);
    assert msg[0..] == msg && [] + all == all;
    while at < |msg|
      invariant 0 <= at <= |msg|
      invariant all == b + Encoded(md5, block[..lblock], msg[at..])
    {
      var code := HashBlock(md5, block, lblock);
      ghost var was, key := block[..lblock], code[..];
      var i := XorChunk(code, msg, at);
      var c := code[..i];
      assert msg[at..][..i] == msg[at..at + i] && msg[at..][i..] == msg[at + i..];
      EncodedStep(md5, was, msg[at..], b);
      b := b + c;
      CopyTo(block, c, lblock);
      at := at + i;
    }
    assert b + [] == b;
  }

  lemma {:induction false} EncodedStep(md5: Hash, block: seq<Bits>, msg: seq<Bits>, b: seq<Bits>)
    requires IsHash(md5) && |block| >= BLOCKSIZE && msg != []
    ensures |md5(block)| == BLOCKSIZE
    ensures var n := Chunk(msg);
            var code := Xor(md5(block)[..n], msg[..n]);
            b + Encoded(md5, block, msg) == b + code + Encoded(md5, code + block[n..], msg[n..])
  {
    var n := Chunk(msg);
    var code := Xor(md5(block)[..n], msg[..n]);
    assert b + (code + Encoded(md5, code + block[n..], msg[n..]))
        == b + code + Encoded(md5, code + block[n..], msg[n..]);
  }

  lemma {:induction false} DecodedStep(md5: Hash, block: seq<Bits>, cypher: seq<Bits>, b: seq<Bits>)
    requires IsHash(md5) && |block| >= BLOCKSIZE && cypher != []
    ensures |md5(block)| == BLOCKSIZE
    ensures var n := Chunk(cypher);
            var plain := Xor(md5(block)[..n], cypher[..n]);
            b + Decoded(md5, block, cypher) == b + plain + Decoded(md5, cypher[..n] + block[n..], cypher[n..])
  {
    var n := Chunk(cypher);
    var plain := Xor(md5(block)[..n], cypher[..n]);
    var rest := Decoded(md5, cypher[..n] + block[n..], cypher[n..]);
    assert b + (plain + rest) == b + plain + rest;
  }

  method DecodeStream(md5: Hash, cypher: seq<Bits>, block: array<Bits>, lblock: nat) returns (b: seq<Bits>)
    requires IsHash(md5) && BLOCKSIZE <= lblock <= block.Length
    modifies block
    ensures b == Decoded(md5, old(block[..lblock]), cypher)
  {
    hide IsHash, Xor;
    b := [];
    var at := 0;
    ghost var all := Decoded(md5, block[..lblock], cypher);
    assert cypher[0..] == cypher && [] + all == all;
    while at < |cypher|
      invariant 0 <= at <= |cypher|
      invariant all == b + Decoded(md5, block[..lblock], cypher[at..])
    {
      var code := HashBlock(md5, block, lblock);
      ghost var was, key := block[..lblock], code[..];
      var i := XorChunk(code, cypher, at);
      var c := code[..i];
      assert cypher[at..][..i] == cypher[at..at + i] && cypher[at..][i..] == cypher[at + i..];
      DecodedStep(md5, was, cypher[at..], b);
      b := b + c;
      CopyTo(block, cypher[at..at + i], lblock);
      at := at + i;
    }
    assert b + [] == b;
  }

  /** crypt: the length of the seed, the seed, and the coded message. */
  method Crypt(md5: Hash, msg: seq<Bits>, key: seq<Bits>, seed: seq<Bits>) returns (r: Option<seq<Bits>>)
    requires IsHash(md5)
    ensures r == if |seed| > BLOCKSIZE || |key| > MAXKEY then None
                 else Some([|seed| as Bits] + seed + Encoded(md5, Block(seed, key), msg))
  {
    if |seed| > BLOCKSIZE || |key| > MAXKEY {
      return None;
    }
    var block := new Bits[BLOCKSIZE + MAXKEY];
    var lblock := InitBlock(seed, key, block);
    var code := CodeStream(md5, msg, block, lblock);
    return Some([|seed| as Bits] + seed + code);
  }

  /** decrypt: refuses a text too short for its seed; otherwise decodes what follows the seed. */
  method Decrypt(md5: Hash, cyphertext: seq<Bits>, key: seq<Bits>) returns (r: Option<seq<Bits>>)
    requires IsHash(md5)
    ensures var lseed := if cyphertext == [] then 0 else cyphertext[0] as int;
            r == if |cyphertext| < lseed + 1 || lseed > BLOCKSIZE || |key| > MAXKEY then None
                 else Some(Decoded(md5, Block(cyphertext[1..lseed + 1], key), cyphertext[lseed + 1..]))
  {
    var lseed := if cyphertext == [] then 0 else cyphertext[0] as int;
    if |cyphertext| < lseed + 1 || lseed > BLOCKSIZE {
      return None;
    }
    if |key| > MAXKEY {
      return None;
    }
    var block := new Bits[BLOCKSIZE + MAXKEY];
    var lblock := InitBlock(cyphertext[1..lseed + 1], key, block);
    var plain := DecodeStream(md5, cyphertext[lseed + 1..], block, lblock);
    return Some(plain);
  }

  /** decrypt(crypt(msg, key, seed), key) == msg for every key and seed that crypt takes. */
  method CryptThenDecrypt(md5: Hash, msg: seq<Bits>, key: seq<Bits>, seed: seq<Bits>) returns (r: Option<seq<Bits>>)
    requires IsHash(md5)
    ensures r == if |seed| <= BLOCKSIZE && |key| <= MAXKEY then Some(msg) else None
  {
    var c := Crypt(md5, msg, key, seed);
    if c.None? {
      return None;
    }
    SeedLength(|seed|);
    assert c.value[1..|seed| + 1] == seed;
    assert c.value[|seed| + 1..] == Encoded(md5, Block(seed, key), msg);
    DecodeEncoded(md5, Block(seed, key), msg);
    r := Decrypt(md5, c.value, key);
  }

  lemma {:induction false} SeedLength(n: nat)
    requires n <= BLOCKSIZE
    ensures (n as Bits) as int == n
  {
  }
}
