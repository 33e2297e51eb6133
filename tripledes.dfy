/**
  The "Triple DES" engine of crypto/tripledes.cpp. It is not DES: a single
  pass XORs every 8-byte block of the data with the first 8 bytes of
  SHA-256(key), the same 8 bytes for every block. The encrypting pass
  zero-pads the last block; the decrypting pass drops a trailing partial
  block. Three passes are composed k1, k2, k3 to encrypt and k3, k2, k1 to
  decrypt, and the text layer frames the UTF-8 text with the marker "UTF8:"
  and carries the ciphertext as base64.
*/
module Crypto {
  import opened Platform

  const BLOCK_SIZE: nat := 8

  /** The ASCII bytes of "UTF8:". */
  const MARKER: Bytes := [0x55, 0x54, 0x46, 0x38, 0x3A]

  /** setKeys' normalisation: the first (at most) 8 bytes, zero-padded to exactly 8. */
  function NormalizeKey(key: Bytes): (k: Bytes)
    ensures |k| == BLOCK_SIZE
    ensures forall i | 0 <= i < BLOCK_SIZE :: k[i] == if i < |key| then key[i] else 0
  {
    if |key| >= BLOCK_SIZE then key[..BLOCK_SIZE] else key + seq(BLOCK_SIZE - |key|, _ => 0)
  }

  /** QByteArray::left(n): the whole array when it is shorter than n. */
  function Left(b: Bytes, n: nat): (r: Bytes)
    ensures |r| == if |b| < n then |b| else n
    ensures r <= b
  {
    if |b| <= n then b else b[..n]
  }

  function RoundUp(n: nat): nat {
    (n + 7) / 8 * 8
  }

  function RoundDown(n: nat): nat {
    n / 8 * 8
  }

  /** Byte j of the data followed by an endless run of zero bytes. */
  function PaddedAt(data: Bytes, j: int): Byte {
    if 0 <= j < |data| then data[j] else 0
  }

  /** The data zero-padded to a whole number of blocks. */
  function ZeroPad(data: Bytes): Bytes {
    data + seq(RoundUp(|data|) - |data|, _ => 0)
  }

  /**
    One desEncrypt pass with keystream source `ks` (the SHA-256 digest of the
    key): the output has the data's length rounded up to a whole block, and
    byte j is the zero-padded data byte j XOR ks[j mod 8].
  */
  function EncryptPass(data: Bytes, ks: Digest32): (r: Bytes)
    ensures |r| % BLOCK_SIZE == 0 && |data| <= |r| < |data| + BLOCK_SIZE
  {
    seq(RoundUp(|data|), j => PaddedAt(data, j) ^ ks[j % 8])
  }

  /**
    One desDecrypt pass: the output has the data's length rounded down to a
    whole block (a trailing partial block is dropped), and byte j is data
    byte j XOR ks[j mod 8].
  */
  function DecryptPass(data: Bytes, ks: Digest32): (r: Bytes)
    ensures |r| % BLOCK_SIZE == 0 && |r| <= |data| < |r| + BLOCK_SIZE
  {
    seq(RoundDown(|data|), j => PaddedAt(data, j) ^ ks[j % 8])
  }

  /** encrypt(): desEncrypt(k1), then desDecrypt(k2), then desEncrypt(k3). */
  function Encrypt3(data: Bytes, s1: Digest32, s2: Digest32, s3: Digest32): Bytes {
    EncryptPass(DecryptPass(EncryptPass(data, s1), s2), s3)
  }

  /** decrypt(): desDecrypt(k3), then desEncrypt(k2), then desDecrypt(k1). */
  function Decrypt3(data: Bytes, s1: Digest32, s2: Digest32, s3: Digest32): Bytes {
    DecryptPass(EncryptPass(DecryptPass(data, s3), s2), s1)
  }

  /** encrypt() with the stored keys: each pass hashes its key with SHA-256. */
  function EncryptBytes(env: Env, k1: Bytes, k2: Bytes, k3: Bytes, data: Bytes): Bytes {
    Encrypt3(data, env.sha256(k1), env.sha256(k2), env.sha256(k3))
  }

  function DecryptBytes(env: Env, k1: Bytes, k2: Bytes, k3: Bytes, data: Bytes): Bytes {
    Decrypt3(data, env.sha256(k1), env.sha256(k2), env.sha256(k3))
  }

  /** QByteArray::startsWith("UTF8:"). */
  predicate HasMarker(d: Bytes) {
    |d| >= |MARKER| && d[..|MARKER|] == MARKER
  }

  /** The chop loop of decryptFromBase64: remove every trailing zero byte. */
  function StripTrailingNuls(b: Bytes): (r: Bytes)
    ensures r <= b
    ensures r == [] || r[|r| - 1] != 0
    ensures forall i | |r| <= i < |b| :: b[i] == 0
  {
    if |b| > 0 && b[|b| - 1] == 0 then StripTrailingNuls(b[..|b| - 1]) else b
  }

  /** encryptToBase64(text) under the normalised keys k1, k2, k3. */
  function EncryptText(env: Env, k1: Bytes, k2: Bytes, k3: Bytes, text: string): string {
    env.toBase64(EncryptBytes(env, k1, k2, k3, MARKER + env.toUtf8(text)))
  }

  /**
    decryptFromBase64(text): when the decrypted bytes do not start with the
    marker (wrong keys), the result is the empty string.
  */
  function DecryptText(env: Env, k1: Bytes, k2: Bytes, k3: Bytes, text: string): (r: string)
    ensures !HasMarker(DecryptBytes(env, k1, k2, k3, env.fromBase64(text))) ==> r == ""
  {
    var decrypted := DecryptBytes(env, k1, k2, k3, env.fromBase64(text));
    if HasMarker(decrypted) then env.fromUtf8(StripTrailingNuls(decrypted[|MARKER|..])) else ""
  }

  // ---------------------------------------------------------------------
  // Properties of the passes

  lemma RoundUpFacts(n: nat)
    ensures RoundUp(n) % 8 == 0 && n <= RoundUp(n) < n + 8
    ensures RoundDown(RoundUp(n)) == RoundUp(n) && RoundUp(RoundUp(n)) == RoundUp(n)
    ensures n % 8 == 0 ==> RoundUp(n) == n && RoundDown(n) == n
  {
  }

  /** Where a block boundary i stands with respect to a length n. */
  lemma BlockBounds(i: nat, n: nat)
    requires i % 8 == 0
    ensures i < n ==> i + 8 <= RoundUp(n)
    ensures i + 8 <= n ==> i + 8 <= RoundDown(n)
    ensures i <= n < i + 8 ==> i == RoundDown(n)
  {
  }

  lemma EncryptPassAt(data: Bytes, ks: Digest32, j: nat)
    requires j < RoundUp(|data|)
    ensures |EncryptPass(data, ks)| == RoundUp(|data|)
    ensures EncryptPass(data, ks)[j] == PaddedAt(data, j) ^ ks[j % 8]
  {
  }

  lemma DecryptPassAt(data: Bytes, ks: Digest32, j: nat)
    requires j < RoundDown(|data|)
    ensures |DecryptPass(data, ks)| == RoundDown(|data|) && j < |data|
    ensures DecryptPass(data, ks)[j] == data[j] ^ ks[j % 8]
  {
  }

  /** Only bytes 0..7 of the digest are ever consulted. */
  lemma {:induction false} PassesUseFirstEightBytes(data: Bytes, ks1: Digest32, ks2: Digest32)
    requires ks1[..8] == ks2[..8]
    ensures EncryptPass(data, ks1) == EncryptPass(data, ks2)
    ensures DecryptPass(data, ks1) == DecryptPass(data, ks2)
  {
    forall j | 0 <= j < 8 ensures ks1[j] == ks2[j] {
      assert ks1[j] == ks1[..8][j];
    }
  }

  /** The decrypting pass ignores a trailing partial block. */
  lemma DecryptDropsPartialBlock(data: Bytes, ks: Digest32)
    ensures DecryptPass(data, ks) == DecryptPass(data[..RoundDown(|data|)], ks)
  {
    var whole := data[..RoundDown(|data|)];
    assert RoundDown(|whole|) == RoundDown(|data|);
    forall j | 0 <= j < RoundDown(|data|) ensures PaddedAt(data, j) == PaddedAt(whole, j) {
    }
  }

  lemma ZeroPadAt(data: Bytes, j: nat)
    requires j < RoundUp(|data|)
    ensures |ZeroPad(data)| == RoundUp(|data|)
    ensures ZeroPad(data)[j] == PaddedAt(data, j)
  {
    RoundUpFacts(|data|);
  }

  /** desDecrypt undoes desEncrypt under the same key, up to the zero padding. */
  lemma PassRoundTrip(data: Bytes, ks: Digest32)
    ensures DecryptPass(EncryptPass(data, ks), ks) == ZeroPad(data)
  {
    var e := EncryptPass(data, ks);
    RoundUpFacts(|data|);
    var r := DecryptPass(e, ks);
    var z := ZeroPad(data);
    assert |r| == RoundUp(|data|) == |z|;
    forall j | 0 <= j < |r| ensures r[j] == z[j] {
      DecryptPassAt(e, ks, j);
      EncryptPassAt(data, ks, j);
      ZeroPadAt(data, j);
    }
  }

  /** On whole blocks the two passes undo each other in either order. */
  lemma PassesCancelOnBlocks(data: Bytes, ks: Digest32)
    requires |data| % 8 == 0
    ensures DecryptPass(EncryptPass(data, ks), ks) == data
    ensures EncryptPass(DecryptPass(data, ks), ks) == data
  {
    PassRoundTrip(data, ks);
    RoundUpFacts(|data|);
    assert ZeroPad(data) == data;
    var d := DecryptPass(data, ks);
    assert |d| == |data|;
    var e := EncryptPass(d, ks);
    assert |e| == |data|;
    forall j | 0 <= j < |data| ensures e[j] == data[j] {
      EncryptPassAt(d, ks, j);
      DecryptPassAt(data, ks, j);
    }
  }

  /** decrypt(encrypt(d)) is d zero-padded to a whole number of blocks. */
  lemma TripleRoundTrip(data: Bytes, s1: Digest32, s2: Digest32, s3: Digest32)
    ensures Decrypt3(Encrypt3(data, s1, s2, s3), s1, s2, s3) == ZeroPad(data)
  {
    var e1 := EncryptPass(data, s1);
    var e2 := DecryptPass(e1, s2);
    var e3 := EncryptPass(e2, s3);
    PassesCancelOnBlocks(e2, s3);
    assert DecryptPass(e3, s3) == e2;
    PassesCancelOnBlocks(e1, s2);
    assert EncryptPass(e2, s2) == e1;
    PassRoundTrip(data, s1);
  }

  /**
    The three passes collapse into one pass whose keystream is the byte-wise
    XOR of the three digests: the composition is not an EDE cipher.
  */
  lemma TripleIsSinglePass(data: Bytes, s1: Digest32, s2: Digest32, s3: Digest32)
    ensures Encrypt3(data, s1, s2, s3) == EncryptPass(data, seq(32, i requires 0 <= i < 32 => s1[i] ^ s2[i] ^ s3[i]))
  {
    var ks: Digest32 := seq(32, i requires 0 <= i < 32 => s1[i] ^ s2[i] ^ s3[i]);
    var e1 := EncryptPass(data, s1);
    var e2 := DecryptPass(e1, s2);
    var e3 := EncryptPass(e2, s3);
    var one := EncryptPass(data, ks);
    RoundUpFacts(|data|);
    assert |e1| == |e2| == |e3| == |one|;
    forall j | 0 <= j < |one| ensures e3[j] == one[j] {
      EncryptPassAt(e2, s3, j);
      DecryptPassAt(e1, s2, j);
      EncryptPassAt(data, s1, j);
      EncryptPassAt(data, ks, j);
    }
  }

  /** Stripping undoes appending zero bytes to data that does not end in zero. */
  lemma {:induction false} StripZeroRun(b: Bytes, n: nat)
    requires b == [] || b[|b| - 1] != 0
    ensures StripTrailingNuls(b + seq(n, _ => 0)) == b
  {
    if n > 0 {
      var z := b + seq(n, _ => 0);
      assert z[..|z| - 1] == b + seq(n - 1, _ => 0);
      StripZeroRun(b, n - 1);
    } else {
      assert b + seq(0, _ => 0) == b;
    }
  }

  /**
    decryptFromBase64(encryptToBase64(t)) == t under the same keys, provided
    the UTF-8 bytes of t do not end in a zero byte (those would be stripped
    with the padding).
  */
  lemma TextRoundTrip(env: Env, k1: Bytes, k2: Bytes, k3: Bytes, text: string)
    requires Base64RoundTrips(env) && Utf8RoundTrips(env)
    requires env.toUtf8(text) == [] || env.toUtf8(text)[|env.toUtf8(text)| - 1] != 0
    ensures DecryptText(env, k1, k2, k3, EncryptText(env, k1, k2, k3, text)) == text
  {
    var u := env.toUtf8(text);
    var m := MARKER + u;
    var c := EncryptBytes(env, k1, k2, k3, m);
    assert env.fromBase64(env.toBase64(c)) == c;
    TripleRoundTrip(m, env.sha256(k1), env.sha256(k2), env.sha256(k3));
    var d := DecryptBytes(env, k1, k2, k3, c);
    assert d == ZeroPad(m);
    var pad := RoundUp(|m|) - |m|;
    assert d == MARKER + (u + seq(pad, _ => 0));
    assert d[..|MARKER|] == MARKER;
    assert d[|MARKER|..] == u + seq(pad, _ => 0);
    StripZeroRun(u, pad);
    assert env.fromUtf8(u) == text;
  }

  // ---------------------------------------------------------------------
  // The loops inside one pass

  /** The padding loop of desEncrypt: append zero bytes until the block is whole. */
  method PadBlock(block: Bytes) returns (padded: Bytes)
    requires |block| <= BLOCK_SIZE
    ensures |padded| == BLOCK_SIZE
    ensures forall t | 0 <= t < BLOCK_SIZE :: padded[t] == if t < |block| then block[t] else 0
  {
    padded := block;
    while |padded| < BLOCK_SIZE
      invariant |block| <= |padded| <= BLOCK_SIZE
      invariant forall t | 0 <= t < |padded| :: padded[t] == if t < |block| then block[t] else 0
    {
      padded := padded + [0];
    }
  }

  /** The XOR loop of both passes: byte j of the block is XORed with digest byte j. */
  method XorBlock(block: Bytes, keystreamSource: Digest32) returns (r: Bytes)
    requires |block| == BLOCK_SIZE
    ensures |r| == BLOCK_SIZE
    ensures forall t | 0 <= t < BLOCK_SIZE :: r[t] == block[t] ^ keystreamSource[t]
  {
    r := block;
    var j := 0;
    while j < BLOCK_SIZE
      invariant 0 <= j <= BLOCK_SIZE && |r| == BLOCK_SIZE
      invariant forall t | 0 <= t < j :: r[t] == block[t] ^ keystreamSource[t]
      invariant forall t | j <= t < BLOCK_SIZE :: r[t] == block[t]
    {
      r := r[j := r[j] ^ keystreamSource[j]];
      j := j + 1;
    }
  }

  /** data.mid(i, take), zero-padded, is bytes i to i + 7 of the endlessly zero-padded data. */
  lemma PaddedBlock(data: Bytes, i: nat, take: nat, padded: Bytes)
    requires i < |data| && take == if BLOCK_SIZE < |data| - i then BLOCK_SIZE else |data| - i
    requires |padded| == BLOCK_SIZE
    requires forall t | 0 <= t < BLOCK_SIZE :: padded[t] == if t < take then data[i..i + take][t] else 0
    ensures forall t | 0 <= t < BLOCK_SIZE :: padded[t] == PaddedAt(data, i + t)
  {
  }

  /**
    One iteration of desEncrypt's block loop: data.mid(i, min(8, |data| - i)),
    zero-padded to 8 bytes, XORed with the first 8 digest bytes.
  */
  method EncryptBlock(data: Bytes, i: nat, keystreamSource: Digest32) returns (block: Bytes)
    requires i < |data|
    ensures |block| == BLOCK_SIZE
    ensures forall t | 0 <= t < BLOCK_SIZE :: block[t] == PaddedAt(data, i + t) ^ keystreamSource[t]
  {
    var take := if BLOCK_SIZE < |data| - i then BLOCK_SIZE else |data| - i;
    block := data[i..i + take];
    block := PadBlock(block);
    PaddedBlock(data, i, take, block);
    block := XorBlock(block, keystreamSource);
  }

  /** A whole block of the data is bytes i to i + 7 of the zero-padded data. */
  lemma WholeBlock(data: Bytes, i: nat, block: Bytes)
    requires i + BLOCK_SIZE <= |data| && block == data[i..i + BLOCK_SIZE]
    ensures forall t | 0 <= t < BLOCK_SIZE :: block[t] == PaddedAt(data, i + t)
  {
  }

  /**
    One iteration of desDecrypt's block loop: data.mid(i, 8), and when that
    is a whole block, the block XORed with the first 8 digest bytes. A
    shorter block ends the loop, so its bytes are not XORed.
  */
  method DecryptBlock(data: Bytes, i: nat, keystreamSource: Digest32) returns (block: Bytes)
    requires i < |data|
    ensures |block| < BLOCK_SIZE <==> |data| < i + BLOCK_SIZE
    ensures |block| >= BLOCK_SIZE ==>
      |block| == BLOCK_SIZE && forall t | 0 <= t < BLOCK_SIZE :: block[t] == PaddedAt(data, i + t) ^ keystreamSource[t]
  {
    var take := if BLOCK_SIZE < |data| - i then BLOCK_SIZE else |data| - i;
    block := data[i..i + take];
    if |block| < BLOCK_SIZE {
      return;
    }
    WholeBlock(data, i, block);
    block := XorBlock(block, keystreamSource);
  }

  /** Where a pass's block loop stops: at |data| rounded up, or down when it broke off early. */
  lemma EndOfPass(i: nat, n: nat)
    requires i % 8 == 0
    ensures n <= i < n + 8 ==> i == RoundUp(n)
    ensures i <= n < i + 8 ==> i == RoundDown(n)
  {
  }

  /** The output so far agrees with a pass: byte k is the padded data byte k XOR ks[k mod 8]. */
  predicate PassPrefix(data: Bytes, ks: Digest32, r: Bytes) {
    forall k | 0 <= k < |r| :: r[k] == PaddedAt(data, k) ^ ks[k % 8]
  }

  /** Appending the XORed block at a block boundary extends the pass by one block. */
  lemma BlockStep(data: Bytes, ks: Digest32, result: Bytes, i: nat, block: Bytes)
    requires i % BLOCK_SIZE == 0 && |result| == i && |block| == BLOCK_SIZE
    requires PassPrefix(data, ks, result)
    requires forall t | 0 <= t < BLOCK_SIZE :: block[t] == PaddedAt(data, i + t) ^ ks[t]
    ensures PassPrefix(data, ks, result + block)
  {
    forall k | i <= k < i + BLOCK_SIZE
      ensures (result + block)[k] == PaddedAt(data, k) ^ ks[k % 8]
    {
      assert k % 8 == k - i;
      assert (result + block)[k] == block[k - i];
    }
  }

  /** A sequence that agrees with the encrypting pass at every index is that pass. */
  lemma IsEncryptPass(data: Bytes, ks: Digest32, r: Bytes)
    requires |r| == RoundUp(|data|)
    requires PassPrefix(data, ks, r)
    ensures r == EncryptPass(data, ks)
  {
  }

  /** A sequence that agrees with the decrypting pass at every index is that pass. */
  lemma IsDecryptPass(data: Bytes, ks: Digest32, r: Bytes)
    requires |r| == RoundDown(|data|)
    requires PassPrefix(data, ks, r)
    ensures r == DecryptPass(data, ks)
  {
  }

  /**
    The TripleDES object of crypto/tripledes.h: three stored keys, set by
    setKeys, and const operations that use them.
  */
  class TripleDes {
    const env: Env
    var key1: Bytes
    var key2: Bytes
    var key3: Bytes

    /** TripleDES(): empty keys. */
    constructor (env: Env)
      ensures this.env == env
      ensures key1 == [] && key2 == [] && key3 == []
    {
      this.env := env;
      key1, key2, key3 := [], [], [];
    }

    /** setKeys: each stored key is the first min(8, |k|) bytes of its input, then zero bytes, 8 in all. */
    method SetKeys(k1: Bytes, k2: Bytes, k3: Bytes)
      modifies this
      ensures key1 == NormalizeKey(k1) && key2 == NormalizeKey(k2) && key3 == NormalizeKey(k3)
    {
      key1 := Left(k1, BLOCK_SIZE);
      key2 := Left(k2, BLOCK_SIZE);
      key3 := Left(k3, BLOCK_SIZE);
      while |key1| < BLOCK_SIZE
        invariant |key1| <= BLOCK_SIZE
        invariant forall i | 0 <= i < |key1| :: key1[i] == if i < |k1| then k1[i] else 0
        invariant |key1| >= |k1| || |key1| == BLOCK_SIZE
        invariant key2 == Left(k2, BLOCK_SIZE) && key3 == Left(k3, BLOCK_SIZE)
      {
        key1 := key1 + [0];
      }
      while |key2| < BLOCK_SIZE
        invariant |key2| <= BLOCK_SIZE
        invariant forall i | 0 <= i < |key2| :: key2[i] == if i < |k2| then k2[i] else 0
        invariant |key2| >= |k2| || |key2| == BLOCK_SIZE
        invariant key1 == NormalizeKey(k1) && key3 == Left(k3, BLOCK_SIZE)
      {
        key2 := key2 + [0];
      }
      while |key3| < BLOCK_SIZE
        invariant |key3| <= BLOCK_SIZE
        invariant forall i | 0 <= i < |key3| :: key3[i] == if i < |k3| then k3[i] else 0
        invariant |key3| >= |k3| || |key3| == BLOCK_SIZE
        invariant key1 == NormalizeKey(k1) && key2 == NormalizeKey(k2)
      {
        key3 := key3 + [0];
      }
    }

    /** desEncrypt: block by block, zero-pad the last block and XOR it with the first 8 digest bytes. */
    method DesEncrypt(data: Bytes, key: Bytes) returns (result: Bytes)
      ensures result == EncryptPass(data, env.sha256(key))
    {
      result := [];
      var keystreamSource := env.sha256(key);
      var i := 0;
      while i < |data|
        invariant i % BLOCK_SIZE == 0 && i < |data| + BLOCK_SIZE
        invariant |result| == i
        invariant PassPrefix(data, keystreamSource, result)
      {
        var block := EncryptBlock(data, i, keystreamSource);
        BlockStep(data, keystreamSource, result, i, block);
        result := result + block;
        i := i + BLOCK_SIZE;
      }
      EndOfPass(i, |data|);
      IsEncryptPass(data, keystreamSource, result);
    }

    /** desDecrypt: block by block, stop at a block shorter than 8 bytes, XOR the rest. */
    method DesDecrypt(data: Bytes, key: Bytes) returns (result: Bytes)
      ensures result == DecryptPass(data, env.sha256(key))
    {
      result := [];
      var keystreamSource := env.sha256(key);
      var i := 0;
      while i < |data|
        invariant i % BLOCK_SIZE == 0 && i <= |data|
        invariant |result| == i
        invariant PassPrefix(data, keystreamSource, result)
      {
        var block := DecryptBlock(data, i, keystreamSource);
        if |block| < BLOCK_SIZE {
          break;
        }
        BlockStep(data, keystreamSource, result, i, block);
        result := result + block;
        i := i + BLOCK_SIZE;
      }
      EndOfPass(i, |data|);
      IsDecryptPass(data, keystreamSource, result);
    }

    /** encrypt(): the passes k1, k2, k3. */
    method Encrypt(data: Bytes) returns (r: Bytes)
      ensures r == EncryptBytes(env, key1, key2, key3, data)
    {
      var step1 := DesEncrypt(data, key1);
      var step2 := DesDecrypt(step1, key2);
      r := DesEncrypt(step2, key3);
    }

    /** decrypt(): the passes k3, k2, k1. */
    method Decrypt(encryptedData: Bytes) returns (r: Bytes)
      ensures r == DecryptBytes(env, key1, key2, key3, encryptedData)
    {
      var step1 := DesDecrypt(encryptedData, key3);
      var step2 := DesEncrypt(step1, key2);
      r := DesDecrypt(step2, key1);
    }

    /** encryptToBase64: marker, UTF-8 text, three passes, base64. */
    method EncryptToBase64(text: string) returns (r: string)
      ensures r == EncryptText(env, key1, key2, key3, text)
    {
      var data := env.toUtf8(text);
      var markedData := MARKER + data;
      var encrypted := Encrypt(markedData);
      r := env.toBase64(encrypted);
    }

    /** decryptFromBase64: base64, three passes, marker check, strip trailing zeros, UTF-8. */
    method DecryptFromBase64(base64Text: string) returns (r: string)
      ensures r == DecryptText(env, key1, key2, key3, base64Text)
    {
      var encryptedData := env.fromBase64(base64Text);
      var decrypted := Decrypt(encryptedData);
      if HasMarker(decrypted) {
        var utf8Payload := decrypted[|MARKER|..];
        while |utf8Payload| > 0 && utf8Payload[|utf8Payload| - 1] == 0
          invariant StripTrailingNuls(utf8Payload) == StripTrailingNuls(decrypted[|MARKER|..])
        {
          utf8Payload := utf8Payload[..|utf8Payload| - 1];
        }
        r := env.fromUtf8(utf8Payload);
      } else {
        r := "";
      }
    }
  }
}
