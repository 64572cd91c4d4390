/** The key of an escrowed item: keccak256 of the packed fields, as an ideal hash. */
module ItemKeys {
  import opened Addresses
  import opened Erc20

  /** keccak256, taken to be injective on its input bytes. */
  datatype Hash = Keccak(preimage: Bytes)

  /** The k low-order bytes of n, most significant first. */
  function BigEndian(n: nat, k: nat): (b: Bytes)
    ensures |b| == k
    decreases n, k
  {
    if k == 0 then [] else BigEndian(n / 256, k - 1) + [n % 256]
  }

  function Pow256(k: nat): nat {
    if k == 0 then 1 else 256 * Pow256(k - 1)
  }

  lemma {:induction false} BigEndianInjective(n: nat, m: nat, k: nat)
    requires n < Pow256(k) && m < Pow256(k) && BigEndian(n, k) == BigEndian(m, k)
    ensures n == m
    decreases k
  {
    if k > 0 {
      var a, b := BigEndian(n, k), BigEndian(m, k);
      assert a[k - 1] == b[k - 1];
      assert a[..k - 1] == BigEndian(n / 256, k - 1);
      assert b[..k - 1] == BigEndian(m / 256, k - 1);
      BigEndianInjective(n / 256, m / 256, k - 1);
    }
  }

  lemma Pow256Four(k: nat)
    ensures Pow256(k + 4) == 0x1_0000_0000 * Pow256(k)
  {
    assert Pow256(k + 4) == 256 * Pow256(k + 3);
    assert Pow256(k + 2) == 256 * Pow256(k + 1);
  }

  lemma Word256Fits()
    ensures Pow256(32) == TWO_256
  {
    Pow256Four(0);
    Pow256Four(4);
    Pow256Four(8);
    Pow256Four(12);
    Pow256Four(16);
    Pow256Four(20);
    Pow256Four(24);
    Pow256Four(28);
  }

  function Word256(n: uint256): (b: Bytes)
    ensures |b| == 32
  {
    BigEndian(n, 32)
  }

  lemma Word256Injective(n: uint256, m: uint256)
    requires Word256(n) == Word256(m)
    ensures n == m
  {
    Word256Fits();
    BigEndianInjective(n, m, 32);
  }

  /** The number that these bytes spell, most significant byte first. */
  function BytesValue(b: Bytes): nat {
    if b == [] then 0 else 256 * BytesValue(b[..|b| - 1]) + b[|b| - 1]
  }

  lemma {:induction false} BigEndianValue(n: nat, k: nat)
    requires n < Pow256(k)
    ensures BytesValue(BigEndian(n, k)) == n
    decreases k
  {
    if k > 0 {
      var b := BigEndian(n, k);
      assert b[..k - 1] == BigEndian(n / 256, k - 1);
      BigEndianValue(n / 256, k - 1);
    }
  }

  /** abi.encodePacked of the item's fields; only the recipient has no fixed length. */
  function Packed(sender: EthAddress, recipient: Bytes, token: EthAddress, amount: uint256, nonce: uint256): Bytes {
    sender + (recipient + (token + (Word256(amount) + Word256(nonce))))
  }

  function ItemKey(sender: EthAddress, recipient: Bytes, token: EthAddress, amount: uint256, nonce: uint256): Hash {
    Keccak(Packed(sender, recipient, token, amount, nonce))
  }

  /** The part of the bytes from position i that is followed by the rest. */
  lemma PartAt(p: Bytes, i: nat, part: Bytes, rest: Bytes)
    requires i <= |p| && p[i..] == part + rest
    ensures i + |part| <= |p| && p[i..i + |part|] == part && p[i + |part|..] == rest
  {
    var tail := p[i..];
    assert |p| == i + |tail|;
    assert tail[..|part|] == part && tail[|part|..] == rest;
    assert p[i..i + |part|] == tail[..|part|];
    assert p[i + |part|..] == tail[|part|..];
  }

  /**
   Where each field lies in the hashed bytes: 20 of the sender, the recipient, 20 of the token, then two 32-byte
   words.
   */
  lemma PackedLayout(sender: EthAddress, recipient: Bytes, token: EthAddress, amount: uint256, nonce: uint256)
    ensures
      var p, n := ItemKey(sender, recipient, token, amount, nonce).preimage, |recipient|;
      && |p| == n + 104
      && p[..20] == sender && p[20..n + 20] == recipient && p[n + 20..n + 40] == token
      && BytesValue(p[n + 40..n + 72]) == amount && BytesValue(p[n + 72..]) == nonce
  {
    var p, n := Packed(sender, recipient, token, amount, nonce), |recipient|;
    var words := Word256(amount) + Word256(nonce);
    assert p[0..] == p;
    PartAt(p, 0, sender, recipient + (token + words));
    PartAt(p, 20, recipient, token + words);
    PartAt(p, n + 20, token, words);
    PartAt(p, n + 40, Word256(amount), Word256(nonce));
    WordValue(amount);
    WordValue(nonce);
  }

  lemma WordValue(n: uint256)
    ensures BytesValue(Word256(n)) == n
  {
    Word256Fits();
    BigEndianValue(n, 32);
  }

  lemma ConcatInjective(a: Bytes, x: Bytes, b: Bytes, y: Bytes)
    requires a + x == b + y && (|a| == |b| || |x| == |y|)
    ensures a == b && x == y
  {
    assert |a| == |b|;
    assert a == (a + x)[..|a|] == (b + y)[..|b|] == b;
    assert x == (a + x)[|a|..] == (b + y)[|b|..] == y;
  }

  /** The key determines every field, although the packing has no separators and the recipient any length. */
  lemma ItemKeyInjective(
    s1: EthAddress, r1: Bytes, t1: EthAddress, a1: uint256, n1: uint256,
    s2: EthAddress, r2: Bytes, t2: EthAddress, a2: uint256, n2: uint256)
    requires ItemKey(s1, r1, t1, a1, n1) == ItemKey(s2, r2, t2, a2, n2)
    ensures s1 == s2 && r1 == r2 && t1 == t2 && a1 == a2 && n1 == n2
  {
    ConcatInjective(s1, r1 + (t1 + (Word256(a1) + Word256(n1))), s2, r2 + (t2 + (Word256(a2) + Word256(n2))));
    ConcatInjective(r1, t1 + (Word256(a1) + Word256(n1)), r2, t2 + (Word256(a2) + Word256(n2)));
    ConcatInjective(t1, Word256(a1) + Word256(n1), t2, Word256(a2) + Word256(n2));
    ConcatInjective(Word256(a1), Word256(n1), Word256(a2), Word256(n2));
    Word256Injective(a1, a2);
    Word256Injective(n1, n2);
  }
}
