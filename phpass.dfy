/** The portable password hash: setting "$P$", one work-factor symbol and an
    8-symbol salt, followed by 22 symbols of a digest re-hashed 2^log2 times.

    MD5 is a parameter `md5` of every member: the model holds for any
    function from byte strings to 16-byte digests. The password is given as
    the bytes of its UTF-8 encoding. */
module Phpass {
  import opened Alphabet
  import opened Radix
  import opened Salt

  /** A 16-byte message digest, the result of MD5. */
  type Digest = d: seq<byte> | |d| == 16
    witness [0, 0, 0, 0, 0, 0, 0, 0, 0, 0, 0, 0, 0, 0, 0, 0]

  /** The least and the greatest accepted base-2 logarithm of the number of
      re-hashing rounds. */
  const MinIterationLog2: int := 7
  const MaxIterationLog2: int := 30

  /** Why a hash could not be made. */
  datatype HashError = IterationLog2OutOfRange(given: int)

  datatype Result<T> = Ok(value: T) | Err(error: HashError)

  /** 1 << n. */
  function Pow2(n: nat): (p: nat)
    ensures p >= 1
  {
    if n == 0 then 1 else 2 * Pow2(n - 1)
  }

  /** The UTF-8 encoding of a salt: each symbol of the alphabet is an ASCII
      character, so it encodes to the one byte of its code point. */
  function SaltBytes(salt: string): (b: seq<byte>)
    requires OverAlphabet(salt)
    ensures |b| == |salt|
    ensures forall i :: 0 <= i < |salt| ==> b[i] == salt[i] as int
  {
    if salt == [] then []
    else
      AlphabetAscii(salt[0]);
      [salt[0] as int] + SaltBytes(salt[1..])
  }

  /** The digest after n rounds of h := md5(h + password), starting from h. */
  function Stretch(md5: seq<byte> -> Digest, h: Digest, password: seq<byte>, n: nat): Digest
    decreases n
  {
    if n == 0 then h else Stretch(md5, md5(h + password), password, n - 1)
  }

  /** The setting: "$P$", the symbol at index log2 of the alphabet and the
      salt. */
  function Setting(iterationLog2: int, salt: string): (s: string)
    requires MinIterationLog2 <= iterationLog2 <= MaxIterationLog2
    ensures |s| == 4 + |salt|
    ensures s[..3] == "$P$" && s[3] == ITOA64[iterationLog2] && s[4..] == salt
  {
    "$P$" + [ITOA64[iterationLog2]] + salt
  }

  /** The digest that the hash encodes: md5(salt + password), re-hashed
      2^log2 times. */
  function FinalDigest(md5: seq<byte> -> Digest, password: seq<byte>, iterationLog2: int, salt: string): Digest
    requires MinIterationLog2 <= iterationLog2 <= MaxIterationLog2 && OverAlphabet(salt)
  {
    Stretch(md5, md5(SaltBytes(salt) + password), password, Pow2(iterationLog2))
  }

  /** The hash of a password for a given work factor and salt: the setting
      followed by the first 22 symbols of the encoded final digest. */
  function PortableHash(md5: seq<byte> -> Digest, password: seq<byte>, iterationLog2: int, salt: string): string
    requires MinIterationLog2 <= iterationLog2 <= MaxIterationLog2 && OverAlphabet(salt)
  {
    Setting(iterationLog2, salt) + ReferenceEncoding(FinalDigest(md5, password, iterationLog2, salt), 16)[..22]
  }

  /** One more round on top of n rounds is round n + 1. */
  lemma {:induction false} StretchStep(md5: seq<byte> -> Digest, h: Digest, password: seq<byte>, n: nat)
    ensures Stretch(md5, h, password, n + 1) == md5(Stretch(md5, h, password, n) + password)
    decreases n
  {
    if n > 0 {
      StretchStep(md5, md5(h + password), password, n - 1);
    }
  }

  /** m rounds followed by n rounds are m + n rounds. */
  lemma {:induction false} StretchAdditive(md5: seq<byte> -> Digest, h: Digest, password: seq<byte>, m: nat, n: nat)
    ensures Stretch(md5, Stretch(md5, h, password, m), password, n) == Stretch(md5, h, password, m + n)
    decreases m
  {
    if m > 0 {
      StretchAdditive(md5, md5(h + password), password, m - 1, n);
    }
  }

  /** Raising log2 by one doubles the work: the rounds for log2 + 1 are the
      rounds for log2, run twice. */
  lemma StretchDoubling(md5: seq<byte> -> Digest, h: Digest, password: seq<byte>, k: nat)
    ensures Stretch(md5, h, password, Pow2(k + 1))
         == Stretch(md5, Stretch(md5, h, password, Pow2(k)), password, Pow2(k))
  {
    StretchAdditive(md5, h, password, Pow2(k), Pow2(k));
  }

  /** The hash is 34 symbols: "$P$", the work-factor symbol ITOA64[log2], the
      8 salt symbols and 22 symbols of the encoded digest, every one after
      "$P$" from the alphabet. */
  lemma HashLayout(md5: seq<byte> -> Digest, password: seq<byte>, iterationLog2: int, salt: string)
    requires MinIterationLog2 <= iterationLog2 <= MaxIterationLog2 && IsSalt(salt, 8)
    ensures var h := PortableHash(md5, password, iterationLog2, salt);
            |h| == 34 && h[..3] == "$P$" && h[3] == ITOA64[iterationLog2] && h[4..12] == salt &&
            OverAlphabet(h[3..])
  {
    var d := FinalDigest(md5, password, iterationLog2, salt);
    var e := ReferenceEncoding(d, 16);
    EncodingAgrees(d, 16);
    DigestEncodingLength(d);
    EncodingOverAlphabet(d, 16);
    var h := PortableHash(md5, password, iterationLog2, salt);
    assert h == Setting(iterationLog2, salt) + e;
    assert h[3..] == [ITOA64[iterationLog2]] + salt + e;
  }

  /** The first twelve symbols give back the work factor and the salt. */
  lemma HeaderDetermines(md5: seq<byte> -> Digest, p1: seq<byte>, l1: int, s1: string,
                         p2: seq<byte>, l2: int, s2: string)
    requires MinIterationLog2 <= l1 <= MaxIterationLog2 && IsSalt(s1, 8)
    requires MinIterationLog2 <= l2 <= MaxIterationLog2 && IsSalt(s2, 8)
    requires PortableHash(md5, p1, l1, s1)[..12] == PortableHash(md5, p2, l2, s2)[..12]
    ensures l1 == l2 && s1 == s2
  {
    HashLayout(md5, p1, l1, s1);
    HashLayout(md5, p2, l2, s2);
    var h1, h2 := PortableHash(md5, p1, l1, s1), PortableHash(md5, p2, l2, s2);
    assert h1[3] == h1[..12][3] == h2[..12][3] == h2[3];
    AlphabetDistinct(l1, l2);
    assert s1 == h1[..12][4..] == h2[..12][4..] == s2;
  }

  /** The last 22 symbols give back the whole final digest: two hashes with
      the same last 22 symbols encode the same digest. */
  lemma DigestDetermines(md5: seq<byte> -> Digest, p1: seq<byte>, l1: int, s1: string,
                         p2: seq<byte>, l2: int, s2: string)
    requires MinIterationLog2 <= l1 <= MaxIterationLog2 && IsSalt(s1, 8)
    requires MinIterationLog2 <= l2 <= MaxIterationLog2 && IsSalt(s2, 8)
    requires PortableHash(md5, p1, l1, s1)[12..] == PortableHash(md5, p2, l2, s2)[12..]
    ensures FinalDigest(md5, p1, l1, s1) == FinalDigest(md5, p2, l2, s2)
  {
    var d1, d2 := FinalDigest(md5, p1, l1, s1), FinalDigest(md5, p2, l2, s2);
    ReferenceGroupsLength(d1, 0, 16);
    ReferenceGroupsLength(d2, 0, 16);
    var e1, e2 := ReferenceEncoding(d1, 16), ReferenceEncoding(d2, 16);
    assert e1[..22] == e1 && e2[..22] == e2;
    assert PortableHash(md5, p1, l1, s1)[12..] == e1;
    assert PortableHash(md5, p2, l2, s2)[12..] == e2;
    ReferenceEncodingInjective(d1, d2, 16);
    assert d1 == d1[..16] == d2[..16] == d2;
  }

  /** phpass_hash: rejects a work factor outside [7, 30] before drawing any
      salt or computing any digest; otherwise draws an 8-symbol salt and
      returns PortableHash for it. `rounds` counts the calls to MD5: one
      for the salted password and 2^log2 re-hashes. */
  method PhpassHash(md5: seq<byte> -> Digest, password: seq<byte>, iterationLog2: int := 14)
    returns (r: Result<string>, ghost salt: string, ghost rounds: nat)
    ensures r.Err? <==> !(MinIterationLog2 <= iterationLog2 <= MaxIterationLog2)
    ensures r.Ok? ==> |r.value| == 34 && r.value[..3] == "$P$" && r.value[3] == ITOA64[iterationLog2]
                      && OverAlphabet(r.value[3..])
    ensures !(MinIterationLog2 <= iterationLog2 <= MaxIterationLog2) ==>
              r == Err(IterationLog2OutOfRange(iterationLog2)) && salt == [] && rounds == 0
    ensures MinIterationLog2 <= iterationLog2 <= MaxIterationLog2 ==>
              IsSalt(salt, 8) && rounds == Pow2(iterationLog2) + 1 &&
              r == Ok(PortableHash(md5, password, iterationLog2, salt))
  {
    if !(MinIterationLog2 <= iterationLog2 <= MaxIterationLog2) {
      return Err(IterationLog2OutOfRange(iterationLog2)), [], 0;
    }
    var s := GetRandomSalt(8);
    salt := s;
    var setting := "$P$" + [ITOA64[iterationLog2]] + s;
    var count := Pow2(iterationLog2);
    var first := md5(SaltBytes(s) + password);
    var h := first;
    rounds := 1;
    for i := 0 to count
      invariant h == Stretch(md5, first, password, i)
      invariant rounds == i + 1
    {
      StretchStep(md5, first, password, i);
      h := md5(h + password);
      rounds := rounds + 1;
    }
    var encoded := Encode64(h, 16);
    DigestEncodingLength(h);
    EncodingAgrees(h, 16);
    r := Ok(setting + encoded[..22]);
    HashLayout(md5, password, iterationLog2, salt);
  }
}
