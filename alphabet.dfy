/** The fixed 64-symbol alphabet of the portable password hash. */
module Alphabet {

  /** Symbol k of the alphabet by character ranges: '.' and '/', then the
      ten digits, the upper-case and the lower-case letters. */
  function SymbolAt(k: nat): (c: char)
    requires k < 64
    ensures '.' <= c <= 'z'
  {
    if k < 2 then ('.' as int + k) as char
    else if k < 12 then ('0' as int + (k - 2)) as char
    else if k < 38 then ('A' as int + (k - 12)) as char
    else ('a' as int + (k - 38)) as char
  }

  /** The 64 symbols in index order. */
  function Table(): (t: string)
    ensures |t| == 64
  {
    seq(64, k requires 0 <= k < 64 => SymbolAt(k))
  }

  /** The alphabet: symbol k of every encoding in the hash is ITOA64[k].
      It is built by the range rule of SymbolAt rather than written as the
      64-character literal because proofs that index a long string literal
      make the verifier unfold it character by character, which costs far
      more than the arithmetic of the rule. AlphabetLiteral shows that the
      table spells the program's literal exactly. */
  const ITOA64: string := Table()

  /** Every character of s is a symbol of the alphabet. */
  predicate OverAlphabet(s: string)
  {
    forall c :: c in s ==> c in ITOA64
  }

  /** The table spells exactly the program's 64-character literal. */
  lemma AlphabetLiteral()
    ensures ITOA64 == "./0123456789ABCDEFGHIJKLMNOPQRSTUVWXYZabcdefghijklmnopqrstuvwxyz"
  {
    assert ITOA64[..2] == "./";
    assert ITOA64[2..12] == "0123456789";
    assert ITOA64[12..38] == "ABCDEFGHIJKLMNOPQRSTUVWXYZ";
    assert ITOA64[38..] == "abcdefghijklmnopqrstuvwxyz";
    assert ITOA64 == ITOA64[..2] + ITOA64[2..12] + ITOA64[12..38] + ITOA64[38..];
    LowerSplit();
    UpperSplit();
    DigitsSplit();
  }

  lemma LowerSplit()
    ensures "./0123456789ABCDEFGHIJKLMNOPQRSTUVWXYZabcdefghijklmnopqrstuvwxyz"
         == "./0123456789ABCDEFGHIJKLMNOPQRSTUVWXYZ" + "abcdefghijklmnopqrstuvwxyz"
  {
  }

  lemma UpperSplit()
    ensures "./0123456789ABCDEFGHIJKLMNOPQRSTUVWXYZ" == "./0123456789" + "ABCDEFGHIJKLMNOPQRSTUVWXYZ"
  {
  }

  lemma DigitsSplit()
    ensures "./0123456789" == "./" + "0123456789"
  {
  }

  /** No symbol occurs twice: the symbol determines its index. */
  lemma AlphabetDistinct(i: nat, j: nat)
    requires i < 64 && j < 64
    ensures ITOA64[i] == ITOA64[j] <==> i == j
  {
  }

  /** Every symbol is a printable ASCII character from '.' to 'z'. */
  lemma AlphabetAscii(c: char)
    requires c in ITOA64
    ensures '.' <= c <= 'z'
  {
    var k :| 0 <= k < |ITOA64| && ITOA64[k] == c;
  }

  /** The work-factor symbols named in the program's header comment, as the
      literal actually gives them: 7, 10, 14 and 20 map to '5', '8', 'C', 'I'. */
  lemma IterationSymbols()
    ensures ITOA64[7] == '5' && ITOA64[10] == '8'
    ensures ITOA64[14] == 'C' && ITOA64[20] == 'I'
  {
  }
}
