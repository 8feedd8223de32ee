/** The random salt: a string of symbols drawn from the alphabet. */
module Salt {
  import opened Alphabet

  /** s is a salt of the given length: that many symbols, each in the
      alphabet. A negative length asks for no symbols at all, since a range
      of negative length is empty. */
  predicate IsSalt(s: string, length: int)
  {
    |s| == (if length < 0 then 0 else length) && OverAlphabet(s)
  }

  /** Draws one symbol per position. Each draw is an arbitrary choice among
      the 64 symbols of the alphabet: the model makes no claim about the
      distribution of the random source. */
  method GetRandomSalt(length: int := 8) returns (salt: string)
    ensures IsSalt(salt, length)
  {
    var n := if length < 0 then 0 else length;
    salt := [];
    for j := 0 to n
      invariant IsSalt(salt, j)
    {
      var k :| 0 <= k < |ITOA64|;
      salt := salt + [ITOA64[k]];
    }
  }
}
