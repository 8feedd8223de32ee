# WordPress portable password hash (phpass), modelled in Dafny

`hashWordpress.py` makes WordPress password hashes in the phpass "portable"
format. A hash is 34 characters long. It starts with the setting: the prefix `$P$`,
one character giving the base-2 logarithm of the number of MD5 rounds, and an
8-character random salt. The 22 characters after it are the final MD5 digest, written in a
radix-64 alphabet of 64 symbols (`./0-9A-Za-z`).

The model has four modules:

- `Alphabet` (`alphabet.dfy`): the symbol table `ITOA64`. Its 64 symbols are
  distinct and ASCII, and the table spells exactly the program's string literal.
- `Radix` (`radix.dfy`): `encode64`. The while loop of the program becomes the method
  `Encode64`, which is proved equal to the group-by-group function `Encoding`.
  The lemmas cover:
  - the encoding's length;
  - that every symbol is in the alphabet;
  - the position of every symbol;
  - when the encoding tells inputs apart.

  `ReferenceEncoding` is the encoding with every input bit kept (see Findings).
  It is the one the hash specification uses.
- `Salt` (`salt.dfy`): `get_random_salt`. It is a loop of arbitrary draws from the
  alphabet.
- `Phpass` (`phpass.dfy`): `phpass_hash`. The method `PhpassHash` is proved to:
  - reject a bad work factor before doing any other work;
  - otherwise return `PortableHash` of the salt it drew.

  Lemmas give the 34-character layout. They also show that the header gives
  back the work factor and the salt, and that the last 22 characters give
  back the whole digest. Others describe the chain of MD5 rounds.

The program's bitwise steps on the accumulator (`|`, `<<`, `>>`, `& 0x3f`) are
written as the integer operations they equal (`+`, `*`, `/`, `% 0x40`). This
works because each byte is or-ed in above the bits already set.
`Radix.BitwiseAgrees` states these equalities in 32-bit bit-vector arithmetic, for each shift the loop uses.

## Model

| member | source | states |
|---|---|---|
| Alphabet.AlphabetLiteral | hashWordpress.py:35 | the symbol table is exactly the 64-character literal `./0-9A-Za-z` |
| Alphabet.AlphabetDistinct | hashWordpress.py:35 | no symbol occurs twice: two table entries are equal iff their indices are |
| Alphabet.AlphabetAscii | hashWordpress.py:35 | every symbol is an ASCII character between '.' and 'z', so its UTF-8 encoding is one byte |
| Alphabet.IterationSymbols | hashWordpress.py:20-27 | the work-factor symbols for 7, 10, 14 and 20 are '5', '8', 'C' and 'I'. The literal gives these; the comment's '7', 'A' and 'K' are wrong |
| Salt.GetRandomSalt | hashWordpress.py:38-52 | returns `length` symbols, or none for a negative length, every one from the alphabet |
| Radix.Encode64 | hashWordpress.py:55-96 | the loop's output is `Encoding(input, count)`: the group-by-group encoding, with the loop's early exits after a final group |
| Radix.EncodingLength | hashWordpress.py:73-94 | `count` bytes encode to 0 symbols if count is 0, 4q-1 if count is 3q, and 4q+2 if count is 3q+1 or 3q+2 |
| Radix.DigestEncodingLength | hashWordpress.py:132-133 | a 16-byte digest encodes to exactly 22 symbols, so `encoded[:22]` keeps all of them |
| Radix.SymbolIsTableEntry | hashWordpress.py:76 | each emitted symbol is the table entry at the accumulator masked to six bits, an index in [0, 63] |
| Radix.EncodingOverAlphabet | hashWordpress.py:73-94 | every symbol of the encoding is in the alphabet |
| Radix.BitwiseAgrees | hashWordpress.py:76-94 | in 32-bit arithmetic: or-ing a byte shifted by 8 into a value below 0x100 is adding it, and so is or-ing a byte shifted by 16 into a value below 0x1_0000. `>> 6`, `>> 12` and `>> 18` are division by 0x40, 0x1000 and 0x4_0000, and `& 0x3f` is the remainder mod 0x40 |
| Radix.GroupsDrop | hashWordpress.py:73-94 | after g groups of three bytes, each followed by more input, the rest of the output is the encoding of the remaining bytes |
| Radix.FullGroupLayout | hashWordpress.py:73-94 | symbols 4g to 4g+3 are ITOA64 at the four six-bit fields of v = b0 + 0x100·b1 + 0x1_0000·b2, lowest first, for group g |
| Radix.FinalGroupLayout | hashWordpress.py:76-92 | the final group's symbols are its two lowest six-bit fields for one or two bytes, and its three lowest for three bytes |
| Radix.SymbolsDetermine | hashWordpress.py:76-94 | n symbols tell apart any two values below 0x40^n |
| Radix.PackDetermines | hashWordpress.py:75-87 | a group's accumulator gives back each of its bytes |
| Radix.TruncatedFinalGroup | hashWordpress.py:83-92 | `[0,0]` and `[0,0x10]` both encode to `..` (count 2); `[0,0,0]` and `[0,0,4]` both encode to `...` (count 3) |
| Radix.EncodingShortByOne | hashWordpress.py:83-92 | for every non-zero count other than 3q+1, the output is one symbol shorter than ceil(8·count/6) |
| Radix.EncodingAgrees | hashWordpress.py:55-96 | for count = 3q+1, including the digest's 16, the program's encoding equals the reference encoding |
| Radix.EncodingInjective | hashWordpress.py:55-96 | for count = 3q+1, equal encodings come from equal first `count` bytes |
| Radix.ReferenceGroupsLength | hashWordpress.py:55-96 | the reference encoding of n bytes has ceil(8n/6) symbols |
| Radix.ReferenceEncodingInjective | hashWordpress.py:55-96 | the reference encoding of the first `count` bytes determines those bytes, for every count |
| Phpass.Setting | hashWordpress.py:118 | the setting is `$P$`, then ITOA64[log2] at index 3, then the salt; it is 4 + \|salt\| long |
| Phpass.SaltBytes | hashWordpress.py:125 | the UTF-8 bytes of a salt are its characters' code points, one byte per symbol |
| Phpass.StretchStep | hashWordpress.py:129-130 | the digest after n+1 rounds is md5 of the digest after n rounds followed by the password |
| Phpass.StretchAdditive | hashWordpress.py:129-130 | m rounds and then n more equal m+n rounds |
| Phpass.StretchDoubling | hashWordpress.py:121-130 | the 2^(k+1) rounds of work factor k+1 are the 2^k rounds of work factor k, done twice |
| Phpass.HashLayout | hashWordpress.py:117-133 | the hash has 34 characters: `$P$`, then ITOA64[log2], then the 8-symbol salt, then 22 symbols. Everything after `$P$` is in the alphabet |
| Phpass.HeaderDetermines | hashWordpress.py:118 | two hashes with the same first 12 characters have the same work factor and the same salt |
| Phpass.DigestDetermines | hashWordpress.py:125-133 | two hashes with the same last 22 characters encode the same final digest |
| Phpass.PhpassHash | hashWordpress.py:99-133 | for log2 outside [7, 30], returns the out-of-range error and draws no salt and makes no MD5 call. Otherwise it draws an 8-symbol salt, makes 2^log2 + 1 MD5 calls, and returns `PortableHash`: the setting plus the first 22 symbols of the encoded digest md5(salt‖password) re-hashed 2^log2 times |

## Left out

- MD5 (`hashlib.md5`) is a function parameter of type byte string → 16-byte digest. Every property holds for any such function, and nothing about MD5 itself is modelled.
- `random.choice` is an arbitrary choice of a symbol. The distribution of the random source is not modelled.
- `password.encode('utf-8')`: the password is given as the bytes of its UTF-8 encoding. The encoding of an arbitrary Python string is not modelled. The salt's encoding is modelled (`SaltBytes`), because salt symbols are ASCII.
- `main` (lines 136-152) reads the password from the terminal and prints. It is console I/O and is not modelled.
- Radix.Encode64: requires `count <= |input|`. Past the end, the program raises IndexError, which the model does not represent. `count` is a natural number: for a negative count the program returns the empty string, and the model does not cover that case. The program's only call passes 16. Bytes are integers in [0, 255], as in a Python `bytes` object.
- Phpass.PhpassHash: the work factor is an integer. Arguments of other Python types, which would make the comparison or the shift fail differently, are not modelled.
- Radix.BitwiseAgrees: the step from 32-bit arithmetic to the model's unbounded integers is not proved. All accumulator values are below 2^24, so no 32-bit operation overflows.
- Alphabet.IterationSymbols: the module header comment gives '7', 'A' and 'K' for work factors 7, 10 and 20. The literal gives '5', '8' and 'I', and the model follows the literal.
- Radix.DigestEncodingLength: the docstring of `encode64` says its output is always longer than 22 symbols. For the 16 bytes the program passes, it is exactly 22, and the model follows the code.

## Findings

| source | as written | input that shows it | evidently intended | confidence | as-written member | corrected member |
|---|---|---|---|---|---|---|
| hashWordpress.py:83-92 | after a final group, the loop tests `i >= count` on the index that was already advanced, and leaves one symbol early. Two bytes give 2 symbols instead of 3, and three bytes give 3 instead of 4, so the top bits of the last byte are lost | `encode64(b'\x00\x00\x00', 3)` and `encode64(b'\x00\x00\x04', 3)` are both `...`; `encode64(b'\x00\x00', 2)` and `encode64(b'\x00\x10', 2)` are both `..` | every input bit reaches the output: ceil(8N/6) symbols, with distinct inputs giving distinct encodings | not executed; the hash itself is unaffected, because 16 = 3·5 + 1 and for such counts both encodings agree | Radix.TruncatedFinalGroup | Radix.ReferenceEncodingInjective |
