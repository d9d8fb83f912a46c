# Exom in Dafny

A verified model of the core of Exom, a small Java toolkit built around
**Exomyte**, a line-oriented script interpreter, and the utilities it ships
with. The model follows the Java code class by class. Dafny proves what each
operation computes, the errors it raises, and the properties that relate the
operations to each other.

**The interpreter (`EXMY`).**
- `Exomyte.Exmy` is a class with the interpreter's fields. These are the RAM
  and file variable maps, the handler, namespace and variables paths, and the
  script's lines with a read cursor standing for the `Scanner`.
- Its methods mirror `Handle` and `Run`, including the `if`/`else`/`endif`
  protocol that reads further lines from the shared cursor.
- Each method is proved against a specification function over a `Machine`
  value: `HandleLine`, `Execute`, `RunLines` and the functions they call.
- `ExmyFormat` models `FormatLine`, the character-by-character lexer for
  literals, escapes and `*NAME`/`$NAME` references. The method's loop is
  proved equal to a recursive lexer.
- `ExmyVars` models the `savevars`/`loadvars` byte format.
- `ExomyteFacts` proves the interpreter's properties:
  - what each statement form does;
  - that a failed statement leaves the variables alone;
  - that output is only ever appended;
  - how `if` blocks consume lines;
  - that saving then loading gives the variables back.

**Codecs and ciphers.**
- `Exdp`: the length-prefixed record format and its magic-header framing.
- `Exda`: byte substitution with an inverse dictionary, 8192-byte block
  encryption, and generation of a dictionary from random draws.
- `ByteUtils`: big-endian `int` conversion and hex.
- `Morse`: `Morse` encoding and decoding.
- `Vigenere` and `Rot`: the Vigenère and ROT ciphers.

**Utilities.**
- `StringUtils`: `Trim`, the two argument tokenisers and `Reverse`.
- `TimeUtils`: duration formatting.
- `MathUtils`: primality and the pairwise factorial.
- `ArrayUtils`: `Concat`.
- `Flag`: the flag switches.
- `Excm`: the exception prefix of an EXCM response.
- `Commands`: the command table, alias lookup, info formatting and the
  `ToArgs` command.

**Shared modules.**
- `Jvm` models Java's fixed-width integers, truncating division, casts,
  `substring`/`charAt` with their exceptions, and exceptions as a `Thrown`
  value.
- `Text` models `String.split`, joining and ASCII case mapping.
- `Wrappers` holds `Option` and `Result`.

Calls into code outside the model become parameters: fields of
`Exomyte.Host`, or explicit inputs such as the random draws of
`Exda.Generate`. These are the JavaScript condition evaluator, the EXCH
alias resolution and EXCM execution, `FolderName`, whether a file can be
written, and the iteration order of a `HashMap`.

**Behaviour of the code that the model keeps, where a reader might expect otherwise.**
- An unquoted `if` condition such as `1 == 1` goes through `FormatLine` and fails with "expected * or $". A condition must be quoted or be a variable.
- `"a" + "b"` fails: the pending `+` is read past its end.
- `$NAME = …` requires NAME to be a RAM variable, yet writes the file variables.
- `savevars` truncates lengths to a byte rather than refusing long names or values. `loadvars` then stops at a name length of 128 or more, and throws at a value length of 128 or more.
- `loadvars` on a missing file prints an exception; it is not a no-op.
- An empty right-hand side after `=` throws `StringIndexOutOfBoundsException` rather than storing "".
- `StringUtils.Trim` throws on a non-empty string made only of blanks, since the two indices cross.
- `Handle` catches every exception and prints it, so it never throws. In the model its exceptions become printed lines in `out`.

## Model

| member | source | states |
|---|---|---|
| StringUtils.Reverse | src/Exom/Utils/StringUtils.java:48-51 | the result has the input's length and holds its characters in reverse order |
| StringUtils.ReverseReverse | src/Exom/Utils/StringUtils.java:48-51 | reversing twice gives the input back |
| StringUtils.FirstKeptMeaning | src/Exom/Utils/StringUtils.java:95-96 | the first index loop skips only spaces and tabs and stops at the first other character |
| StringUtils.LastKeptMeaning | src/Exom/Utils/StringUtils.java:97-98 | the second index loop skips only trailing spaces and tabs and stops after the last other character |
| StringUtils.KeptBounds | src/Exom/Utils/StringUtils.java:92-99 | the two loop indices cross exactly when the string is non-empty and all blank, and then they sit at the two ends |
| StringUtils.TrimmedMeaning | src/Exom/Utils/StringUtils.java:92-99 | trimming fails with `StringIndexOutOfBoundsException` exactly for a non-empty all-blank string; otherwise it is a contiguous slice with only blanks cut from either side and no blank at either end |
| StringUtils.Trim | src/Exom/Utils/StringUtils.java:88-99 | `null` gives `null`; otherwise the two loops and `substring` return the trimmed slice, or the exception |
| StringUtils.TrimIdempotent | src/Exom/Utils/StringUtils.java:92-99 | trimming a trimmed string changes nothing |
| StringUtils.ToArgs | src/Exom/Utils/StringUtils.java:171-216 | the tokenising loop returns the tokens of the scan with the `\"` escape and the closing-quote rule |
| StringUtils.ToCmdArgs | src/Exom/Utils/StringUtils.java:125-160 | the older tokenising loop returns the tokens of the scan without the escape, where a quote after an opening quote nests deeper |
| StringUtils.PlainArgsSplit | src/Exom/Utils/StringUtils.java:199-214 | without quotes and backslashes both tokenisers split at every space, consecutive spaces giving empty tokens, and drop only an empty last token |
| StringUtils.QuotedScan | src/Exom/Utils/StringUtils.java:197-198 | inside quotes every character but a quote or backslash, spaces included, joins the current token |
| StringUtils.QuotedArgument | src/Exom/Utils/StringUtils.java:188-204 | a quoted argument becomes one token, its spaces kept and its quotes dropped |
| StringUtils.NoQuoteInTokens | src/Exom/Utils/StringUtils.java:180-198 | without backslashes no token ever holds a quote character: bare quotes are never copied |
| StringUtils.EscapedQuote | src/Exom/Utils/StringUtils.java:180-186 | `\"` puts a quote character into the token |
| StringUtils.DialectsDiffer | src/Exom/Utils/StringUtils.java:134-143 | on `""a b` the two tokenisers disagree: `ToArgs` closes the empty quotation and splits, `ToCmdArgs` nests deeper and keeps the space |
| ArrayUtils.Concat | src/Exom/Utils/ArrayUtils.java:22-27 | when the `int` sum of the lengths passes `Integer.MAX_VALUE` it wraps negative and the allocation throws `NegativeArraySizeException`; otherwise a fresh array of length `a.Length + b.Length` holding `a` then `b`; neither argument changes |
| ArrayUtils.ConcatContents | src/Exom/Utils/ArrayUtils.java:22-27 | the result is the concatenation of the contents, and with an empty `b` it equals `a` |
| Flag.Flags.constructor | src/Exom/Flag.java:41-48 | both switches start off |
| Flag.Flags.Toggle | src/Exom/Flag.java:55-66 | the new switches and the exception are those of `Toggled` on the old switches |
| Flag.ToggleEffect | src/Exom/Flag.java:55-66 | a refused flag changes nothing; a flag is accepted exactly when it is one of the four spellings; `-m`/`--minimal` flips only `Minimal`, `-c`/`--no-chronometer` only `NoChronometer` |
| Flag.NoDashRefused | src/Exom/Flag.java:56-57 | a flag not starting with `-` throws `InvalidFlagException` with the quoted-flag message and no state change |
| Flag.ToggleTwice | src/Exom/Flag.java:59-62 | toggling the same accepted flag twice restores the switches |
| Flag.CaseSensitive | src/Exom/Flag.java:59-65 | matching is exact: `-M` is refused |
| Excm.GetException | src/Exom/Exomyte/EXCM.java:115-119 | a response that starts with the marker `Exception:` is the marker followed by the result; any other response gives "" |
| Excm.MarkedText | src/Exom/Exomyte/EXCM.java:115-119 | a response made of the marker `Exception:` and any text gives back that text |
| Excm.RecoversCaught | src/Exom/Exomyte/EXCM.java:78-79 | the exception text the generated `Execute` returns from its catch block is recovered exactly |
| Excm.ExceptionFound | src/Exom/Exomyte/EXCM.java:115-119 | a non-empty result is what follows the marker at the start of the response; a response shorter than 10 characters, or not starting with the marker, gives "" |
| Constants.Spelled | src/Exom/Utils/Cryptography/Constants.java:40-47 | the two alphabets are the literals `abc…z` and `ABC…Z` |
| Constants.InAlphabet | src/Exom/Utils/Cryptography/Constants.java:40-47 | a character is in an alphabet exactly when it is an ASCII letter of that case |
| ByteUtils.ToUnsigned | src/Exom/Utils/ByteUtils.java:98-101 | the unsigned value is in 0..255, equals the byte modulo 256, and casts back to the same byte |
| ByteUtils.UnsignedOfByte | src/Exom/Utils/ByteUtils.java:98-101 | every value in 0..255 is the unsigned value of its byte |
| ByteUtils.ValueInjective | src/Exom/Utils/ByteUtils.java:130-137 | two byte sequences of one length that read as the same big-endian value are equal |
| ByteUtils.BigEndianValue | src/Exom/Utils/ByteUtils.java:112-119 | the `k` big-endian low bytes of `n` read back as `n` modulo 256^k |
| ByteUtils.IntToBytes | src/Exom/Utils/ByteUtils.java:112-119 | a fresh 4-byte array, most significant byte first, that reads back big-endian as `data` modulo 2^32 |
| ByteUtils.ToInt | src/Exom/Utils/ByteUtils.java:130-137 | the first four bytes read big-endian as a 32-bit `int`, later bytes ignored; fewer than four bytes throw `ArrayIndexOutOfBoundsException` at the missing index |
| ByteUtils.IntBytesRoundTrip | src/Exom/Utils/ByteUtils.java:112-137 | `ToInt(IntToBytes(x)) == x` for every 32-bit `x` |
| ByteUtils.BytesIntRoundTrip | src/Exom/Utils/ByteUtils.java:112-137 | `IntToBytes(ToInt(data))` is the first four bytes of `data` |
| ByteUtils.HexDigit | src/Exom/Utils/ByteUtils.java:85 | the digit written for a value below 16 reads back as that value |
| ByteUtils.HexLayout | src/Exom/Utils/ByteUtils.java:82-87 | byte `i` is written, as two digits of its unsigned value, at positions `2i` and `2i + 1` |
| ByteUtils.UnhexHex | src/Exom/Utils/ByteUtils.java:82-87 | the hexadecimal text reads back as the bytes it was made from |
| ByteUtils.ToHex | src/Exom/Utils/ByteUtils.java:82-87 | the builder loop returns two hexadecimal digits per byte, in order |
| Exdp.Encode | src/Exom/Utils/Cryptography/EXDP.java:112-134 | the nested write loops return the items' records in list order, or `IllegalArgumentException` "Name length is greater than 255." for the first over-long name |
| Exdp.WriteRecord | src/Exom/Utils/Cryptography/EXDP.java:116-130 | one record: the name-length byte, the ASCII name, four big-endian value-length bytes, then the value |
| Exdp.EncodedLength | src/Exom/Utils/Cryptography/EXDP.java:120-130 | the encoding has five bytes per item besides its name and value |
| Exdp.RecordLayout | src/Exom/Utils/Cryptography/EXDP.java:121-130 | where each field of a record lies: length byte at 0, name from 1, value length in the next four bytes, then the value |
| Jvm.CopyOfRange | src/Exom/Utils/Cryptography/EXDP.java:151-157 | `Arrays.copyOfRange` with its length `to - from` computed as an `int`: it succeeds exactly when that length is non-negative and `from` lies in the data; the copy has that length, holds the data from `from` and zeros past its end, and is the slice `data[from..to]` when the range lies inside |
| Exdp.Field | src/Exom/Utils/Cryptography/EXDP.java:151-157 | `copyOfRange(data, u, u + n)` then `u += n`, both as `int`s: it succeeds exactly for a cursor inside the data and a non-negative `n`; the field has `n` bytes, the data's own where it lies inside, and the cursor becomes `u + n` wrapped to an `int` |
| Exdp.Step | src/Exom/Utils/Cryptography/EXDP.java:150-159 | one turn of the read loop, when it succeeds, moves the cursor forward to just after the record while that stays below 2^31; otherwise the cursor has wrapped to a negative value |
| Exdp.Decode | src/Exom/Utils/Cryptography/EXDP.java:145-163 | the loop reads records at the cursor, appending items in stream order, until the cursor reaches the end of the data; a cursor that wrapped negative makes the next `data[u++]` throw `ArrayIndexOutOfBoundsException` |
| Exdp.WrappedStep | src/Exom/Utils/Cryptography/EXDP.java:154-157 | the data `00 7F FF FF FF`: a value length of `Integer.MAX_VALUE` is taken as that many bytes and the cursor wraps to -2147483644 |
| Exdp.WrappedCursor | src/Exom/Utils/Cryptography/EXDP.java:148-157 | on the same data, `Decode` throws `ArrayIndexOutOfBoundsException` at index -2147483644 |
| Exdp.DecodeRecord | src/Exom/Utils/Cryptography/EXDP.java:150-159 | the record of an item with a short ASCII name, wherever it lies, is read back as that item and the cursor lands just after it |
| Exdp.EncodeDecode | src/Exom/Utils/Cryptography/EXDP.java:112-163 | `Decode(Encode(items)) == items` for names of at most 255 US-ASCII characters |
| Exdp.LongNameRefused | src/Exom/Utils/Cryptography/EXDP.java:117-119 | any name longer than 255 characters makes `Encode` throw `IllegalArgumentException` |
| Exdp.Pack | src/Exom/Utils/Cryptography/EXDP.java:181-194 | without a key, the output is the four magic bytes followed by the data |
| Exdp.Unpack | src/Exom/Utils/Cryptography/EXDP.java:245-256 | without a key, accepts exactly the data starting with the `EXDP` magic (a shorter input fails too) and gives back what follows it; other data throws `IllegalArgumentException` "Initial bytes from input do not match EXDP_MAGIC." |
| Exdp.PackUnpack | src/Exom/Utils/Cryptography/EXDP.java:181-194 | without a key, `Pack` writes the magic followed by the data, and `Unpack(Pack(d)) == d` |
| Exda.MapAt | src/Exom/Utils/Cryptography/EXDA.java:214-215 | byte `i` of a replacement is the dictionary entry at the unsigned value of data byte `i` |
| Exda.Replace | src/Exom/Utils/Cryptography/EXDA.java:211-218 | a fresh array holding the replacement of `data`, or the exception of the loop; `data` is not changed |
| Exda.ReplacedMeaning | src/Exom/Utils/Cryptography/EXDA.java:211-218 | `Replace` succeeds exactly when `offset..count-1` lies in the data with an entry for every byte there (or the range is empty); the result has the data's length, the replaced bytes in the range and zeros outside it |
| Exda.ReplaceErrors | src/Exom/Utils/Cryptography/EXDA.java:214-215 | a negative offset throws `ArrayIndexOutOfBoundsException` first; otherwise the first byte without an entry, or the data's length when `count` runs past it, is the index named |
| Exda.Read | src/Exom/Utils/Cryptography/EXDA.java:65 | `in.read(buffer)` on the data at a position: -1 at the end, otherwise up to 8192 next bytes copied to the buffer's start, the rest of the buffer kept |
| Exda.Encrypt | src/Exom/Utils/Cryptography/EXDA.java:35-68 | the read loop over a reused 8192-byte buffer writes each whole replaced buffer, giving the encryption of the data |
| Exda.BufferBlock | src/Exom/Utils/Cryptography/EXDA.java:65-66 | stale bytes left in the buffer after a short read do not change the block written |
| Exda.EncryptedMeaning | src/Exom/Utils/Cryptography/EXDA.java:35-68 | `Encrypt` succeeds exactly when every byte has an entry (always, for 256 entries); the output is the replaced data followed by zeros up to a whole number of 8192-byte blocks |
| Exda.EncryptedLength | src/Exom/Utils/Cryptography/EXDA.java:35-68 | the output length is a multiple of 8192, at least the data's length and less than 8192 more |
| Exda.EncryptRefused | src/Exom/Utils/Cryptography/EXDA.java:65-66 | the first byte without an entry makes `Encrypt` throw, naming its unsigned value |
| Exda.GetDictionaryPair | src/Exom/Utils/Cryptography/EXDA.java:190-197 | a fresh 256-byte array with `(byte) u` at the unsigned value of entry `u`, or the exception for a dictionary shorter than 256 |
| Exda.PairAfterAt | src/Exom/Utils/Cryptography/EXDA.java:193-194 | after `k` turns, the slot of each of the first `k` distinct entries holds that entry's index |
| Exda.PairInverse | src/Exom/Utils/Cryptography/EXDA.java:190-197 | a dictionary and its pair undo each other |
| Exda.MapInverse | src/Exom/Utils/Cryptography/EXDA.java:190-218 | replacing with a dictionary and then with its pair gives the data back |
| Exda.Decrypt | src/Exom/Utils/Cryptography/EXDA.java:82-84 | `Decrypt` is `Encrypt` with the pair of the dictionary |
| Exda.DecryptEncrypt | src/Exom/Utils/Cryptography/EXDA.java:35-98 | for a dictionary, decrypting the encryption gives the data back, followed by the padding zeros of the last block decrypted to the pair's entry at 0 |
| Exda.Generate | src/Exom/Utils/Cryptography/EXDA.java:107-125 | a fresh 256-byte array of the pool bytes chosen by the draws, each removed from the pool once chosen |
| Exda.DrawnPermutes | src/Exom/Utils/Cryptography/EXDA.java:116-122 | the draws of a whole pool are a reordering of it |
| Exda.GeneratedIsDictionary | src/Exom/Utils/Cryptography/EXDA.java:107-179 | whatever the random generator gives, `Generate` returns a permutation of all 256 byte values |
| Exda.MapConcat | src/Exom/Utils/Cryptography/EXDA.java:214-215 | replacing two parts one after the other is replacing their concatenation |
| Exda.ReplaceFromMeaning | src/Exom/Utils/Cryptography/EXDA.java:214-215 | the loop from index `u` succeeds exactly when every index it reaches is inside the data with an entry, and then sets just those positions |
| Exda.BlockMeaning | src/Exom/Utils/Cryptography/EXDA.java:65-66 | a chunk's block is its replacement followed by zeros to 8192 bytes, and exists exactly when every byte has an entry |
| Exda.EncryptRestValue | src/Exom/Utils/Cryptography/EXDA.java:65-67 | when every remaining byte has an entry, the loop appends their replacement and the padding of the last block |
| Exda.WholeBlocksOf | src/Exom/Utils/Cryptography/EXDA.java:61-67 | with its padding the data fills a whole number of 8192-byte blocks |
| Exda.FullDictionary | src/Exom/Utils/Cryptography/EXDA.java:214-215 | every byte has an entry in a dictionary of at least 256 bytes |
| Exda.AllBytes | src/Exom/Utils/Cryptography/EXDA.java:113-114 | the pool holds -128 up to 127 in order |
| Exda.AllBytesOnce | src/Exom/Utils/Cryptography/EXDA.java:113-114 | each byte value occurs in the pool once, at its offset from -128 |
| Exda.DictionaryDistinct | src/Exom/Utils/Cryptography/EXDA.java:107-125 | a dictionary's 256 entries are distinct |
| Morse.Spell | src/Exom/Utils/Cryptography/Ciphers/Morse.java:101-161 | a code number spells a string of dots and dashes, non-empty from 2 on |
| Morse.NumberSpell | src/Exom/Utils/Cryptography/Ciphers/Morse.java:101-161 | numbering a spelled code gives the number back |
| Morse.SpellNumber | src/Exom/Utils/Cryptography/Ciphers/Morse.java:101-161 | exactly the strings of dots and dashes have a number, and spelling it gives the string back |
| Morse.ScanFound | src/Exom/Utils/Cryptography/Ciphers/Morse.java:100-231 | the chain of `if`s stops only at an entry holding the value compared |
| Morse.ScanKey | src/Exom/Utils/Cryptography/Ciphers/Morse.java:101-161 | testing an entry's character, the chain reaches that entry |
| Morse.ScanCode | src/Exom/Utils/Cryptography/Ciphers/Morse.java:173-231 | testing an entry's code, the chain reaches that entry |
| Morse.EntryFacts | src/Exom/Utils/Cryptography/Ciphers/Morse.java:101-161 | the table's characters are upper case or not letters, none is a space, newline or NUL, and every code has a signal |
| Morse.KeysDistinct | src/Exom/Utils/Cryptography/Ciphers/Morse.java:101-161 | no two entries share a character |
| Morse.CodesDistinct | src/Exom/Utils/Cryptography/Ciphers/Morse.java:101-161 | no two entries share a code |
| Morse.MatchesUpper | src/Exom/Utils/Cryptography/Ciphers/Morse.java:101-126 | a branch's test holds exactly when the character's upper case is the entry's |
| Morse.EncodeFromAt | src/Exom/Utils/Cryptography/Ciphers/Morse.java:101-161 | the chain returns the code of the entry found, or a space for a space and "" otherwise |
| Morse.DecodeFromAt | src/Exom/Utils/Cryptography/Ciphers/Morse.java:173-231 | the chain returns the character of the entry whose code is found, or NUL |
| Morse.EncodeCaseInsensitive | src/Exom/Utils/Cryptography/Ciphers/Morse.java:101-126 | `EncodeChar` gives both cases of a letter the same code |
| Morse.EncodeCharTable | src/Exom/Utils/Cryptography/Ciphers/Morse.java:100-161 | `EncodeChar(c)` is the code listed for the upper case of `c`; when no entry has that key it is " " for a space and "" otherwise |
| Morse.EncodeCharMeaning | src/Exom/Utils/Cryptography/Ciphers/Morse.java:100-161 | a supported character gets dots and dashes, a space gets " ", and "" is returned exactly for the rest |
| Morse.DecodeEncode | src/Exom/Utils/Cryptography/Ciphers/Morse.java:100-231 | decoding the code of a supported character gives its upper case |
| Morse.EncodeDecode | src/Exom/Utils/Cryptography/Ciphers/Morse.java:100-231 | a code that decodes is the code of the upper-case supported character it decodes to |
| Morse.DecodeCharTable | src/Exom/Utils/Cryptography/Ciphers/Morse.java:172-231 | `DecodeChar(data)` is the key of the entry whose code is the string `data`, and NUL when no code is |
| Morse.DecodeCharMeaning | src/Exom/Utils/Cryptography/Ciphers/Morse.java:172-231 | `DecodeChar` gives NUL exactly for a string that is no supported character's code |
| Morse.Encode | src/Exom/Utils/Cryptography/Ciphers/Morse.java:23-49 | the nested loops over lines, words and characters compute `Encode` |
| Morse.SymbolsAccepted | src/Exom/Utils/Cryptography/Ciphers/Morse.java:31-34 | a word's characters are encoded exactly when each has a code |
| Morse.SymbolsValue | src/Exom/Utils/Cryptography/Ciphers/Morse.java:31-38 | an encoded word is its characters' codes joined by spaces |
| Morse.SymbolsRejected | src/Exom/Utils/Cryptography/Ciphers/Morse.java:33-34 | a word that cannot be encoded names a character without a code |
| Morse.WordsAccepted | src/Exom/Utils/Cryptography/Ciphers/Morse.java:29-42 | a line's words are encoded exactly when each of their characters has a code |
| Morse.WordsValue | src/Exom/Utils/Cryptography/Ciphers/Morse.java:29-42 | an encoded line is its words' encodings joined by " / " |
| Morse.WordsRejected | src/Exom/Utils/Cryptography/Ciphers/Morse.java:29-42 | a line that cannot be encoded names a character without a code |
| Morse.WordsOfLine | src/Exom/Utils/Cryptography/Ciphers/Morse.java:29 | the characters of a line's words are its characters other than spaces |
| Morse.LineAccepted | src/Exom/Utils/Cryptography/Ciphers/Morse.java:29-42 | a line's words are all encodable exactly when each of the line's characters is |
| Morse.LinesAccepted | src/Exom/Utils/Cryptography/Ciphers/Morse.java:26-46 | the lines are encoded exactly when each of their characters has a code |
| Morse.LinesValue | src/Exom/Utils/Cryptography/Ciphers/Morse.java:26-46 | encoded lines are the lines' encodings joined by newlines |
| Morse.LinesRejected | src/Exom/Utils/Cryptography/Ciphers/Morse.java:26-46 | lines that cannot be encoded name a character without a code |
| Morse.EncodedMeaning | src/Exom/Utils/Cryptography/Ciphers/Morse.java:23-49 | `Encode` throws exactly when a character other than a newline has no code, naming one; otherwise codes with spaces between characters, " / " between words and newlines between lines |
| Morse.Decode | src/Exom/Utils/Cryptography/Ciphers/Morse.java:63-88 | the nested loops over lines, words and codes compute `Decode` |
| Morse.AllFromMeans | src/Exom/Utils/Cryptography/Ciphers/Morse.java:72-80 | checking one element at a time means every element from the start on passes |
| Morse.CodesAccepted | src/Exom/Utils/Cryptography/Ciphers/Morse.java:72-80 | a word's codes are decoded exactly when each is known |
| Morse.CodesValue | src/Exom/Utils/Cryptography/Ciphers/Morse.java:72-80 | a decoded word is the characters of its codes |
| Morse.CodesRejected | src/Exom/Utils/Cryptography/Ciphers/Morse.java:75-76 | a word that cannot be decoded names an unknown code of it |
| Morse.CodeWordsAccepted | src/Exom/Utils/Cryptography/Ciphers/Morse.java:69-83 | a line's words are decoded exactly when each is known |
| Morse.CodeWordsValue | src/Exom/Utils/Cryptography/Ciphers/Morse.java:69-83 | a decoded line is its words decoded, joined by spaces |
| Morse.CodeWordsRejected | src/Exom/Utils/Cryptography/Ciphers/Morse.java:69-83 | a line that cannot be decoded names an unknown code |
| Morse.CodeLinesAccepted | src/Exom/Utils/Cryptography/Ciphers/Morse.java:66-86 | the lines are decoded exactly when each is known |
| Morse.CodeLinesValue | src/Exom/Utils/Cryptography/Ciphers/Morse.java:66-86 | decoded lines are the lines decoded, joined by newlines |
| Morse.CodeLinesRejected | src/Exom/Utils/Cryptography/Ciphers/Morse.java:66-86 | lines that cannot be decoded name an unknown code |
| Morse.DecodedMeaning | src/Exom/Utils/Cryptography/Ciphers/Morse.java:63-88 | `Decode` throws exactly when a code is unknown, naming one; otherwise the codes' characters, a space between words and a newline between lines |
| Morse.CodeOfSupported | src/Exom/Utils/Cryptography/Ciphers/Morse.java:100-231 | a supported character's code is non-empty dots and dashes decoding to its upper case |
| Morse.WordTrip | src/Exom/Utils/Cryptography/Ciphers/Morse.java:31-80 | a word's encoding splits back at spaces into its known codes and decodes to the word in upper case |
| Morse.LineTrip | src/Exom/Utils/Cryptography/Ciphers/Morse.java:29-83 | a plain line's encoding splits back at " / " into its words' encodings and decodes to the line in upper case |
| Morse.ComposeEncodable | src/Exom/Utils/Cryptography/Ciphers/Morse.java:31-34 | every character of a plain text other than a newline can be encoded |
| Morse.LinesTrip | src/Exom/Utils/Cryptography/Ciphers/Morse.java:26-86 | each line of a plain text encodes to a known line that decodes to it in upper case |
| Morse.DecodeLineTexts | src/Exom/Utils/Cryptography/Ciphers/Morse.java:66-86 | lines whose encodings decode to them in upper case decode, joined, to the joined lines in upper case |
| Morse.RoundTrip | src/Exom/Utils/Cryptography/Ciphers/Morse.java:23-88 | encoding a plain text succeeds, and decoding the result gives the text back in upper case |
| Vigenere.StretchKey | src/Exom/Utils/Cryptography/Ciphers/Vigenere.java:47-58 | the key-stretching loop returns the stretched key, or the `charAt(0)` exception for an empty key with data |
| Vigenere.StretchedMeaning | src/Exom/Utils/Cryptography/Ciphers/Vigenere.java:47-58 | the stretched key exists exactly when the key is non-empty or there is no data; it has the data's length and holds the lower-cased key repeated from its start |
| Vigenere.EncryptLetter | src/Exom/Utils/Cryptography/Ciphers/Vigenere.java:65-67 | an ASCII letter moves forward by the key letter's place, within its own case |
| Vigenere.DecryptLetter | src/Exom/Utils/Cryptography/Ciphers/Vigenere.java:106-111 | an ASCII letter moves back by the key letter's place, within its own case |
| Vigenere.DecryptEncryptLetter | src/Exom/Utils/Cryptography/Ciphers/Vigenere.java:63-70 | decrypting undoes encrypting one letter, and the letter keeps its case |
| Vigenere.EncryptDecryptLetter | src/Exom/Utils/Cryptography/Ciphers/Vigenere.java:104-115 | encrypting undoes decrypting one letter, and the letter keeps its case |
| Vigenere.Encrypt | src/Exom/Utils/Cryptography/Ciphers/Vigenere.java:44-74 | the method's loops return the encrypting cipher of the data under the key |
| Vigenere.Decrypt | src/Exom/Utils/Cryptography/Ciphers/Vigenere.java:85-119 | the method's loops return the decrypting cipher of the data under the key |
| Vigenere.CipheredMeaning | src/Exom/Utils/Cryptography/Ciphers/Vigenere.java:44-119 | both directions throw `StringIndexOutOfBoundsException` exactly when the key is empty and the data is not; otherwise the result has the data's length, copies every character failing the byte letter test, and shifts the others by the key character whose index counts the shifted characters before them |
| Vigenere.StretchedLetters | src/Exom/Utils/Cryptography/Ciphers/Vigenere.java:47-58 | an alphabetic key stretches to lower-case letters only |
| Vigenere.CasePreserved | src/Exom/Utils/Cryptography/Ciphers/Vigenere.java:63-71 | for ASCII data and an alphabetic key, non-letters are copied and every letter comes out a letter of the same case |
| Vigenere.RoundTrip | src/Exom/Utils/Cryptography/Ciphers/Vigenere.java:44-119 | for ASCII data and a non-empty alphabetic key, decrypting the encryption gives the data back, and so does encrypting the decryption |
| Rot.Run | src/Exom/Utils/Cryptography/Ciphers/ROT.java:46-63 | the method's loop returns the rotation of the data by the step reduced with Java's `%` |
| Rot.RotCharMeaning | src/Exom/Utils/Cryptography/Ciphers/ROT.java:55-59 | a non-letter is kept; a letter moves by the reduced step within its case's alphabet, wrapping past `z`; a letter whose index plus the step is negative throws `StringIndexOutOfBoundsException` with that index |
| Rot.RotCharInverse | src/Exom/Utils/Cryptography/Ciphers/ROT.java:55-59 | a character rotated by `m` and then by `26 - m` is itself again |
| Rot.RotatedMeaning | src/Exom/Utils/Cryptography/Ciphers/ROT.java:46-63 | `Run` succeeds exactly when every character rotates by the reduced step; then the result has the data's length and is rotated character by character |
| Rot.MultipleOf26 | src/Exom/Utils/Cryptography/Ciphers/ROT.java:49-52 | a step that is a multiple of 26 returns the data unchanged |
| Rot.NonNegativeStep | src/Exom/Utils/Cryptography/Ciphers/ROT.java:54-60 | a non-negative step never throws, keeps the length, copies non-letters and keeps each letter's case |
| Rot.RoundTrip | src/Exom/Utils/Cryptography/Ciphers/ROT.java:46-63 | rotating by `n` and then by `26 - n` gives the data back, for `0 < n < 26` |
| Rot.Rot13Involution | src/Exom/Utils/Cryptography/Ciphers/ROT.java:46-63 | ROT13 undoes itself |
| Rot.RotatedRefused | src/Exom/Utils/Cryptography/Ciphers/ROT.java:56-58 | with a negative reduced step, the first letter that falls before `a` or `A` makes `Run` throw, naming its index |
| Constants.RemSmall | src/Exom/Utils/Cryptography/Ciphers/ROT.java:56-58 | Java's truncating `% 26` on the indices a reduced step can reach: negative ones stay as they are |
| TimeUtils.AppendUnit | src/Exom/Utils/TimeUtils.java:56-65 | one block appends its unit's part after ", " when something was written, and the text stays the join of the parts so far while the remaining nanoseconds carry the rest |
| TimeUtils.GetTimeString | src/Exom/Utils/TimeUtils.java:43-122 | the text is the non-zero parts, largest unit first, each a count and a unit name singular exactly for a count of 1, joined with ", " |
| TimeUtils.ZeroIsEmpty | src/Exom/Utils/TimeUtils.java:43-122 | no time gives the empty string |
| TimeUtils.CountsAddUp | src/Exom/Utils/TimeUtils.java:47-111 | the counts weighed by their units add up to the input, whatever its sign |
| TimeUtils.TimeRanges | src/Exom/Utils/TimeUtils.java:47-111 | for a non-negative input, hours are below 24, minutes and seconds below 60, and the three sub-second counts below 1000 |
| TimeUtils.Subtracted | src/Exom/Utils/TimeUtils.java:54 | `ns -= unit * (ns / unit)` leaves Java's remainder, so the `long` never overflows |
| MathUtils.ISqrt | src/Exom/Utils/MathUtils.java:67 | the integer square root `r`, with `r² <= x < (r + 1)²` |
| MathUtils.TrialDivision | src/Exom/Utils/MathUtils.java:68-71 | the stepping loop answers whether no `u - 1` or `u + 1` with `6 <= u <= last`, `u` a multiple of 6, divides `x` |
| MathUtils.IsPrime | src/Exom/Utils/MathUtils.java:60-72 | the method gives the as-written decision: false below 2, true for 2, 3 and 5, false for other multiples of 2, 3 or 5, otherwise the trial up to the square root |
| MathUtils.SmallPrimes | src/Exom/Utils/MathUtils.java:63-64 | 2, 3 and 5, which `IsPrime` accepts outright, are prime |
| MathUtils.SmallFactors | src/Exom/Utils/MathUtils.java:65-66 | the other multiples of 2, 3 or 5, which `IsPrime` rejects outright, are not prime |
| MathUtils.TrialSuffices | src/Exom/Utils/MathUtils.java:67-71 | a number from 7 on with no factor 2, 3 or 5 that passes the trial up to one past its square root is prime |
| MathUtils.PrimeAccepted | src/Exom/Utils/MathUtils.java:60-72 | as written, `IsPrime` never rejects a prime |
| MathUtils.AcceptsSquareOfEleven | src/Exom/Utils/MathUtils.java:68 | as written, `IsPrime` accepts 121 = 11 · 11 |
| MathUtils.CorrectedScreen | src/Exom/Utils/MathUtils.java:67-71 | with the loop also trying the candidate equal to the square root, the trial decides primality exactly |
| MathUtils.IsPrimeCorrected | src/Exom/Utils/MathUtils.java:60-72 | the corrected method returns true exactly for primes |
| MathUtils.Factorial | src/Exom/Utils/MathUtils.java:83-100 | a negative `n` throws `IllegalArgumentException` "The number cannot be negative."; otherwise the product of the running pairwise sums, with the middle factor for odd `n`, is `n!` |
| MathUtils.PairFits | src/Exom/Utils/MathUtils.java:89-93 | the running `long` sum `(k + 1)(n - k)` stays below 2^63 for every `int` `n`, so `sum += i` never wraps |
| MathUtils.PairStep | src/Exom/Utils/MathUtils.java:91-94 | each running sum is the product of the next pair from both ends of `1..n`, so multiplying by it keeps `result · (n - k)! == n! · k!` |
| Commands.InitializeIdempotent | src/Exom/Modules/Commands.java:67-216 | the first `Initialize` installs the four commands MD5, SHA1, SHA256, ToArgs in that order; a second one changes nothing |
| Commands.Registry.constructor | src/Exom/Modules/Commands.java:55-60 | no list and not initialized |
| Commands.Registry.Initialize | src/Exom/Modules/Commands.java:67-216 | the list and the flag become what `Initialize` makes of them |
| Commands.FindFromMeaning | src/Exom/Modules/Commands.java:229-234 | the loop from entry `i` finds an entry exactly when one from `i` on matches, and returns the first one |
| Commands.Registry.Find | src/Exom/Modules/Commands.java:227-235 | a null list throws `NullPointerException`; otherwise `Find` succeeds exactly when some command answers to the lower-cased alias, returns the first such command, and else throws `InvalidCommandException` with its message |
| Commands.FindMeaning | src/Exom/Modules/Commands.java:227-235 | `Find` returns the first command whose lower-case name or one of whose aliases equals the lower-cased alias, else throws `InvalidCommandException` with its message |
| Commands.FindIgnoresCase | src/Exom/Modules/Commands.java:228 | aliases differing only in letter case find the same command |
| Commands.UpperAliasUnreachable | src/Exom/Modules/Commands.java:228-230 | an alias listed with an upper-case letter is never matched through the alias list |
| Commands.FindMd5 | src/Exom/Modules/Commands.java:227-235 | "md5" and "messagedigest5" find the MD5 command |
| Commands.FindSha1 | src/Exom/Modules/Commands.java:227-235 | "Sha1" and "securehashalgorithm1" find the SHA1 command |
| Commands.FindSha256 | src/Exom/Modules/Commands.java:227-235 | "SHA256" and "securehashalgorithm256" find the SHA256 command |
| Commands.FindToArgs | src/Exom/Modules/Commands.java:227-235 | "toargs" and "toarguments" find the ToArgs command |
| Commands.FindPrefixFails | src/Exom/Modules/Commands.java:229-234 | a prefix such as "sha" is no alias: `Find` throws |
| Commands.FormatInfo | src/Exom/Modules/Commands.java:283-306 | the string builder's loop yields name, description and aliases on three lines, "N/A" for missing ones, aliases separated by ", " |
| Commands.InfoLines | src/Exom/Modules/Commands.java:283-306 | with no newline in the fields, the info splits into exactly its three labelled lines |
| Commands.AliasesBack | src/Exom/Modules/Commands.java:291-302 | aliases without commas split back at ", " into the list given |
| Commands.ToArgs | src/Exom/Modules/Commands.java:181-212 | the ToArgs lambda: help text for `-h` or `--help` in any case, the quoted arguments in brackets otherwise, and a failed response for no arguments |
| Commands.ItemsBack | src/Exom/Modules/Commands.java:193-205 | the quoted items joined by ", " read back into the arguments |
| Commands.RenderedBack | src/Exom/Modules/Commands.java:193-205 | the bracketed rendering of quote-free arguments parses back to them |
| Commands.ToArgsRoundTrip | src/Exom/Modules/Commands.java:181-212 | for quote-free arguments that are not a help flag, ToArgs succeeds and its response parses back to the arguments |
| ExmyVars.Ascii | src/Exom/Exomyte/EXMY.java:391-393 | `getBytes(US_ASCII)` keeps the length and maps each character below 128 to its code, any other to `?` |
| ExmyVars.AsciiRoundTrip | src/Exom/Exomyte/EXMY.java:391-412 | ASCII text encoded and decoded with US-ASCII is the same text |
| ExmyVars.Take | src/Exom/Exomyte/EXMY.java:409-411 | reading `n` bytes into a fresh array gives the next `n` bytes, zeros past the end of the data |
| ExmyVars.Save | src/Exom/Exomyte/EXMY.java:384-395 | the `savevars` loop writes, for each variable in the map's order, its length byte, name, length byte and value |
| ExmyVars.Load | src/Exom/Exomyte/EXMY.java:403-416 | the `loadvars` loop reads entries until a length byte reads as negative and puts each into the file variables |
| ExmyVars.LoadEntry | src/Exom/Exomyte/EXMY.java:406-413 | reading a storable entry puts exactly that name and value and continues after it |
| ExmyVars.LongNameEndsLoad | src/Exom/Exomyte/EXMY.java:390-407 | a name of 128 to 255 characters is saved with a negative length byte, so loading stops there without error |
| ExmyVars.LongValueFailsLoad | src/Exom/Exomyte/EXMY.java:392-410 | a value of 128 to 255 characters makes loading throw `NegativeArraySizeException` after the earlier entries were put |
| ExmyVars.LoadEncoded | src/Exom/Exomyte/EXMY.java:384-416 | loading what was saved puts every saved entry back in the order written, with no error |
| ExmyVars.PutAllKeys | src/Exom/Exomyte/EXMY.java:412 | putting every key of a map, in any order, adds that map to the base map |
| ExmyVars.SaveLoadRoundTrip | src/Exom/Exomyte/EXMY.java:382-420 | save then load: a file holding every storable variable once reads back as those variables merged into the loaded map |
| ExmyFormat.AlnumRun | src/Exom/Exomyte/EXMY.java:549-555 | the variable name is the longest run of ASCII letters and digits from the sigil on |
| ExmyFormat.Lookup | src/Exom/Exomyte/EXMY.java:556-561 | a variable's value, or the "is not a variable" error for an empty or unknown name |
| ExmyFormat.Resolve | src/Exom/Exomyte/EXMY.java:532-583 | a resolved reference has, after the optional leading `+`, a `*` or `$` |
| ExmyFormat.FormatLine | src/Exom/Exomyte/EXMY.java:504-668 | the character loop of `FormatLine` computes the formatted line or its exception |
| ExmyFormat.LexAppend | src/Exom/Exomyte/EXMY.java:512-612 | the loop over `a + b` is the loop over `a` and then over `b` from the state reached |
| ExmyFormat.LexEscaped | src/Exom/Exomyte/EXMY.java:518-607 | inside quotes, escaped text decodes back to the original text |
| ExmyFormat.LexQuote | src/Exom/Exomyte/EXMY.java:526-591 | at an opening quote the pending reference, if any, is resolved, then the quoted text is appended |
| ExmyFormat.FormatQuoted | src/Exom/Exomyte/EXMY.java:504-668 | a quoted string formats to its value, every escape decoded |
| ExmyFormat.FormatEmpty | src/Exom/Exomyte/EXMY.java:504-668 | an empty line formats to the empty string |
| ExmyFormat.FormatBadEscape | src/Exom/Exomyte/EXMY.java:604 | an unknown escape inside quotes fails, whatever follows it |
| ExmyFormat.FormatUnclosed | src/Exom/Exomyte/EXMY.java:614-615 | a quotation still open at the end of the line fails |
| ExmyFormat.LexUnquoted | src/Exom/Exomyte/EXMY.java:608-611 | outside quotes, plain text goes to the pending reference with its spaces dropped |
| ExmyFormat.FormatAdjacent | src/Exom/Exomyte/EXMY.java:526-611 | literals separated only by spaces concatenate |
| ExmyFormat.AlnumRunIs | src/Exom/Exomyte/EXMY.java:632-637 | the name read is the run of name characters up to the first other character |
| ExmyFormat.FormatReference | src/Exom/Exomyte/EXMY.java:616-662 | a reference alone on the line reads `*NAME` from the RAM map and `$NAME` from the file map; whatever follows the name is ignored |
| ExmyFormat.FormatNotReference | src/Exom/Exomyte/EXMY.java:662 | unquoted text starting with none of `*`, `$`, `+` fails with "expected * or $" |
| ExmyFormat.FormatLeadingPlus | src/Exom/Exomyte/EXMY.java:623-625 | a `+` before anything was quoted fails |
| ExmyFormat.FormatConcat | src/Exom/Exomyte/EXMY.java:532-590 | `"A" + *x + "B"` is A, the value of x, then B |
| ExmyFormat.FormatMissingPlusAfter | src/Exom/Exomyte/EXMY.java:618-620 | a reference right after a literal needs a `+` in front |
| ExmyFormat.FormatMissingPlusBefore | src/Exom/Exomyte/EXMY.java:543-544 | a reference right before a literal needs a `+` after it |
| ExmyFormat.FormatPlusBetweenLiterals | src/Exom/Exomyte/EXMY.java:538-547 | `"a" + "b"` fails: the pending text is the lone `+`, and reading past it throws, rethrown as `NullPointerException` |
| Exomyte.Keyword | src/Exom/Exomyte/EXMY.java:126 | a line starts with a keyword, ignoring letter case, only when it is at least that long |
| Exomyte.NameLength | src/Exom/Exomyte/EXMY.java:174-183 | the variable name is every character up to the first space or `=` |
| Exomyte.Spaces | src/Exom/Exomyte/EXMY.java:195-197 | the spaces skipped are exactly the leading spaces |
| Exomyte.SkipToEndif | src/Exom/Exomyte/EXMY.java:136-138 | skipping to `endif` ends within the script, after the current line |
| Exomyte.SkipToStop | src/Exom/Exomyte/EXMY.java:149-152 | skipping to `else` or `endif` stops at a line that starts with one of them |
| Exomyte.HandleLine | src/Exom/Exomyte/EXMY.java:123-446 | handling a line never moves the reader backwards nor past the end of the script |
| Exomyte.Exmy.constructor | src/Exom/Exomyte/EXMY.java:91-98 | empty paths and empty variable maps |
| Exomyte.Exmy.Create | src/Exom/Exomyte/EXMY.java:107-114 | the handler and variables paths as given and the namespace from the handler's folder; a handler path without a folder throws `NullPointerException` |
| Exomyte.Exmy.NextLine | src/Exom/Exomyte/EXMY.java:131-140 | the next line of the script, or `NoSuchElementException` at its end |
| Exomyte.Exmy.Catch | src/Exom/Exomyte/EXMY.java:440-445 | an exception is printed, naming the handler for a missing class |
| Exomyte.Exmy.Handle | src/Exom/Exomyte/EXMY.java:123-446 | `Handle` changes the machine and the reader as the specification function `HandleLine` says |
| Exomyte.Exmy.IfBlock | src/Exom/Exomyte/EXMY.java:126-162 | an `if` line: the condition is evaluated, the taken branch handled and the line after `endif` executed |
| Exomyte.Exmy.RunThen | src/Exom/Exomyte/EXMY.java:128-146 | a true condition: lines are handled up to `else` or `endif`, then skipped to `endif` |
| Exomyte.Exmy.SkipLines | src/Exom/Exomyte/EXMY.java:136-152 | the skipping loops stop at the first line starting with `endif` (or `else`), or at the end of the script |
| Exomyte.Exmy.RunElse | src/Exom/Exomyte/EXMY.java:147-161 | a false condition: lines are skipped to `else` or `endif`; after `else` they are handled up to `endif` |
| Exomyte.Exmy.Dispatch | src/Exom/Exomyte/EXMY.java:163-438 | the statement forms after the `if` check, as `Execute` says |
| Exomyte.ReadName | src/Exom/Exomyte/EXMY.java:174-183 | the loop collecting the name stops at the first space or `=` and keeps the rest |
| Exomyte.SkipBlanks | src/Exom/Exomyte/EXMY.java:185-197 | the loops dropping leading spaces |
| Exomyte.Exmy.Put | src/Exom/Exomyte/EXMY.java:202-219 | `RamVars.put` or `FileVars.put` binds the one name in the one map |
| Exomyte.Exmy.Evaluate | src/Exom/Exomyte/EXMY.java:199-219 | a right-hand side is an EXCM's response, or the formatted text when it starts with a quote |
| Exomyte.Exmy.Declare | src/Exom/Exomyte/EXMY.java:170-276 | `let` and `var` change the variables as `Declaration` says |
| Exomyte.Exmy.Reassign | src/Exom/Exomyte/EXMY.java:277-381 | `*NAME =` and `$NAME =` change the variables as `Reassignment` says |
| Exomyte.Exmy.SaveVariables | src/Exom/Exomyte/EXMY.java:382-400 | `savevars` writes the variables file, or throws for a path that cannot be written |
| Exomyte.Exmy.LoadVariables | src/Exom/Exomyte/EXMY.java:401-420 | `loadvars` reads the variables file into the file variables, or throws |
| Exomyte.Exmy.RunCommand | src/Exom/Exomyte/EXMY.java:425-438 | a command line runs the alias's EXCM and prints a non-empty response |
| Exomyte.Exmy.ApplyDefaults | src/Exom/Exomyte/EXMY.java:456-477 | empty handler and variables paths default to files in the script's folder, or the working folder |
| Exomyte.Exmy.Run | src/Exom/Exomyte/EXMY.java:455-491 | after the defaults, every line of the script is handled in order; an unreadable script prints `FileNotFoundException` |
| ExomyteFacts.ExecuteAppends | src/Exom/Exomyte/EXMY.java:163-438 | a statement never removes printed lines and prints at most one |
| ExomyteFacts.CommandLineAppends | src/Exom/Exomyte/EXMY.java:425-438 | a command prints its response when that is not empty, and nothing else |
| ExomyteFacts.HandleLineAppends | src/Exom/Exomyte/EXMY.java:123-446 | handling a line, however many lines its `if` blocks read, only appends to what was printed |
| ExomyteFacts.RunLinesAppends | src/Exom/Exomyte/EXMY.java:480-486 | running a whole script only appends to what was printed |
| ExomyteFacts.DeclarationBinds | src/Exom/Exomyte/EXMY.java:170-276 | a failed `let`/`var` leaves the machine as it was; a successful one binds the name read in the map named and changes nothing else |
| ExomyteFacts.ReassignmentBinds | src/Exom/Exomyte/EXMY.java:277-381 | reassignment demands a RAM variable for both sigils; failure leaves the machine, success binds the name in the map the sigil names |
| ExomyteFacts.BareDeclaration | src/Exom/Exomyte/EXMY.java:190-221 | `let NAME` with only spaces after it binds the empty string |
| ExomyteFacts.QuotedValue | src/Exom/Exomyte/EXMY.java:199-217 | a quoted right-hand side is its unescaped text |
| ExomyteFacts.Assignment | src/Exom/Exomyte/EXMY.java:190-219 | `NAME = RHS` binds NAME to what RHS computes, or keeps the machine and reports the exception |
| ExomyteFacts.QuotedDeclaration | src/Exom/Exomyte/EXMY.java:170-222 | `NAME = "text"` binds NAME to the unescaped text |
| ExomyteFacts.Mismatch | src/Exom/Exomyte/EXMY.java:126-163 | a line whose character differs from the keyword's, ignoring case, does not start with it |
| ExomyteFacts.ExecuteExch | src/Exom/Exomyte/EXMY.java:163-166 | `--exch PATH` sets the handler and, from its folder, the namespace |
| ExomyteFacts.ExecuteExvr | src/Exom/Exomyte/EXMY.java:167-169 | `--exvr PATH` sets the variables file |
| ExomyteFacts.ExecuteLet | src/Exom/Exomyte/EXMY.java:170 | `let`, in any letter case, declares a RAM variable |
| ExomyteFacts.ExecuteVar | src/Exom/Exomyte/EXMY.java:223 | `var`, in any letter case, declares a file variable |
| ExomyteFacts.ExecuteStar | src/Exom/Exomyte/EXMY.java:277 | `*` reassigns a RAM variable |
| ExomyteFacts.ExecuteDollar | src/Exom/Exomyte/EXMY.java:330 | `$` reassigns a file variable |
| ExomyteFacts.ExecuteClear | src/Exom/Exomyte/EXMY.java:421-424 | `clearvars` empties the file variables and deletes the variables file |
| ExomyteFacts.QuotedCondition | src/Exom/Exomyte/EXMY.java:127-128 | a quoted condition is evaluated as the text it quotes |
| ExomyteFacts.UnquotedCondition | src/Exom/Exomyte/EXMY.java:127 | an unquoted condition such as `1 == 1` is refused by the formatter |
| ExomyteFacts.IfFalseSkips | src/Exom/Exomyte/EXMY.java:147-161 | a false condition over body and `endif`: the body is skipped and the next line executed |
| ExomyteFacts.ElseOneStatement | src/Exom/Exomyte/EXMY.java:153-158 | an `else` branch of one statement and `endif` handles that statement |
| ExomyteFacts.IfFalseRunsElse | src/Exom/Exomyte/EXMY.java:147-161 | a false condition with `else`: the `else` statement, then the line after `endif` |
| ExomyteFacts.IfTrueRuns | src/Exom/Exomyte/EXMY.java:128-146 | a true condition: the body's statement, then the line after `endif` |
| ExomyteFacts.IfTrueMissingEndif | src/Exom/Exomyte/EXMY.java:140-141 | a true condition whose body runs to the end without `endif` prints "expected endif" |
| ExomyteFacts.SaveThenLoad | src/Exom/Exomyte/EXMY.java:382-420 | `savevars` then `loadvars`, whatever the file variables `base` hold by the time of the load, puts each saved entry back over them and keeps the others (`base + saved`), with no error; for storable ASCII entries |

## Left out

- File, stream and console I/O. The variables file is a byte sequence in `Machine.disk`. The script is a sequence of lines. Printing appends to `Machine.out`. `FileReader`, `FileInputStream`, `FileOutputStream`, `File.delete` and `System.out` are not modelled.
- The JavaScript engine, EXCH alias resolution and EXCM compilation, loading and execution are runtime code generation and reflection. They are oracles in `Exomyte.Host`, as are `StringUtils.FolderName` and the iteration order of a `HashMap`.
- `Exom.java` (the command-line entry point, REPL and process handling), `ScriptEngines.java`, `StreamUtils.java`, `NoiseUtils.java` and `ClassUtils.java` are not part of this model: they are I/O, process control, reflection or floating point.
- EXEA, the MD5/SHA hashing in `Hash.java`, and EXDP's keyed (encrypted) branch of `Pack`/`Unpack` are library cryptography and are not modelled. EXDP's `Write`/`Read` are left out too. `Pack`/`Unpack` are modelled only for a null or empty key.
- `Commands.Handle` and the bodies of the MD5, SHA1 and SHA256 command lambdas are left out: they hash and read files, and write to streams. The table records that these commands exist, with their names, aliases, descriptions and actions.
- `MathUtils.Interpolate`, `ByteUtils.FileToBytes`/`ToFile`/`ToString` and `TimeUtils.GetElapsedTime` are left out: they are floating point, file I/O or the system clock.
- Case mapping is ASCII only. `toLowerCase`/`toUpperCase` on non-ASCII characters follow Unicode tables that the model does not hold. A `(byte)` cast of a character keeps its low 8 bits, as `Jvm.ToByte` does.
- Strings are sequences of Unicode scalar values, and their lengths count characters, where Java's `length()` counts UTF-16 units. A character outside the Basic Multilingual Plane counts once in the model and twice in Java. So a name of 128 such characters has Java length 256 and makes `Encode` throw (EXDP.java:117), while `Exdp.Encoded` accepts it with length byte 128. The same holds for the `(byte) key.length()` of `savevars` (EXMY.java:390-392) against `ToByte(|key|)` in `ExmyVars.Entry`. `getBytes(US_ASCII)` writes one `?` per such character in both.
- EXDP names are decoded as US-ASCII (`Exdp.Step` uses `ExmyVars.FromAscii`, which turns each non-ASCII byte into U+FFFD). `new String(bytes)` at EXDP.java:151 uses the platform's default charset, which the model does not fix. For the US-ASCII names that `Exdp.EncodeDecode` covers, every ASCII-compatible charset gives the same string.
- Jvm.CopyOfRange, ArrayUtils.Concat: allocation always succeeds. In Java, `new byte[n]` for a large `n` throws `OutOfMemoryError` when the heap cannot hold it, as `Exdp.Decode` can on a value length near `Integer.MAX_VALUE` (`Exdp.WrappedStep`); the model gives the array and goes on as a large enough heap would.
- Exception messages that the JVM produces, such as index-out-of-bounds texts, are written as JDK 8 prints them. Exception class names are an enumeration.
- MathUtils.IsPrime: `(long)Math.sqrt(x)` is modelled as the exact integer square root. Above 2^52, where a `long` does not convert exactly to a `double`, the rounded square root can be one larger; the model does not follow that.
- `java.util.Random` in `Exda.Generate` is replaced by a sequence of draws, each in the range of the remaining pool.
- The `InIf` field is only ever set to false, by the constructors, and is not modelled.
- Exda.PairInverse, Exda.MapInverse, Exda.DecryptEncrypt: stated for dictionaries that are permutations of all 256 byte values, which is what `Generate` produces. For other arrays `GetDictionaryPair` still runs, but there is no inverse to state.
- Vigenere.RoundTrip: stated for ASCII data and a non-empty alphabetic key. For other keys, the shift of a non-letter key character is not undone.
- Morse.RoundTrip: stated for texts whose lines are non-empty words of supported characters separated by single spaces. Other texts either do not encode or split differently on the way back.
- Morse.EncodedMeaning, Morse.DecodedMeaning: the error names *a* character or code that has no match. The model does not state that it is the first one the loops reach.
- Commands.ToArgsRoundTrip: stated for arguments without a double quote. The rendering does not escape quotes, so quoted arguments do not parse back.
- Commands.FindMd5, Commands.FindSha1, Commands.FindSha256, Commands.FindToArgs: the lookup of the installed table is shown on these queries. The general lookup is `Commands.FindMeaning`.
- Commands.Registry: Java's static `List` and `Initialized` are fields of one `Registry` object.
- ExmyVars.SaveLoadRoundTrip, ExomyteFacts.SaveThenLoad: stated for ASCII names and values shorter than 128 characters, with the map's iteration order listing each key once. Longer entries are covered by `ExmyVars.LongNameEndsLoad` and `ExmyVars.LongValueFailsLoad`.

## Findings

| source | as written | input that shows it | evidently intended | confidence | as-written member | corrected member |
|---|---|---|---|---|---|---|
| src/Exom/Utils/MathUtils.java:68 | the trial loop runs `u` from 6 while `u <= sqrt` and tests `u - 1` and `u + 1`, so a divisor `u - 1` equal to `sqrt` is never tried | `IsPrime(121)` returns true, though 121 = 11 · 11; 143 = 11 · 13 passes too | `IsPrime(x)` is true exactly for primes, which needs the loop to run while `u - 1 <= sqrt` | not executed | MathUtils.AcceptsSquareOfEleven | MathUtils.IsPrimeCorrected |
