# File utility string helpers, in Dafny

This project models the pure string helpers of the library's `util::File`
class (`utility/file_utility.cpp`) and proves properties about them:

- path splitting: `fileName`, `directory`, `fileExtension`, and the POSIX
  branch of `path`, which joins a directory and a relative path;
- URI escaping: `toUri` (RFC 2396 marks and reserved characters kept),
  `toUriPath` (RFC 3986 unreserved characters and `/` kept), `fromUriPath`
  (decodes `%XX`), and the POSIX branch of `fullPathUrl`;
- `hexToBin`, which turns pairs of hexadecimal characters into bytes.

A C++ `char` is the type `Chars.Byte`, a `char` whose code is below 256. A
`std::string` is a `seq<Byte>`, read as unsigned values. The letter and
digit comparisons the encoders write out themselves give the same answer
whether `char` is signed or not. The library classifiers are another
matter: with a signed `char`, a byte of 0x80 or more reaches `isxdigit` or
`tolower` as a negative value, which C leaves undefined; the model treats
such a byte as outside every class (see "## Left out"). Both encoders are instances of `UriEncoding.Encode`, which takes
a `Charset` (the set of bytes written unescaped) and a `padded` flag. The
source's behaviour is `padded == false`. `padded == true` is the corrected
encoder described under "## Findings".

`std::string::find_last_of` is modelled by `FilePaths.FindLastOf`. The
`strtoul(…, 16)` calls are modelled as the C library defines them in the
"C" locale: `HexToBin.StrtoulPair` covers leading white space, an optional
sign and the truncation to `unsigned char`.

Modules:

- `Wrappers`: `Option`.
- `Chars`: byte classes, `tolower`, hexadecimal digits and numerals.
- `FilePaths`: `fileName`, `directory`, `fileExtension`, `path`.
- `UriEncoding`: `toUri`, `toUriPath`, `fullPathUrl`, `fromUriPath`.
- `UriRoundTrip`: when decoding undoes encoding, plus the corrected
  encoders.
- `HexToBin`: `hexToBin`.

## Model

| member | source | states |
|---|---|---|
| Chars.ToLower | utility/file_utility.cpp:285 | `::tolower` in the C locale: the result is never an upper-case letter; an upper-case letter maps to its lower-case partner; every other byte is unchanged |
| FilePaths.FindLastOf | utility/file_utility.cpp:308 | `find_last_of`: no position iff no byte of the string is a target; otherwise the position is in range, holds a target, and no later position holds one |
| FilePaths.FileName | utility/file_utility.cpp:306-310 | the file name is a suffix of the path with no separator in it; a path without a separator is its own file name; otherwise the byte just before the suffix is a separator |
| FilePaths.Directory | utility/file_utility.cpp:318-322 | a path without a separator has the empty directory; otherwise directory, then the last separator, then the file name put back together give the path |
| FilePaths.FileExtension | utility/file_utility.cpp:279-287 | the extension contains no dot and no upper-case letter; a path without a dot has none; otherwise it is the lower-cased text after the last dot |
| FilePaths.LowerAll | utility/file_utility.cpp:285 | `transform` with `::tolower`: same length, and every byte is the C-locale lower case of the byte at the same position |
| FilePaths.TrimOneSeparator | utility/file_utility.cpp:336-339 | a directory ending in `/` or `\` loses exactly that last byte; any other directory is kept as it is |
| FilePaths.ForwardSlashes | utility/file_utility.cpp:345 | `replace` of `\` by `/`: same length, no backslash left, every other byte unchanged at its position |
| FilePaths.JoinPath | utility/file_utility.cpp:334-348 | POSIX `path`: the trimmed directory, then one `/`, then the relative path, with every backslash turned into `/` |
| FilePaths.FileNameOfJoin | utility/file_utility.cpp:334-348 | joining a directory and a name without separators, then splitting again, returns that name and the directory with one trailing separator removed and slashes made uniform |
| FilePaths.JoinOfSplit | utility/file_utility.cpp:306-348 | a path with a separator, whose directory part does not end in one, is rebuilt by `path(directory(p), fileName(p))` up to the slash direction |
| FilePaths.ExtensionAfterLastDot | utility/file_utility.cpp:279-287 | the extension of `stem + "." + ext`, where `ext` has no dot, is `ext` lower-cased, whatever the stem holds |
| FilePaths.ExtensionOfSuffix | utility/file_utility.cpp:279-287 | the extension of a string equals the extension of any suffix of it that holds a dot |
| FilePaths.ExtensionOfFileName | utility/file_utility.cpp:279-310 | when the file name holds a dot, the extension of the full path equals the extension of its file name |
| Chars.HexField | utility/file_utility.cpp:651 | the digits written after `%` are upper-case hexadecimal digits whose base-16 value is the byte; there is one digit below 0x10 unless padding is asked for, and two otherwise |
| UriEncoding.EscapeFacts | utility/file_utility.cpp:647-651 | a kept byte is written as itself; any other byte as `%` followed by upper-case hexadecimal digits whose base-16 value is the byte, one digit below 0x10 and two otherwise unless padding is asked for; every byte written is kept or `%` |
| UriEncoding.Encode | utility/file_utility.cpp:645-653 | every input byte is written as at least one output byte, so the output is never shorter than the input |
| UriEncoding.MarksListed | utility/file_utility.cpp:643-674 | the characters `IsMark` spells out are exactly those of the source's `legal_chars` string (`toUri`) and `unreserved` string (`toUriPath`) |
| UriEncoding.EncodeKeepsLength | utility/file_utility.cpp:645-652 | the encoding is exactly as long as its input iff every byte is kept, and an input of kept bytes is returned unchanged |
| UriEncoding.EncodeAlphabet | utility/file_utility.cpp:645-652 | every byte the encoder writes is a kept character or `%` |
| UriEncoding.EncodeAppend | utility/file_utility.cpp:645-652 | encoding works byte by byte: the encoding of a concatenation is the concatenation of the encodings |
| UriEncoding.EncodeAt | utility/file_utility.cpp:676-683 | at every position the encoding of the input is the encoding of the prefix, then the escape of that byte, then the encoding of the rest |
| UriEncoding.ToUri | utility/file_utility.cpp:641-654 | output never shorter than input, and exactly as long iff every byte is a letter, a digit or an RFC 2396 mark or reserved character; such a path comes back unchanged; the output holds only those characters and `%` |
| UriEncoding.ToUriPath | utility/file_utility.cpp:672-685 | output never shorter than input, and exactly as long iff every byte is a letter, a digit or one of `-._~/`; such a path comes back unchanged; the output holds only those characters and `%` |
| UriEncoding.FullPathUrl | utility/file_utility.cpp:610-620 | the URL starts with `file://`, is at least seven bytes longer than the path, and past the scheme is the `toUri` encoding of the path, so everything `ToUri` promises holds there; a path that needs no escape appears unchanged |
| UriEncoding.FromUriPath | utility/file_utility.cpp:687-704 | the decoded string is never longer than its input |
| UriEncoding.DecodeWithoutPercent | utility/file_utility.cpp:691-701 | a string without `%` is returned unchanged |
| UriEncoding.DecodeShrinksIffEscape | utility/file_utility.cpp:691-701 | decoding shortens a string iff somewhere in it `%` is followed by two hexadecimal digits |
| UriEncoding.DecodeAppend | utility/file_utility.cpp:691-701 | decoding a concatenation is decoding each part when the second part does not start with a hexadecimal digit |
| UriEncoding.LonePercentIsCopied | utility/file_utility.cpp:693-701 | a `%` that is not followed by two hexadecimal digits is copied to the output as it is |
| UriRoundTrip.DecodeEncodeIsReread | utility/file_utility.cpp:672-704 | decoding the as-written encoding equals a byte-by-byte reference: kept bytes and bytes of 0x10 or more come back; a byte below 0x10 comes back as `%X`, or glued with the next character into one byte when that character is a hex digit |
| UriRoundTrip.UnpaddedRoundTrip | utility/file_utility.cpp:645-704 | for either encoder as written, decoding undoes encoding iff no byte of the input is below 0x10 |
| UriRoundTrip.ToUriPathRoundTrip | utility/file_utility.cpp:672-704 | `fromUriPath(toUriPath(s)) == s` iff every byte of `s` is 0x10 or more |
| UriRoundTrip.ToUriRoundTrip | utility/file_utility.cpp:641-704 | `fromUriPath(toUri(s)) == s` iff every byte of `s` is 0x10 or more |
| UriRoundTrip.FullPathUrlRoundTrip | utility/file_utility.cpp:610-620 | decoding the part of a `file://` URL after the scheme gives the path back iff no byte of the path is below 0x10 |
| UriRoundTrip.UnpaddedGluesNextDigit | utility/file_utility.cpp:682 | `"\n1"` encodes to `"%A1"`, which decodes to the single byte 0xA1 |
| UriRoundTrip.UnpaddedLeavesText | utility/file_utility.cpp:682 | `"\n"` encodes to `"%A"`, which decodes to the text `"%A"` |
| UriRoundTrip.PaddedRoundTrip | utility/file_utility.cpp:632 | with the two-digit `%HH` escape the doc comment promises, decoding undoes encoding for every input and either charset |
| UriRoundTrip.ToUriPathPadded | utility/file_utility.cpp:657-685 | corrected `toUriPath`: `fromUriPath` of the result is the input, and the output holds only unreserved characters, `/` and `%` |
| UriRoundTrip.ToUriPadded | utility/file_utility.cpp:632-654 | corrected `toUri`: `fromUriPath` of the result is the input, and the output holds only RFC 2396 characters and `%` |
| HexToBin.StrtoulPair | utility/file_utility.cpp:714 | `strtoul` base 16 on two characters, truncated to a byte: two digits give `16*h1+h2`; a digit then a non-digit gives `h1`; white space or `+` then a digit gives that digit; `-` then a digit gives its negation mod 256; no digit gives 0 |
| HexToBin.HexToBin | utility/file_utility.cpp:706-717 | one byte per complete pair of input characters; byte `i` is the `strtoul` value of characters `2i` and `2i+1` |
| HexToBin.OddTailIgnored | utility/file_utility.cpp:710 | a trailing unpaired character does not change the output |
| HexToBin.HexDigitsDecode | utility/file_utility.cpp:706-717 | when every character is a hexadecimal digit, byte `i` is the base-16 value of its two digits |
| HexToBin.HexStringRoundTrip | utility/file_utility.cpp:706-717 | decoding the two-digit upper-case hexadecimal spelling of any byte string gives that byte string back |
| HexToBin.NonDigitPairs | utility/file_utility.cpp:712-714 | pairs that are not two digits: `" A"` gives 0x0A, `"-1"` gives 0xFF, `"zz"` gives 0, `"7g"` gives 7 |

## Left out

- The connection pool and the SM4 cipher are declarations only in the headers, with no behaviour to model.
- `encodeName`, `decodeName` and `convertUTF8` are left out because they call iconv and read the process locale.
- `isRelative` is left out because it depends on the platform's path rules.
- Everything that touches the file system or the clock is left out: existence checks, sizes, modification times, creating, removing, listing and copying files, temporary files, the current directory, environment variables.
- The `_WIN32` and `__APPLE__` branches are left out. `path` is modelled with `/` as the separator. `fullPathUrl` is modelled with the `file://` prefix and no backslash conversion.
- `tolower`, `isxdigit`, `isspace` and `strtoul` are modelled in the "C" locale only.
- Chars.ToLower: a byte of 0x80 or more is modelled as unchanged. The source passes a possibly negative `char` to `::tolower`, which C leaves undefined.
- UriEncoding.FromUriPath: a byte of 0x80 or more after `%` is modelled as not a hexadecimal digit. The source passes a possibly negative `char` to `isxdigit`, which C leaves undefined.
- String lengths are unbounded. `std::string`'s maximum size and allocation failure are not modelled.
- UriEncoding.FullPathUrl and the rest of the model use the encoders as written, not the corrected ones, because that is what the source does. The corrected encoders are modelled separately.

## Findings

| source | as written | input that shows it | evidently intended | confidence | as-written member | corrected member |
|---|---|---|---|---|---|---|
| utility/file_utility.cpp:682 | `toUriPath` writes an escaped byte with `hex << uppercase` and no field width, so a byte below 0x10 becomes `%` plus one digit | `"\n1"` encodes to `"%A1"`, which `fromUriPath` reads back as the single byte 0xA1; `"\n"` encodes to `"%A"`, which reads back as `"%A"` | two digits per escape (`%0A`), the `%HH` form the doc comment at line 657 names, so that `fromUriPath` undoes `toUriPath` | high; not executed | UriRoundTrip.ToUriPathRoundTrip | UriRoundTrip.ToUriPathPadded |
| utility/file_utility.cpp:651 | `toUri` writes an escaped byte with `hex << uppercase` and no field width, so a byte below 0x10 becomes `%` plus one digit | `"\n1"` encodes to `"%A1"`, which `fromUriPath` reads back as the single byte 0xA1 | two digits per escape (`%0A`), the `%HH` form the doc comment at line 632 names | high; not executed | UriRoundTrip.ToUriRoundTrip | UriRoundTrip.ToUriPadded |
