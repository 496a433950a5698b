# darthHelperLibs string and collection helpers in Dafny

A Dafny model of the helper library's string extensions (`StringHelper/StringExtension.cs`)
and its collection-emptiness check (`CollectionHelper/CollectionExtension.cs`).
A nullable C# string is an `Option<String>`, where `None` stands for null and `String` is
`seq<char>`. Counts and lengths are unbounded integers.

- `wrappers.dfy` (module `Wrappers`): `Option` for nullable references and `Result` for a
  thrown exception.
- `system_string.dfy` (module `SystemString`): the .NET string members the helpers call.
  These are `IsNullOrEmpty`, `IsNullOrWhiteSpace` (with the documented `Char.IsWhiteSpace`
  table), `IndexOf(char)`, `LastIndexOf(char)`, `Contains(string)`, `StartsWith` and
  `EndsWith`. All of them compare ordinally.
- `string_extension.dfy` (module `StringExtension`): `Left`, `Right`, `Reverse`,
  `Repeat`, `ToString(IEnumerable<string?>)`, `IsValidEmail`, `ToBase64` and `FromBase64`.
- `collection_extension.dfy` (module `CollectionExtension`): `IsEmptyOrNull`.

How each operation is modelled:

- `Left`, `Right`, `Repeat` and `IsValidEmail` are single expressions with early returns.
  They become functions.
- `Reverse` copies the string into a `char` array and reverses it in place. The model is a
  method that swaps mirrored array cells in a loop. It is proved against the recursive
  reference function `Reversed`.
- `ToString` first sums the element lengths into a capacity with `Aggregate`. It then
  appends every element to a `StringBuilder`. The model is a method with one loop for each
  step, proved against the reference function `Concat`. The proof shows that the final
  length equals the precomputed capacity, so the builder never has to grow.
- `IsValidEmail` ends by calling the platform's `MailAddress` parser. The model takes that
  parser as a parameter, `mailAddressParses: String -> bool`.
- The hand-written domain checks of `IsValidEmail` (`DomainChecks`, in the source's order)
  are proved equal to a direct statement of the rules (`WellFormedDomain`). A separate
  lemma, `DomainChecksFirstDotTestRedundant`, shows a redundancy in the source. Dropping
  the test "the first `.` is the last character" (StringExtension.cs:51) accepts exactly
  the same domains, because the later rule "last label of at least two characters"
  (line 58) already rejects them.

Where the code and its description differ, the model follows the code:

- The tests call the concatenation helper `BuildString`. The source declares it as
  `ToString(this IEnumerable<string?>?)`, and the model keeps that name.
- The email validation never consults the precompiled pattern in `Resources/Regexes.cs`.
  It runs only the hand-written checks and then the parser.
- Several '@' signs are not rejected by the hand-written checks. The domain is taken after
  the *last* '@', so `user@domain@domain.com` passes them and only the parser can reject
  it (`IsValidEmailParserDecidesTestDomains`).
- `FromBase64` reports invalid input with an `ArgumentException` that names the parameter
  (`base64String`), not the offending value.

## Model

| member | source | states |
|---|---|---|
| `StringExtension.Left` | darthHelperLibs/StringHelper/StringExtension.cs:83-89 | null or `n <= 0` gives ""; otherwise the result is a prefix of the input whose length is `n` clamped to `0..length` |
| `StringExtension.Right` | darthHelperLibs/StringHelper/StringExtension.cs:119-125 | null or `n <= 0` gives ""; otherwise the result is a suffix of the input whose length is `n` clamped to `0..length` |
| `StringExtension.LeftRightWhole` | darthHelperLibs/StringHelper/StringExtension.cs:88 | a count at or above the length gives back the whole input, for Left and for Right (line 124) |
| `StringExtension.LeftRightSplit` | darthHelperLibs/StringHelper/StringExtension.cs:83-89 | `Left(s, n) + Right(s, |s| - n) == s` for `0 <= n <= |s|`: the two slices partition the input |
| `StringExtension.RightIsMirroredLeft` | darthHelperLibs/StringHelper/StringExtension.cs:119-125 | Right of `s` is the reversal of Left of the reversed `s`, for every count |
| `StringExtension.LeftRightScenarios` | darthHelperLibs.test/StringHelper/StringExtensionTests.cs:92-136 | the test suite's Left and Right cases, including null, empty, zero, negative and over-long counts |
| `StringExtension.Reversed` | darthHelperLibs/StringHelper/StringExtension.cs:104-106 | reversal keeps the length |
| `StringExtension.ReversedAt` | darthHelperLibs/StringHelper/StringExtension.cs:104-106 | position `i` of the reversal holds `s[|s| - 1 - i]` |
| `StringExtension.ReversedIs` | darthHelperLibs/StringHelper/StringExtension.cs:104-106 | conversely, any sequence that mirrors `s` position by position is its reversal |
| `StringExtension.ReversedInvolution` | darthHelperLibs/StringHelper/StringExtension.cs:104-106 | reversing twice gives back the sequence |
| `StringExtension.ReverseOfInvolution` | darthHelperLibs/StringHelper/StringExtension.cs:98-107 | Reverse applied twice is the identity, for null and "" too, since both are passed through unchanged |
| `StringExtension.Reverse` | darthHelperLibs/StringHelper/StringExtension.cs:98-107 | null and "" are returned unchanged; otherwise the result has the same length and mirrored characters, computed by swapping the cells of a char array |
| `StringExtension.ReverseScenarios` | darthHelperLibs.test/StringHelper/StringExtensionTests.cs:111-115 | the test suite's Reverse cases other than the greeting: `"abc"`, `"A"`, `" 123 "`, `""` and null |
| `StringExtension.ReverseGreetingScenario` | darthHelperLibs.test/StringHelper/StringExtensionTests.cs:110 | `"Hello, World!"` reverses to `"!dlroW ,olleH"` |
| `StringExtension.Repeated` | darthHelperLibs/StringHelper/StringExtension.cs:146 | `k` copies of `s` have length `k * |s|` |
| `StringExtension.RepeatedAt` | darthHelperLibs/StringHelper/StringExtension.cs:146 | copy number `q` sits at offset `q * |s|`: position `q * |s| + j` holds `s[j]` |
| `StringExtension.RepeatedAdd` | darthHelperLibs/StringHelper/StringExtension.cs:146 | `m + n` copies are `m` copies followed by `n` copies |
| `StringExtension.Repeat` | darthHelperLibs/StringHelper/StringExtension.cs:136-147 | null, "" or `count <= 0` gives ""; otherwise the length is `count * |s|` |
| `StringExtension.RepeatAt` | darthHelperLibs/StringHelper/StringExtension.cs:136-147 | every one of the `count` copies in Repeat's result is the input |
| `StringExtension.ConcatAppend` | darthHelperLibs/StringHelper/StringExtension.cs:170-173 | the concatenation of joined sequences is the concatenation of each, so appending element by element builds `Concat` |
| `StringExtension.ConcatLength` | darthHelperLibs/StringHelper/StringExtension.cs:165 | the capacity summed by Aggregate equals the length of the concatenation |
| `StringExtension.SumLengthsMonotone` | darthHelperLibs/StringHelper/StringExtension.cs:165 | the capacity of a prefix never exceeds the total, so no append overflows the buffer |
| `StringExtension.ToString` | darthHelperLibs/StringHelper/StringExtension.cs:156-176 | a null sequence gives ""; otherwise the result is the elements in order with null read as "", and its length is exactly the precomputed capacity |
| `StringExtension.ConcatSkipsNull` | darthHelperLibs.test/StringHelper/StringExtensionTests.cs:13 | `["Hello", null, "World"]` concatenates to `"HelloWorld"` |
| `StringExtension.Domain` | darthHelperLibs/StringHelper/StringExtension.cs:24-30 | the domain is what follows the last '@': it holds no '@' and the address is local part, '@', domain |
| `StringExtension.DomainChecksFirstDotTestRedundant` | darthHelperLibs/StringHelper/StringExtension.cs:51-61 | the ordered checks accept the same domains with or without the "first dot is the last character" test |
| `StringExtension.DomainChecksAgree` | darthHelperLibs/StringHelper/StringExtension.cs:32-61 | the ordered checks accept a domain exactly when it has no `..`, no hyphen at either end, a dot, and a last label of at least two characters |
| `StringExtension.IsValidEmail` | darthHelperLibs/StringHelper/StringExtension.cs:16-73 | true only for a present address containing '@' that the mail-address parser accepts |
| `StringExtension.IsValidEmailSpec` | darthHelperLibs/StringHelper/StringExtension.cs:16-73 | true exactly when the address is not blank, contains '@', its domain is well formed, and the parser accepts it |
| `StringExtension.IsValidEmailRejectsBlank` | darthHelperLibs/StringHelper/StringExtension.cs:18-21 | null, empty and white-space-only addresses are rejected |
| `StringExtension.IsValidEmailRejectsMissingDomain` | darthHelperLibs/StringHelper/StringExtension.cs:24-28 | no '@', or the last '@' as the final character, is rejected |
| `StringExtension.IsValidEmailRejectsBadDomain` | darthHelperLibs/StringHelper/StringExtension.cs:32-61 | each domain rule alone rejects: `..`, a hyphen at an end, no dot, or a dot among the last two characters |
| `StringExtension.IsValidEmailSplit` | darthHelperLibs/StringHelper/StringExtension.cs:24-72 | for `local@d` with no '@' in `d`, the verdict is "`d` well formed and the parser accepts", whatever the local part |
| `StringExtension.IsValidEmailRejectsTestDomains` | darthHelperLibs.test/StringHelper/StringExtensionTests.cs:52-61 | the test suite's rejected domains are rejected for every local part, whatever the parser says |
| `StringExtension.IsValidEmailParserDecidesTestDomains` | darthHelperLibs.test/StringHelper/StringExtensionTests.cs:46-55 | the domains of all the test suite's accepted addresses (`example.com`, `subdomain.example.com`, `example.co`, the international `例子.公司`, `subdomain.example.superlongdomain.com`) pass the hand-written checks for any local part, so only the parser decides; with domain `domain.com` this covers the two-'@' address |
| `StringExtension.ToBase64` | darthHelperLibs/StringHelper/StringExtension.cs:187-197 | a null input is encoded as "" would be |
| `StringExtension.FromBase64` | darthHelperLibs/StringHelper/StringExtension.cs:210-226 | null, empty or white-space input gives ""; otherwise the decoded text, or an ArgumentException naming `base64String` exactly when decoding fails |
| `StringExtension.Base64RoundTrip` | darthHelperLibs/StringHelper/StringExtension.cs:187-226 | decoding an encoding gives the text back, given a codec that round-trips |
| `SystemString.LastIndexOf` | darthHelperLibs/StringHelper/StringExtension.cs:24 | the last position of the character, or -1 exactly when it does not occur |
| `SystemString.IndexOf` | darthHelperLibs/StringHelper/StringExtension.cs:51 | the first position of the character, or -1 exactly when it does not occur |
| `SystemString.Contains` | darthHelperLibs/StringHelper/StringExtension.cs:33 | true exactly when the piece occurs at some position |
| `CollectionExtension.IsEmptyOrNull` | darthHelperLibs/CollectionHelper/CollectionExtension.cs:11-14 | true for null and for an empty sequence, false for any sequence with an element |
| `CollectionExtension.IsEmptyOrNullIgnoresElements` | darthHelperLibs/CollectionHelper/CollectionExtension.cs:13 | the answer depends only on presence and length, never on the elements |

## Left out

- The `MailAddress` parser (StringExtension.cs:64-72) is platform code. It is the parameter
  `mailAddressParses`. So the model cannot show that the two-'@' address or the
  international address get the verdicts the tests expect. It shows only that the parser
  alone decides them.
- `Encoding.UTF8` and `Convert.To/FromBase64String` are platform code. They are the
  parameters `encode` and `decode`, where `decode` returns `None` for a format error. The
  model covers only the null default of `ToBase64` and the blank guard and error mapping of
  `FromBase64`.
- Base64RoundTrip: assumes that the codec round-trips and that only "" encodes to a blank
  string. It does not prove these facts about UTF-8 and Base64.
- `Resources/Regexes.cs` is not part of this model. No modelled code uses it.
- Strings are sequences of Dafny `char`, which are Unicode scalar values. Lone UTF-16
  surrogate halves cannot be represented, so the model cannot show `Reverse` splitting a
  surrogate pair.
- `EndsWith("-")` and `StartsWith("-")` with a string argument compare by the current
  culture in .NET. The model compares ordinally, so it does not capture culture rules that
  ignore some characters.
- 32-bit limits are not modelled. `Repeat` never multiplies: `string.Concat` throws
  `OutOfMemoryException` once the result would exceed the maximum string length. In
  `ToString` the unchecked `Aggregate` sum (StringExtension.cs:165) can wrap to a negative
  `int`, and then `new StringBuilder(estimatedCapacity)` (line 167) throws
  `ArgumentOutOfRangeException`. The model uses unbounded integers and has no such
  failures: its `Repeat` and `ToString` always return the full result.
- `ToString` calls `ToList()` so that a lazy sequence is enumerated once. The model takes
  the sequence as already materialised.
- `IsEmptyOrNull` stops at the first element (`Any()`). Over a finite `seq` only the
  result can be observed, not how much of the sequence was enumerated.
