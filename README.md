# rsip message-parsing core, modelled in Dafny

This project models three parts of the SIP (RFC 3261) parsing pipeline of the `rsip` crate, and proves properties of the model:

- **The URI authority tokenizer** (`src/common/uri/auth.rs`). It slices the `user[:password]@` prefix out of the URI bytes. Its conversion turns the two byte slices into owned UTF-8 text.
- **The top-level message type** (`src/message/sip_message.rs`). It covers the request/response sum type and its delegating accessors, and the writes made through `headers_mut`/`body_mut`. It also covers the tokenizer that tries the status-line grammar before the request-line grammar, the conversion that mirrors the variant, and the five `TryFrom` entry points.
- **The `expires` parameter** (`src/common/uri/param/expires.rs`). It is a newtype over text. Only `seconds()` reads it as a `u32`, with the exact rules of Rust's `u32::from_str`.

Files and modules:

| file | module | what it holds |
|---|---|---|
| `wrappers.dfy` | `Wrappers`, `Bytes` | `Option`, `Result`; bytes as `0..255` and the ASCII bytes `.`, `:`, `@` |
| `nom.dfy` | `Nom` | the parser-combinator library's `take_till`, `tag`, `take_until`, `rest`, `map`, `alt`, specified on sequences; its error has three kinds: `Incomplete`, recoverable `Error`, committed `Failure` |
| `utf8.dfy` | `Utf8` | the UTF-8 grammar of section 4 of RFC 3629, a decoder into Dafny `string` (Unicode scalar values) and the encoder back |
| `errors.dfy` | `Errors` | a reduced crate `Error`: tokenizer failure, UTF-8 failure, integer-parse failure with its kind |
| `auth.dfy` | `UriAuth` | `Auth`, its `Tokenizer`, `tokenize`, `parse`, the tuple `From` impls |
| `expires.dfy` | `ExpiresParam` | `Expires`, `seconds`, the `u32` parser and a reference decimal reading |
| `message.dfy` | `Message` | placeholder `Request`/`Response`/`Version`/`Headers` (their modules are not part of this model) |
| `sip_message.dfy` | `SipMessage` | `SipMessage`, its accessors, a mutable cell for the `&mut self` accessors, the message `Tokenizer`, `tokenize`, `try_into`, and the entry points |

Modelling choices:

- A borrowed slice is the byte sequence it views. The round-trip lemmas show each slice is the matching piece of the input.
- A Rust `String` is a Dafny `string`: the text its UTF-8 bytes decode to. `from_utf8` is `Utf8.Decode`. "The decoded text equals the bytes" is `Utf8.Encode(Decode(b)) == b`.
- The request-line and status-line tokenizers and converters are not part of this model. `SipMessage.StartLines` takes them as four given functions, so every dispatch property holds for any such grammar.
- `u32::from_str` works on the bytes of the string. The model reads characters instead. Both give the same result: every byte of a non-ASCII character is 0x80 or above, so it is a non-digit in either reading, and the scan stops at the same place.
- Points where the code's behaviour may be surprising:
  - After a successful match, the top-level tokenizer reports an empty remainder, not the unconsumed tail (`src/message/sip_message.rs:141`). `SipMessage.Tokenize` proves this.
  - A UTF-8 failure in `Auth::parse` is a plain `Utf8Error`. It does not name the field that failed.
  - The authority scan stops at the first `.`. So `john.doe@host` is no authority, although RFC 3261 (sections 19.1.1 and 25.1) allows `.` in the user part (`src/common/uri/auth.rs:64`, `:71`).
  - `nom`'s `alt` retries only after a recoverable `Error`. A committed `Failure` or an `Incomplete` from the status-line tokenizer ends the choice, and the request-line grammar is never tried. `SipMessage.Tokenize` states this.

## Model

| member | source | states |
|---|---|---|
| `Nom.TakeTill` | src/common/uri/auth.rs:71 | `take_till` never fails. It splits the input into taken ++ remainder, with no stop byte in the taken part and a stop byte (or nothing) at the head of the remainder: the longest prefix without a stop byte. |
| `Nom.TakeTillStopsAtFirst` | src/common/uri/auth.rs:71 | When index i holds the first stop byte, `take_till` takes exactly the bytes before i. |
| `Nom.Tag` | src/common/uri/auth.rs:71 | `tag(t)` succeeds iff t is a prefix of the input. It then consumes exactly t. Otherwise it is a recoverable `Error`. |
| `Nom.FindFrom` | src/common/uri/auth.rs:74 | Returns the first index at or after `from` where the literal occurs, or None when it occurs nowhere from there. |
| `Nom.TakeUntil` | src/common/uri/auth.rs:74 | `take_until(t)` succeeds iff t occurs. It then returns everything before the first occurrence and leaves t at the head of the remainder. Otherwise it is a recoverable `Error`. |
| `Nom.Rest` | src/common/uri/auth.rs:74-78 | `rest` never fails. It returns the whole input and leaves nothing. |
| `Nom.Map` | src/message/sip_message.rs:134-139 | `map` applies a function to the value matched by a recognizer and passes failures through. It only computes; its uses are stated by `SipMessage.Tokenize`. |
| `Nom.Alt` | src/message/sip_message.rs:134-139 | `alt` over two branches: the first result unless it is a recoverable `Error`, then the second; two recoverable errors give one `Error` at the input. It only computes; `SipMessage.Tokenize` states each case. |
| `Utf8.ScalarOf` | src/common/uri/auth.rs:29-33 | Every UTF8-char of RFC 3629 encodes a Unicode scalar value (no surrogate, at most 0x10FFFF). Its length is fixed by the value's range, so overlong forms are excluded. |
| `Utf8.CharLengthIsLeadLength` | src/common/uri/auth.rs:29-33 | A UTF8-char is as long as its first octet announces, so an octet string starts with at most one UTF8-char. |
| `Utf8.EncodeChar` | src/common/uri/auth.rs:29-33 | The encoding of a character is one UTF8-char whose scalar value is that character. |
| `Utf8.EncodeScalarOf` | src/common/uri/auth.rs:29-33 | Re-encoding the value of a UTF8-char gives back the same octets. |
| `Utf8.EncodeScalarOf3` | src/common/uri/auth.rs:29-33 | The same, for a three-octet UTF8-char. |
| `Utf8.EncodeScalarOf4` | src/common/uri/auth.rs:29-33 | The same, for a four-octet UTF8-char. |
| `Utf8.DecodeChar` | src/common/uri/auth.rs:29-33 | Succeeds iff the input starts with a UTF8-char. It returns that char's length and a character whose encoding is exactly those octets. |
| `Utf8.Decode` | src/common/uri/auth.rs:29-33 | `std::str::from_utf8`: reads the bytes one UTF8-char at a time. It only computes; `Utf8.DecodeSucceedsIff` and `Utf8.EncodeDecoded` state when it succeeds and what it returns. |
| `Utf8.Encode` | src/message/sip_message.rs:74-88 | `str::as_bytes`: the UTF-8 encoding of each character in turn. It only computes; `Utf8.DecodeEncoded`, `Utf8.EncodingIsUtf8` and `Utf8.EncodeConcat` state what it returns. |
| `Utf8.DecodeSucceedsIff` | src/common/uri/auth.rs:29-33 | `from_utf8` succeeds iff the bytes match the UTF8-octets grammar of section 4 of RFC 3629, in both directions. |
| `Utf8.EncodeDecoded` | src/common/uri/auth.rs:29-33 | On success, the decoded text has exactly the input bytes as its UTF-8 encoding. |
| `Utf8.DecodeCharOfEncoding` | src/common/uri/auth.rs:29-33 | The first character of any encoding is decoded back, with the length of its encoding. |
| `Utf8.DecodeEncoded` | src/common/uri/auth.rs:29-33 | Every text survives encoding then decoding unchanged. |
| `Utf8.EncodingIsUtf8` | src/message/sip_message.rs:74-88 | The bytes of any text (`as_bytes`) are well-formed UTF-8. |
| `Utf8.EncodeConcat` | src/message/sip_message.rs:74-88 | Encoding distributes over concatenation. |
| `Utf8.AsciiInEncoding` | src/common/uri/auth.rs:71-74 | An ASCII byte such as `.`, `@` or `:` occurs in the encoding of a text iff its character occurs in the text. |
| `Utf8.EncodeAscii` | src/common/uri/auth.rs:71 | ASCII text is encoded one byte per character, each byte the character's code. |
| `UriAuth.Tokenize` | src/common/uri/auth.rs:65-84 | On success the input is exactly `username ++ [":" ++ password] ++ "@" ++ rem`. Every failure is a recoverable `Error`. |
| `UriAuth.TokenizeAtFirstAt` | src/common/uri/auth.rs:71-83 | When the first `.`/`@` is an `@` at index i, tokenizing succeeds. The userinfo is then the bytes before i, and the remainder is exactly the bytes after it, left uninspected. |
| `UriAuth.TokenizeSucceedsIff` | src/common/uri/auth.rs:71 | Tokenizing succeeds iff the input holds a `.` or an `@` and the first of them is `@`. |
| `UriAuth.TokenizeMismatch` | src/common/uri/auth.rs:71 | No `@`, or a `.` before the first `@`, gives a recoverable mismatch `Error`. |
| `UriAuth.SplitAtColon` | src/common/uri/auth.rs:74-78 | The inner `take_until(":"), tag(":"), rest` on the userinfo. It only computes; `UriAuth.SplitAtFirstColon` states what it returns. |
| `UriAuth.SplitAtFirstColon` | src/common/uri/auth.rs:74 | The inner `take_until(":"), tag(":"), rest` succeeds iff the userinfo holds a `:`. The username then holds no `:`, and username + `:` + password is the whole userinfo. |
| `UriAuth.TokenizeSplitsAtFirstColon` | src/common/uri/auth.rs:73-80 | With a `:`, the username is the bytes before the first `:` and the password is `Some` of everything after it, possibly empty or holding further `:`. Without a `:`, the username is the whole userinfo, possibly empty, and the password is `None`. |
| `UriAuth.TokenizedFieldsHaveNoUserinfoEnd` | src/common/uri/auth.rs:71-80 | Neither the username nor the password ever holds `.` or `@`. |
| `UriAuth.TokenizeUserinfo` | src/common/uri/auth.rs:53-84 | A tokenizer built from fields that are valid here gives back the same tokenizer and the remainder when printed as `username[:password]@rem` and tokenized again. |
| `UriAuth.Parse` | src/common/uri/auth.rs:25-45 | Succeeds iff the username is UTF-8 and the password, when present, is UTF-8 too. On success each text encodes to exactly its bytes, and a password is present iff it was present before. Otherwise the result is `Utf8Error`. |
| `UriAuth.ParseFromPair` | src/common/uri/auth.rs:16-36 | Converting the tokenizer that the tuple `From` builds from the encodings of (username, password) gives exactly the `Auth` that the tuple `From` builds from (username, password), with `None` and empty passwords kept. |
| `UriAuth.EncodeUserinfoText` | src/common/uri/auth.rs:71-83 | The bytes of the text `username[:password]@host` are the tokenizer's userinfo, then `@`, then the bytes of host. |
| `UriAuth.AuthRoundTrip` | src/common/uri/auth.rs:25-84 | Printing an `Auth` as `username[:password]@host`, tokenizing and converting gives the `Auth` back, with the bytes of host as remainder. This holds when the username has no `.`, `@` or `:` and the password has no `.` or `@`. |
| `UriAuth.UserAtHostExample` | src/common/uri/auth.rs:77-80 | `user@host` gives username `user` and no password. |
| `UriAuth.UserPassAtHostExample` | src/common/uri/auth.rs:74-76 | `user:pass@host` gives username `user` and password `pass`. |
| `UriAuth.EmptyPasswordExample` | src/common/uri/auth.rs:74-76 | `user:@host` gives password `Some("")`, not `None`. |
| `UriAuth.DotBeforeAt` | src/common/uri/auth.rs:64-71 | A `.` in the text before any `@` is a recoverable mismatch. |
| `UriAuth.HostDomainExample` | src/common/uri/auth.rs:71 | `host.domain` does not tokenize as an authority. |
| `UriAuth.DottedUserExample` | src/common/uri/auth.rs:64-71 | `john.doe@host` does not tokenize as an authority. |
| `ExpiresParam.Seconds` | src/common/uri/param/expires.rs:10-12 | `seconds` reads the stored text on every call. It succeeds iff the text, after at most one leading `+`, is one or more ASCII digits with a value of at most 4294967295, and then returns that value. It fails with `Empty` exactly on the empty text. Every failure is a `ParseIntError`. |
| `ExpiresParam.ParseU32` | src/common/uri/param/expires.rs:11 | `str::parse::<u32>` succeeds iff the text, after at most one leading `+`, is a non-empty digit string whose decimal value fits in a `u32`, and then returns that value. It reports `Empty` exactly for the empty text; a lone `+` or `-` is `InvalidDigit`. |
| `ExpiresParam.Accumulate` | src/common/uri/param/expires.rs:11 | The digit loop of `str::parse::<u32>`, checking each character and the `u32` bound in turn. It only computes; `AccumulateDigits`, `AccumulateNonDigit`, `AccumulateFirstNonDigit`, `AccumulateOverflowBeforeNonDigit` and `AccumulateNeverEmpty` state what it returns. |
| `ExpiresParam.ToDecimal` | src/common/uri/param/expires.rs:11 | The decimal numeral of a number is a non-empty string of digits. |
| `ExpiresParam.FoldAtLeast` | src/common/uri/param/expires.rs:11 | Reading more digits never lowers the value. |
| `ExpiresParam.FoldAppend` | src/common/uri/param/expires.rs:11 | Appending a digit multiplies the value by ten and adds the digit. |
| `ExpiresParam.FoldLeadingZeros` | src/common/uri/param/expires.rs:11 | Leading zeros do not change the value. |
| `ExpiresParam.DecimalValueOfToDecimal` | src/common/uri/param/expires.rs:11 | The decimal numeral of n reads back as n. |
| `ExpiresParam.AccumulateDigits` | src/common/uri/param/expires.rs:11 | On digits, the parse loop returns the decimal value when it is at most 4294967295, and `PosOverflow` otherwise. |
| `ExpiresParam.AccumulateNonDigit` | src/common/uri/param/expires.rs:11 | Any non-digit makes the parse loop fail. |
| `ExpiresParam.AccumulateFirstNonDigit` | src/common/uri/param/expires.rs:11 | The first non-digit is reported as `InvalidDigit` when the digits before it fit in a `u32`. |
| `ExpiresParam.AccumulateOverflowBeforeNonDigit` | src/common/uri/param/expires.rs:11 | When the digits before the first non-digit already exceed 4294967295, the loop reports `PosOverflow`, not `InvalidDigit`. |
| `ExpiresParam.AccumulateNeverEmpty` | src/common/uri/param/expires.rs:11 | The parse loop never reports `Empty`. |
| `ExpiresParam.SecondsOverflow` | src/common/uri/param/expires.rs:10-11 | A digit string with a value above 4294967295 fails with `PosOverflow`. |
| `ExpiresParam.SecondsInvalidDigit` | src/common/uri/param/expires.rs:10-11 | A non-digit fails with `InvalidDigit` when the digits before it fit. This covers `-`, a space, a letter and a second `+`. |
| `ExpiresParam.SecondsOverflowBeforeNonDigit` | src/common/uri/param/expires.rs:10-11 | Digits worth more than 4294967295 before a non-digit fail with `PosOverflow`, as in `99999999999a`. |
| `ExpiresParam.SecondsRoundTrip` | src/common/uri/param/expires.rs:10-11 | For every n below 2^32, `seconds` of the decimal numeral of n, after any number of leading zeros, is n. |
| `ExpiresParam.SecondsExamples` | src/common/uri/param/expires.rs:10-11 | `3600` gives 3600, and `+5` gives 5. |
| `ExpiresParam.InvalidDigitExamples` | src/common/uri/param/expires.rs:6-11 | `abc`, `-1` and ` 5` are valid `Expires` values. Only their `seconds` fails, with `InvalidDigit`. |
| `ExpiresParam.LargestExample` | src/common/uri/param/expires.rs:10-11 | An `Expires` holding `4294967295` gives 4294967295 seconds. |
| `ExpiresParam.OverflowExample` | src/common/uri/param/expires.rs:10-11 | An `Expires` holding `4294967296` fails with `PosOverflow`. |
| `SipMessage.SipMessage.IsRequest` | src/message/sip_message.rs:14-20 | Every message is a request iff it is not a response, so exactly one of the two holds. |
| `SipMessage.SipMessage.WithHeaders` | src/message/sip_message.rs:36-41 | After a write through `headers_mut`, the headers are the written ones. The variant, version and body are unchanged, and so is the method/URI or the status code. |
| `SipMessage.SipMessage.WithBody` | src/message/sip_message.rs:50-55 | After a write through `body_mut`, the body is the written one. The variant, version and headers are unchanged, and so is the method/URI or the status code. |
| `SipMessage.MessageCell.constructor` | src/message/sip_message.rs:7-11 | A cell holds the message it is given. |
| `SipMessage.MessageCell.SetHeaders` | src/message/sip_message.rs:36-41 | Writing through `headers_mut` in place leaves the message that `WithHeaders` describes. |
| `SipMessage.MessageCell.SetBody` | src/message/sip_message.rs:50-55 | Writing through `body_mut` in place leaves the message that `WithBody` describes. |
| `SipMessage.WriteLaws` | src/message/sip_message.rs:29-55 | Writing back headers or a body that was just read changes nothing. Of two writes, only the last one is seen. Header and body writes commute. |
| `SipMessage.AccessorsDelegate` | src/message/sip_message.rs:22-48 | `version`, `headers` and `body` of a converted message are the fields of the request or response that the start-line conversion produced. |
| `SipMessage.Tokenize` | src/message/sip_message.rs:133-142 | The remainder is always empty on success. A matching status-line wins, whatever the request grammar would say. `Request` comes only after a recoverable status-line mismatch and a request-line match. A committed status-line failure is returned without trying the request grammar. Two recoverable mismatches give one `Error` at the input. |
| `SipMessage.Convert` | src/message/sip_message.rs:106-111 | Keeps the variant. `Request(t)` becomes `Request` of the converted request, and `Response(t)` becomes `Response` of the converted response. An inner conversion error is returned unchanged. |
| `SipMessage.FromBytes` | src/message/sip_message.rs:58-72 | The result is a `Response` iff the status-line matched and its conversion succeeded. It is a `Request` iff the status-line mismatched recoverably and the request-line matched and converted. A status-line whose conversion fails is an error and is never re-read as a request. After a recoverable status-line mismatch and a request-line match, a failed request conversion is returned unchanged. A tokenizer failure becomes `ParseError`. |
| `SipMessage.FromStr` | src/message/sip_message.rs:74-88 | `TryFrom<&str>` and `TryFrom<String>` tokenize the text's UTF-8 bytes. It only computes; `SipMessage.TextEntryPointsAgree` states that it agrees with the byte entry points. |
| `SipMessage.TextEntryPointsAgree` | src/message/sip_message.rs:58-96 | Any well-formed UTF-8 bytes decode to a text, and the text entry points on that text give exactly what the byte entry points give on the bytes. So all five entry points agree on the same content. |

## Left out

- The `request` and `response` modules (their tokenizers, converters, `Request`, `Response`, `Headers`, `Version`) are not part of this model. `SipMessage.StartLines` takes the two tokenizers and two converters as given functions. `Message` keeps only the fields the dispatch reads or writes, plus the method and URI or the status code, so that those can be shown unchanged.
- `src/headers/typed/route.rs` and `src/headers/typed/error_info/mod.rs` delegate entirely to the URI-with-params-list tokenizer, which is not part of this model. The list conversion is therefore not modelled.
- Error payloads are reduced. A `nom` error keeps only its kind (`Incomplete`, `Error`, `Failure`) and the input position; `VerboseError`'s frame list is dropped. The crate `Error` keeps only which failure happened; Rust's `Utf8Error` details and error message strings are dropped.
- `Vec<u8>` and `bytes::Bytes` are the same byte sequence as `&[u8]`, and `String` is the same text as `&str`. Ownership, reference counting and lifetimes are not modelled, so three of the five entry points are `SipMessage.FromBytes` and two are `SipMessage.FromStr`.
- `SipMessage.SipMessage.Version`, `Headers` and `Body` only compute. What they return is stated by `SipMessage.AccessorsDelegate`, `WithHeaders`, `WithBody` and `WriteLaws`.
- `UriAuth.AuthFromPair` and `UriAuth.TokenizerFromPair` (`src/common/uri/auth.rs:16-21`, `:54-59`) only copy their components. That they keep the password's presence is stated through `UriAuth.ParseFromPair`. The generic `Into<String>` conversions of the tuple components are the identity here.
- The derive macros (`NewType`, `IntoParam`, `Debug`, `Clone`, `PartialEq`) and `Display` are left out. They only serialize, compare or copy.
- That `seconds()` does not change the stored string, and that repeated calls agree, hold by construction: `Expires` is an immutable value and `Seconds` is a function of it.
- The concrete start-line examples (`SIP/2.0 200 OK` is a response, an `INVITE` line is a request) depend on the status-line and request-line grammars, which are not part of this model.
