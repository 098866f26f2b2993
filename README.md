# Gmail message decoding, modelled in Dafny

This project models the message-decoding core of the "fetch email by id" tool
(`get_email_by_id.py`). The tool fetches one Gmail message in "full" format.
It then flattens the message into a record for display:

- it looks up the Subject, From, To and Date headers case-insensitively;
- it picks a body part from the (possibly multipart) payload;
- it decodes the part's base64url data as UTF-8;
- it fills missing values with fixed placeholders.

Every part of this core is a pure function of the fetched message, so the model
is datatypes, functions and lemmas:

- `wrappers.dfy`: `Option` and `Result`, plus the `uint8` octet type.
- `base64url.dfy` (module `Base64Url`): the base64url encoding of section 5 of
  RFC 4648. The decoder stands in for Python's `base64.urlsafe_b64decode`. The
  encoder exists so that a round trip can be stated.
- `utf8.dfy` (module `Utf8`): UTF-8 as defined by RFC 3629. It stands in for
  Python's strict `bytes.decode("utf-8")`. Both round trips are proved, so
  decoding is the exact inverse of encoding.
- `email_by_id.dfy` (module `EmailById`): the source file's `get_header_value`,
  `decode_body` and `extract_body`, and the record built inside
  `fetch_email_by_id`.
- `scenarios.dfy` (module `EmailByIdScenarios`): concrete message shapes. Each one
  pins down one behaviour, including the quirks of `extract_body`.

A MIME payload is a tree, but `extract_body` does not recurse: it looks only
at the direct children of the top-level payload. The model follows the code.
`NestedPlainNotSearched` and `ExtractBodyIgnoresGrandchildren` state this.

## Model

| member | source | states |
|---|---|---|
| `EmailById.Lower` | get_email_by_id.py:61 | the lower-cased name has the same length; an ASCII capital becomes the small letter 32 code points above it, every other character is kept, and no ASCII capital remains |
| `EmailById.LowerEqualIff` | get_email_by_id.py:61 | two names lower-case to the same text exactly when they have the same length and agree at each position up to the case of an ASCII letter |
| `EmailById.GetHeaderValueIgnoresAsciiCase` | get_email_by_id.py:60-62 | queries that agree letter by letter up to ASCII case, such as "SUBJECT" and "subject", give the same lookup result on every header list |
| `EmailById.GetHeaderValue` | get_email_by_id.py:49-62 | None exactly when no header name equals the query after lower-casing both; otherwise the value of the first header whose name matches |
| `EmailById.GetHeaderValueAt` | get_email_by_id.py:60-62 | when header `i` is the first whose name matches, the lookup returns exactly its value |
| `EmailById.GetHeaderValueCaseInsensitive` | get_email_by_id.py:61 | two queries that lower-case to the same text give the same result on every header list |
| `EmailById.GetHeaderValueLowered` | get_email_by_id.py:61 | looking up the lower-cased query is the same as looking up the query |
| `EmailById.DecodeData` | get_email_by_id.py:78-79 | fails with the base64 error exactly when the data is not valid base64; fails with the UTF-8 error exactly when the octets are not UTF-8; otherwise the data decodes to the UTF-8 encoding of the result |
| `EmailById.DecodeBody` | get_email_by_id.py:65-81 | empty data gives ""; a decoding failure gives the inline "[Error decoding body: ...]" text; a success gives the decoded text; no case fails |
| `EmailById.DecodeBodyRoundTrip` | get_email_by_id.py:78-79 | for every text `s`, decoding the base64url encoding of the UTF-8 encoding of `s` gives back `s` |
| `EmailById.DecodeBodyErrorShape` | get_email_by_id.py:80-81 | for non-empty data that fails to decode, the result starts with "[Error decoding body: " and ends with "]" |
| `EmailById.DecodeBodySuccess` | get_email_by_id.py:78-79 | when decoding succeeds, the data carries exactly the UTF-8 octets of the result, and data in the encoder's form is exactly the base64url encoding of the result's UTF-8 octets |
| `Base64Url.Decode` | get_email_by_id.py:79 | only text whose length is a multiple of four decodes |
| `Base64Url.DecodeEncode` | get_email_by_id.py:79 | decoding the encoding of any octet string gives it back |
| `Base64Url.EncodeDecode` | get_email_by_id.py:79 | text in the encoder's form (URL-safe alphabet, zero padding bits) that decodes is exactly the encoding of what it decodes to |
| `Base64Url.DecodeLength` | get_email_by_id.py:79 | decoded text has four characters for every started group of three octets |
| `Utf8.DecodeChar` | get_email_by_id.py:79 | a well-formed sequence at the start of the octets takes one to four octets, and no more than there are |
| `Utf8.Decode` | get_email_by_id.py:79 | None exactly when the octets are not well-formed RFC 3629 UTF-8; a decoded text has between a quarter of the octet count and the octet count of characters, and starts with the character its first sequence encodes; `Utf8.DecodeEncode` and `Utf8.EncodeDecode` make it the exact inverse of `Utf8.Encode` |
| `Utf8.DecodeEncode` | get_email_by_id.py:79 | every text survives UTF-8 encoding and decoding |
| `Utf8.EncodeDecode` | get_email_by_id.py:79 | octets decode only if they are the UTF-8 encoding of the text they decode to |
| `EmailById.PartData` | get_email_by_id.py:100-106 | the part's body data when the body has a "data" key, and "" otherwise |
| `EmailById.ScanParts` | get_email_by_id.py:98-103 | the loop returns from the first part that is text/plain, or text/html while the outer payload has no parts; it runs to the end only when no part qualifies |
| `EmailById.ExtractBody` | get_email_by_id.py:84-106 | the result is the decoded data of some direct text/plain child or of the payload itself, never of a text/html part |
| `EmailById.ExtractBodyFirstPlain` | get_email_by_id.py:97-100 | with parts, the first direct text/plain child's decoded data is the result; later parts and the outer body are ignored |
| `EmailById.ExtractBodyFallsThrough` | get_email_by_id.py:97-106 | with no parts key, an empty parts list, or no direct text/plain child, the result is the payload's own decoded data, and "" when it has none |
| `EmailById.HtmlFallbackUnreachable` | get_email_by_id.py:101-103 | scanned for a payload that has parts, the loop only ever returns from a text/plain part; the HTML test would fire only for a payload without parts |
| `EmailById.ExtractBodyIgnoresGrandchildren` | get_email_by_id.py:98-100 | the result depends on each direct child only through its MIME type and body, so nested parts are never searched |
| `EmailById.HeaderOr` | get_email_by_id.py:138-141 | with a non-empty placeholder, the field is never empty |
| `EmailById.HeaderOrSpec` | get_email_by_id.py:138-141 | the field is the first matching header's value when it is non-empty, and the placeholder when that value is "" or no header matches |
| `EmailById.BuildRecord` | get_email_by_id.py:133-144 | id and thread id are copied; subject, from, to and date are never empty; body is the extracted body; a missing snippet becomes "" |
| `EmailById.RecordHeaderFields` | get_email_by_id.py:138-141 | subject, from, to and date each equal the first matching header's non-empty value, and otherwise "[No Subject]", "[Unknown Sender]", "[Unknown Recipient]" or "[Unknown Date]" |
| `EmailByIdScenarios.UpperCaseHeaderFound` | get_email_by_id.py:60-62 | a header named "SUBJECT" is found by the query "subject" |
| `EmailByIdScenarios.MissingHeadersDefault` | get_email_by_id.py:135-143 | a message without headers or snippet gets every placeholder and an empty snippet |
| `EmailByIdScenarios.EmptySubjectFallsBack` | get_email_by_id.py:138 | an empty first Subject header gives "[No Subject]" even when a later one has a value |
| `EmailByIdScenarios.SinglePart` | get_email_by_id.py:105-106 | a payload without parts yields its own decoded text |
| `EmailByIdScenarios.PlainPreferredOverHtml` | get_email_by_id.py:98-100 | an HTML part followed by a plain part yields the plain text |
| `EmailByIdScenarios.HtmlOnlyGivesEmpty` | get_email_by_id.py:97-106 | a multipart payload with only an HTML part and no data of its own yields "" |
| `EmailByIdScenarios.NestedPlainNotSearched` | get_email_by_id.py:98-99 | plain text inside a nested multipart child is not found, so the result is "" |
| `EmailByIdScenarios.UpperCaseMimeTypeSkipped` | get_email_by_id.py:99 | a part typed "TEXT/PLAIN" is not selected |
| `EmailByIdScenarios.MalformedBase64Reported` | get_email_by_id.py:78-81 | the data "QUI", which lacks its padding, yields the inline base64 error text |
| `EmailByIdScenarios.MalformedUtf8Reported` | get_email_by_id.py:78-81 | the data "_w==", the lone octet 0xFF, yields the inline UTF-8 error text |

## Left out

- `get_credentials` (get_email_by_id.py:20-46) is not modelled. It is the OAuth flow, token-file I/O and a local browser listener, all in external libraries.
- The Gmail API call and the `HttpError` handling in `fetch_email_by_id` (get_email_by_id.py:122-131, 146-148) are not modelled. They are network plumbing. The model starts from an already fetched message value.
- `get_email_ids.py` is not part of this model. It is an API call and an id projection, and the `maxResults` bound is enforced by the server.
- `display_email`, `parse_arguments` and `main` (get_email_by_id.py:151-199) are not modelled. They only print to the console and parse arguments.
- EmailById.Lower: folds ASCII letters only, because Python's `str.lower` uses Unicode case mappings that are not modelled. Header names are ASCII in practice.
- Base64Url.Decode: is stricter than Python's non-validating decoder. It rejects characters outside the alphabet, where CPython discards them (so CPython decodes "!!!!" to no octets). It accepts padding only as the last one or two characters of the text, where CPython ignores stray '=' and anything after a complete pad sequence (so CPython decodes "====" to no octets and "QQ===" to the octet 0x41). The model reports all of these as base64 errors. Like CPython, it accepts both the URL-safe and the standard characters for values 62 and 63, and it ignores the bits a padded final group drops.
- EmailById.Describe: gives a fixed text per error kind, because the text of Python's exception messages comes from library code.
- Missing keys raise an uncaught `KeyError` in the source. This covers `mimeType`, `body`, `id`, `payload` and `headers`, a header's `name`, and the `value` of the matching header. A `"parts": null` value makes the loop raise `TypeError`. The datatypes give every part and header these fields and make `parts` either absent or a list, so none of these cases is modelled.
- A header whose `value` is null is not modelled. The source's lookup would return None for it, and `or` would then give the placeholder. The model's header value is always a string.
- A `snippet` key that is present with a null value is not modelled. The source would copy the null into the record; the model's snippet is absent or a string.
