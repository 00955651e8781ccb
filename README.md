# JPNetworkService request pipeline in Dafny

JPNetworkService describes an HTTP endpoint as a `JPNetworkResource`. A resource has:

- a base URL and an end point;
- a method;
- caller headers;
- two parameter dictionaries (`params` and `bodyParams`);
- an optional raw body;
- a `ParameterEncoding` (`.url`, `.json`, `.form`, `.none`, `.multipart(boundary:)`);
- an `AuthType` (`.basic`, `.token`, `.none`).

From this the protocol extension builds the `URLRequest` it sends. This project models that pipeline and proves its properties:

- request assembly (`urlRequest`);
- the two parameter encoders, with their URL-form, JSON and multipart cases;
- the multipart writer `createBody`;
- the percent-escaping `escape`;
- the `Authorization` header for Basic credentials;
- `HttpMethod.name`;
- the tag-only `AuthType ==`.

It also models `JPNetworkError.errorCode` and the `JPNetworkResponse` value with its `description` and `debugDescription`.

Modules, one per file:

| Module | Contents |
|---|---|
| `Resource` | The data model: methods, authentication, encodings, dictionaries as sequences of entries in iteration order, the resource itself. Foundation's URL parser and JSON serializer come in as a `Platform` value. |
| `Assembly` | The encoders and `urlRequest`, written as methods that follow the source's steps. Each is proved equal to a specification function, and the properties are lemmas about those functions. |
| `FormEncoding` | The `.url` encoder: a loop over the sorted keys. Also a decoder for the text it writes. |
| `Multipart` | `createBody`: a loop that appends to a byte buffer. Also a reader for the text it writes. |
| `Escaping` | `escape`, and percent-decoding. |
| `Ordering` | String `<` and sorting of keys. |
| `Trimming` | Trimming of white space and newlines. |
| `Utf8` | UTF-8 encoding and strict decoding. |
| `Base64` | Base64 with padding, per section 4 of RFC 4648. |
| `Sequences` | Associativity of concatenation, shared by the writers' proofs. |
| `Decimal` | Decimal rendering and parsing of integers. |
| `Response` | `JPNetworkResponse`. |
| `NetworkError` | `JPNetworkError`. |

Three behaviours of the code that a reader might not expect, all kept in the model:

- **Empty dictionaries still give a body.** A POST, DELETE or PUT whose two dictionaries are empty gets a body:
  - in `.url` mode, empty data (`JPNetworkResource.swift:115-116`);
  - in `.multipart` mode, the closing delimiter (`JPNetworkResource.swift:211`).
  
  It does not get an absent body. `Assembly.EmptyDictionariesBody` states this.
- **A non-String multipart entry still gets a part.** Its header is written and only its content is left empty (`JPNetworkResource.swift:186-208`). The entry is not skipped.
- **Multipart `encodedBodyParameters` encodes `params`, not `bodyParams`** (`JPNetworkResource.swift:171`). The model keeps this. `Assembly.PayloadCases` states that in `.multipart` mode both encoders return the same bytes.

## Model

| member | source | states |
|---|---|---|
| Resource.HttpMethod.Name | Sources/JPNetworkService/JPNetworkResource.swift:235-243 | The method token is at least three upper-case letters. |
| Resource.NameInjective | Sources/JPNetworkService/JPNetworkResource.swift:235-243 | Different methods get different names. |
| Resource.SameKindIsCaseEquality | Sources/JPNetworkService/JPNetworkResource.swift:252-260 | `AuthType ==` holds exactly when both sides are the same case, and it is reflexive. |
| Resource.SameKindIgnoresPayload | Sources/JPNetworkService/JPNetworkResource.swift:252-260 | Two different `.basic` credentials, and two different tokens, compare equal. |
| Assembly.Encoded | Sources/JPNetworkService/JPNetworkResource.swift:107-141 | The shared `switch` of the encoders returns the payload of the encoding: the form, the JSON or the raw body, the multipart body, or nil. |
| Assembly.EncodedParameters | Sources/JPNetworkService/JPNetworkResource.swift:106-142 | `encodedParameters()` is the payload of `params`. |
| Assembly.EncodedBodyParameters | Sources/JPNetworkService/JPNetworkResource.swift:144-180 | `encodedBodyParameters()` is the payload of `bodyParams` in the `.url` and `.json` cases, and the multipart body of `params`. |
| Assembly.PayloadCases | Sources/JPNetworkService/JPNetworkResource.swift:106-180 | Case by case:<br>• `.url` is never nil, and an empty dictionary gives empty data.<br>• In `.multipart` both encoders return the same bytes, the parts of `params`.<br>• In `.json` a non-empty dictionary gives its serialization and an empty one the raw body.<br>• `.form` and `.none` give nil. |
| Assembly.UrlPayloadReadsBack | Sources/JPNetworkService/JPNetworkResource.swift:108-116 | The `.url` payload is valid UTF-8. Its text decodes to exactly the dictionary's String-valued entries. |
| Assembly.CollectQueryItems | Sources/JPNetworkService/JPNetworkResource.swift:42-48 | The loop collects one query item per String-valued parameter, in iteration order. |
| Assembly.QueryItemsOf | Sources/JPNetworkService/JPNetworkResource.swift:41-53 | A query item `n=v` exists exactly when `params` maps `n` to the String `v`. Names are distinct. There are no items exactly when no value is a String. |
| Assembly.ChooseBody | Sources/JPNetworkService/JPNetworkResource.swift:62-67 | The body is the body parameters' payload, or else that of `params`. |
| Assembly.SetHeaders | Sources/JPNetworkService/JPNetworkResource.swift:69-99 | The two `switch`es turn any header map into that map with the encoding's `Content-Type` set and then the authentication field set, each as one `setValue`. |
| Assembly.BuildUrlRequest | Sources/JPNetworkService/JPNetworkResource.swift:37-104 | The step-by-step `urlRequest` yields the specified request. |
| Assembly.RequestUrlAndMethod | Sources/JPNetworkService/JPNetworkResource.swift:38-60 | • The request is nil exactly when the trimmed `baseURL + endPoint` does not parse.<br>• Otherwise the URL is that text, with query items only for a GET that has a String-valued parameter, and then exactly those.<br>• The method is `method.name`.<br>• GET and HEAD keep the caller's headers and have no body. |
| Assembly.ContentTypeField | Sources/JPNetworkService/JPNetworkResource.swift:69-83 | Exactly `.url`, `.json` and `.multipart` set a field, and it is `Content-Type`. |
| Assembly.AuthHeader | Sources/JPNetworkService/JPNetworkResource.swift:85-99 | Exactly `.basic` and `.token` set a field: `Authorization` for `.basic`, `x-fi-access-token` for `.token`. |
| Assembly.WithHeaderEffect | Sources/JPNetworkService/JPNetworkResource.swift:71-96 | `setValue(_:forHTTPHeaderField:)` sets that field to that value and leaves every other field as it was. |
| Assembly.RequestHeadersKept | Sources/JPNetworkService/JPNetworkResource.swift:58-99 | For POST, DELETE and PUT, every caller header other than the three set ones is kept, with its value, and no other field appears. |
| Assembly.RequestContentType | Sources/JPNetworkService/JPNetworkResource.swift:69-83 | For POST, DELETE and PUT, `Content-Type` is one of the three media types, with the boundary for multipart. `.form` and `.none` leave the caller's field as it was. |
| Assembly.BodyContentType | Sources/JPNetworkService/JPNetworkResource.swift:69-83 | The same as `RequestContentType`, stated about the header map before it is put in the request. |
| Assembly.RequestAuthHeader | Sources/JPNetworkService/JPNetworkResource.swift:85-99 | • `.basic` sets `Authorization` to `Basic ` followed by the Base64 of the UTF-8 of `user:password`.<br>• `.token` sets `x-fi-access-token` to the token.<br>• Whichever of the two fields a case does not set (both for `.none`) is present exactly when the caller had it, with the caller's value. |
| Assembly.BodyAuthHeader | Sources/JPNetworkService/JPNetworkResource.swift:85-99 | The same as `RequestAuthHeader`, stated about the header map before it is put in the request. |
| Assembly.CredentialsRoundTrip | Sources/JPNetworkService/JPNetworkResource.swift:86-92 | Base64-decoding the credentials, reading them as UTF-8 and splitting at the first colon gives back the user name and password, for any user name without a colon. |
| Assembly.ExampleCredentials | Sources/JPNetworkService/JPNetworkResource.swift:86-90 | `user`/`pass` encode to `dXNlcjpwYXNz`. |
| Assembly.BasicUserPass | Sources/JPNetworkService/JPNetworkResource.swift:86-92 | `.basic("user", "pass")` sends `Authorization: Basic dXNlcjpwYXNz`. |
| Assembly.RequestBodyCases | Sources/JPNetworkService/JPNetworkResource.swift:62-67 | For POST, DELETE and PUT:<br>• `.url` gives the form of `bodyParams`, so the fall-back is never taken.<br>• `.multipart` gives the parts of `params`.<br>• `.form` and `.none` give no body.<br>• `.json` gives the JSON of `bodyParams`; else the raw body; else the JSON of `params`; else the raw body. |
| Assembly.EmptyDictionariesBody | Sources/JPNetworkService/JPNetworkResource.swift:62-67 | With empty dictionaries and no raw body, the body is empty data in `.url` mode, the closing delimiter in `.multipart` mode, and absent otherwise. |
| Assembly.DefaultsRequest | Sources/JPNetworkService/JPNetworkResource.swift:23-35 | A resource that keeps the extension's defaults gets no query items. A GET or HEAD then has no header fields and no body. A POST, DELETE or PUT carries only `Content-Type`, `Authorization` and `x-fi-access-token`, and in `.json` mode with empty `bodyParams` no body. |
| Assembly.GetWithQuery | Sources/JPNetworkService/JPNetworkResource.swift:37-57 | A worked GET: `https://api.test/` + `v1/items` with `q=x` yields that URL, the one query item and no body. |
| Trimming.TrimStart | Sources/JPNetworkService/JPNetworkResource.swift:38-39 | Drops exactly the leading white space and newlines. |
| Trimming.TrimEnd | Sources/JPNetworkService/JPNetworkResource.swift:38-39 | Drops exactly the trailing white space and newlines. |
| Trimming.TrimIsSlice | Sources/JPNetworkService/JPNetworkResource.swift:38-39 | The trimmed text is a slice of the input. Only white space or newlines lie outside it. It neither starts nor ends with either. |
| Trimming.TrimIdempotent | Sources/JPNetworkService/JPNetworkResource.swift:38-39 | Trimming twice is trimming once. |
| Trimming.TrimKeeps | Sources/JPNetworkService/JPNetworkResource.swift:38-39 | Text that neither starts nor ends with white space is unchanged. |
| Escaping.EscapeAllowedChars | Sources/JPNetworkService/JPNetworkResource.swift:217-222 | The query-allowed set less `:#[]@!$&'()*+,;=` is exactly the letters, the digits and `-._~/?`. |
| Escaping.PercentEncode | Sources/JPNetworkService/JPNetworkResource.swift:224-225 | Three characters per byte. |
| Escaping.Escape | Sources/JPNetworkService/JPNetworkResource.swift:216-228 | The output is never shorter than the input. |
| Escaping.EscapeHasNoDelimiter | Sources/JPNetworkService/JPNetworkResource.swift:216-228 | No output character is one of the removed delimiters. Every output character is allowed or a `%`. |
| Escaping.EscapeIdentity | Sources/JPNetworkService/JPNetworkResource.swift:216-228 | `escape` leaves a string unchanged exactly when every character is allowed. |
| Escaping.QuestionMarkAndSlashKept | Sources/JPNetworkService/JPNetworkResource.swift:217 | `?` and `/` pass through unchanged. |
| Escaping.UnescapeEscape | Sources/JPNetworkService/JPNetworkResource.swift:224-226 | Percent-decoding the output gives the input's UTF-8 bytes. |
| Escaping.DecodeEscape | Sources/JPNetworkService/JPNetworkResource.swift:216-228 | Percent-decoding and then UTF-8-decoding recovers the input. |
| Escaping.EscapeInjective | Sources/JPNetworkService/JPNetworkResource.swift:216-228 | Different strings escape differently. |
| Ordering.BelowIrreflexive | Sources/JPNetworkService/JPNetworkResource.swift:110 | String `<` is irreflexive. |
| Ordering.BelowTransitive | Sources/JPNetworkService/JPNetworkResource.swift:110 | String `<` is transitive. |
| Ordering.BelowTotal | Sources/JPNetworkService/JPNetworkResource.swift:110 | Any two different strings are ordered one way or the other. |
| Ordering.BelowAsymmetric | Sources/JPNetworkService/JPNetworkResource.swift:110 | String `<` is asymmetric. |
| Ordering.Insert | Sources/JPNetworkService/JPNetworkResource.swift:110 | Inserting into an ascending sequence keeps it ascending and adds exactly the key. |
| Ordering.Sort | Sources/JPNetworkService/JPNetworkResource.swift:110 | `sorted(by: <)` on distinct keys is strictly ascending and a permutation of the input. |
| Ordering.AscendingUnique | Sources/JPNetworkService/JPNetworkResource.swift:110 | Two ascending sequences with the same elements are equal, so the sorted order does not depend on the dictionary's iteration order. |
| FormEncoding.SortedKeys | Sources/JPNetworkService/JPNetworkResource.swift:110 | The keys, strictly ascending, each exactly once. |
| FormEncoding.Encode | Sources/JPNetworkService/JPNetworkResource.swift:108-116 | The loop over the sorted keys gives the UTF-8 of the `&`-joined `escape(k)=escape(v)` pairs of the String-valued entries. |
| FormEncoding.StringPairsKeys | Sources/JPNetworkService/JPNetworkResource.swift:110-114 | The collected pairs are exactly the String-valued entries whose keys are listed, in the order of the keys. |
| FormEncoding.DecodeJoin | Sources/JPNetworkService/JPNetworkResource.swift:112-115 | Splitting the joined, escaped pairs on `&` and `=` and percent-decoding gives the pairs back. |
| FormEncoding.FormRoundTrip | Sources/JPNetworkService/JPNetworkResource.swift:108-116 | The body is valid UTF-8. It reads back as exactly the String-valued entries, each once, in strictly ascending key order. |
| FormEncoding.NoStringValues | Sources/JPNetworkService/JPNetworkResource.swift:115-116 | A dictionary with no String value encodes to empty data, not to nil. |
| Multipart.PartText | Sources/JPNetworkService/JPNetworkResource.swift:190-208 | A part starts with its header lines. A String value's text follows them. A non-String value leaves a part that is the header alone. |
| Multipart.CreateBody | Sources/JPNetworkService/JPNetworkResource.swift:182-214 | The buffer built by the loop is the UTF-8 of the parts, separated by CRLF, followed by the closing delimiter. |
| Multipart.PartsFramed | Sources/JPNetworkService/JPNetworkResource.swift:186-190 | The parts as the loop writes them, with a CRLF before each but the first, are the parts each framed by a leading CRLF once a CRLF is put in front. |
| Multipart.ReadFramed | Sources/JPNetworkService/JPNetworkResource.swift:186-211 | Reading framed parts followed by the closing delimiter gives each entry's name and content. |
| Multipart.MultipartRoundTrip | Sources/JPNetworkService/JPNetworkResource.swift:182-214 | For names without quotes and contents that do not contain the delimiter, the body is valid UTF-8 and reads back as every entry's name and content, in order. |
| Multipart.OneFieldExample | Sources/JPNetworkService/JPNetworkResource.swift:185-213 | `["a": "1"]` with boundary `B` gives `--B\r\n`, `Content-Disposition: form-data; name="a"\r\n`, `\r\n`, `1`, `\r\n--B--\r\n`, in that order. |
| Multipart.EmptyDictionary | Sources/JPNetworkService/JPNetworkResource.swift:211 | An empty dictionary gives `\r\n--B--\r\n`. |
| Utf8.EncodeScalar | Sources/JPNetworkService/JPNetworkResource.swift:88 | One to four bytes per scalar. ASCII is one byte, and the others lead into continuation bytes. |
| Utf8.EncodeAppend | Sources/JPNetworkService/JPNetworkResource.swift:185-211 | Appending encoded pieces is encoding the appended text. |
| Utf8.DecodeEncode | Sources/JPNetworkService/JPNetworkResponse.swift:29 | Strict decoding inverts encoding. |
| Utf8.EncodeDecode | Sources/JPNetworkService/JPNetworkResponse.swift:29 | Any bytes that decode re-encode to themselves. |
| Utf8.DecodeIsInverse | Sources/JPNetworkService/JPNetworkResponse.swift:29 | Decoding gives `s` exactly when `s` encodes to the bytes. |
| Base64.DecodeEncode | Sources/JPNetworkService/JPNetworkResource.swift:89-90 | Base64-decoding the encoding gives the bytes back. |
| Base64.EncodeLength | Sources/JPNetworkService/JPNetworkResource.swift:89-90 | Four characters for every three bytes or part thereof. |
| Decimal.IntText | Sources/JPNetworkService/JPNetworkResponse.swift:30 | `"\(statusCode)"` is digits, with at most a leading minus. |
| Decimal.ParseIntText | Sources/JPNetworkService/JPNetworkResponse.swift:30 | The decimal text reads back as the integer. |
| Response.NetworkResponse.constructor | Sources/JPNetworkService/JPNetworkResponse.swift:16-24 | The four properties are stored unchanged. |
| Response.NetworkResponse.DataText | Sources/JPNetworkService/JPNetworkResponse.swift:29 | The body's text exists exactly when there is a body that is some text's UTF-8, and it encodes back to the body. |
| Response.NetworkResponse.Description | Sources/JPNetworkService/JPNetworkResponse.swift:27-34 | The description starts with the decimal status code. It contains a `:` exactly when the body is present and valid UTF-8. |
| Response.NetworkResponse.DebugDescription | Sources/JPNetworkService/JPNetworkResponse.swift:36-43 | `debugDescription` equals `description`. |
| Response.DescriptionReadsBack | Sources/JPNetworkService/JPNetworkResponse.swift:27-43 | Both descriptions read back as exactly the status code and the body's text. They give no text when the body is absent or not UTF-8. |
| NetworkError.NetworkError.ErrorCode | Sources/JPNetworkService/JPNetworkError.swift:19-28 | `errorCode` is non-nil exactly for `.clientError` and `.serverError`, and then it is the response's status code. |
| NetworkError.ErrorCodeInDescription | Sources/JPNetworkService/JPNetworkError.swift:19-28 | The code of an HTTP error is the one its response's description starts with and reads back as. |

## Left out

- `JPNetworkService.load`: network I/O and concurrency. It only wraps the status code, so there is no classification into client and server errors to model. `JPNetworkService.swift` is not part of this model.
- `Package.swift`: a build manifest.
- URL parsing (`URLComponents(string:)` followed by `.url`): this comes in as the predicate `Platform.parsesUrl`. A parsed URL is kept as its text plus the query items assigned to it. How Foundation percent-encodes query items into the URL is not modelled.
- `JSONSerialization.data(withJSONObject:)`: this comes in as the partial function `Platform.jsonData`, which is nil where the serializer throws. A non-String `Any` value is an opaque `NonString` value.
- The `print` calls in the `catch` blocks: logging only. The model keeps their effect, a nil result.
- Dictionary iteration order, which Swift leaves unspecified: a dictionary is a sequence of entries with distinct keys, and every property holds whatever the order.
- Header names are compared exactly. `URLRequest` compares them case-insensitively.
- Ordering.Below: Swift's `String <` orders by canonical equivalence. The model orders lexicographically by Unicode scalar value, and it does not model normalisation.
- Escaping.QueryAllowed: `CharacterSet.urlQueryAllowed` is written out as the ASCII characters that section 3.4 of RFC 3986 allows in a query.
- Escaping.Escape: the `?? string` fallback is unreachable. Every Dafny string is a sequence of Unicode scalar values and so has a UTF-8 form, so `addingPercentEncoding` never returns nil.
- Multipart.CreateBody: the `throw`s are unreachable for the same reason, so the `MultipartFormDataEncodingError` type has no counterpart.
- NetworkError.NetworkError: `.error(Error)` keeps only a description string of the underlying error.
- Response.NetworkResponse.DataText: `String(data:encoding: .utf8)` is modelled as strict decoding of well-formed UTF-8. Any special handling of a leading byte-order mark (EF BB BF) by Foundation's decoder is not captured, so for such a body the model's text, and the description, would keep U+FEFF.
- Response.HttpUrlResponse: keeps only the status code and the header fields of an `HTTPURLResponse`.
- Multipart.MultipartRoundTrip: stated only for names without `"` and contents free of the delimiter. A reader cannot separate other bodies, as section 5.1.1 of RFC 2046 notes about the choice of boundary.
