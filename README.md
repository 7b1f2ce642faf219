# Image upload and form validation utilities, in Dafny

This project models two client-side utility files of a service-catalogue web
application, and proves properties of the model.

- **Image assets** (`src/lib/utils/imageUpload.ts`):
  - checking a picked file's MIME type and size;
  - naming an image after its content: the first 16 lower-case hex digits of
    its SHA-256 digest, a dot, and the lower-cased extension;
  - splitting a bucket path into a bucket and a sub-path;
  - the PUT and public URLs of the object-storage REST interface;
  - the message a failed upload raises;
  - reading a public URL back into the object that a DELETE removes.
- **Form validators** (`src/lib/utils/validation.ts`):
  - the error map of the service form, built field by field in place;
  - validating a new category name against the existing ones.

The JavaScript primitives these are built from have their own module, `Text`.
It covers `split`, `join`, `indexOf`, `includes`, `startsWith`,
`toLowerCase`, `trim`, `trimStart`, `length` in UTF-16 code units,
`Number.prototype.toString(radix)` and `padStart`.

The other modules are:

- `Results`: the `{valid, error?}` result and an option type.
- `ImageUpload`: the image-asset utilities.
- `Validation`: the form validators.

What the utilities hand to the platform is a parameter of the model:

- SHA-256 is a function from bytes to a 32-byte digest.
- The reply to each `fetch` is a `FetchReply` value: either no reply, or a
  status, a body text and what `JSON.parse` makes of that body.
- The storage base URL, key and bucket paths read from the environment are a
  `StorageConfig` value.

The central property is the round trip (`UploadThenDeleteSameObject`). When
an upload succeeds, deleting by the public URL it returns sends the DELETE
to exactly the URL the upload sent its PUT to.

The comments in the code and the code itself disagree in two places. The
model follows the code in both.

- **Failed uploads.** The comment at `imageUpload.ts:101` says the error body
  is parsed as JSON for its message, and line 104 throws
  `Erro no upload: <message>`. But that `throw` sits inside the `try` of lines
  102-107, whose bare `catch` at line 105 replaces it. So the message that
  escapes is always `Erro no upload (<status>): <text>`.
- **Return value on error.** The doc comments of the upload functions
  (`imageUpload.ts:56`) say they return null on error. Every error path in
  the code re-throws, and no path returns null.

## Model

| member | source | states |
|---|---|---|
| ImageUpload.ValidateImageFile | src/lib/utils/imageUpload.ts:30-49 | a MIME type not starting with `image/` gives the type error whatever the size; an image over 5,242,880 bytes gives the size error; valid exactly when the type is an image and the size is at most 5,242,880 |
| ImageUpload.ValidateImageFileExamples | src/lib/utils/imageUpload.ts:32-48 | an empty PDF gets the type error, a 6 MiB PNG the size error, and a PNG of 1 KiB or of exactly 5 MiB passes |
| ImageUpload.ByteHex | src/lib/utils/imageUpload.ts:21 | every byte is written as two lower-case hex digits, the high digit first, zero-padded |
| ImageUpload.Hex | src/lib/utils/imageUpload.ts:20-21 | the hex form has two characters per byte |
| ImageUpload.HexDigits | src/lib/utils/imageUpload.ts:21 | the hex form holds only the digits `0-9a-f` |
| ImageUpload.HexRoundTrip | src/lib/utils/imageUpload.ts:20-21 | reading the hex form back gives the bytes, so no two byte strings are written alike |
| ImageUpload.HexAppend | src/lib/utils/imageUpload.ts:21 | the hex form of a concatenation is the concatenation of the hex forms |
| ImageUpload.FileHash | src/lib/utils/imageUpload.ts:17-23 | the file hash has 16 characters and is the hex form of the digest's first 8 bytes |
| ImageUpload.HashedFilename | src/lib/utils/imageUpload.ts:63 | the hashed name starts with the hash and a dot, and what follows is exactly the extension, which holds no dot |
| ImageUpload.ExtensionOfHashedFilename | src/lib/utils/imageUpload.ts:62-63 | a hashed name has the same extension as the file name it was made from |
| ImageUpload.FileHashNamesDigestPrefix | src/lib/utils/imageUpload.ts:19-22 | the hash is lower-case hex and decodes to the digest's first 8 bytes; two files get the same hash exactly when those 8 bytes agree |
| ImageUpload.SameContentSameHash | src/lib/utils/imageUpload.ts:18-22 | files with the same bytes get the same hash, whatever their name or type |
| ImageUpload.Extension | src/lib/utils/imageUpload.ts:62 | the extension is never empty, holds no dot and no ASCII capital letter |
| ImageUpload.ExtensionAfterLastDot | src/lib/utils/imageUpload.ts:62 | for a name with a dot, the extension is the lower-cased text after the last dot, or `jpg` when that text is empty |
| ImageUpload.ExtensionWithoutDot | src/lib/utils/imageUpload.ts:62 | a name without a dot is its own lower-cased extension (`photo` gives `photo`); only the empty name gives `jpg` |
| ImageUpload.SplitFirstSegment | src/lib/utils/imageUpload.ts:72-74 | the first part holds no slash; without a slash the whole text is the first part and the rest is empty; with one, the text is first part, slash, rest |
| ImageUpload.StorageKeyFor | src/lib/utils/imageUpload.ts:61-75 | the bucket holds no slash; without a slash in the bucket path the key is (bucket path, `hash.ext`); the text `bucket/path` is the bucket path, a slash and `hash.ext`, except that a bucket path that is exactly the bucket and a slash gets no second slash (`a/b/` still gives the path `b//<hash>.<ext>`) |
| ImageUpload.StorageKeyWithSubPath | src/lib/utils/imageUpload.ts:71-75 | `bucket/sub` with a file `stem.ext` gives bucket `bucket` and path `sub/<hash>.<lower-cased ext>` |
| ImageUpload.StorageKeyText | src/lib/utils/imageUpload.ts:72-78 | the text `bucket/path` of a key is a prefix of the bucket path plus a slash, then the hash, a dot and the extension |
| ImageUpload.ObjectUrl | src/lib/utils/imageUpload.ts:78 | the object URL starts with `<base>/storage/v1/object/`, and what follows is the bucket, a slash and the path |
| ImageUpload.PublicUrl | src/lib/utils/imageUpload.ts:114 | the public URL starts with `<base>/storage/v1/object/public/`, and what follows is the bucket, a slash and the path |
| ImageUpload.ObjectUrlOfKeyFor | src/lib/utils/imageUpload.ts:72-78 | the object URL of an upload's key is `<base>/storage/v1/object/`, the bucket path, a slash (none when the bucket path is exactly the bucket and a slash) and `hash.ext` |
| ImageUpload.UploadRequest | src/lib/utils/imageUpload.ts:78-91 | the upload is a PUT of the file's bytes with the bearer, API-key and content-type headers, to exactly `<base>/storage/v1/object/`, the bucket path, a slash (none when the bucket path is exactly the bucket and a slash) and `hash.ext` |
| ImageUpload.ParsedErrorThrow | src/lib/utils/imageUpload.ts:102-104 | a body that is not JSON gives the syntax error; a `null` body gives the `TypeError` of reading `message` from `null`; any other JSON body gives `Erro no upload: ` followed by its non-empty `message`, else its non-empty `error`, else the body text |
| ImageUpload.UploadFailureMessage | src/lib/utils/imageUpload.ts:97-107 | the escaping message is always `Erro no upload (<status>): <text>`, and never the message built from the JSON body |
| ImageUpload.FailureMessageCarriesStatus | src/lib/utils/imageUpload.ts:106 | the decimal status can be read back from the failure message |
| ImageUpload.UploadImage | src/lib/utils/imageUpload.ts:58-123 | no reply raises the fetch error; a non-ok reply raises the status message; an ok reply whose body is not JSON raises the `json()` syntax error; the upload succeeds exactly on an ok reply with a JSON body (`null` included), and then returns the public URL of the uploaded key |
| ImageUpload.UploadCatalogImage | src/lib/utils/imageUpload.ts:130-132 | with the catalogue bucket path: no reply raises the fetch error; a non-ok reply raises the status message; an ok reply whose body is not JSON raises the `json()` syntax error; the upload succeeds exactly on an ok reply with a JSON body (`null` included), and then returns the public URL of the key under the catalogue bucket path |
| ImageUpload.UploadProviderImage | src/lib/utils/imageUpload.ts:139-142 | with the provider bucket path: no reply raises the fetch error; a non-ok reply raises the status message; an ok reply whose body is not JSON raises the `json()` syntax error; the upload succeeds exactly on an ok reply with a JSON body (`null` included), and then returns the public URL of the key under the provider bucket path |
| ImageUpload.ReuploadSameUrl | src/lib/utils/imageUpload.ts:58-118 | uploading the same bytes under the same name and bucket path again returns the same URL |
| ImageUpload.ParseDeleteTarget | src/lib/utils/imageUpload.ts:175-193 | the URL is reported as having no marker exactly when it does not contain `/storage/v1/object/public/`; a parsed bucket holds no slash |
| ImageUpload.ParseAfterMarker | src/lib/utils/imageUpload.ts:175-193 | if the marker occurs only right after a clean prefix, an empty rest gives "path empty", and any other rest is cut at its first slash into bucket and path |
| ImageUpload.DeleteRequest | src/lib/utils/imageUpload.ts:175-203 | no request exactly when no object is parsed, in particular when the marker is missing; otherwise a DELETE with the auth headers and no body, to the object URL of the parsed bucket and path |
| ImageUpload.DeletePublicObject | src/lib/utils/imageUpload.ts:175-199 | for a clean base and a rest that holds a slash and no marker, deleting `base + /storage/v1/object/public/ + rest` sends a DELETE to `<storage url>/storage/v1/object/` followed by the rest unchanged |
| ImageUpload.DeleteImage | src/lib/utils/imageUpload.ts:171-216 | true exactly when a DELETE is sent and its reply is ok; no marker gives false; no reply or a non-ok reply gives false and nothing is raised |
| ImageUpload.DeleteNothingAfterMarker | src/lib/utils/imageUpload.ts:181-186 | after a clean base URL, a URL that ends right after the marker sends no request and gives false |
| ImageUpload.MarkerStemBaseBreaksRoundTrip | src/lib/utils/imageUpload.ts:175-193 | for a base ending in `/storage/v1/object/public`, the base and `b/p` are both free of the marker, yet the public URL of bucket `b`, path `p` parses to a different object |
| ImageUpload.PublicUrlRoundTrip | src/lib/utils/imageUpload.ts:175-195 | the public URL of a key whose bucket holds no slash parses back to that same key when the marker occurs nowhere but where the URL puts it |
| ImageUpload.ExtensionMarkerFree | src/lib/utils/imageUpload.ts:62 | the extension contains the marker only if the lower-cased file name does |
| ImageUpload.NoSlashInHash | src/lib/utils/imageUpload.ts:21-22 | the hash holds no slash |
| ImageUpload.UploadKeyMarkerFree | src/lib/utils/imageUpload.ts:61-75 | an uploaded key's text holds no marker when neither the bucket path (with a slash after it) nor the lower-cased file name does |
| ImageUpload.UploadThenDeleteSameObject | src/lib/utils/imageUpload.ts:78-195 | after a successful upload, the delete by the returned public URL sends its DELETE to the very URL the upload sent its PUT to |
| Text.StartsWithPointwise | src/lib/utils/imageUpload.ts:32 | `startsWith` holds exactly when the prefix is no longer than the text and agrees with it character by character |
| Text.ContainsSingle | src/lib/utils/validation.ts:35 | `includes` of a one-character text holds exactly when that character occurs |
| Text.IndexOf | src/lib/utils/imageUpload.ts:175 | the result is the first position where the separator occurs, or -1 when it occurs nowhere |
| Text.Split | src/lib/utils/imageUpload.ts:72 | the parts are never empty as a list, join back to the text, and none contains the separator |
| Text.SplitAtFirst | src/lib/utils/imageUpload.ts:175-181 | with the separator present, the first part is the text before its first occurrence, the parts after it are the split of the text after it, and they join back to that text |
| Text.SplitOfJoin | src/lib/utils/imageUpload.ts:72-74 | joining at least one part with a character none of them holds, then splitting at that character, gives back the parts |
| Text.LastPartAfterLastSeparator | src/lib/utils/imageUpload.ts:62 | the last part of a split is the text after the last separator |
| Text.Lower | src/lib/utils/imageUpload.ts:62 | lower-casing keeps the length and maps each character on its own |
| Text.ToRadix | src/lib/utils/imageUpload.ts:21 | `toString(radix)` writes at least one digit, each below the radix, with no leading zero |
| Text.ToRadixRoundTrip | src/lib/utils/imageUpload.ts:106 | reading back the digits `toString(radix)` writes gives the number |
| Text.PadStart | src/lib/utils/imageUpload.ts:21 | the result has the width (or the text's own length if longer), ends with the text, and is filled before it |
| Text.AsciiWhitespace | src/lib/utils/validation.ts:40 | among ASCII characters, the white space `trim` and `parseFloat` skip is the space and tab through carriage return |
| Text.TrimStart | src/lib/utils/validation.ts:40 | the result is a suffix not starting with white space, and only white space was dropped |
| Text.TrimStartPadded | src/lib/utils/validation.ts:40 | white space put before a text does not change what `trimStart` gives |
| Text.Trim | src/lib/utils/validation.ts:78 | the result is no longer than the text and neither starts nor ends with white space |
| Text.TrimBounds | src/lib/utils/validation.ts:78 | the trimmed text is a slice of the text with only white space outside it |
| Text.TrimIsSlice | src/lib/utils/validation.ts:78 | conversely, any slice with only white space outside it and none at its ends is the trimmed text |
| Text.TrimIdempotent | src/lib/utils/validation.ts:78 | trimming twice is trimming once |
| Text.TrimEmptyIffBlank | src/lib/utils/validation.ts:78 | the trimmed text is empty exactly when every character is white space |
| Text.TrimPadded | src/lib/utils/validation.ts:85 | white space added around a text does not change its trimmed form |
| Text.Utf16Length | src/lib/utils/validation.ts:30 | the length in UTF-16 code units lies between one and two per character, and is one per character in the Basic Multilingual Plane |
| Validation.ValidateServiceForm | src/lib/utils/validation.ts:23-56 | keys come only from `nome`, `preco`, `duracao`, `imagem`; each key is present exactly when its own check fails, independently of the others; a negative price overwrites the comma message; the map is empty exactly when all five checks pass |
| Validation.Mantissa | src/lib/utils/validation.ts:40 | the mantissa read is a prefix made of digits and at most one dot (none once a dot was seen before it), and stops only before a character that cannot extend it |
| Validation.PriceIsNegative | src/lib/utils/validation.ts:40-41 | a price counted as negative contains a minus sign |
| Validation.PricePaddingIgnored | src/lib/utils/validation.ts:40 | white space before the price does not change whether it is negative |
| Validation.NegativePriceHasMinus | src/lib/utils/validation.ts:40-41 | a negative price has a minus sign with only white space before it |
| Validation.MinusThen | src/lib/utils/validation.ts:40-41 | after a leading minus sign the price is negative exactly when it reads `Infinity` or a mantissa with a nonzero digit |
| Validation.MinusNonzeroIsNegative | src/lib/utils/validation.ts:40-41 | a minus sign followed by digits that are not all zero is negative, whatever follows them in the text (an exponent that underflows to -0 counts as negative here; see the `Validation.PriceIsNegative` line under "## Left out") |
| Validation.MantissaOfDigits | src/lib/utils/validation.ts:40 | the digits at the start of a text are all read into the mantissa |
| Validation.NegativePriceWithComma | src/lib/utils/validation.ts:35-43 | `-1,5` holds a comma and is negative, so its error is the negative-price message |
| Validation.MinusZeroNotNegative | src/lib/utils/validation.ts:40-41 | a minus sign followed only by zeros and dots is not negative, since -0 is falsy and becomes 0 |
| Validation.ValidateCategoryName | src/lib/utils/validation.ts:74-93 | "required" exactly when the name is all white space, which is checked before the list; "already exists" exactly when the trimmed name is non-empty and appears unchanged in the list; valid otherwise |
| Validation.CategoryPaddingIgnored | src/lib/utils/validation.ts:78-85 | white space around the name does not change the result |
| Validation.AcceptedThenDuplicate | src/lib/utils/validation.ts:85-90 | once an accepted name is added to the list in trimmed form, it is refused as a duplicate |
| Validation.MoreCategoriesRefuseMore | src/lib/utils/validation.ts:85-92 | adding names to the list never turns a refusal into an acceptance |

## Left out

- SHA-256 itself (`crypto.subtle.digest`) is a foreign cryptographic call. It is a function parameter, and only its 32-byte length is assumed.
- A failure of `file.arrayBuffer()` is I/O and is not modelled.
- What `fetch` does is network I/O and is not modelled: the request headers as sent, `response.text()`, and `response.json()` beyond whether the body parses. The reply is a value.
- `console.log` and `console.error` are logging only and are left out.
- `createImagePreview` is a `FileReader` callback, which is I/O, and is left out.
- `SUPABASE_CONFIG` and the `import.meta.env` reads are environment configuration. They are the `StorageConfig` parameter.
- `convertPriceTocents` is floating-point parsing and rounding, and is left out.
- The numeric value `parseFloat` gives is not modelled. Only whether `(parseFloat(s) || 0) < 0` is modelled.
- Validation.PriceIsNegative: a nonzero mantissa whose exponent makes it round to -0 (`-1e-400`) counts as negative here, though JavaScript gives 0. Float underflow is not modelled.
- Validation.ValidateServiceForm: the duration is a real number, so a NaN duration, which passes the `< 0` check, is not represented.
- Text.Lower: `toLowerCase` is modelled for ASCII letters only. Other characters are left as they are, because Unicode case mapping is not modelled.
- ImageUpload.PublicUrlRoundTrip: needs more than the marker being absent from the pieces. The base URL followed by the marker must contain the marker only at the end (a base ending in `/storage/v1/object/public` breaks the round trip, as `MarkerStemBaseBreaksRoundTrip` shows). The object text `bucket/path` must not contain it. The bucket must hold no slash: the key (`a/b`, `c`) parses back as (`a`, `b/c`).
- ImageUpload.UploadThenDeleteSameObject: needs three conditions. The base URL must be clean in the same sense. `bucketPath + "/"` must not contain the marker. The lower-cased file name must not contain it, since lower-casing can create the marker from upper-case letters.
- ImageUpload.StorageKeyWithSubPath: the source's example `imagens/catalogos` is covered by this general lemma, not by a concrete instance.
