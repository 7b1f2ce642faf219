/** The image-upload utilities: checking a picked file, naming it after
    its content, building the storage key and the URLs of the object-storage
    REST interface, turning a failed upload into an error message, and
    reading a public URL back into the object to delete.

    What the utilities hand to the platform is a parameter here: the
    SHA-256 digest as a function, the reply to each `fetch` as a value. */
module ImageUpload {
  import opened Text
  import opened Results

  newtype byte = b: int | 0 <= b < 256

  /** A SHA-256 digest: 32 bytes. */
  type Sha256Digest = d: seq<byte> | |d| == 32 witness seq(32, _ => 0 as byte)

  /** `crypto.subtle.digest('SHA-256', ·)`, which is not computed here. */
  type Sha256 = seq<byte> -> Sha256Digest

  /** The storage endpoint's base URL and API key, and the bucket paths for
      catalogue images and provider images, read once from the environment. */
  datatype StorageConfig = StorageConfig(
    url: string,
    key: string,
    catalogBucket: string,
    providerBucket: string)

  /** A picked file: its name, its declared MIME type and its bytes. */
  datatype ImageFile = ImageFile(name: string, mimeType: string, content: seq<byte>) {
    /** `file.size`. */
    function Size(): nat {
      |content|
    }
  }

  // ----- validateImageFile -----

  const ImageMimePrefix := "image/"
  /** 5 MiB. */
  const MaxImageSize: nat := 5 * 1024 * 1024
  const NotAnImage := "Por favor, selecione apenas arquivos de imagem."
  const ImageTooLarge := "A imagem deve ter no máximo 5MB."

  /** The type check comes first: a file whose MIME type does not start
      with `image/` gets the type error whatever its size. An image of more
      than 5 MiB gets the size error; every other image is valid. */
  function ValidateImageFile(file: ImageFile): (r: ValidationResult)
    ensures !StartsWith(file.mimeType, ImageMimePrefix) ==> r == Invalid(NotAnImage)
    ensures StartsWith(file.mimeType, ImageMimePrefix) && file.Size() > MaxImageSize ==> r == Invalid(ImageTooLarge)
    ensures r.IsValid() <==> StartsWith(file.mimeType, ImageMimePrefix) && file.Size() <= 5242880
  {
    if !StartsWith(file.mimeType, ImageMimePrefix) then Invalid(NotAnImage)
    else if file.Size() > MaxImageSize then Invalid(ImageTooLarge)
    else Valid
  }

  /** The cases the validator is known for: an empty PDF gets the type
      error and not the size error, a 6 MiB PNG the size error, and a 1 KiB
      PNG and a PNG of exactly 5 MiB pass. */
  lemma ValidateImageFileExamples()
    ensures ValidateImageFile(ImageFile("a.pdf", "application/pdf", [])) == Invalid(NotAnImage)
    ensures ValidateImageFile(ImageFile("a.png", "image/png", seq(6 * 1024 * 1024, _ => 0))) == Invalid(ImageTooLarge)
    ensures ValidateImageFile(ImageFile("a.png", "image/png", seq(1024, _ => 0))) == Valid
    ensures ValidateImageFile(ImageFile("a.png", "image/png", seq(5242880, _ => 0))) == Valid
  {
    assert "application/pdf"[0] != ImageMimePrefix[0];
    assert "image/png"[..6] == ImageMimePrefix;
  }

  // ----- generateFileHash -----

  /** `b.toString(16).padStart(2, '0')`: every byte is written as exactly
      two lower-case hex digits, the high one first. */
  function ByteHex(b: byte): (h: string)
    ensures h == [Digit(b as nat / 16), Digit(b as nat % 16)]
  {
    var n := b as nat;
    if n < 16 then
      assert ToRadix(n, 16) == [Digit(n)];
      assert n / 16 == 0 && n % 16 == n;
      assert PadStart([Digit(n)], 2, '0') == ['0', Digit(n)];
      PadStart(ToRadix(n, 16), 2, '0')
    else
      assert n / 16 < 16;
      assert ToRadix(n, 16) == [Digit(n / 16), Digit(n % 16)];
      PadStart(ToRadix(n, 16), 2, '0')
  }

  /** `bytes.map(ByteHex).join('')`: two lower-case hex digits per byte. */
  function Hex(bytes: seq<byte>): (h: string)
    ensures |h| == 2 * |bytes|
    decreases |bytes|
  {
    if bytes == [] then "" else ByteHex(bytes[0]) + Hex(bytes[1..])
  }

  /** `s` holds nothing but lower-case hex digits. */
  predicate AllLowerHex(s: string) {
    forall i :: 0 <= i < |s| ==> IsLowerHexDigit(s[i])
  }

  lemma ByteHexDigits(b: byte)
    ensures AllLowerHex(ByteHex(b))
  {
    DigitValueOfDigit(b as nat / 16);
    DigitValueOfDigit(b as nat % 16);
  }

  lemma AllLowerHexAppend(a: string, b: string)
    requires AllLowerHex(a) && AllLowerHex(b)
    ensures AllLowerHex(a + b)
  {
    assert forall i :: |a| <= i < |a + b| ==> (a + b)[i] == b[i - |a|];
  }

  /** The hex form holds nothing but lower-case hex digits. */
  lemma {:induction false} HexDigits(bytes: seq<byte>)
    ensures AllLowerHex(Hex(bytes))
    decreases |bytes|
  {
    if bytes != [] {
      ByteHexDigits(bytes[0]);
      HexDigits(bytes[1..]);
      AllLowerHexAppend(ByteHex(bytes[0]), Hex(bytes[1..]));
    }
  }

  /** The bytes written by a string of hex digit pairs; the inverse of
      `Hex`. */
  function HexBytes(h: string): (bytes: seq<byte>)
    decreases |h|
  {
    if |h| < 2 then []
    else
      var high, low := DigitValue(h[0]), DigitValue(h[1]);
      var value := if high < 16 && low < 16 then high * 16 + low else 0;
      [value as byte] + HexBytes(h[2..])
  }

  /** Reading the hex text back gives the bytes: no two byte strings are
      written alike. */
  lemma {:induction false} HexRoundTrip(bytes: seq<byte>)
    ensures HexBytes(Hex(bytes)) == bytes
    decreases |bytes|
  {
    if bytes != [] {
      calc {
        HexBytes(Hex(bytes));
        HexBytes(ByteHex(bytes[0]) + Hex(bytes[1..]));
        { HexBytesOfByteHex(bytes[0], Hex(bytes[1..])); }
        [bytes[0]] + HexBytes(Hex(bytes[1..]));
        { HexRoundTrip(bytes[1..]); }
        [bytes[0]] + bytes[1..];
        bytes;
      }
    }
  }

  /** A pair of digits in front of more text reads as the byte `v` they
      spell. */
  lemma HexBytesPair(pair: string, rest: string, v: byte)
    requires |pair| == 2 && DigitValue(pair[0]) < 16 && DigitValue(pair[1]) < 16
    requires DigitValue(pair[0]) * 16 + DigitValue(pair[1]) == v as int
    ensures HexBytes(pair + rest) == [v] + HexBytes(rest)
  {
    var h := pair + rest;
    assert h[0] == pair[0] && h[1] == pair[1] && h[2..] == rest;
  }

  /** The two digits written for a byte give back its value. */
  lemma ByteHexValue(b: byte)
    ensures DigitValue(ByteHex(b)[0]) < 16 && DigitValue(ByteHex(b)[1]) < 16
    ensures DigitValue(ByteHex(b)[0]) * 16 + DigitValue(ByteHex(b)[1]) == b as int
  {
    var n := b as nat;
    DigitValueOfDigit(n / 16);
    DigitValueOfDigit(n % 16);
  }

  /** The first pair of digits reads back as the byte it was written
      from. */
  lemma HexBytesOfByteHex(b: byte, rest: string)
    ensures HexBytes(ByteHex(b) + rest) == [b] + HexBytes(rest)
  {
    ByteHexValue(b);
    HexBytesPair(ByteHex(b), rest, b);
  }

  /** The hex form of a byte followed by more bytes. */
  lemma HexCons(x: byte, rest: seq<byte>)
    ensures Hex([x] + rest) == ByteHex(x) + Hex(rest)
  {
    var s := [x] + rest;
    assert s[0] == x && s[1..] == rest;
  }

  /** The last step of `HexAppend`, kept apart from the unfolding of `Hex`:
      `c + (x + y)` regrouped as `(c + x) + y`. */
  lemma HexAppendStep(whole: string, c: string, tail: string, x: string, y: string, first: string)
    requires whole == c + tail && tail == x + y && first == c + x
    ensures whole == first + y
  {
  }

  /** The hex form of a concatenation is the concatenation of the hex forms. */
  lemma {:induction false} HexAppend(a: seq<byte>, b: seq<byte>)
    ensures Hex(a + b) == Hex(a) + Hex(b)
    decreases |a|
  {
    if a == [] {
      assert a + b == b;
    } else {
      var x, t := a[0], a[1..];
      var c := ByteHex(x);
      assert a + b == [x] + (t + b);
      HexCons(x, t + b);
      HexAppend(t, b);
      assert a == [x] + t;
      HexCons(x, t);
      HexAppendStep(Hex(a + b), c, Hex(t + b), Hex(t), Hex(b), Hex(a));
    }
  }

  /** `generateFileHash`: the first 16 characters of the lower-case hex
      form of the SHA-256 digest of the file's bytes, which are the hex
      form of the digest's first 8 bytes. */
  function FileHash(sha: Sha256, file: ImageFile): (h: string)
    ensures |h| == 16
    ensures h == Hex(sha(file.content)[..8])
  {
    var digest := sha(file.content);
    HexAppend(digest[..8], digest[8..]);
    assert digest == digest[..8] + digest[8..];
    Hex(digest)[..16]
  }

  /** The name encodes the first 8 bytes of the digest and nothing else:
      two files get the same name exactly when their digests agree on those
      bytes. */
  lemma FileHashNamesDigestPrefix(sha: Sha256, f: ImageFile, g: ImageFile)
    ensures forall i :: 0 <= i < 16 ==> IsLowerHexDigit(FileHash(sha, f)[i])
    ensures HexBytes(FileHash(sha, f)) == sha(f.content)[..8]
    ensures FileHash(sha, f) == FileHash(sha, g) <==> sha(f.content)[..8] == sha(g.content)[..8]
  {
    var p, q := sha(f.content)[..8], sha(g.content)[..8];
    assert FileHash(sha, f) == Hex(p) && FileHash(sha, g) == Hex(q);
    HexDigits(p);
    HexRoundTrip(p);
    HexInjective(p, q);
  }

  /** Different byte strings have different hex forms. */
  lemma HexInjective(a: seq<byte>, b: seq<byte>)
    ensures Hex(a) == Hex(b) <==> a == b
  {
    HexRoundTrip(a);
    HexRoundTrip(b);
  }

  /** Byte-identical files get the same name, whatever their name or MIME
      type. */
  lemma SameContentSameHash(sha: Sha256, f: ImageFile, g: ImageFile)
    requires f.content == g.content
    ensures FileHash(sha, f) == FileHash(sha, g)
  {
  }

  // ----- The storage key -----

  const DefaultExtension := "jpg"

  /** `name.split('.').pop()?.toLowerCase() || 'jpg'`: the lower-cased text
      after the last dot of the name, the whole lower-cased name when it has
      no dot, and `jpg` when that text is empty. */
  function Extension(name: string): (ext: string)
    ensures ext != "" && '.' !in ext
    ensures forall i :: 0 <= i < |ext| ==> !('A' <= ext[i] <= 'Z')
  {
    var parts := Split(name, ".");
    var last := parts[|parts| - 1];
    ContainsSingle(last, '.');
    LowerHasNoCapitals(last);
    var lowered := Lower(last);
    if lowered == "" then DefaultExtension else lowered
  }

  /** A name with a dot: the text after its last dot, lower-cased. */
  lemma ExtensionAfterLastDot(name: string, stem: string, suffix: string)
    requires name == stem + "." + suffix && '.' !in suffix
    ensures Extension(name) == if suffix == "" then "jpg" else Lower(suffix)
  {
    LastPartAfterLastSeparator(name, '.', stem, suffix);
  }

  /** A name without a dot is its own extension: `photo` gives `photo`;
      only the empty name gives `jpg`. */
  lemma ExtensionWithoutDot(name: string)
    requires '.' !in name
    ensures Extension(name) == if name == "" then "jpg" else Lower(name)
  {
    LastPartWithoutSeparator(name, '.');
  }

  /** `${hash}.${extension}`. */
  function HashedFilename(hash: string, fileName: string): (name: string)
    ensures StartsWith(name, hash + ".")
    ensures name[|hash| + 1..] == Extension(fileName) && '.' !in name[|hash| + 1..]
  {
    var name := hash + "." + Extension(fileName);
    assert name[..|hash| + 1] == hash + ".";
    name
  }

  /** A hashed name keeps the file's extension: uploading a file already
      named `<hash>.<ext>` names it with the same `<ext>`. */
  lemma ExtensionOfHashedFilename(hash: string, fileName: string)
    ensures Extension(HashedFilename(hash, fileName)) == Extension(fileName)
  {
    var ext := Extension(fileName);
    ExtensionAfterLastDot(HashedFilename(hash, fileName), hash, ext);
    assert Lower(ext) == ext;
  }

  /** `parts = p.split('/')`, then `parts[0]` and
      `parts.slice(1).join('/')`: the text before the first slash, and the
      text after it (empty when `p` has no slash). */
  function SplitFirstSegment(p: string): (r: (string, string))
    ensures '/' !in r.0
    ensures '/' !in p ==> r == (p, "")
    ensures '/' in p ==> p == r.0 + "/" + r.1
  {
    var parts := Split(p, "/");
    SplitAtFirst(p, "/");
    ContainsSingle(parts[0], '/');
    ContainsSingle(p, '/');
    IndexOfAbsent(p, "/");
    var i := IndexOf(p, "/");
    assert i >= 0 ==> p == p[..i] + "/" + p[i + 1..] by {
      if i >= 0 {
        assert p[i..i + 1] == "/";
        assert p == p[..i] + p[i..i + 1] + p[i + 1..];
      }
    }
    (parts[0], Join(parts[1..], "/"))
  }

  /** A storage object: the bucket and the path inside it. */
  datatype StorageKey = StorageKey(bucket: string, path: string)

  /** The object an upload writes: the bucket is the first segment of the
      bucket path, and the path is the rest of the bucket path (when there
      is one) followed by the hashed file name. */
  function StorageKeyFor(bucketPath: string, hash: string, fileName: string): (k: StorageKey)
    ensures '/' !in k.bucket
    ensures '/' !in bucketPath ==> k == StorageKey(bucketPath, HashedFilename(hash, fileName))
    ensures k.bucket + "/" + k.path
         == (if bucketPath == k.bucket + "/" then bucketPath else bucketPath + "/") + HashedFilename(hash, fileName)
  {
    var hashedFilename := HashedFilename(hash, fileName);
    var (bucketName, subPath) := SplitFirstSegment(bucketPath);
    var fullPath := if subPath != "" then subPath + "/" + hashedFilename else hashedFilename;
    SegmentsRejoined(bucketPath, hashedFilename);
    StorageKey(bucketName, fullPath)
  }

  /** The bucket, a slash and the full path give back the bucket path,
      a slash and the file name. The one exception is a bucket path that is
      exactly one segment and a slash (`bucket/`), which gets no second
      slash; a longer path ending in a slash (`a/b/`) does get one, giving
      `b//<name>` as the full path. */
  lemma SegmentsRejoined(bucketPath: string, name: string)
    ensures var (bucketName, subPath) := SplitFirstSegment(bucketPath);
      var fullPath := if subPath != "" then subPath + "/" + name else name;
      bucketName + "/" + fullPath == (if bucketPath == bucketName + "/" then bucketPath else bucketPath + "/") + name
  {
    var (bucketName, subPath) := SplitFirstSegment(bucketPath);
    if '/' !in bucketPath {
      assert bucketPath != bucketName + "/" by {
        assert |bucketPath| != |bucketName + "/"|;
      }
    } else if subPath == "" {
      assert bucketPath == bucketName + "/";
    } else {
      assert bucketPath != bucketName + "/" by {
        assert |bucketPath| > |bucketName + "/"|;
      }
      assert bucketName + "/" + (subPath + "/" + name) == bucketPath + "/" + name;
    }
  }

  /** A bucket path with a sub-path and a file name with an extension: the
      object goes in the first segment, under the rest, named after the
      hash with the lower-cased extension. */
  lemma StorageKeyWithSubPath(bucket: string, sub: string, hash: string, stem: string, ext: string)
    requires '/' !in bucket && sub != ""
    requires '.' !in ext && ext != ""
    ensures StorageKeyFor(bucket + "/" + sub, hash, stem + "." + ext)
         == StorageKey(bucket, sub + "/" + hash + "." + Lower(ext))
  {
    ExtensionAfterLastDot(stem + "." + ext, stem, ext);
    var bucketPath := bucket + "/" + sub;
    var (b, p) := SplitFirstSegment(bucketPath);
    assert bucketPath[|bucket|] == '/';
    SameTextBeforeFirst('/', b, p, bucket, sub);
  }

  // ----- URLs -----

  /** The path of the object-storage REST interface. */
  const ObjectEndpoint := "/storage/v1/object/"
  /** What separates the base URL from the object in a public URL. */
  const PublicMarker := "/storage/v1/object/public/"

  /** The URL the PUT and DELETE requests go to. */
  function ObjectUrl(base: string, k: StorageKey): (u: string)
    ensures StartsWith(u, base + ObjectEndpoint)
    ensures u[|base| + |ObjectEndpoint|..] == k.bucket + "/" + k.path
  {
    var u := base + ObjectEndpoint + k.bucket + "/" + k.path;
    assert u == (base + ObjectEndpoint) + (k.bucket + "/" + k.path);
    u
  }

  /** The URL an upload returns, readable without authentication. */
  function PublicUrl(base: string, k: StorageKey): (u: string)
    ensures StartsWith(u, base + PublicMarker)
    ensures u[|base| + |PublicMarker|..] == k.bucket + "/" + k.path
  {
    var u := base + PublicMarker + k.bucket + "/" + k.path;
    assert u == (base + PublicMarker) + (k.bucket + "/" + k.path);
    u
  }

  datatype Request = Request(verb: string, url: string, headers: seq<(string, string)>, body: seq<byte>)

  /** The `Authorization` and `apikey` headers both requests carry. */
  function AuthHeaders(key: string): seq<(string, string)> {
    [("Authorization", "Bearer " + key), ("apikey", key)]
  }

  /** What `JSON.parse` makes of a response body: a syntax error, `null`,
      or any other value, whose `message` and `error` properties may be
      set (a number, a string or an array has neither). */
  datatype JsonBody = NotJson | JsonNull | JsonValue(message: Option<string>, error: Option<string>)

  /** A reply to a request: status, body text, and what the body parses
      to. */
  datatype Response = Response(status: nat, text: string, json: JsonBody) {
    /** `response.ok`. */
    predicate Ok() {
      200 <= status <= 299
    }
  }

  /** What `fetch` resolves to, or its rejection when no reply arrives. */
  datatype FetchReply = NetworkError | Responded(response: Response)

  // ----- uploadImageToSupabaseGeneric -----

  /** The object an upload of `file` under `bucketPath` writes. */
  function UploadKey(sha: Sha256, file: ImageFile, bucketPath: string): StorageKey {
    StorageKeyFor(bucketPath, FileHash(sha, file), file.name)
  }

  /** The PUT request of an upload: the file's bytes, sent to the object
      URL of its key with the authentication headers and its MIME type. */
  function UploadRequest(cfg: StorageConfig, sha: Sha256, file: ImageFile, bucketPath: string): (req: Request)
    ensures req.verb == "PUT" && req.body == file.content
    ensures req.url == cfg.url + ObjectEndpoint
      + (if bucketPath == UploadKey(sha, file, bucketPath).bucket + "/" then bucketPath else bucketPath + "/")
      + HashedFilename(FileHash(sha, file), file.name)
    ensures req.headers == AuthHeaders(cfg.key) + [("Content-Type", file.mimeType)]
  {
    var hash := FileHash(sha, file);
    ObjectUrlOfKeyFor(cfg.url, bucketPath, hash, file.name);
    Request("PUT", ObjectUrl(cfg.url, UploadKey(sha, file, bucketPath)),
            AuthHeaders(cfg.key) + [("Content-Type", file.mimeType)], file.content)
  }

  /** The object URL of an upload's key: the bucket path, a slash unless
      the bucket path is the bucket and a slash, and the hashed name. */
  lemma ObjectUrlOfKeyFor(base: string, bucketPath: string, hash: string, name: string)
    ensures var k := StorageKeyFor(bucketPath, hash, name);
      ObjectUrl(base, k) == base + ObjectEndpoint
        + (if bucketPath == k.bucket + "/" then bucketPath else bucketPath + "/")
        + HashedFilename(hash, name)
  {
    var k := StorageKeyFor(bucketPath, hash, name);
    var front := if bucketPath == k.bucket + "/" then bucketPath else bucketPath + "/";
    ObjectUrlOfText(base, k, front + HashedFilename(hash, name));
  }

  /** What the inner `try` of the failure branch throws: `JSON.parse`'s
      syntax error, the `TypeError` of reading `message` from `null`, or the
      error built from the parsed `message` or `error` field (the body text
      when neither is a non-empty string). */
  datatype InnerThrow = JsonSyntaxError | NullPropertyError | JsonMessageError(message: string)

  function ParsedErrorThrow(errorText: string, json: JsonBody): (thrown: InnerThrow)
    ensures thrown.JsonSyntaxError? <==> json.NotJson?
    ensures thrown.NullPropertyError? <==> json.JsonNull?
    ensures thrown.JsonMessageError? <==> json.JsonValue?
    ensures json.JsonValue? && json.message.Some? && json.message.value != "" ==>
      thrown.message == "Erro no upload: " + json.message.value
    ensures json.JsonValue? && !(json.message.Some? && json.message.value != "") && json.error.Some? && json.error.value != "" ==>
      thrown.message == "Erro no upload: " + json.error.value
    ensures json.JsonValue? && !(json.message.Some? && json.message.value != "") && !(json.error.Some? && json.error.value != "") ==>
      thrown.message == "Erro no upload: " + errorText
  {
    match json
    case NotJson => JsonSyntaxError
    case JsonNull => NullPropertyError
    case JsonValue(message, error) =>
      var detail :=
        if message.Some? && message.value != "" then message.value
        else if error.Some? && error.value != "" then error.value
        else errorText;
      JsonMessageError("Erro no upload: " + detail)
  }

  /** `Erro no upload (<status>): <text>`. */
  function StatusErrorMessage(status: nat, errorText: string): string {
    "Erro no upload (" + ToRadix(status, 10) + "): " + errorText
  }

  /** The message of a failed upload. Whatever the inner `try` throws, the
      bare `catch` after it catches and replaces it, so the message is
      always the one with the status, never the one from the JSON body. */
  function UploadFailureMessage(status: nat, errorText: string, json: JsonBody): (msg: string)
    ensures msg == "Erro no upload (" + ToRadix(status, 10) + "): " + errorText
    ensures ParsedErrorThrow(errorText, json).JsonMessageError? ==> msg != ParsedErrorThrow(errorText, json).message
  {
    var thrown := ParsedErrorThrow(errorText, json);
    // The bare `catch` discards `thrown`.
    var msg := StatusErrorMessage(status, errorText);
    assert msg[14] == ' ';
    assert thrown.JsonMessageError? ==> thrown.message[14] == ':';
    msg
  }

  /** The status in a failure message can be read back from it. */
  lemma FailureMessageCarriesStatus(status: nat, errorText: string, json: JsonBody)
    ensures var msg := UploadFailureMessage(status, errorText, json);
      var digits := ToRadix(status, 10);
      |msg| >= 19 + |digits| && DigitsValue(msg[16..16 + |digits|], 10) == status
  {
    var digits := ToRadix(status, 10);
    var msg := UploadFailureMessage(status, errorText, json);
    var prefix, tail := "Erro no upload (", "): " + errorText;
    assert |prefix| == 16 && msg == prefix + digits + tail;
    assert (prefix + digits + tail)[|prefix|..|prefix| + |digits|] == digits;
    ToRadixRoundTrip(status, 10);
  }

  datatype UploadError =
    | FetchFailed                     // `fetch` rejected: no reply
    | UploadFailed(message: string)   // a reply that is not ok
    | SuccessBodyNotJson              // `uploadResponse.json()` rejected

  /** The upload raises its error or returns the public URL. */
  datatype UploadOutcome = Uploaded(publicUrl: string) | Raised(error: UploadError)

  /** `uploadImageToSupabaseGeneric`: PUT the file to the object its content
      and the bucket path name. A non-ok reply raises the status message;
      an ok reply whose body is not JSON raises what `json()` raised; any
      other ok reply yields the public URL of that same object. */
  function UploadImage(cfg: StorageConfig, sha: Sha256, file: ImageFile, bucketPath: string, reply: FetchReply): (r: UploadOutcome)
    ensures reply.NetworkError? ==> r == Raised(FetchFailed)
    ensures reply.Responded? && !reply.response.Ok() ==>
      r == Raised(UploadFailed("Erro no upload (" + ToRadix(reply.response.status, 10) + "): " + reply.response.text))
    ensures reply.Responded? && reply.response.Ok() && reply.response.json.NotJson? ==> r == Raised(SuccessBodyNotJson)
    ensures r.Uploaded? <==> reply.Responded? && reply.response.Ok() && !reply.response.json.NotJson?
    ensures r.Uploaded? ==> r.publicUrl == PublicUrl(cfg.url, UploadKey(sha, file, bucketPath))
  {
    var key := UploadKey(sha, file, bucketPath);
    match reply
    case NetworkError => Raised(FetchFailed)
    case Responded(response) =>
      if !response.Ok() then
        Raised(UploadFailed(UploadFailureMessage(response.status, response.text, response.json)))
      else if response.json.NotJson? then Raised(SuccessBodyNotJson)
      else Uploaded(PublicUrl(cfg.url, key))
  }

  /** `uploadImageToSupabase`: an upload to the catalogue bucket path. */
  function UploadCatalogImage(cfg: StorageConfig, sha: Sha256, file: ImageFile, reply: FetchReply): (r: UploadOutcome)
    ensures reply.NetworkError? ==> r == Raised(FetchFailed)
    ensures reply.Responded? && !reply.response.Ok() ==>
      r == Raised(UploadFailed("Erro no upload (" + ToRadix(reply.response.status, 10) + "): " + reply.response.text))
    ensures reply.Responded? && reply.response.Ok() && reply.response.json.NotJson? ==> r == Raised(SuccessBodyNotJson)
    ensures r.Uploaded? <==> reply.Responded? && reply.response.Ok() && !reply.response.json.NotJson?
    ensures r.Uploaded? ==> r.publicUrl == PublicUrl(cfg.url, UploadKey(sha, file, cfg.catalogBucket))
  {
    UploadImage(cfg, sha, file, cfg.catalogBucket, reply)
  }

  /** `uploadPrestadorImageToSupabase`: an upload to the provider bucket
      path. */
  function UploadProviderImage(cfg: StorageConfig, sha: Sha256, file: ImageFile, reply: FetchReply): (r: UploadOutcome)
    ensures reply.NetworkError? ==> r == Raised(FetchFailed)
    ensures reply.Responded? && !reply.response.Ok() ==>
      r == Raised(UploadFailed("Erro no upload (" + ToRadix(reply.response.status, 10) + "): " + reply.response.text))
    ensures reply.Responded? && reply.response.Ok() && reply.response.json.NotJson? ==> r == Raised(SuccessBodyNotJson)
    ensures r.Uploaded? <==> reply.Responded? && reply.response.Ok() && !reply.response.json.NotJson?
    ensures r.Uploaded? ==> r.publicUrl == PublicUrl(cfg.url, UploadKey(sha, file, cfg.providerBucket))
  {
    UploadImage(cfg, sha, file, cfg.providerBucket, reply)
  }

  /** Uploading the same bytes under the same name and bucket path again
      returns the same URL: the second upload overwrites the first. */
  lemma ReuploadSameUrl(cfg: StorageConfig, sha: Sha256, f: ImageFile, g: ImageFile, bucketPath: string, r1: FetchReply, r2: FetchReply)
    requires f.content == g.content && f.name == g.name
    requires UploadImage(cfg, sha, f, bucketPath, r1).Uploaded? && UploadImage(cfg, sha, g, bucketPath, r2).Uploaded?
    ensures UploadImage(cfg, sha, f, bucketPath, r1) == UploadImage(cfg, sha, g, bucketPath, r2)
  {
  }

  // ----- deleteImageFromSupabase -----

  /** How `deleteImageFromSupabase` reads a URL: it has no public marker,
      the text after the marker is empty, or it names an object. */
  datatype DeleteTarget = MarkerMissing | PathEmpty | Target(key: StorageKey)

  /** `url.split(marker)[1]`, cut at its first slash into bucket and path. */
  function ParseDeleteTarget(url: string): (t: DeleteTarget)
    ensures t == MarkerMissing <==> !Contains(url, PublicMarker)
    ensures t.Target? ==> '/' !in t.key.bucket
  {
    var urlParts := Split(url, PublicMarker);
    SplitAtFirst(url, PublicMarker);
    IndexOfAbsent(url, PublicMarker);
    if |urlParts| < 2 then MarkerMissing
    else
      var fullPath := urlParts[1];
      if fullPath == "" then PathEmpty
      else
        var (bucketName, filePath) := SplitFirstSegment(fullPath);
        Target(StorageKey(bucketName, filePath))
  }

  /** The DELETE request, or `None` when the URL names no object and the
      function returns false before calling `fetch`. */
  function DeleteRequest(cfg: StorageConfig, url: string): (req: Option<Request>)
    ensures req.None? <==> !ParseDeleteTarget(url).Target?
    ensures !Contains(url, PublicMarker) ==> req.None?
    ensures req.Some? ==> req.value.verb == "DELETE" && req.value.body == []
                          && req.value.headers == AuthHeaders(cfg.key)
                          && req.value.url == ObjectUrl(cfg.url, ParseDeleteTarget(url).key)
  {
    match ParseDeleteTarget(url)
    case Target(key) => Some(Request("DELETE", ObjectUrl(cfg.url, key), AuthHeaders(cfg.key), []))
    case _ => None
  }

  /** `deleteImageFromSupabase`: true only when a DELETE was sent and its
      reply is ok. A URL without the marker or with nothing after it, a
      rejected `fetch` and a non-ok reply all give false; nothing is
      raised. */
  function DeleteImage(cfg: StorageConfig, url: string, reply: FetchReply): (deleted: bool)
    ensures !Contains(url, PublicMarker) ==> !deleted
    ensures deleted <==> DeleteRequest(cfg, url).Some? && reply.Responded? && reply.response.Ok()
  {
    match ParseDeleteTarget(url)
    case Target(_) => (
      match reply
      case NetworkError => false
      case Responded(response) => response.Ok())
    case _ => false
  }

  // ----- The round trip -----

  /** The base URL, with the marker after it, holds no marker that starts
      before the one the public URL puts there. */
  predicate BaseUrlClean(base: string) {
    !Contains(base + PublicMarker[..|PublicMarker| - 1], PublicMarker)
  }

  /** A URL that holds the marker once, right after `pre`: the delete
      target is read from all the text after it. */
  lemma ParseAfterMarker(pre: string, rest: string)
    requires BaseUrlClean(pre) && !Contains(rest, PublicMarker)
    ensures var t := ParseDeleteTarget(pre + PublicMarker + rest);
      && (rest == "" ==> t == PathEmpty)
      && (rest != "" ==> t == Target(StorageKey(SplitFirstSegment(rest).0, SplitFirstSegment(rest).1)))
  {
    var m := PublicMarker;
    var url := pre + m + rest;
    var n := |pre| + |m| - 1;
    assert url[..n] == pre + m[..|m| - 1];
    assert IsAt(url, |pre|, m) by {
      assert url[|pre|..|pre| + |m|] == m;
    }
    forall j | 0 <= j < |pre| && IsAt(url, j, m) ensures false {
      IsAtInPrefix(url, n, j, m);
    }
    var i := IndexOf(url, m);
    assert i == |pre|;
    assert url[i + |m|..] == rest;
    SplitAtFirst(url, m);
    IndexOfAbsent(rest, m);
    SplitAtFirst(rest, m);
    assert Split(url, m)[1..] == Split(rest, m);
  }

  /** A URL that ends right after the marker names no object: no DELETE
      is sent and the result is false, whatever the reply would have been. */
  lemma DeleteNothingAfterMarker(cfg: StorageConfig, base: string, reply: FetchReply)
    requires BaseUrlClean(base)
    ensures DeleteRequest(cfg, base + PublicMarker) == None
    ensures !DeleteImage(cfg, base + PublicMarker, reply)
  {
    assert base + PublicMarker + "" == base + PublicMarker;
    assert !Contains("", PublicMarker);
    ParseAfterMarker(base, "");
  }

  /** The public URL of an object names that same object to delete, when
      the marker cannot be found anywhere but where the URL puts it. */
  lemma PublicUrlRoundTrip(base: string, k: StorageKey)
    requires BaseUrlClean(base)
    requires '/' !in k.bucket
    requires !Contains(k.bucket + "/" + k.path, PublicMarker)
    ensures ParseDeleteTarget(PublicUrl(base, k)) == Target(k)
  {
    var rest := k.bucket + "/" + k.path;
    assert PublicUrl(base, k) == base + PublicMarker + rest;
    ParseAfterMarker(base, rest);
    var (b, p) := SplitFirstSegment(rest);
    assert '/' in rest by {
      assert rest[|k.bucket|] == '/';
    }
    SameTextBeforeFirst('/', b, p, k.bucket, k.path);
  }

  /** A public URL whose text after the marker holds a slash and no
      second marker: the DELETE goes to that same text under the object
      endpoint of the configured base URL. */
  lemma DeletePublicObject(cfg: StorageConfig, base: string, rest: string)
    requires BaseUrlClean(base) && !Contains(rest, PublicMarker) && '/' in rest
    ensures DeleteRequest(cfg, base + PublicMarker + rest)
         == Some(Request("DELETE", cfg.url + ObjectEndpoint + rest, AuthHeaders(cfg.key), []))
  {
    var r := SplitFirstSegment(rest);
    var key := StorageKey(r.0, r.1);
    assert ParseDeleteTarget(base + PublicMarker + rest) == Target(key) by {
      ParseAfterMarker(base, rest);
    }
    ObjectUrlOfText(cfg.url, key, rest);
  }

  /** The object URL of a key whose text is `t`. */
  lemma ObjectUrlOfText(base: string, k: StorageKey, t: string)
    requires k.bucket + "/" + k.path == t
    ensures ObjectUrl(base, k) == base + ObjectEndpoint + t
  {
    var url := ObjectUrl(base, k);
    var n := |base + ObjectEndpoint|;
    assert url == url[..n] + url[n..];
  }

  /** Why the round trip needs more than a marker-free base URL: the base
      `h/storage/v1/object/public` (the marker without its last slash)
      holds no marker, and neither does the object text `b/p`, yet the
      public URL puts a marker right after the base's own
      `/storage/v1/object/public`, and the delete reads another object
      (bucket `storage`). */
  lemma MarkerStemBaseBreaksRoundTrip()
    ensures var base := "h" + PublicMarker[..|PublicMarker| - 1];
      && !Contains(base, PublicMarker)
      && !Contains("b/p", PublicMarker)
      && ParseDeleteTarget(PublicUrl(base, StorageKey("b", "p"))).Target?
      && ParseDeleteTarget(PublicUrl(base, StorageKey("b", "p"))) != Target(StorageKey("b", "p"))
  {
    var m := PublicMarker;
    var base := "h" + m[..|m| - 1];
    var rest := m[1..] + "b/p";
    StemPartsMarkerFree();
    assert PublicUrl(base, StorageKey("b", "p")) == "h" + m + rest by {
      PublicUrlText(base, StorageKey("b", "p"));
      MarkerStart();
      StemUrlText("h", m, "b/p");
    }
    ParseAfterMarker("h", rest);
    StemRestFirstSegment();
  }

  /** The parts of the counterexample hold no marker. */
  lemma StemPartsMarkerFree()
    ensures !Contains("h" + PublicMarker[..|PublicMarker| - 1], PublicMarker)
    ensures !Contains(PublicMarker[1..] + "b/p", PublicMarker)
    ensures !Contains("b/p", PublicMarker)
  {
    var m := PublicMarker;
    MarkerStart();
    var base, rest := "h" + m[..|m| - 1], m[1..] + "b/p";
    assert base[0] == 'h';
    assert rest[0] == m[1] && rest[1] == m[2] && rest[2] == m[3];
    NoMarkerFromStart(base);
    NoMarkerFromStart(rest);
    NoMarkerFromStart("b/p");
  }

  /** The text after the first marker of the counterexample starts with a
      bucket other than `b`. */
  lemma StemRestFirstSegment()
    ensures SplitFirstSegment(PublicMarker[1..] + "b/p").0 != "b"
  {
    var rest := PublicMarker[1..] + "b/p";
    MarkerStart();
    var r := SplitFirstSegment(rest);
    assert rest[|rest| - 2] == '/';
    assert rest[0] == 's';
  }

  /** A public URL is its base, the marker and the object text. */
  lemma PublicUrlText(base: string, k: StorageKey)
    ensures PublicUrl(base, k) == base + PublicMarker + (k.bucket + "/" + k.path)
  {
    var url := PublicUrl(base, k);
    var n := |base + PublicMarker|;
    assert url == url[..n] + url[n..];
  }

  /** A base ending in the marker without its last slash, then the marker:
      the marker first appears one character earlier. */
  lemma StemUrlText(pre: string, m: string, t: string)
    requires |m| >= 2 && m[0] == m[|m| - 1]
    ensures (pre + m[..|m| - 1]) + m + t == pre + m + (m[1..] + t)
  {
    DoubleMarker(m);
  }

  lemma MarkerStart()
    ensures |PublicMarker| == 26 && PublicMarker[0] == PublicMarker[25] == '/'
    ensures PublicMarker[1] == 's' && PublicMarker[2] == 't' && PublicMarker[3] == 'o'
  {
  }

  /** A text in which no slash starts a stretch as long as the marker
      holds no marker. */
  lemma NoMarkerFromStart(s: string)
    requires forall i :: 0 <= i && i + |PublicMarker| <= |s| ==> s[i] != '/'
    ensures !Contains(s, PublicMarker)
  {
    forall i | 0 <= i <= |s| ensures !IsAt(s, i, PublicMarker) {
      if i + |PublicMarker| <= |s| {
        assert s[i..i + |PublicMarker|][0] == s[i];
      }
    }
  }

  /** A text whose first and last characters agree, without its last
      character and then in full, is the text in full and then without its
      first character. */
  lemma DoubleMarker(m: string)
    requires |m| >= 2 && m[0] == m[|m| - 1]
    ensures m[..|m| - 1] + m == m + m[1..]
  {
    var c := m[0];
    assert m == m[..|m| - 1] + [c] && m == [c] + m[1..];
    assert m[..|m| - 1] + m == m[..|m| - 1] + [c] + m[1..];
  }

  /** The extension holds the marker only if the lower-cased name
      does. */
  lemma ExtensionMarkerFree(name: string)
    requires !Contains(Lower(name), PublicMarker)
    ensures !Contains(Extension(name), PublicMarker)
  {
    var parts := Split(name, ".");
    var last := parts[|parts| - 1];
    if Lower(last) == "" {
      ShortTextMarkerFree(DefaultExtension);
    } else {
      LastPartIsSuffix(name, '.');
      var cut := |name| - |last|;
      LowerSuffix(name, cut);
      SuffixWithout(Lower(name), cut, PublicMarker);
    }
  }

  /** A text shorter than the marker cannot hold it. */
  lemma ShortTextMarkerFree(s: string)
    requires |s| < |PublicMarker|
    ensures !Contains(s, PublicMarker)
  {
  }

  /** Where the text `bucket/path` of an object comes from: a prefix of
      the bucket path with a slash after it, then the hashed file name. */
  lemma StorageKeyText(bucketPath: string, hash: string, fileName: string) returns (front: string)
    ensures |front| <= |bucketPath| + 1 && front == (bucketPath + "/")[..|front|]
    ensures var k := StorageKeyFor(bucketPath, hash, fileName);
      k.bucket + "/" + k.path == front + HashedFilename(hash, fileName)
  {
    var k := StorageKeyFor(bucketPath, hash, fileName);
    front := if bucketPath == k.bucket + "/" then bucketPath else bucketPath + "/";
    assert (bucketPath + "/")[..|bucketPath|] == bucketPath;
  }

  /** The hash holds no slash. */
  lemma NoSlashInHash(sha: Sha256, file: ImageFile)
    ensures '/' !in FileHash(sha, file)
  {
    var prefix := sha(file.content)[..8];
    HexDigits(prefix);
    LowerHexHasNoSlash(Hex(prefix));
  }

  lemma LowerHexHasNoSlash(s: string)
    requires AllLowerHex(s)
    ensures '/' !in s
  {
    assert !IsLowerHexDigit('/');
  }

  /** Text made of a marker-free front, a slash-free middle, a dot and a
      marker-free tail holds no marker: an occurrence cannot reach into the
      middle, which lacks the slash that ends the marker, nor cover the dot,
      which the marker lacks. */
  lemma MarkerFreeParts(front: string, middle: string, tail: string)
    requires !Contains(front, PublicMarker) && '/' !in middle && !Contains(tail, PublicMarker)
    ensures !Contains(front + (middle + "." + tail), PublicMarker)
  {
    var m := PublicMarker;
    assert m[|m| - 1] == '/';
    AppendWithoutLast(front, middle, m);
    assert '.' !in m;
    JoinWithout(front + middle, '.', tail, m);
    assert front + middle + ['.'] + tail == front + (middle + "." + tail);
  }

  /** The text `bucket/path` of an uploaded object holds no marker when
      neither the bucket path (with a slash after it) nor the lower-cased
      file name does. */
  lemma UploadKeyMarkerFree(sha: Sha256, file: ImageFile, bucketPath: string)
    requires !Contains(bucketPath + "/", PublicMarker)
    requires !Contains(Lower(file.name), PublicMarker)
    ensures var k := UploadKey(sha, file, bucketPath);
      !Contains(k.bucket + "/" + k.path, PublicMarker)
  {
    var front := StorageKeyText(bucketPath, FileHash(sha, file), file.name);
    PrefixWithout(bucketPath + "/", |front|, PublicMarker);
    NoSlashInHash(sha, file);
    ExtensionMarkerFree(file.name);
    MarkerFreeParts(front, FileHash(sha, file), Extension(file.name));
  }

  /** An uploaded image can be deleted: the URL the upload returns makes
      the delete send its DELETE to the very URL the upload sent its PUT
      to. */
  lemma UploadThenDeleteSameObject(cfg: StorageConfig, sha: Sha256, file: ImageFile, bucketPath: string, reply: FetchReply)
    requires BaseUrlClean(cfg.url)
    requires !Contains(bucketPath + "/", PublicMarker)
    requires !Contains(Lower(file.name), PublicMarker)
    requires UploadImage(cfg, sha, file, bucketPath, reply).Uploaded?
    ensures DeleteRequest(cfg, UploadImage(cfg, sha, file, bucketPath, reply).publicUrl)
         == Some(Request("DELETE", UploadRequest(cfg, sha, file, bucketPath).url, AuthHeaders(cfg.key), []))
  {
    var k := UploadKey(sha, file, bucketPath);
    UploadKeyMarkerFree(sha, file, bucketPath);
    PublicUrlRoundTrip(cfg.url, k);
  }
}
