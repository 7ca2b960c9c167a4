/**
 * `JsonWebToken`: the URL-safe base 64 of section 5 of RFC 4648, the `alg`
 * names of section 3.1 of RFC 7518, and the three-segment compact form
 * `header.payload.signature` of section 7.1 of RFC 7515 built by both `Encode`
 * overloads. Signing (HMAC, RSA) and JSON serialisation are parameters.
 */
module JsonWebTokens {
  import opened Wrappers
  import opened Base64

  /** The `JsonWebTokenHashAlgorithm` enumeration. */
  datatype JsonWebTokenHashAlgorithm = RS256 | HS256 | HS384 | HS512

  /** `algorithm.ToString()`: the enumeration member's name, which is its `alg` value. */
  function Name(algorithm: JsonWebTokenHashAlgorithm): string {
    match algorithm
    case RS256 => "RS256"
    case HS256 => "HS256"
    case HS384 => "HS384"
    case HS512 => "HS512"
  }

  /**
   * `GetHashAlgorithm`: an empty name throws `ArgumentNullException`, a name that
   * is not one of the four `alg` values throws `ArgumentException`.
   */
  function GetHashAlgorithm(algorithm: string): (r: Result<JsonWebTokenHashAlgorithm>)
    ensures algorithm == "" ==> r == Failure(ArgumentNull)
    ensures r.Success? ==> Name(r.value) == algorithm
    ensures algorithm != "" && r.Failure? ==> r.error == Argument
  {
    if algorithm == "" then Failure(ArgumentNull)
    else if algorithm == "RS256" then Success(RS256)
    else if algorithm == "HS384" then Success(HS384)
    else if algorithm == "HS512" then Success(HS512)
    else if algorithm == "HS256" then Success(HS256)
    else Failure(Argument)
  }

  /** Every algorithm is found again under its own name. */
  lemma GetHashAlgorithmOfName(algorithm: JsonWebTokenHashAlgorithm)
    ensures GetHashAlgorithm(Name(algorithm)) == Success(algorithm)
  {
  }

  /** `String.Split(sep)`: the pieces between separators, empty ones included. */
  function Split(s: string, sep: char): (parts: seq<string>)
    ensures |parts| >= 1
    decreases |s|
  {
    if s == [] then [""]
    else
      var rest := Split(s[1..], sep);
      if s[0] == sep then [""] + rest else [[s[0]] + rest[0]] + rest[1..]
  }

  /** `String.Join(sep, parts)`. */
  function Join(parts: seq<string>, sep: char): string {
    if |parts| == 0 then ""
    else if |parts| == 1 then parts[0]
    else parts[0] + [sep] + Join(parts[1..], sep)
  }

  lemma JoinTwo(a: string, b: string, sep: char)
    ensures Join([a, b], sep) == a + [sep] + b
  {
    assert [a, b][1..] == [b];
  }

  lemma {:induction false} SplitWithout(a: string, sep: char)
    requires sep !in a
    ensures Split(a, sep) == [a]
    decreases |a|
  {
    if a != [] {
      SplitWithout(a[1..], sep);
      assert [a[0]] + a[1..] == a;
    }
  }

  lemma {:induction false} SplitAtFirst(a: string, sep: char, t: string)
    requires sep !in a
    ensures Split(a + [sep] + t, sep) == [a] + Split(t, sep)
    decreases |a|
  {
    var s := a + [sep] + t;
    if a == [] {
      assert s[1..] == t;
    } else {
      assert s[1..] == a[1..] + [sep] + t;
      SplitAtFirst(a[1..], sep, t);
      assert [a[0]] + a[1..] == a;
    }
  }

  /** Splitting a joined list of separator-free pieces gives the pieces back. */
  lemma {:induction false} SplitJoin(parts: seq<string>, sep: char)
    requires |parts| >= 1 && forall i :: 0 <= i < |parts| ==> sep !in parts[i]
    ensures Split(Join(parts, sep), sep) == parts
    decreases |parts|
  {
    if |parts| == 1 {
      SplitWithout(parts[0], sep);
    } else {
      SplitJoin(parts[1..], sep);
      SplitAtFirst(parts[0], sep, Join(parts[1..], sep));
    }
  }

  /** `String.Replace(from, to)` for single characters. */
  function Replace(s: string, from: char, to: char): (t: string)
    ensures |t| == |s|
    ensures forall i :: 0 <= i < |s| ==> t[i] == (if s[i] == from then to else s[i])
  {
    seq(|s|, i requires 0 <= i < |s| => if s[i] == from then to else s[i])
  }

  /** The URL-safe alphabet of section 5 of RFC 4648: `-` and `_` in place of `+` and `/`. */
  predicate IsBase64UrlChar(c: char) {
    || ('A' <= c <= 'Z') || ('a' <= c <= 'z') || ('0' <= c <= '9') || c == '-' || c == '_'
  }

  predicate IsBase64UrlString(s: string) {
    forall i :: 0 <= i < |s| ==> IsBase64UrlChar(s[i])
  }

  /** The two character swaps of `Base64UrlEncode`. */
  function ToUrlAlphabet(s: string): (t: string)
    ensures IsBase64String(s) ==> IsBase64UrlString(t)
  {
    Replace(Replace(s, '+', '-'), '/', '_')
  }

  /** The two character swaps of `Base64UrlDecode`. */
  function FromUrlAlphabet(t: string): string {
    Replace(Replace(t, '-', '+'), '_', '/')
  }

  lemma FromToUrlAlphabet(s: string)
    requires IsBase64String(s)
    ensures FromUrlAlphabet(ToUrlAlphabet(s)) == s
  {
    var back := FromUrlAlphabet(ToUrlAlphabet(s));
    forall i | 0 <= i < |s|
      ensures back[i] == s[i]
    {
      assert IsBase64Char(s[i]);
    }
  }

  /**
   * `Base64UrlEncode`: an empty input throws `ArgumentNullException`; otherwise
   * the standard encoding cut at its first `=`, with `+` and `/` swapped for
   * `-` and `_`, so the result is free of `=`, `+` and `/`.
   */
  function Base64UrlEncode(input: seq<uint8>): (r: Result<string>)
    ensures r.Failure? <==> input == []
    ensures r.Failure? ==> r.error == ArgumentNull
    ensures r.Success? ==> IsBase64UrlString(r.value) && r.value != ""
    ensures r.Success? ==> '=' !in r.value && '+' !in r.value && '/' !in r.value
  {
    if input == [] then Failure(ArgumentNull)
    else
      var output := Split(ToBase64String(input), '=')[0];
      UnpaddedPrefix(input);
      Success(ToUrlAlphabet(output))
  }

  /** The standard encoding cut at its first `=` is the encoding before padding. */
  lemma UnpaddedPrefix(input: seq<uint8>)
    ensures Split(ToBase64String(input), '=')[0] == EncodeUnpadded(input)
    ensures input != [] ==> EncodeUnpadded(input) != ""
  {
    var u, pad := EncodeUnpadded(input), Padding(|input|);
    assert '=' !in u;
    if pad == "" {
      assert ToBase64String(input) == u;
      SplitWithout(u, '=');
    } else {
      assert ToBase64String(input) == u + ['='] + pad[1..];
      SplitAtFirst(u, '=', pad[1..]);
    }
  }

  /** The `=` characters `Base64UrlDecode` appends for a length of `n` modulo four. */
  function UrlPadding(n: nat): string
    requires n % 4 != 1
  {
    if n % 4 == 2 then "==" else if n % 4 == 3 then "=" else ""
  }

  /**
   * `Base64UrlDecode`: an empty input throws `ArgumentNullException` and a length
   * of one modulo four `InvalidOperationException`; otherwise `-` and `_` become
   * `+` and `/`, the padding is restored and the standard decoder, which throws
   * `FormatException` on anything else that is malformed, does the rest.
   */
  function Base64UrlDecode(input: string): (r: Result<seq<uint8>>)
    ensures input == [] ==> r == Failure(ArgumentNull)
    ensures input != [] && |input| % 4 == 1 ==> r == Failure(InvalidOperation)
    ensures input != [] && |input| % 4 != 1 && r.Failure? ==> r.error == Format
  {
    if input == [] then Failure(ArgumentNull)
    else
      var output := FromUrlAlphabet(input);
      if |output| % 4 == 1 then Failure(InvalidOperation)
      else FromBase64String(output + UrlPadding(|output|))
  }

  /** `Base64UrlDecode(Base64UrlEncode(b)) == b` for every non-empty `b`. */
  lemma Base64UrlRoundTrip(bs: seq<uint8>)
    requires bs != []
    ensures Base64UrlEncode(bs).Success?
    ensures Base64UrlDecode(Base64UrlEncode(bs).value) == Success(bs)
  {
    var u := EncodeUnpadded(bs);
    UnpaddedPrefix(bs);
    FromToUrlAlphabet(u);
    assert |u| % 4 == (if |bs| % 3 == 0 then 0 else |bs| % 3 + 1);
    assert UrlPadding(|u|) == Padding(|bs|);
    DecodeEncode(bs);
  }

  predicate IsAscii(s: string) {
    forall i :: 0 <= i < |s| ==> s[i] < 128 as char
  }

  /** `Encoding.UTF8.GetBytes` on text that is plain ASCII: one octet per character. */
  function Utf8Bytes(s: string): (bs: seq<uint8>)
    requires IsAscii(s)
    ensures |bs| == |s| && forall i :: 0 <= i < |s| ==> bs[i] == s[i] as int
  {
    seq(|s|, i requires 0 <= i < |s| => s[i] as int)
  }

  /** The header object `{ typ = "JWT", alg = algorithm }` serialised without whitespace. */
  function HeaderJson(algorithm: JsonWebTokenHashAlgorithm): (json: string)
    ensures IsAscii(json)
  {
    "{\"typ\":\"JWT\",\"alg\":\"" + Name(algorithm) + "\"}"
  }

  function HeaderBytes(algorithm: JsonWebTokenHashAlgorithm): (bs: seq<uint8>)
    ensures bs != []
  {
    Utf8Bytes(HeaderJson(algorithm))
  }

  /** The text the signature is computed over: the first two segments joined by `.`. */
  function SigningInput(header: seq<uint8>, payload: seq<uint8>): (s: string)
    requires header != [] && payload != []
    ensures IsAscii(s)
  {
    var s := Base64UrlEncode(header).value + "." + Base64UrlEncode(payload).value;
    assert forall i :: 0 <= i < |s| ==> IsBase64UrlChar(s[i]) || s[i] == '.';
    s
  }

  /**
   * `token` is the compact serialisation of `header`, `payload` and `signature`:
   * exactly three `.`-separated segments, which decode to the header, the
   * payload and the signature, and the first two of which are the signing input.
   */
  ghost predicate IsCompactToken(token: string, header: seq<uint8>, payload: seq<uint8>, signature: seq<uint8>)
  {
    var segments := Split(token, '.');
    && header != [] && payload != []
    && |segments| == 3
    && segments[0] + "." + segments[1] == SigningInput(header, payload)
    && Base64UrlDecode(segments[0]) == Success(header)
    && Base64UrlDecode(segments[1]) == Success(payload)
    && Base64UrlDecode(segments[2]) == Success(signature)
  }

  /** A signing function: the bytes to sign to the signature. */
  type Signer = seq<uint8> -> seq<uint8>

  /** A keyed hash: key and bytes to sign to the signature. */
  type Hmac = (seq<uint8>, seq<uint8>) -> seq<uint8>

  /** The three `HMACSHA*` implementations, which are not part of this model. */
  datatype HmacFunctions = HmacFunctions(sha256: Hmac, sha384: Hmac, sha512: Hmac)

  /** The static `HashAlgorithms` table: an entry for each HMAC algorithm and none for `RS256`. */
  function HashAlgorithms(hmacs: HmacFunctions): (table: map<JsonWebTokenHashAlgorithm, Hmac>)
    ensures table.Keys == {HS256, HS384, HS512}
    ensures RS256 !in table
  {
    map[HS256 := hmacs.sha256, HS384 := hmacs.sha384, HS512 := hmacs.sha512]
  }

  /**
   * The segment building shared by both `Encode` overloads: the encoded header
   * and payload are added, the signer (missing when the algorithm has no table
   * entry) signs the UTF-8 bytes of their `.`-join, the encoded signature is
   * added, and the three segments are joined by `.`.
   */
  method EncodeSegments(header: seq<uint8>, payload: seq<uint8>, signer: Option<Signer>)
    returns (r: Result<string>)
    ensures header == [] || payload == [] ==> r == Failure(ArgumentNull)
    ensures header != [] && payload != [] && signer.None? ==> r == Failure(KeyNotFound)
    ensures header != [] && payload != [] && signer.Some? ==>
              (r.Success? <==> signer.value(Utf8Bytes(SigningInput(header, payload))) != [])
    ensures r.Failure? && signer.Some? ==> r.error == ArgumentNull
    ensures r.Success? ==> signer.Some? && IsCompactToken(r.value, header, payload,
                                                          signer.value(Utf8Bytes(SigningInput(header, payload))))
  {
    var segments: seq<string> := [];
    var headerSegment :- Base64UrlEncode(header);
    segments := segments + [headerSegment];
    var payloadSegment :- Base64UrlEncode(payload);
    segments := segments + [payloadSegment];
    var stringToSign := Join(segments, '.');
    assert segments == [headerSegment, payloadSegment];
    JoinTwo(headerSegment, payloadSegment, '.');
    assert headerSegment == Base64UrlEncode(header).value && payloadSegment == Base64UrlEncode(payload).value;
    assert stringToSign == SigningInput(header, payload);
    if signer.None? {
      return Failure(KeyNotFound);
    }
    var signature := signer.value(Utf8Bytes(stringToSign));
    var signatureSegment :- Base64UrlEncode(signature);
    segments := segments + [signatureSegment];
    var token := Join(segments, '.');
    CompactToken(header, payload, signature, segments);
    return Success(token);
  }

  lemma CompactToken(header: seq<uint8>, payload: seq<uint8>, signature: seq<uint8>, segments: seq<string>)
    requires header != [] && payload != [] && signature != []
    requires segments == [Base64UrlEncode(header).value, Base64UrlEncode(payload).value, Base64UrlEncode(signature).value]
    ensures IsCompactToken(Join(segments, '.'), header, payload, signature)
  {
    SplitJoin(segments, '.');
    Base64UrlRoundTrip(header);
    Base64UrlRoundTrip(payload);
    Base64UrlRoundTrip(signature);
  }

  /**
   * The keyed `Encode(payload, keyBytes, algorithm)`. `payload` is the UTF-8 JSON
   * of the payload object (`None` for a null object). A null payload, or a null
   * or empty key, throws `ArgumentNullException`; `RS256` has no entry in the
   * HMAC table and throws `KeyNotFoundException`.
   */
  method Encode(payload: Option<seq<uint8>>, keyBytes: Option<seq<uint8>>, algorithm: JsonWebTokenHashAlgorithm,
                hmacs: HmacFunctions)
    returns (r: Result<string>)
    ensures payload.None? || keyBytes.None? || keyBytes.value == [] ==> r == Failure(ArgumentNull)
    ensures payload.Some? && payload.value == [] ==> r == Failure(ArgumentNull)
    ensures payload.Some? && payload.value != [] && keyBytes.Some? && keyBytes.value != [] && algorithm == RS256
            ==> r == Failure(KeyNotFound)
    ensures payload.Some? && payload.value != [] && keyBytes.Some? && keyBytes.value != [] && algorithm != RS256 ==>
              (r.Success? <==> HashAlgorithms(hmacs)[algorithm](keyBytes.value,
                                 Utf8Bytes(SigningInput(HeaderBytes(algorithm), payload.value))) != [])
    ensures r.Failure? ==> r.error in {ArgumentNull, KeyNotFound}
    ensures r.Success? ==>
              && payload.Some? && payload.value != [] && keyBytes.Some? && algorithm in HashAlgorithms(hmacs)
              && IsCompactToken(r.value, HeaderBytes(algorithm), payload.value,
                                HashAlgorithms(hmacs)[algorithm](keyBytes.value,
                                  Utf8Bytes(SigningInput(HeaderBytes(algorithm), payload.value))))
  {
    if payload.None? {
      return Failure(ArgumentNull);
    }
    if keyBytes.None? || keyBytes.value == [] {
      return Failure(ArgumentNull);
    }
    var table := HashAlgorithms(hmacs);
    var key := keyBytes.value;
    var signer: Option<Signer> := None;
    if algorithm in table {
      var hash := table[algorithm];
      signer := Some(bytes => hash(key, bytes));
    }
    r := EncodeSegments(HeaderBytes(algorithm), payload.value, signer);
  }

  /**
   * `Encode(payload, certificate)`: always `RS256`; `sign` stands for the
   * certificate's private key signing with SHA-256 (`None` for a null
   * certificate, which throws `ArgumentNullException`, as does a null payload).
   */
  method EncodeWithCertificate(payload: Option<seq<uint8>>, certificate: Option<Signer>) returns (r: Result<string>)
    ensures payload.None? || certificate.None? ==> r == Failure(ArgumentNull)
    ensures r.Failure? ==> r.error == ArgumentNull
    ensures payload.Some? && payload.value != [] && certificate.Some? ==>
              (r.Success? <==> certificate.value(Utf8Bytes(SigningInput(HeaderBytes(RS256), payload.value))) != [])
    ensures r.Success? ==>
              && payload.Some? && payload.value != [] && certificate.Some?
              && IsCompactToken(r.value, HeaderBytes(RS256), payload.value,
                                certificate.value(Utf8Bytes(SigningInput(HeaderBytes(RS256), payload.value))))
  {
    if payload.None? || certificate.None? {
      return Failure(ArgumentNull);
    }
    r := EncodeSegments(HeaderBytes(RS256), payload.value, certificate);
  }
}
