/** The Media CDN credential builder: signed URLs, signed URL prefixes,
    signed cookies and short-token suffixes.  Each artifact is a policy
    string followed by a signature over exactly that policy. */
module MediaCdn {
  import opened Prelude
  import PyText
  import Utf8
  import B64 = Base64Url
  import Hex
  import UrlQuery

  type Ed25519Signature = s: seq<byte> | |s| == 64 witness seq(64, _ => 0 as byte)
  type Sha1Digest = s: seq<byte> | |s| == 20 witness seq(20, _ => 0 as byte)
  type Sha256Digest = s: seq<byte> | |s| == 32 witness seq(32, _ => 0 as byte)

  /** The primitives the builder calls and does not implement:
      `base64.urlsafe_b64decode` of the key (None: malformed text),
      Ed25519 signing with `Ed25519PrivateKey.from_private_bytes(key).sign`
      (None: the key bytes are refused), and HMAC with SHA-1 or SHA-256. */
  datatype Crypto = Crypto(
    decodeKey: string -> Option<seq<byte>>,
    ed25519Sign: (seq<byte>, seq<byte>) -> Option<Ed25519Signature>,
    hmacSha1: (seq<byte>, seq<byte>) -> Sha1Digest,
    hmacSha256: (seq<byte>, seq<byte>) -> Sha256Digest)

  datatype Error =
    | MissingScope           // ValueError: none of url_prefix, full_path, path_globs given
    | UnsupportedAlgorithm   // ValueError: algorithm not sha1, sha256 or ed25519
    | NoScopePayload         // some scope is given but none is non-empty: `output` is never bound
    | MalformedKey           // the key text does not decode
    | KeyRejected            // the decoded key is not an Ed25519 private key

  datatype Result<T> = Ok(value: T) | Err(error: Error)

  /** Ed25519 over the UTF-8 bytes of `message` with the decoded key. */
  function SignEd25519(c: Crypto, base64Key: string, message: string): (r: Result<Ed25519Signature>)
    ensures r.Err? ==> r.error == MalformedKey || r.error == KeyRejected
    ensures r.Ok? <==> (c.decodeKey(base64Key).Some?
      && c.ed25519Sign(c.decodeKey(base64Key).value, Utf8.Encode(message)).Some?)
    ensures r.Ok? ==> c.ed25519Sign(c.decodeKey(base64Key).value, Utf8.Encode(message)) == Some(r.value)
  {
    match c.decodeKey(base64Key)
    case None => Err(MalformedKey)
    case Some(key) =>
      match c.ed25519Sign(key, Utf8.Encode(message))
      case None => Err(KeyRejected)
      case Some(sig) => Ok(sig)
  }

  // ---------------------------------------------------------------------
  // sign_url

  /** The policy string of a signed URL: the trimmed URL, `?` or `&`, then
      the expiry and the key name. */
  function UrlToSign(url: string, keyName: string, expires: int): string {
    var u := PyText.Trim(url);
    u + UrlQuery.Separator(u) + "Expires=" + PyText.IntToStr(expires) + "&KeyName=" + keyName
  }

  function SignUrl(c: Crypto, url: string, keyName: string, base64Key: string, expires: int)
    : (r: Result<string>)
    ensures r.Err? ==> r.error == MalformedKey || r.error == KeyRejected
    ensures r.Ok? ==> IsPrefix(UrlToSign(url, keyName, expires) + "&Signature=", r.value)
  {
    var toSign := UrlToSign(url, keyName, expires);
    match SignEd25519(c, base64Key, toSign)
    case Err(e) => Err(e)
    case Ok(sig) => Ok(toSign + "&Signature=" + B64.Encode(sig))
  }

  /** The marker begins with a character found neither later in itself nor
      in the encoded signature: the signature field is the last one. */
  lemma SignatureMarkers()
    ensures forall i :: 1 <= i < |"&Signature="| ==> "&Signature="[i] != '&'
    ensures forall i :: 1 <= i < |":Signature="| ==> ":Signature="[i] != ':'
    ensures forall i :: 1 <= i < |"~Signature="| ==> "~Signature="[i] != '~'
    ensures forall i :: 1 <= i < |"~hmac="| ==> "~hmac="[i] != '~'
    ensures forall i :: 1 <= i < |"~Expires="| ==> "~Expires="[i] != '~'
  {
  }

  /** An encoded signature, cut off after its marker, is read back as the
      signature bytes. */
  lemma EncodedSignatureReadsBack(sig: seq<byte>, marker: string, p: string)
    requires marker == "&Signature=" || marker == ":Signature=" || marker == "~Signature="
    ensures PyText.SplitAtLast(p + marker + B64.Encode(sig), marker) == Some((p, B64.Encode(sig)))
    ensures B64.Decode(B64.Encode(sig)) == Some(sig)
  {
    SignatureMarkers();
    var t := B64.Encode(sig);
    B64.EncodeChars(sig);
    assert forall i :: 0 <= i < |t| ==> t[i] == '=' || B64.IsAlphabet(t[i]);
    PyText.SplitAtLastAppended(p, marker, t);
    B64.DecodeEncode(sig);
  }

  /** A signed URL is `strip(url)`, the separator, `Expires=`, the decimal
      expiry, `&KeyName=`, the key name and then `&Signature=` with the
      encoded Ed25519 signature of exactly everything before that marker.
      Cutting at the last `&Signature=` gives back the policy and the
      signature. */
  lemma SignUrlShape(c: Crypto, url: string, keyName: string, base64Key: string, expires: int)
    ensures var r := SignUrl(c, url, keyName, base64Key, expires);
      r.Ok? <==> (c.decodeKey(base64Key).Some?
        && c.ed25519Sign(c.decodeKey(base64Key).value,
                         Utf8.Encode(UrlToSign(url, keyName, expires))).Some?)
    ensures var r := SignUrl(c, url, keyName, base64Key, expires);
      var u := PyText.Trim(url);
      var policy := UrlToSign(url, keyName, expires);
      r.Ok? ==>
        && policy == u + UrlQuery.Separator(u) + "Expires=" + PyText.IntToStr(expires)
                     + "&KeyName=" + keyName
        && PyText.ParseInt(PyText.IntToStr(expires)) == Some(expires)
        && exists text ::
             && PyText.SplitAtLast(r.value, "&Signature=") == Some((policy, text))
             && B64.Decode(text) == c.ed25519Sign(c.decodeKey(base64Key).value, Utf8.Encode(policy))
             && c.ed25519Sign(c.decodeKey(base64Key).value, Utf8.Encode(policy)).Some?
             && text == B64.Encode(c.ed25519Sign(c.decodeKey(base64Key).value, Utf8.Encode(policy)).value)
  {
    var r := SignUrl(c, url, keyName, base64Key, expires);
    PyText.IntToStrRoundTrip(expires);
    if r.Ok? {
      var policy := UrlToSign(url, keyName, expires);
      var sig := SignEd25519(c, base64Key, policy).value;
      EncodedSignatureReadsBack(sig, "&Signature=", policy);
      assert r.value == policy + "&Signature=" + B64.Encode(sig);
    }
  }

  // ---------------------------------------------------------------------
  // The URL-prefix policy shared by sign_url_prefix and sign_cookie

  /** `URLPrefix=<base64url of the trimmed prefix>`, `Expires=` and
      `KeyName=` fields joined by `d` (`&` for URLs, `:` for cookies). */
  function PrefixPolicy(urlPrefix: string, keyName: string, expires: int, d: char): string {
    Field("URLPrefix=", B64.Encode(Utf8.Encode(PyText.Trim(urlPrefix))), d)
      + (Field("Expires=", PyText.IntToStr(expires), d) + ("KeyName=" + keyName))
  }

  /** `name`, its value and the delimiter after it. */
  function Field(name: string, value: string, d: char): string {
    name + value + [d]
  }

  /** The fields an edge reader recovers from a prefix policy. */
  datatype PolicyFields = PolicyFields(prefix: seq<byte>, expires: int, keyName: string)

  /** A field `name` whose value runs up to the next `d`: the value and the
      text after that `d`. */
  function TakeField(s: string, name: string, d: char): Option<(string, string)> {
    if !IsPrefix(name, s) then None
    else
      var v := s[|name|..];
      if |PyText.BeforeFirst(v, d)| == |v| then None
      else Some((PyText.BeforeFirst(v, d), PyText.AfterFirst(v, d)))
  }

  lemma TakeFieldOf(name: string, value: string, d: char, rest: string)
    requires forall i :: 0 <= i < |value| ==> value[i] != d
    ensures TakeField(Field(name, value, d) + rest, name, d) == Some((value, rest))
  {
    var s := Field(name, value, d) + rest;
    assert s[..|name|] == name;
    assert s[|name|..] == value + [d] + rest;
    PyText.BeforeFirstJoined(value, d, rest);
  }

  /** The reference reading of a prefix policy: the inverse of
      `PrefixPolicy`. */
  function ParsePrefixPolicy(p: string, d: char): Option<PolicyFields> {
    match TakeField(p, "URLPrefix=", d)
    case None => None
    case Some((enc, r1)) =>
      match TakeField(r1, "Expires=", d)
      case None => None
      case Some((digits, r2)) =>
        if !IsPrefix("KeyName=", r2) then None
        else
          match (B64.Decode(enc), PyText.ParseInt(digits))
          case (Some(prefix), Some(e)) => Some(PolicyFields(prefix, e, r2[8..]))
          case _ => None
  }

  /** Reading a policy assembled from field texts that do not contain the
      delimiter recovers those texts. */
  lemma ParseAssembledPolicy(enc: string, digits: string, keyName: string, d: char)
    requires forall i :: 0 <= i < |enc| ==> enc[i] != d
    requires forall i :: 0 <= i < |digits| ==> digits[i] != d
    ensures ParsePrefixPolicy(Field("URLPrefix=", enc, d) + (Field("Expires=", digits, d) + ("KeyName=" + keyName)), d)
      == match (B64.Decode(enc), PyText.ParseInt(digits))
         case (Some(prefix), Some(e)) => Some(PolicyFields(prefix, e, keyName))
         case _ => None
  {
    var tail2 := "KeyName=" + keyName;
    var tail1 := Field("Expires=", digits, d) + tail2;
    TakeFieldOf("URLPrefix=", enc, d, tail1);
    TakeFieldOf("Expires=", digits, d, tail2);
    assert tail2[..8] == "KeyName=" && tail2[8..] == keyName;
  }

  /** Every field of a prefix policy reads back: the UTF-8 bytes of the
      trimmed prefix, the expiry and the key name. */
  lemma PrefixPolicyRoundTrip(urlPrefix: string, keyName: string, expires: int, d: char)
    requires d == '&' || d == ':'
    ensures ParsePrefixPolicy(PrefixPolicy(urlPrefix, keyName, expires, d), d)
      == Some(PolicyFields(Utf8.Encode(PyText.Trim(urlPrefix)), expires, keyName))
  {
    var bytes := Utf8.Encode(PyText.Trim(urlPrefix));
    var enc := B64.Encode(bytes);
    B64.EncodeChars(bytes);
    assert forall i :: 0 <= i < |enc| ==> enc[i] == '=' || B64.IsAlphabet(enc[i]);
    var digits := PyText.IntToStr(expires);
    ParseAssembledPolicy(enc, digits, keyName, d);
    B64.DecodeEncode(bytes);
    PyText.IntToStrRoundTrip(expires);
  }

  /** Distinct expiries, key names or prefix bytes give distinct policies:
      the signed bytes change whenever one of them does. */
  lemma PrefixPolicyInjective(p1: string, k1: string, e1: int, p2: string, k2: string, e2: int, d: char)
    requires d == '&' || d == ':'
    requires PrefixPolicy(p1, k1, e1, d) == PrefixPolicy(p2, k2, e2, d)
    ensures e1 == e2 && k1 == k2
    ensures Utf8.Encode(PyText.Trim(p1)) == Utf8.Encode(PyText.Trim(p2))
  {
    PrefixPolicyRoundTrip(p1, k1, e1, d);
    PrefixPolicyRoundTrip(p2, k2, e2, d);
  }

  // ---------------------------------------------------------------------
  // sign_url_prefix

  function SignUrlPrefix(c: Crypto, url: string, urlPrefix: string, keyName: string,
                         base64Key: string, expires: int): (r: Result<string>)
    ensures r.Err? ==> r.error == MalformedKey || r.error == KeyRejected
  {
    var u := PyText.Trim(url);
    var policy := PrefixPolicy(urlPrefix, keyName, expires, '&');
    match SignEd25519(c, base64Key, policy)
    case Err(e) => Err(e)
    case Ok(sig) => Ok(u + UrlQuery.Separator(u) + policy + "&Signature=" + B64.Encode(sig))
  }

  /** A signed prefix URL is the trimmed request URL, its separator and the
      prefix policy, then the signature of the policy alone: cutting at the
      last `&Signature=` leaves URL, separator and policy, and every policy
      field reads back. */
  lemma SignUrlPrefixShape(c: Crypto, url: string, urlPrefix: string, keyName: string,
                           base64Key: string, expires: int)
    ensures var r := SignUrlPrefix(c, url, urlPrefix, keyName, base64Key, expires);
      var policy := PrefixPolicy(urlPrefix, keyName, expires, '&');
      r.Ok? <==> (c.decodeKey(base64Key).Some?
        && c.ed25519Sign(c.decodeKey(base64Key).value, Utf8.Encode(policy)).Some?)
    ensures var r := SignUrlPrefix(c, url, urlPrefix, keyName, base64Key, expires);
      var u := PyText.Trim(url);
      var policy := PrefixPolicy(urlPrefix, keyName, expires, '&');
      r.Ok? ==>
        && ParsePrefixPolicy(policy, '&')
             == Some(PolicyFields(Utf8.Encode(PyText.Trim(urlPrefix)), expires, keyName))
        && exists text ::
             && PyText.SplitAtLast(r.value, "&Signature=")
                  == Some((u + UrlQuery.Separator(u) + policy, text))
             && B64.Decode(text) == c.ed25519Sign(c.decodeKey(base64Key).value, Utf8.Encode(policy))
  {
    var r := SignUrlPrefix(c, url, urlPrefix, keyName, base64Key, expires);
    var policy := PrefixPolicy(urlPrefix, keyName, expires, '&');
    PrefixPolicyRoundTrip(urlPrefix, keyName, expires, '&');
    if r.Ok? {
      var u := PyText.Trim(url);
      var sig := SignEd25519(c, base64Key, policy).value;
      EncodedSignatureReadsBack(sig, "&Signature=", u + UrlQuery.Separator(u) + policy);
      assert r.value == u + UrlQuery.Separator(u) + policy + "&Signature=" + B64.Encode(sig);
    }
  }

  /** What follows the separator of a signed prefix URL depends only on
      the signing of the policy. */
  lemma SignUrlPrefixTail(c: Crypto, url: string, urlPrefix: string, keyName: string,
                          base64Key: string, expires: int)
    ensures var r := SignUrlPrefix(c, url, urlPrefix, keyName, base64Key, expires);
      var policy := PrefixPolicy(urlPrefix, keyName, expires, '&');
      var s := SignEd25519(c, base64Key, policy);
      && (r.Ok? <==> s.Ok?)
      && (r.Err? ==> r == Err(s.error))
      && (r.Ok? ==>
            && |r.value| > |PyText.Trim(url)|
            && r.value[|PyText.Trim(url)| + 1..] == policy + "&Signature=" + B64.Encode(s.value))
  {
    var u := PyText.Trim(url);
    var policy := PrefixPolicy(urlPrefix, keyName, expires, '&');
    UrlQuery.SeparatorLength(u);
    SignUrlPrefixAssembles(c, url, urlPrefix, keyName, base64Key, expires);
    AssembledTail(SignUrlPrefix(c, url, urlPrefix, keyName, base64Key, expires),
                  SignEd25519(c, base64Key, policy), u, UrlQuery.Separator(u), policy);
  }

  /** `sign_url_prefix` assembles the trimmed URL, its separator, the
      policy and the encoded signature, or passes on the signing error. */
  lemma SignUrlPrefixAssembles(c: Crypto, url: string, urlPrefix: string, keyName: string,
                               base64Key: string, expires: int)
    ensures var u := PyText.Trim(url);
      SignUrlPrefix(c, url, urlPrefix, keyName, base64Key, expires)
        == match SignEd25519(c, base64Key, PrefixPolicy(urlPrefix, keyName, expires, '&'))
           case Err(e) => Err(e)
           case Ok(sig) => Ok(u + UrlQuery.Separator(u) + PrefixPolicy(urlPrefix, keyName, expires, '&')
                              + "&Signature=" + B64.Encode(sig))
  {
  }

  /** A result assembled as head, one-character separator, policy and the
      encoded signature carries exactly policy and signature after the
      separator, and otherwise the signing error. */
  lemma AssembledTail(r: Result<string>, s: Result<Ed25519Signature>, u: string, sep: string, policy: string)
    requires |sep| == 1
    requires r == match s
                  case Err(e) => Err(e)
                  case Ok(sig) => Ok(u + sep + policy + "&Signature=" + B64.Encode(sig))
    ensures r.Ok? <==> s.Ok?
    ensures r.Err? ==> r == Err(s.error)
    ensures r.Ok? ==> |r.value| > |u| && r.value[|u| + 1..] == policy + "&Signature=" + B64.Encode(s.value)
  {
    if s.Ok? {
      TextAfterSeparator(u, sep, policy, "&Signature=", B64.Encode(s.value));
    }
  }

  /** After a text and a one-character separator comes the rest. */
  lemma TextAfterSeparator(u: string, sep: string, a: string, b: string, e: string)
    requires |sep| == 1
    ensures |u + sep + a + b + e| > |u| && (u + sep + a + b + e)[|u| + 1..] == a + b + e
  {
    assert u + sep + a + b + e == (u + sep) + (a + b + e);
  }

  /** The request URL never enters the signed bytes: two request URLs with
      the same prefix, key and expiry succeed or fail together and carry
      the same policy-and-signature text after their separators. */
  lemma SignUrlPrefixIgnoresRequestUrl(c: Crypto, url1: string, url2: string, urlPrefix: string,
                                       keyName: string, base64Key: string, expires: int)
    ensures var r1 := SignUrlPrefix(c, url1, urlPrefix, keyName, base64Key, expires);
      var r2 := SignUrlPrefix(c, url2, urlPrefix, keyName, base64Key, expires);
      && (r1.Ok? <==> r2.Ok?)
      && (r1.Err? ==> r1 == r2)
      && (r1.Ok? ==>
            && |r1.value| > |PyText.Trim(url1)|
            && |r2.value| > |PyText.Trim(url2)|
            && r1.value[|PyText.Trim(url1)| + 1..] == r2.value[|PyText.Trim(url2)| + 1..])
  {
    SignUrlPrefixTail(c, url1, urlPrefix, keyName, base64Key, expires);
    SignUrlPrefixTail(c, url2, urlPrefix, keyName, base64Key, expires);
  }

  // ---------------------------------------------------------------------
  // sign_cookie

  const CookieMarker: string := "Edge-Cache-Cookie="

  function SignCookie(c: Crypto, urlPrefix: string, keyName: string, base64Key: string, expires: int)
    : (r: Result<string>)
    ensures r.Err? ==> r.error == MalformedKey || r.error == KeyRejected
  {
    var policy := PrefixPolicy(urlPrefix, keyName, expires, ':');
    match SignEd25519(c, base64Key, policy)
    case Err(e) => Err(e)
    case Ok(sig) => Ok(CookieMarker + policy + ":Signature=" + B64.Encode(sig))
  }

  /** A cookie value is `Edge-Cache-Cookie=`, the `:`-joined prefix policy
      and `:Signature=` with the signature of the policy alone (the marker
      is not signed); every policy field reads back. */
  lemma SignCookieShape(c: Crypto, urlPrefix: string, keyName: string, base64Key: string, expires: int)
    ensures var r := SignCookie(c, urlPrefix, keyName, base64Key, expires);
      var policy := PrefixPolicy(urlPrefix, keyName, expires, ':');
      r.Ok? <==> (c.decodeKey(base64Key).Some?
        && c.ed25519Sign(c.decodeKey(base64Key).value, Utf8.Encode(policy)).Some?)
    ensures var r := SignCookie(c, urlPrefix, keyName, base64Key, expires);
      var policy := PrefixPolicy(urlPrefix, keyName, expires, ':');
      r.Ok? ==>
        && IsPrefix(CookieMarker, r.value)
        && ParsePrefixPolicy(policy, ':')
             == Some(PolicyFields(Utf8.Encode(PyText.Trim(urlPrefix)), expires, keyName))
        && exists text ::
             && PyText.SplitAtLast(r.value[|CookieMarker|..], ":Signature=") == Some((policy, text))
             && B64.Decode(text) == c.ed25519Sign(c.decodeKey(base64Key).value, Utf8.Encode(policy))
             && c.ed25519Sign(c.decodeKey(base64Key).value, Utf8.Encode(policy)).Some?
             && text == B64.Encode(c.ed25519Sign(c.decodeKey(base64Key).value, Utf8.Encode(policy)).value)
  {
    var r := SignCookie(c, urlPrefix, keyName, base64Key, expires);
    var policy := PrefixPolicy(urlPrefix, keyName, expires, ':');
    PrefixPolicyRoundTrip(urlPrefix, keyName, expires, ':');
    if r.Ok? {
      var sig := SignEd25519(c, base64Key, policy).value;
      EncodedSignatureReadsBack(sig, ":Signature=", policy);
      var rest := policy + ":Signature=" + B64.Encode(sig);
      Reassociate(CookieMarker, policy, ":Signature=", B64.Encode(sig));
      Appended(CookieMarker, rest);
    }
  }

  /** Every prefix policy starts with its `URLPrefix=` field name. */
  lemma PrefixPolicyStart(urlPrefix: string, keyName: string, expires: int, d: char)
    ensures IsPrefix("URLPrefix=", PrefixPolicy(urlPrefix, keyName, expires, d))
  {
    var v := B64.Encode(Utf8.Encode(PyText.Trim(urlPrefix)));
    var t := Field("Expires=", PyText.IntToStr(expires), d) + ("KeyName=" + keyName);
    Reassociate("URLPrefix=", v, [d], t);
    Appended("URLPrefix=", v + [d] + t);
  }

  /** Two cookies for the same prefix and key with different expiries sign
      different policies, while both keep the `Edge-Cache-Cookie=` and
      `URLPrefix=` markers. */
  lemma SignCookieExpiryMatters(c: Crypto, urlPrefix: string, keyName: string, base64Key: string,
                                e1: int, e2: int)
    requires e1 != e2
    ensures PrefixPolicy(urlPrefix, keyName, e1, ':') != PrefixPolicy(urlPrefix, keyName, e2, ':')
    ensures SignCookie(c, urlPrefix, keyName, base64Key, e1).Ok? ==>
      IsPrefix(CookieMarker + "URLPrefix=", SignCookie(c, urlPrefix, keyName, base64Key, e1).value)
  {
    var policy := PrefixPolicy(urlPrefix, keyName, e1, ':');
    if policy == PrefixPolicy(urlPrefix, keyName, e2, ':') {
      PrefixPolicyInjective(urlPrefix, keyName, e1, urlPrefix, keyName, e2, ':');
    }
    var r := SignCookie(c, urlPrefix, keyName, base64Key, e1);
    if r.Ok? {
      var enc := B64.Encode(SignEd25519(c, base64Key, policy).value);
      assert r.value == CookieMarker + policy + ":Signature=" + enc;
      PrefixPolicyStart(urlPrefix, keyName, e1, ':');
      PrefixOfLonger("URLPrefix=", policy, ":Signature=");
      PrefixOfLonger("URLPrefix=", policy + ":Signature=", enc);
      Reassociate(CookieMarker, policy, ":Signature=", enc);
      PrefixAfterCommon(CookieMarker, "URLPrefix=", policy + ":Signature=" + enc);
    }
  }

  // ---------------------------------------------------------------------
  // sign_token

  datatype Algorithm = Sha1 | Sha256 | Ed25519

  /** `encryption_algorithm.lower()` checked against `sha1`, `sha256` and
      `ed25519`. */
  function ParseAlgorithm(name: string): Option<Algorithm> {
    var algo := PyText.AsciiLower(name);
    if algo == "sha1" then Some(Sha1)
    else if algo == "sha256" then Some(Sha256)
    else if algo == "ed25519" then Some(Ed25519)
    else None
  }

  /** Python truthiness of an optional string argument. */
  predicate Truthy(o: Option<string>) {
    o.Some? && o.value != ""
  }

  /** The scope field of a short token before the `=` strip, chosen with
      priority full path, then path globs, then URL prefix; None when no
      scope is truthy. */
  function ScopePayload(urlPrefix: Option<string>, fullPath: Option<string>, pathGlobs: Option<string>)
    : (r: Option<string>)
    ensures r.Some? ==> |r.value| >= 1 && r.value[0] != '='
  {
    if Truthy(fullPath) then Some("FullPath")
    else if Truthy(pathGlobs) then Some("PathGlobs=" + PyText.Trim(pathGlobs.value))
    else if Truthy(urlPrefix) then Some("URLPrefix=" + B64.Encode(Utf8.Encode(urlPrefix.value)))
    else None
  }

  /** Lifetime of a short token whose expiry is omitted: one hour. */
  const DefaultLifetime: int := 3600

  /** The signed part of a short token: the stripped scope field and the
      expiry. */
  function TokenMessage(payload: string, expires: int): string {
    DropTrailing(payload, '=') + "~Expires=" + PyText.IntToStr(expires)
  }

  /** What `sign_token` returns or raises. */
  function Token(c: Crypto, base64Key: string, algorithm: string, expirationTime: Option<int>,
                 urlPrefix: Option<string>, fullPath: Option<string>, pathGlobs: Option<string>,
                 now: int): Result<string>
  {
    if urlPrefix.None? && fullPath.None? && pathGlobs.None? then Err(MissingScope)
    else
      match ParseAlgorithm(algorithm)
      case None => Err(UnsupportedAlgorithm)
      case Some(algo) =>
        match ScopePayload(urlPrefix, fullPath, pathGlobs)
        case None => Err(NoScopePayload)
        case Some(payload) =>
          SignedToken(c, base64Key, algo, TokenMessage(payload, expirationTime.GetOr(now + DefaultLifetime)))
  }

  /** The signing half of `sign_token`: decodes the key and appends the
      hex HMAC digest or the base 64 Ed25519 signature of the message. */
  function SignedToken(c: Crypto, base64Key: string, algo: Algorithm, m: string): (r: Result<string>)
    ensures r.Err? ==> r.error == MalformedKey || (r.error == KeyRejected && algo == Ed25519)
    ensures r.Err? && r.error == MalformedKey <==> c.decodeKey(base64Key).None?
  {
    match c.decodeKey(base64Key)
    case None => Err(MalformedKey)
    case Some(key) =>
      match algo
      case Sha1 => Ok(m + "~hmac=" + Hex.Encode(c.hmacSha1(key, Utf8.Encode(m))))
      case Sha256 => Ok(m + "~hmac=" + Hex.Encode(c.hmacSha256(key, Utf8.Encode(m))))
      case Ed25519 =>
        match c.ed25519Sign(key, Utf8.Encode(m))
        case None => Err(KeyRejected)
        case Some(sig) => Ok(m + "~Signature=" + B64.Encode(sig))
  }

  /** The `while output[-1] == "="` loop of `sign_token`; it stops before
      the text empties because every scope field starts with a letter. */
  method StripTrailingEquals(s: string) returns (t: string)
    requires |s| >= 1 && s[0] != '='
    ensures t == DropTrailing(s, '=')
  {
    t := s;
    while t[|t| - 1] == '='
      invariant |t| >= 1 && t[0] != '='
      invariant DropTrailing(t, '=') == DropTrailing(s, '=')
      decreases |t|
    {
      t := t[..|t| - 1];
    }
  }

  /** `sign_token`: validates the scope arguments and the algorithm, builds
      the scope field, strips trailing `=`, appends the expiry and then the
      HMAC digest or the Ed25519 signature.  `now` is the clock reading
      used when the expiry is omitted. */
  method SignToken(c: Crypto, base64Key: string, encryptionAlgorithm: string,
                   expirationTime: Option<int>, urlPrefix: Option<string>,
                   fullPath: Option<string>, pathGlobs: Option<string>, now: int)
    returns (r: Result<string>)
    ensures r == Token(c, base64Key, encryptionAlgorithm, expirationTime, urlPrefix, fullPath, pathGlobs, now)
  {
    if urlPrefix.None? && fullPath.None? && pathGlobs.None? {
      return Err(MissingScope);
    }
    var algo := PyText.AsciiLower(encryptionAlgorithm);
    if algo != "sha1" && algo != "sha256" && algo != "ed25519" {
      return Err(UnsupportedAlgorithm);
    }
    var output: string;
    if Truthy(fullPath) {
      output := "FullPath";
    } else if Truthy(pathGlobs) {
      var globs := PyText.Trim(pathGlobs.value);
      output := "PathGlobs=" + globs;
    } else if Truthy(urlPrefix) {
      output := "URLPrefix=" + B64.Encode(Utf8.Encode(urlPrefix.value));
    } else {
      return Err(NoScopePayload);
    }
    ghost var payload := output;
    assert ScopePayload(urlPrefix, fullPath, pathGlobs) == Some(payload);
    output := StripTrailingEquals(output);
    var expires := if expirationTime.Some? then expirationTime.value else now + DefaultLifetime;
    output := output + "~Expires=" + PyText.IntToStr(expires);
    assert output == TokenMessage(payload, expirationTime.GetOr(now + DefaultLifetime));
    var parsed := if algo == "sha1" then Sha1 else if algo == "sha256" then Sha256 else Ed25519;
    assert ParseAlgorithm(encryptionAlgorithm) == Some(parsed);
    r := SignTokenMessage(c, base64Key, parsed, output);
  }

  /** The key decoding and signing steps of `sign_token`. */
  method SignTokenMessage(c: Crypto, base64Key: string, algo: Algorithm, message: string)
    returns (r: Result<string>)
    ensures r == SignedToken(c, base64Key, algo, message)
  {
    var decodedKey := c.decodeKey(base64Key);
    if decodedKey.None? {
      return Err(MalformedKey);
    }
    var output := message;
    if algo == Sha1 {
      var signature := Hex.Encode(c.hmacSha1(decodedKey.value, Utf8.Encode(output)));
      output := output + "~hmac=" + signature;
    } else if algo == Sha256 {
      var signature := Hex.Encode(c.hmacSha256(decodedKey.value, Utf8.Encode(output)));
      output := output + "~hmac=" + signature;
    } else {
      var digest := c.ed25519Sign(decodedKey.value, Utf8.Encode(output));
      if digest.None? {
        return Err(KeyRejected);
      }
      var signature := B64.Encode(digest.value);
      output := output + "~Signature=" + signature;
    }
    return Ok(output);
  }

  /** The error cases of `sign_token`, each exactly when its condition
      holds, in the order the source checks them. */
  lemma TokenErrors(c: Crypto, base64Key: string, algorithm: string, expirationTime: Option<int>,
                    urlPrefix: Option<string>, fullPath: Option<string>, pathGlobs: Option<string>,
                    now: int)
    ensures var r := Token(c, base64Key, algorithm, expirationTime, urlPrefix, fullPath, pathGlobs, now);
      var noScope := urlPrefix.None? && fullPath.None? && pathGlobs.None?;
      && (r == Err(MissingScope) <==> noScope)
      && (r == Err(UnsupportedAlgorithm) <==> !noScope && ParseAlgorithm(algorithm).None?)
      && (r == Err(NoScopePayload) <==>
            !noScope && ParseAlgorithm(algorithm).Some?
            && !Truthy(urlPrefix) && !Truthy(fullPath) && !Truthy(pathGlobs))
      && (r == Err(MalformedKey) <==>
            !noScope && ParseAlgorithm(algorithm).Some?
            && (Truthy(urlPrefix) || Truthy(fullPath) || Truthy(pathGlobs))
            && c.decodeKey(base64Key).None?)
      && (r == Err(KeyRejected) <==>
            !noScope && ParseAlgorithm(algorithm) == Some(Ed25519)
            && ScopePayload(urlPrefix, fullPath, pathGlobs).Some?
            && c.decodeKey(base64Key).Some?
            && c.ed25519Sign(c.decodeKey(base64Key).value,
                             Utf8.Encode(TokenMessage(ScopePayload(urlPrefix, fullPath, pathGlobs).value,
                                                      expirationTime.GetOr(now + DefaultLifetime)))).None?)
  {
  }

  /** The argument checks come before any use of the key, the primitives
      or the clock: a validation error does not depend on them. */
  lemma TokenValidationIgnoresKey(c1: Crypto, key1: string, now1: int, c2: Crypto, key2: string, now2: int,
                                  algorithm: string, expirationTime: Option<int>,
                                  urlPrefix: Option<string>, fullPath: Option<string>,
                                  pathGlobs: Option<string>)
    ensures var r := Token(c1, key1, algorithm, expirationTime, urlPrefix, fullPath, pathGlobs, now1);
      r == Err(MissingScope) || r == Err(UnsupportedAlgorithm) || r == Err(NoScopePayload) ==>
        Token(c2, key2, algorithm, expirationTime, urlPrefix, fullPath, pathGlobs, now2) == r
  {
  }

  /** The algorithm name is matched without regard to ASCII case. */
  lemma AlgorithmNames()
    ensures ParseAlgorithm("SHA1") == Some(Sha1)
    ensures ParseAlgorithm("Sha256") == Some(Sha256)
    ensures ParseAlgorithm("ED25519") == Some(Ed25519)
    ensures ParseAlgorithm("md5") == None
  {
    PyText.AsciiLowerOf("SHA1", "sha1");
    PyText.AsciiLowerOf("Sha256", "sha256");
    PyText.AsciiLowerOf("ED25519", "ed25519");
    assert |PyText.AsciiLower("md5")| == 3;
  }

  /** A truthy full path wins over the other scopes, and its value is not
      part of the token. */
  lemma FullPathOverrides(c: Crypto, base64Key: string, algorithm: string, expirationTime: Option<int>,
                          urlPrefix1: Option<string>, fullPath1: Option<string>, pathGlobs1: Option<string>,
                          urlPrefix2: Option<string>, fullPath2: Option<string>, pathGlobs2: Option<string>,
                          now: int)
    requires Truthy(fullPath1) && Truthy(fullPath2)
    ensures Token(c, base64Key, algorithm, expirationTime, urlPrefix1, fullPath1, pathGlobs1, now)
         == Token(c, base64Key, algorithm, expirationTime, urlPrefix2, fullPath2, pathGlobs2, now)
  {
  }

  /** Without a full path, truthy path globs win over the URL prefix and
      only their stripped text matters. */
  lemma PathGlobsOverridePrefix(c: Crypto, base64Key: string, algorithm: string, expirationTime: Option<int>,
                                urlPrefix1: Option<string>, urlPrefix2: Option<string>,
                                fullPath: Option<string>, globs1: string, globs2: string, now: int)
    requires !Truthy(fullPath) && globs1 != "" && globs2 != ""
    requires PyText.Trim(globs1) == PyText.Trim(globs2)
    ensures Token(c, base64Key, algorithm, expirationTime, urlPrefix1, fullPath, Some(globs1), now)
         == Token(c, base64Key, algorithm, expirationTime, urlPrefix2, fullPath, Some(globs2), now)
  {
  }

  /** An omitted expiry is one hour after the clock reading. */
  lemma TokenDefaultExpiry(c: Crypto, base64Key: string, algorithm: string,
                           urlPrefix: Option<string>, fullPath: Option<string>, pathGlobs: Option<string>,
                           now: int)
    ensures Token(c, base64Key, algorithm, None, urlPrefix, fullPath, pathGlobs, now)
         == Token(c, base64Key, algorithm, Some(now + 3600), urlPrefix, fullPath, pathGlobs, now)
  {
  }

  /** With only a URL prefix, the strip removes exactly the base 64
      padding (at most two characters) and nothing of the encoded bytes;
      restoring the padding gives text that decodes to the prefix bytes. */
  lemma UrlPrefixScopeUnpadded(urlPrefix: string, fullPath: Option<string>, pathGlobs: Option<string>)
    requires urlPrefix != "" && !Truthy(fullPath) && !Truthy(pathGlobs)
    ensures var p := ScopePayload(Some(urlPrefix), fullPath, pathGlobs).value;
      var bytes := Utf8.Encode(urlPrefix);
      var q := DropTrailing(p, '=');
      && q == "URLPrefix=" + B64.Unpadded(bytes)
      && |p| - |q| == B64.Padding(|bytes|) <= 2
      && B64.Decode(B64.Unpadded(bytes) + seq(B64.Padding(|bytes|), _ => '=')) == Some(bytes)
  {
    var bytes := Utf8.Encode(urlPrefix);
    var u := B64.Unpadded(bytes);
    var pad := seq(B64.Padding(|bytes|), _ => '=');
    assert |u| >= 1 && u[|u| - 1] != '=' by {
      assert B64.IsAlphabet(u[|u| - 1]);
    }
    var head := "URLPrefix=" + u;
    assert head[|head| - 1] == u[|u| - 1];
    assert "URLPrefix=" + B64.Encode(bytes) == head + pad;
    DropTrailingPadding(head, pad, '=');
    B64.DecodeEncode(bytes);
  }

  /** The strip is not limited to base 64 padding: path globs that end in
      `=` lose those characters from the signed scope. */
  lemma PathGlobsLoseTrailingEquals()
    ensures DropTrailing(ScopePayload(None, None, Some("==")).value, '=') == "PathGlobs"
  {
    assert PyText.Trim("==") == "==";
    assert "PathGlobs=" + "==" == "PathGlobs" + "===";
    DropTrailingPadding("PathGlobs", "===", '=');
  }

  /** The message carries the stripped scope and the expiry, which reads
      back from the text after the last `~Expires=`. */
  lemma TokenMessageShape(payload: string, expires: int)
    ensures PyText.SplitAtLast(TokenMessage(payload, expires), "~Expires=")
         == Some((DropTrailing(payload, '='), PyText.IntToStr(expires)))
    ensures PyText.ParseInt(PyText.IntToStr(expires)) == Some(expires)
  {
    SignatureMarkers();
    var t := PyText.IntToStr(expires);
    assert forall i :: 0 <= i < |t| ==> t[i] != '~';
    PyText.SplitAtLastAppended(DropTrailing(payload, '='), "~Expires=", t);
    PyText.IntToStrRoundTrip(expires);
  }

  /** The bytes given to HMAC or Ed25519 are those of the source's byte
      buffer: the UTF-8 scope field with its trailing 0x3D bytes stripped,
      then the encoded expiry field. */
  lemma TokenSignedBytes(payload: string, expires: int)
    ensures Utf8.Encode(TokenMessage(payload, expires))
         == DropTrailing(Utf8.Encode(payload), '=' as int)
            + Utf8.Encode("~Expires=" + PyText.IntToStr(expires))
  {
    var d := DropTrailing(payload, '=');
    var tail := "~Expires=" + PyText.IntToStr(expires);
    assert TokenMessage(payload, expires) == d + tail;
    Utf8.EncodeConcat(d, tail);
    Utf8.DropTrailingCommutes(payload);
  }

  /** After the signing step the token is the message, the marker, then
      the hex digest (40 or 64 digits) or the encoded signature, and the
      last marker splits it back into message and authenticator. */
  lemma SignedTokenShape(c: Crypto, base64Key: string, algo: Algorithm, m: string)
    requires SignedToken(c, base64Key, algo, m).Ok?
    ensures var out := SignedToken(c, base64Key, algo, m).value;
      var key := c.decodeKey(base64Key).value;
      match algo
      case Sha1 => exists h ::
        && PyText.SplitAtLast(out, "~hmac=") == Some((m, h)) && |h| == 40
        && Hex.Decode(h) == Some(c.hmacSha1(key, Utf8.Encode(m)))
      case Sha256 => exists h ::
        && PyText.SplitAtLast(out, "~hmac=") == Some((m, h)) && |h| == 64
        && Hex.Decode(h) == Some(c.hmacSha256(key, Utf8.Encode(m)))
      case Ed25519 => exists text ::
        && PyText.SplitAtLast(out, "~Signature=") == Some((m, text))
        && B64.Decode(text) == c.ed25519Sign(key, Utf8.Encode(m))
        && c.ed25519Sign(key, Utf8.Encode(m)).Some?
        && text == B64.Encode(c.ed25519Sign(key, Utf8.Encode(m)).value)
  {
    SignatureMarkers();
    var key := c.decodeKey(base64Key).value;
    match algo
    case Sha1 =>
      var h := Hex.Encode(c.hmacSha1(key, Utf8.Encode(m)));
      assert forall i :: 0 <= i < |h| ==> h[i] != '~' by {
        assert forall i :: 0 <= i < |h| ==> Hex.IsHexDigit(h[i]);
      }
      PyText.SplitAtLastAppended(m, "~hmac=", h);
      Hex.DecodeEncode(c.hmacSha1(key, Utf8.Encode(m)));
    case Sha256 =>
      var h := Hex.Encode(c.hmacSha256(key, Utf8.Encode(m)));
      assert forall i :: 0 <= i < |h| ==> h[i] != '~' by {
        assert forall i :: 0 <= i < |h| ==> Hex.IsHexDigit(h[i]);
      }
      PyText.SplitAtLastAppended(m, "~hmac=", h);
      Hex.DecodeEncode(c.hmacSha256(key, Utf8.Encode(m)));
    case Ed25519 =>
      var sig := c.ed25519Sign(key, Utf8.Encode(m)).value;
      EncodedSignatureReadsBack(sig, "~Signature=", m);
  }

  /** A SHA-1 token for a full path signs `FullPath` and the expiry. */
  lemma FullPathSha1Message(c: Crypto, base64Key: string, fullPath: string, now: int)
    requires fullPath != ""
    ensures Token(c, base64Key, "sha1", None, None, Some(fullPath), None, now)
         == SignedToken(c, base64Key, Sha1, "FullPath" + "~Expires=" + PyText.IntToStr(now + 3600))
  {
    assert ParseAlgorithm("sha1") == Some(Sha1) by {
      PyText.AsciiLowerOf("sha1", "sha1");
    }
    assert ScopePayload(None, Some(fullPath), None) == Some("FullPath");
    assert DropTrailing("FullPath", '=') == "FullPath";
  }

  /** An HMAC-SHA1 token is the message, `~hmac=` and forty hex digits. */
  lemma Sha1Hmac(c: Crypto, base64Key: string, m: string)
    requires c.decodeKey(base64Key).Some?
    ensures var r := SignedToken(c, base64Key, Sha1, m);
      && r.Ok?
      && exists h ::
           && r.value == m + "~hmac=" + h
           && |h| == 40 && forall i :: 0 <= i < |h| ==> Hex.IsHexDigit(h[i])
  {
    var h := Hex.Encode(c.hmacSha1(c.decodeKey(base64Key).value, Utf8.Encode(m)));
    assert SignedToken(c, base64Key, Sha1, m) == Ok(m + "~hmac=" + h);
  }

  /** The example of a full-path SHA-1 token with the default expiry:
      `FullPath~Expires=<now + 3600>~hmac=` and forty hex digits. */
  lemma FullPathSha1Token(c: Crypto, base64Key: string, now: int)
    requires c.decodeKey(base64Key).Some?
    ensures var r := Token(c, base64Key, "sha1", None, None, Some("/a"), None, now);
      && r.Ok?
      && exists h ::
           && r.value == "FullPath" + "~Expires=" + PyText.IntToStr(now + 3600) + "~hmac=" + h
           && |h| == 40 && forall i :: 0 <= i < |h| ==> Hex.IsHexDigit(h[i])
  {
    FullPathSha1Message(c, base64Key, "/a", now);
    Sha1Hmac(c, base64Key, "FullPath" + "~Expires=" + PyText.IntToStr(now + 3600));
  }
}
