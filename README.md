# Media CDN credential signing and the Composer changed-DAG scan

This project models two pieces of a collection of cloud samples.

**The Media CDN signing helpers** (`media_cdn/snippets.py`). They build
credentials that a CDN edge can check. Each credential is a policy string
followed by a signature over exactly that string. There are four:

- `sign_url`: the trimmed URL, `?` or `&`, `Expires=`, `KeyName=`, then
  `&Signature=` with the URL-safe base 64 Ed25519 signature;
- `sign_url_prefix`: the request URL followed by a signed
  `URLPrefix=…&Expires=…&KeyName=…` policy;
- `sign_cookie`: `Edge-Cache-Cookie=` followed by the same policy joined
  with `:`;
- `sign_token`: a `~`-joined short token. It holds a scope field
  (`FullPath`, `PathGlobs=…` or `URLPrefix=…`), with trailing `=`
  stripped, then `~Expires=…`, then `~hmac=` with a hex HMAC-SHA1 or
  HMAC-SHA256 digest, or `~Signature=` with an Ed25519 signature.

**The changed-DAG scan** (`composer/cicd_sample/utils/deploy_dags_from_diff.py`).
`create_dags_list_from_git_diff` splits `git diff` output on `\n`. It keeps
each line that contains both `+++ b` and the DAG directory, and maps it to
`repo_root / line[6:]`.

The model is organised as follows.

- **Helper modules.** Python's `str` operations are modelled in `PyText`,
  UTF-8 in `Utf8`, `urlsafe_b64encode` in `Base64Url`, `hexdigest` in
  `Hex`, and the `urlsplit`/`parse_qs` query test in `UrlQuery`.
- **Abstract cryptography.** Key decoding, Ed25519 and HMAC are parameters
  (the `Crypto` datatype of function values). Only the lengths of their
  outputs are fixed: 64, 20 and 32 bytes.
- **Reference readers.** Each encoder has an independent reader: strict
  base 64 decoding (a padded last group must leave its unused bits zero),
  hex decoding, integer parsing, a split at the last marker, and
  `ParsePrefixPolicy`. Each describes what a reader of the signed artifact
  can recover. For `sign_url_prefix`, `sign_cookie` and `sign_token`,
  lemmas prove that every field and the signature read back from the
  assembled text. For `sign_url` they prove that the policy as a whole and
  the signature read back.
- **Imperative parts.** `sign_token` and the diff scan are loops in the
  source, so they are methods. `SignToken` has the `=`-strip `while` loop
  (`StripTrailingEquals`). `CreateDagsListFromGitDiff` has the `for` loop
  that appends. Each method is proved equal to a specification function,
  and the lemmas are stated about that function.
- **Exceptions.** Exceptions become `Result` errors:
  - `MissingScope` and `UnsupportedAlgorithm` are the two `ValueError`s of
    `sign_token`;
  - `NoScopePayload` is the `UnboundLocalError` raised when at least one
    scope is given (not `None`) but no given scope is non-empty, for
    example when only `url_prefix=""` is passed;
  - `MalformedKey` comes from `urlsafe_b64decode`;
  - `KeyRejected` comes from `Ed25519PrivateKey.from_private_bytes`.

Two behaviours of the code are worth noting:

- In `sign_token` the `=`-strip loop (media_cdn/snippets.py:244-245) sits
  below the URL-prefix branch but outside the scope `if` chain. It
  therefore applies to every scope field. `PathGlobsLoseTrailingEquals` shows
  the result: path globs `==` are signed as `PathGlobs`.
- The docstring of `sign_token` (media_cdn/snippets.py:209) lists only
  SHA-1 and SHA-256, but the code also accepts `ed25519`.

## Model

| member | source | states |
|---|---|---|
| Prelude.DropTrailing | media_cdn/snippets.py:244-245 | the result is a prefix of the input, does not end in the stripped character, and everything removed is that character |
| Prelude.DropTrailingPadding | media_cdn/snippets.py:241-245 | stripping a run of `x` that follows a part not ending in `x` leaves exactly that part |
| PyText.Trim | media_cdn/snippets.py:64 | definition: `strip()` as whitespace removal from the front, then from the back; TrimShape states its meaning |
| PyText.TrimShape | media_cdn/snippets.py:64 | `strip()` leaves the infix of the text with only whitespace around it, and the result neither starts nor ends with whitespace |
| PyText.TrimIdempotent | media_cdn/snippets.py:238 | stripping twice is stripping once |
| PyText.AsciiLower | media_cdn/snippets.py:229 | `lower()` keeps the length and lowers each character on its own |
| PyText.Split | composer/cicd_sample/utils/deploy_dags_from_diff.py:42 | `split("\n")` gives at least one piece, and no piece holds the separator |
| PyText.SplitJoin | composer/cicd_sample/utils/deploy_dags_from_diff.py:42 | the pieces of a split rejoin with the separator into the original text |
| PyText.SplitLength | composer/cicd_sample/utils/deploy_dags_from_diff.py:42 | there is one piece more than there are separators |
| PyText.SplitAllEmpty | media_cdn/snippets.py:66 | every piece is empty exactly when the text consists of separators only |
| PyText.Contains | composer/cicd_sample/utils/deploy_dags_from_diff.py:44 | definition: the `in` test as a prefix test at successive offsets; ContainsIff states its meaning |
| PyText.ContainsIff | composer/cicd_sample/utils/deploy_dags_from_diff.py:44 | the `in` test is true exactly when some offset of the line holds the substring |
| PyText.IntToStr | media_cdn/snippets.py:76 | `str(int)` is digits, with a `-` only at the front |
| PyText.IntToStrRoundTrip | media_cdn/snippets.py:71-77 | the decimal text of the expiry reads back as the expiry |
| PyText.IntToStrInjective | media_cdn/snippets.py:68-77 | distinct expiries give distinct `Expires=` texts |
| Utf8.Encode | media_cdn/snippets.py:81 | `.encode("utf-8")` gives at least one byte per character |
| Utf8.EncodeConcat | media_cdn/snippets.py:252 | encoding a concatenation is concatenating the encodings, as with the `bytes` appends |
| Utf8.EncodeAscii | media_cdn/snippets.py:236 | ASCII text encodes to its code points, one byte each |
| Utf8.DropTrailingCommutes | media_cdn/snippets.py:244-245 | stripping byte 0x3D from the UTF-8 bytes equals stripping `=` from the text and then encoding |
| Base64Url.Encode | media_cdn/snippets.py:83 | four characters per started group of three bytes |
| Base64Url.EncodeChars | media_cdn/snippets.py:83 | `=` sits exactly in the last `(3 - n mod 3) mod 3` positions; every other character is in the URL-safe alphabet |
| Base64Url.Unpadded | media_cdn/snippets.py:241-245 | the encoding is an alphabet-only part followed by exactly the padding, and that part is empty only for no bytes |
| Base64Url.DecodeEncode | media_cdn/snippets.py:83 | the strict reference decoder gives back the encoded bytes |
| Base64Url.EncodeDecode | media_cdn/snippets.py:83 | only the encoding of `b` reads back as `b`, so a text that decodes to a signature is exactly `urlsafe_b64encode` of it |
| Base64Url.EncodeInjective | media_cdn/snippets.py:118-120 | distinct byte strings have distinct encodings |
| Hex.Encode | media_cdn/snippets.py:256 | `hexdigest()` has two lower-case hex digits per byte |
| Hex.DecodeEncode | media_cdn/snippets.py:256-257 | the hex digest reads back as the digest bytes |
| UrlQuery.RemoveUnsafe | media_cdn/snippets.py:65 | `urlsplit`'s cleaned URL is no longer than the input, holds no tab, CR or LF, and is the input itself when it had none |
| UrlQuery.RemoveUnsafeConcat | media_cdn/snippets.py:65 | the removal distributes over concatenation, so it works character by character and keeps order |
| UrlQuery.RemoveUnsafeOne | media_cdn/snippets.py:65 | one character is dropped exactly when it is a tab, CR or LF, and kept otherwise |
| UrlQuery.Query | media_cdn/snippets.py:65 | definition: the query component of the cleaned URL, after the first `?` of what precedes the first `#`; SeparatorChoice states its consequence |
| UrlQuery.HasQueryParams | media_cdn/snippets.py:66 | definition: the `parse_qs(..., keep_blank_values=True)` dictionary is non-empty when some `&`-field is non-empty; HasQueryParamsIff characterises it |
| UrlQuery.SomeNonEmptyIff | media_cdn/snippets.py:66 | the recursive field test holds exactly when some field is non-empty |
| UrlQuery.SomeFieldIff | media_cdn/snippets.py:66 | some `&`-field of the query is non-empty exactly when the query holds a character other than `&` |
| UrlQuery.Separator | media_cdn/snippets.py:75 | definition: `"&" if query_params else "?"` |
| UrlQuery.SeparatorLength | media_cdn/snippets.py:75 | the separator is one character, so what follows it starts one past the URL |
| UrlQuery.HasQueryParamsIff | media_cdn/snippets.py:65-66 | `parse_qs(..., keep_blank_values=True)` is non-empty exactly when the query holds a character other than `&` |
| UrlQuery.SeparatorChoice | media_cdn/snippets.py:65-75 | a URL without `?` before its fragment gets `?` |
| MediaCdn.SignEd25519 | media_cdn/snippets.py:80-82 | the signing step fails only with a malformed or a rejected key |
| MediaCdn.UrlToSign | media_cdn/snippets.py:71-78 | definition: stripped URL, separator, `Expires=`, decimal expiry, `&KeyName=` and key name; SignUrlShape states it |
| MediaCdn.SignUrl | media_cdn/snippets.py:64-88 | errors are key errors only; a signed URL starts with the policy followed by `&Signature=` |
| MediaCdn.SignUrlShape | media_cdn/snippets.py:71-88 | success exactly when the key decodes and is accepted; the policy is trimmed URL, separator, `Expires=`, decimal expiry, `&KeyName=` and key name; splitting at the last `&Signature=` gives back the policy and a text that decodes to the signature of the policy's UTF-8 bytes and is exactly the encoding of that signature |
| MediaCdn.EncodedSignatureReadsBack | media_cdn/snippets.py:83-86 | an encoded signature after its marker is cut off at the last marker and decodes to the signature |
| MediaCdn.PrefixPolicy | media_cdn/snippets.py:117-131 | definition: `URLPrefix=` with the encoded stripped prefix, `Expires=` and `KeyName=` fields joined by `&` (or `:` for the cookie, lines 165-179); PrefixPolicyRoundTrip states what reads back |
| MediaCdn.PrefixPolicyRoundTrip | media_cdn/snippets.py:118-132 | the prefix policy reads back as the UTF-8 bytes of the trimmed prefix, the expiry and the key name, for both `&` and `:` |
| MediaCdn.PrefixPolicyInjective | media_cdn/snippets.py:125-136 | equal policies have equal expiries, key names and prefix bytes |
| MediaCdn.SignUrlPrefix | media_cdn/snippets.py:115-144 | errors are key errors only |
| MediaCdn.SignUrlPrefixShape | media_cdn/snippets.py:134-143 | success exactly when the key decodes and is accepted; every policy field reads back; splitting at the last `&Signature=` gives trimmed URL, separator and policy, and a text that decodes to the signature of the policy alone |
| MediaCdn.SignUrlPrefixTail | media_cdn/snippets.py:114-143 | success exactly when the signing step succeeds, with the same error otherwise; after the trimmed URL and the separator comes the policy, `&Signature=` and the encoded signature of the policy |
| MediaCdn.SignUrlPrefixIgnoresRequestUrl | media_cdn/snippets.py:115-143 | two request URLs with the same prefix, key and expiry succeed or fail together, and carry the same text after their separators |
| MediaCdn.SignCookie | media_cdn/snippets.py:165-188 | errors are key errors only |
| MediaCdn.SignCookieShape | media_cdn/snippets.py:172-187 | success exactly when the key decodes and is accepted; the value starts with `Edge-Cache-Cookie=`; the `:`-policy reads back; the text after the marker splits at `:Signature=` into the policy and exactly the encoding of the policy's signature, which decodes back to it |
| MediaCdn.SignCookieExpiryMatters | media_cdn/snippets.py:168-181 | different expiries give different signed policies, and both cookies keep the `Edge-Cache-Cookie=URLPrefix=` start |
| MediaCdn.ParseAlgorithm | media_cdn/snippets.py:229-233 | definition: the lowered name must be `sha1`, `sha256` or `ed25519`; AlgorithmNames states its behaviour |
| MediaCdn.ScopePayload | media_cdn/snippets.py:235-241 | a chosen scope field is non-empty and does not start with `=`, so the strip loop stops before emptying it |
| MediaCdn.StripTrailingEquals | media_cdn/snippets.py:244-245 | the loop's result is the text with its trailing run of `=` removed |
| MediaCdn.SignTokenMessage | media_cdn/snippets.py:254-265 | the key decoding and signing steps produce the signed-token result |
| MediaCdn.SignedToken | media_cdn/snippets.py:254-264 | the signing step fails with a malformed key exactly when the key does not decode, and with a rejected key only for Ed25519 |
| MediaCdn.TokenMessage | media_cdn/snippets.py:244-252 | definition: the scope field without its trailing `=`, `~Expires=` and the decimal expiry; TokenMessageShape reads it back |
| MediaCdn.Token | media_cdn/snippets.py:224-265 | definition: the specification of `sign_token` that SignToken is proved equal to; the Token lemmas below state its behaviour |
| MediaCdn.SignToken | media_cdn/snippets.py:224-265 | the method's result equals the token function over validation, scope choice, strip, expiry and signing |
| MediaCdn.TokenErrors | media_cdn/snippets.py:224-262 | each error occurs exactly when its condition holds, in source order: no scope given; unknown algorithm; some scope given but none non-empty; key not decodable; Ed25519 chosen, the key decodes and the signing primitive refuses it over the UTF-8 token message |
| MediaCdn.TokenValidationIgnoresKey | media_cdn/snippets.py:224-233 | the validation errors do not depend on the key, the primitives or the clock |
| MediaCdn.AlgorithmNames | media_cdn/snippets.py:229-233 | algorithm names match regardless of ASCII case (`SHA1`, `Sha256`, `ED25519`), and `md5` is refused |
| MediaCdn.FullPathOverrides | media_cdn/snippets.py:235-236 | with a truthy full path the token does not depend on the full path's value, the globs or the prefix |
| MediaCdn.PathGlobsOverridePrefix | media_cdn/snippets.py:237-239 | without a full path, truthy globs win over the prefix, and only their stripped text matters |
| MediaCdn.TokenDefaultExpiry | media_cdn/snippets.py:247-248 | an omitted expiry is one hour after the clock reading |
| MediaCdn.UrlPrefixScopeUnpadded | media_cdn/snippets.py:240-245 | for a URL prefix, the strip removes exactly the base 64 padding (at most two characters); restoring it decodes to the prefix's UTF-8 bytes |
| MediaCdn.PathGlobsLoseTrailingEquals | media_cdn/snippets.py:237-245 | the strip also removes `=` belonging to path globs: `==` is signed as `PathGlobs` |
| MediaCdn.TokenMessageShape | media_cdn/snippets.py:244-252 | splitting the signed message at the last `~Expires=` gives the stripped scope field and the decimal expiry, which reads back |
| MediaCdn.TokenSignedBytes | media_cdn/snippets.py:236-252 | the bytes handed to HMAC or Ed25519 are the UTF-8 scope field with trailing 0x3D bytes removed, followed by the encoded expiry field |
| MediaCdn.SignedTokenShape | media_cdn/snippets.py:255-264 | the token splits at the last `~hmac=` into the message and 40 (SHA-1) or 64 (SHA-256) hex digits that decode to the HMAC of the message; for Ed25519 it splits at `~Signature=` into the message and exactly the encoding of its signature, which decodes back to it |
| MediaCdn.Sha1Hmac | media_cdn/snippets.py:254-257 | with a decodable key, an SHA-1 token is the message, `~hmac=` and forty hex digits |
| MediaCdn.FullPathSha1Message | media_cdn/snippets.py:224-252 | for a non-empty full path and sha1, the message signed is `FullPath~Expires=` with the decimal default expiry |
| MediaCdn.FullPathSha1Token | media_cdn/snippets.py:224-257 | `sign_token(key, "sha1", full_path="/a")` is `FullPath~Expires=`, the default expiry, `~hmac=` and forty hex digits |
| DeployDags.AfterMarker | composer/cicd_sample/utils/deploy_dags_from_diff.py:45 | `line[6:]` is what follows the first six characters, or empty for shorter lines |
| DeployDags.Changed | composer/cicd_sample/utils/deploy_dags_from_diff.py:44 | definition: the line contains `+++ b` and the DAG directory |
| DeployDags.PathOf | composer/cicd_sample/utils/deploy_dags_from_diff.py:45 | definition: `Path(repo_root) / Path(line[6:])`, kept symbolic |
| DeployDags.ChangedPaths | composer/cicd_sample/utils/deploy_dags_from_diff.py:41-47 | the scan yields at most one path per line |
| DeployDags.CreateDagsListFromGitDiff | composer/cicd_sample/utils/deploy_dags_from_diff.py:40-48 | the loop returns the DAG directory unchanged and exactly the scan of the `\n`-split diff text |
| DeployDags.ChangedPathsConcat | composer/cicd_sample/utils/deploy_dags_from_diff.py:42-46 | scanning two consecutive blocks of lines gives the first block's paths followed by the second's |
| DeployDags.ChangedPathsOne | composer/cicd_sample/utils/deploy_dags_from_diff.py:44-46 | one line yields its path exactly when it contains both `+++ b` and the DAG directory |
| DeployDags.ChangedPathsSound | composer/cicd_sample/utils/deploy_dags_from_diff.py:42-46 | every entry is `repo_root / line[6:]` of some line containing both substrings |
| DeployDags.ChangedPathsComplete | composer/cicd_sample/utils/deploy_dags_from_diff.py:41-47 | every line containing both substrings yields its path, at the position counted by the matching lines before it |
| DeployDags.UnchangedLineIgnored | composer/cicd_sample/utils/deploy_dags_from_diff.py:44-46 | a line lacking either substring contributes nothing |
| DeployDags.ChangedPathsOrdered | composer/cicd_sample/utils/deploy_dags_from_diff.py:41-47 | of two matching lines, the earlier one's entry comes first |
| DeployDags.EmptyDiff | composer/cicd_sample/utils/deploy_dags_from_diff.py:42-44 | an empty diff text yields no paths |
| DeployDags.LinesOfDiff | composer/cicd_sample/utils/deploy_dags_from_diff.py:42 | the scanned lines rejoin into the diff text, number one more than its line breaks, and hold no line break |

## Left out

- Key decoding, Ed25519 signing and HMAC-SHA1/SHA-256 are parameters
  (`Crypto`). There are no cryptographic facts beyond output lengths and
  determinism.
- SignCookieExpiryMatters: it proves that the signed policies differ, not
  that the signatures differ. That the signatures differ would need
  collision resistance of Ed25519, which abstract primitives do not have.
- SignUrlPrefix, SignCookie: their own contracts state only the error
  kinds. The shape of a successful result is stated by `SignUrlPrefixShape`
  and `SignCookieShape`.
- Expiry instants are integer seconds since the epoch. They replace
  `datetime`, `utcfromtimestamp(0)` and the truncating
  `int(total_seconds())`, so no floating point is modelled.
- The clock: `datetime.now()` is the `now` parameter of `SignToken`. That
  the source adds local time to a UTC epoch difference is not modelled.
- `urlsplit`'s `ValueError` for malformed bracketed IPv6 hosts is not
  modelled.
- `urlsplit`'s `ValueError` from its NFKC check of a non-ASCII network
  location (one that normalises to contain `/`, `?`, `#`, `@` or `:`) is
  not modelled; Unicode normalisation is outside the model.
- Texts holding lone surrogates, for which `.encode("utf-8")` raises,
  cannot be expressed: a Dafny `char` is a Unicode scalar value.
- `parse_qs` splitting on `;` (Pythons before 3.9.2) is not modelled;
  fields are split on `&` only.
- `urlsplit` deleting tab, CR and LF arrived with the fix for bpo-43882
  (Python 3.9.5 and the matching 3.6-3.8 security releases). On earlier
  Pythons those characters stay in the URL, so a query such as `?&\t&`
  has a parameter and gets `&`, where the model gives `?`. The model
  follows the later behaviour.
- `str.lower()` is modelled as ASCII lowering. For the three algorithm
  names Python's Unicode lowering accepts the same inputs, but general
  non-ASCII lowering is not modelled.
- `pathlib` joining and normalisation: `repo_root / Path(line[6:])` is the
  symbolic value `Joined(repo_root, line[6:])`.
- The `git.Repo(...).git.diff(...)` call: the diff text is an argument of
  `CreateDagsListFromGitDiff`.
- `upload_changed_dags_to_composer` (cloud storage uploads and printing)
  and the `__main__` argument parsing are not modelled.
- compute/client_library/snippets/disks/attach_disk.py (a request sent to
  the compute API) is not part of this model.
- The `bytes` values of `sign_token` are text in this model. The bytes
  actually signed are related to it by `TokenSignedBytes`.
