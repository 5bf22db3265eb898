/** Fixed lengths and prefixes of base58btc identities. */
module IdentityLengths {
  import opened Wrappers
  import opened Bytes
  import opened Positional
  import opened Base58

  const POW58_44 := 389790918707373377135528568990913592653094657612049369038476873218241589149696
  const POW256_32 := 115792089237316195423570985008687907853269984665640564039457584007913129639936

  lemma Powers58()
    ensures Pow(58, 44) == POW58_44 && Pow(58, 45) == POW58_44 * 58 && Pow(58, 46) == POW58_44 * 58 * 58
  {
    assert Pow(58, 11) == 24986644000165537792;
    PowAdd(58, 11, 11);
    PowAdd(58, 22, 22);
  }

  lemma Powers256()
    ensures Pow(256, 32) == POW256_32 && Pow(256, 33) == POW256_32 * 256 && Pow(256, 34) == POW256_32 * 256 * 256
  {
    assert Pow(256, 8) == 18446744073709551616;
    PowAdd(256, 8, 8);
    PowAdd(256, 16, 16);
  }

  /** A number whose quotient by `58^k` is the two digits `x y` prints as those digits and `k` more. */
  lemma TwoDigitPrefix(n: nat, k: nat, x: nat, y: nat)
    requires 0 < x < 58 && y < 58
    requires (x * 58 + y) * Pow(58, k) <= n < (x * 58 + y + 1) * Pow(58, k)
    ensures |DigitsOf(n, 58)| == k + 2 && DigitsOf(n, 58)[0] == x && DigitsOf(n, 58)[1] == y
  {
    PowPositive(58, k);
    AtLeast(Pow(58, k), x * 58 + y);
    DivIs(n, Pow(58, k), x * 58 + y);
    DropDigitsIs(n, 58, k);
    DigitsPrefix(n, 58, k, x * 58 + y);
    TwoDigits(x, y, 58);
    var s := DigitsOf(n, 58);
    assert s[..2] == [x, y];
    assert s[0] == s[..2][0] && s[1] == s[..2][1];
  }

  lemma TwoByteValue(p: nat, q: nat)
    ensures Value([p, q], 256) == p * 256 + q
  {
    assert [p, q][..1] == [p] && [p][..0] == [];
    assert Value([p], 256) == p;
  }

  lemma TwoDigitHead(p: nat, q: nat, r: seq<nat>)
    requires InBase(r, 256)
    ensures var n := Value([p, q] + r, 256);
            (p * 256 + q) * Pow(256, |r|) <= n < (p * 256 + q + 1) * Pow(256, |r|)
  {
    ValueConcat([p, q], r, 256);
    TwoByteValue(p, q);
    Distribute(p * 256 + q, Pow(256, |r|));
  }

  /** The value of a two-byte prefix followed by `k` bytes. */
  lemma PrefixedValue(p: byte, q: byte, rest: seq<byte>)
    ensures var n := Value(Digits256([p, q] + rest), 256);
            (p * 256 + q) * Pow(256, |rest|) <= n < (p * 256 + q + 1) * Pow(256, |rest|)
  {
    TwoDigitHead(p, q, Digits256(rest));
    assert Digits256([p, q] + rest) == [p, q] + Digits256(rest);
  }

  lemma Distribute(x: nat, w: nat)
    ensures (x + 1) * w == x * w + w
  {
  }

  /** Bytes that start with a non-zero byte encode without leading ones: only their value counts. */
  lemma EncodePlain(b: seq<byte>)
    requires b != [] && b[0] != 0
    ensures var d := DigitsOf(Value(Digits256(b), 256), 58);
            |Encode(b)| == |d| && InBase(d, 58) && forall i :: 0 <= i < |d| ==> Encode(b)[i] == Symbol(d[i])
  {
    assert LeadingZeros(Digits256(b)) == 0;
    DigitsShape(Value(Digits256(b), 256), 58);
    assert Repeat<nat>(0, 0) + DigitsOf(Value(Digits256(b), 256), 58) == DigitsOf(Value(Digits256(b), 256), 58);
  }

  lemma EncodedPrefix(p: byte, q: byte, rest: seq<byte>, k: nat, x: nat, y: nat)
    requires p != 0 && 0 < x < 58 && y < 58
    requires (x * 58 + y) * Pow(58, k) <= (p * 256 + q) * Pow(256, |rest|)
    requires (p * 256 + q + 1) * Pow(256, |rest|) <= (x * 58 + y + 1) * Pow(58, k)
    ensures var s := Encode([p, q] + rest); |s| == k + 2 && s[0] == Symbol(x) && s[1] == Symbol(y)
  {
    PrefixedValue(p, q, rest);
    TwoDigitPrefix(Value(Digits256([p, q] + rest), 256), k, x, y);
    EncodePlain([p, q] + rest);
  }

  /** A sha2-256 multihash always encodes to 46 characters that start `Qm`. */
  lemma MultihashText(digest: seq<byte>)
    requires |digest| == 32
    ensures var s := Encode([0x12, 0x20] + digest); |s| == 46 && s[0] == 'Q' && s[1] == 'm'
  {
    Powers58();
    Powers256();
    EncodedPrefix(0x12, 0x20, digest, 44, 23, 44);
  }

  /** An Ed25519 multicodec key always encodes to 47 characters that start `6Mk`. */
  lemma Ed25519Text(key: seq<byte>)
    requires |key| == 32
    ensures var s := Encode([0xED, 0x01] + key); |s| == 47 && s[..3] == "6Mk"
  {
    Powers58();
    Powers256();
    var b := [0xED, 0x01] + key;
    PrefixedValue(0xED, 0x01, key);
    ThreeDigitPrefix(Value(Digits256(b), 256), 44, 5, 20, 43);
    EncodePlain(b);
    assert Encode(b)[..3] == [Symbol(5), Symbol(20), Symbol(43)];
  }

  /** A P-256 multicodec key always encodes to 48 characters that start `Dn`. */
  lemma P256Text(key: seq<byte>)
    requires |key| == 33
    ensures var s := Encode([0x80, 0x24] + key); |s| == 48 && s[..2] == "Dn"
  {
    Powers58();
    Powers256();
    EncodedPrefix(0x80, 0x24, key, 46, 12, 45);
    var s := Encode([0x80, 0x24] + key);
    assert s[..2] == [s[0], s[1]];
  }

  lemma ThreeDigits(x: nat, y: nat, z: nat, b: nat)
    requires b >= 2 && 0 < x < b && y < b && z < b
    ensures DigitsOf((x * b + y) * b + z, b) == [x, y, z]
  {
    TwoDigits(x, y, b);
    DivMod(x * b + y, b, z);
    Positive(x, b);
    Positive(x * b + y, b);
  }

  lemma ThreeDigitPrefix(n: nat, k: nat, x: nat, y: nat, z: nat)
    requires 0 < x < 58 && y < 58 && z < 58
    requires ((x * 58 + y) * 58 + z) * Pow(58, k) <= n < ((x * 58 + y) * 58 + z + 1) * Pow(58, k)
    ensures |DigitsOf(n, 58)| == k + 3 && DigitsOf(n, 58)[..3] == [x, y, z]
  {
    var q := (x * 58 + y) * 58 + z;
    PowPositive(58, k);
    AtLeast(Pow(58, k), q);
    DivIs(n, Pow(58, k), q);
    DropDigitsIs(n, 58, k);
    DigitsPrefix(n, 58, k, q);
    ThreeDigits(x, y, z, 58);
  }

  lemma {:induction false} FirstDigitBounds(s: seq<nat>, b: nat)
    requires s != [] && InBase(s, b) && b > 0
    ensures s[0] * Pow(b, |s| - 1) <= Value(s, b) < (s[0] + 1) * Pow(b, |s| - 1)
  {
    ValueConcat([s[0]], s[1..], b);
    assert s == [s[0]] + s[1..];
    assert [s[0]][..0] == [];
    assert Value([s[0]], b) == s[0];
    Distribute(s[0], Pow(b, |s| - 1));
  }

  /** A decoded leading byte that is not zero: the text has no leading ones and carries the value. */
  lemma DecodedValue(body: string, raw: seq<byte>)
    requires Decode(body) == Some(raw) && raw != [] && raw[0] != 0
    ensures Value(Digits256(raw), 256) == Value(FromText(body), 58)
    ensures body != [] && FromText(body)[0] != 0
  {
    var d := FromText(body);
    var k, v := LeadingZeros(d), Value(d, 58);
    DigitsShape(v, 256);
    assert raw == Repeat<nat>(0, k) + DigitsOf(v, 256);
    assert k == 0;
    assert Repeat<nat>(0, 0) + DigitsOf(v, 256) == DigitsOf(v, 256);
  }

  /** 46 characters decoding to a leading 0x12 always decode to 34 bytes. */
  lemma MultihashLength(body: string, raw: seq<byte>)
    requires |body| == 46 && Decode(body) == Some(raw) && raw != [] && raw[0] == 0x12
    ensures |raw| == 34
  {
    DecodedValue(body, raw);
    Powers58();
    Powers256();
    var d, v := FromText(body), Value(FromText(body), 58);
    FirstDigitBounds(d, 58);
    FirstDigitBounds(Digits256(raw), 256);
    AtLeast(Pow(58, 45), d[0]);
    Scale(d[0] + 1, 58, Pow(58, 45));
    if |raw| < 34 {
      PowMonotone(256, |raw| - 1, 32);
    } else if |raw| > 34 {
      PowMonotone(256, 34, |raw| - 1);
    }
  }
}

/** `did:aqua` and `did:key`: content-addressed and multibase identities. */
module Identity {
  import opened Wrappers
  import opened Bytes
  import opened Text
  import opened Base58
  import opened IdentityLengths

  /** Why a DID is invalid. */
  datatype InvalidDid =
    | ForbiddenComponent | WrongLength | WrongPrefix | WrongMultibase | BadBase58
    | WrongMultihashCode | WrongDigestLength | NotMultihashLength
    | NotDidKey | UnknownMulticodec | WeakKey | OtherKeyType | WrongKeyLength | NotOnCurve

  /** Hashes and curve checks: SHA-256 of the JWK text, base64url, strict Ed25519 keys, P-256 points. */
  datatype Primitives = Primitives(
    sha256: string -> seq<byte>,
    base64url: seq<byte> -> string,
    strictEd25519: seq<byte> -> bool,
    onP256: seq<byte> -> bool)

  /** The one law used: a digest is 32 bytes. */
  ghost predicate Lawful(c: Primitives) {
    forall m :: |c.sha256(m)| == 32
  }

  // ---------- did:aqua ----------

  const DID_AQUA_PREFIX := "did:aqua:"
  const DID_AQUA_LEN := 56
  const MULTIHASH_SHA2_256: byte := 0x12
  const MULTIHASH_DIGEST_LEN: byte := 0x20
  const MULTIHASH_LEN := 34

  /** `str::len`: bytes of UTF-8. */
  function Utf8Len(s: string): nat {
    if s == [] then 0 else
      var u := s[0] as int;
      (if u < 0x80 then 1 else if u < 0x800 then 2 else if u < 0x10000 then 3 else 4) + Utf8Len(s[1..])
  }

  lemma {:induction false} Utf8Ascii(s: string)
    ensures |s| <= Utf8Len(s)
    ensures IsAscii(s) ==> Utf8Len(s) == |s|
  {
    if s != [] {
      assert s[0] in s && forall c <- s[1..] :: c in s;
      Utf8Ascii(s[1..]);
    }
  }

  /** UTF-8, section 3 of RFC 3629. */
  function Utf8(s: string): seq<byte> {
    if s == [] then [] else Utf8Char(s[0]) + Utf8(s[1..])
  }

  function Utf8Char(c: char): seq<byte> {
    var u := c as int;
    if u <= 0x7f then [u]
    else if u <= 0x7ff then [0xc0 + u / 0x40, 0x80 + u % 0x40]
    else if u <= 0xffff then [0xe0 + u / 0x1000, 0x80 + u / 0x40 % 0x40, 0x80 + u % 0x40]
    else [0xf0 + u / 0x40000, 0x80 + u / 0x1000 % 0x40, 0x80 + u / 0x40 % 0x40, 0x80 + u % 0x40]
  }

  lemma {:induction false} Utf8Bytes(s: string)
    ensures Utf8Len(s) == |Utf8(s)|
  {
    if s != [] {
      Utf8Bytes(s[1..]);
    }
  }

  /** The RFC 7638 thumbprint preimage. */
  function Jwk(c: Primitives, pubkey: seq<byte>): string {
    "{\"alg\":\"ML-DSA-87\",\"kty\":\"AKP\",\"pub\":\"" + c.base64url(pubkey) + "\"}"
  }

  function AquaDid(mh: seq<byte>): string {
    DID_AQUA_PREFIX + "z" + Encode(mh)
  }

  function Multihash(c: Primitives, pubkey: seq<byte>): seq<byte> {
    [MULTIHASH_SHA2_256, MULTIHASH_DIGEST_LEN] + c.sha256(Jwk(c, pubkey))
  }

  function AquaDidOf(c: Primitives, pubkey: seq<byte>): string {
    AquaDid(Multihash(c, pubkey))
  }

  method AquaDidFromPubkey(c: Primitives, pubkey: seq<byte>) returns (did: string)
    requires Lawful(c)
    ensures did == AquaDidOf(c, pubkey)
    ensures did == "did:aqua:z" + Encode([0x12, 0x20] +
      c.sha256("{\"alg\":\"ML-DSA-87\",\"kty\":\"AKP\",\"pub\":\"" + c.base64url(pubkey) + "\"}"))
    ensures |did| == 56 && did[..12] == "did:aqua:zQm"
  {
    var digest := c.sha256(Jwk(c, pubkey));
    var mh: seq<byte> := [];
    mh := mh + [MULTIHASH_SHA2_256];
    mh := mh + [MULTIHASH_DIGEST_LEN];
    mh := mh + digest;
    assert mh == Multihash(c, pubkey);
    did := DID_AQUA_PREFIX + "z" + Encode(mh);
    AquaDidShape(digest);
  }

  /** Every did:aqua string has 56 characters and starts `did:aqua:zQm`. */
  lemma AquaDidShape(digest: seq<byte>)
    requires |digest| == 32
    ensures var did := AquaDid([MULTIHASH_SHA2_256, MULTIHASH_DIGEST_LEN] + digest);
            |did| == 56 && did[..12] == "did:aqua:zQm"
  {
    MultihashText(digest);
    var body := Encode([MULTIHASH_SHA2_256, MULTIHASH_DIGEST_LEN] + digest);
    assert body[..2] == "Qm";
    assert (DID_AQUA_PREFIX + "z" + body)[..12] == DID_AQUA_PREFIX + "z" + body[..2];
  }

  /** The grammar and multihash checks in the code's order; a Rust `len` counts bytes. */
  function MultihashFromAquaDid(did: string): Result<seq<byte>, InvalidDid> {
    if Index(did, {'/', '?', '#', ';'}) < |did| then Err(ForbiddenComponent)
    else if Utf8Len(did) != DID_AQUA_LEN then Err(WrongLength)
    else if !(DID_AQUA_PREFIX <= did) then Err(WrongPrefix)
    else if !("z" <= did[9..]) then Err(WrongMultibase)
    else
      match Decode(did[10..])
      case None => Err(BadBase58)
      case Some(raw) =>
        if |raw| < 1 || raw[0] != MULTIHASH_SHA2_256 then Err(WrongMultihashCode)
        else if |raw| < 2 || raw[1] != MULTIHASH_DIGEST_LEN then Err(WrongDigestLength)
        else if |raw| != MULTIHASH_LEN then Err(NotMultihashLength)
        else Ok(raw)
  }

  predicate IsMultihash(mh: seq<byte>) {
    |mh| == MULTIHASH_LEN && mh[0] == MULTIHASH_SHA2_256 && mh[1] == MULTIHASH_DIGEST_LEN
  }

  lemma BodyOf(did: string)
    requires DID_AQUA_PREFIX <= did && "z" <= did[9..]
    ensures |did| >= 10 && did == DID_AQUA_PREFIX + "z" + did[10..]
  {
    assert did[9..][0] == 'z';
  }

  lemma Base58Ascii(s: string)
    requires IsBase58(s)
    ensures IsAscii(s) && Index(s, {'/', '?', '#', ';'}) == |s|
  {
    IndexUnique(s, {'/', '?', '#', ';'}, |s|);
  }

  lemma {:induction false} Utf8Concat(a: string, b: string)
    ensures Utf8Len(a + b) == Utf8Len(a) + Utf8Len(b)
  {
    if a == [] {
      assert a + b == b;
    } else {
      assert (a + b)[1..] == a[1..] + b;
      Utf8Concat(a[1..], b);
    }
  }

  lemma BodyLength(did: string)
    requires DID_AQUA_PREFIX <= did && "z" <= did[9..] && Utf8Len(did) == DID_AQUA_LEN && IsBase58(did[10..])
    ensures |did[10..]| == 46
  {
    BodyOf(did);
    Base58Ascii(did[10..]);
    Utf8Ascii(did[10..]);
    Utf8Concat(DID_AQUA_PREFIX + "z", did[10..]);
    Utf8Ascii(DID_AQUA_PREFIX + "z");
  }

  /** The guard on the total length can never fire: the checks before it imply it. */
  lemma LengthGuardUnreachable(did: string)
    ensures MultihashFromAquaDid(did) != Err(NotMultihashLength)
  {
    if MultihashFromAquaDid(did) == Err(NotMultihashLength) {
      BodyLength(did);
      MultihashLength(did[10..], Decode(did[10..]).value);
    }
  }

  /** Accepted strings are exactly the canonical spellings of sha2-256 multihashes. */
  lemma MultihashIff(did: string, mh: seq<byte>)
    ensures MultihashFromAquaDid(did) == Ok(mh) <==>
            |mh| == 34 && mh[0] == 0x12 && mh[1] == 0x20 && did == "did:aqua:z" + Encode(mh)
  {
    AquaDidText(mh);
    if MultihashFromAquaDid(did) == Ok(mh) {
      BodyOf(did);
      DecodeEncode(did[10..]);
    }
    if IsMultihash(mh) && did == AquaDid(mh) {
      AquaDidAccepted(did, mh);
    }
  }

  lemma AquaDidText(mh: seq<byte>)
    ensures AquaDid(mh) == "did:aqua:z" + Encode(mh)
    ensures IsMultihash(mh) <==> |mh| == 34 && mh[0] == 0x12 && mh[1] == 0x20
  {
    assert DID_AQUA_PREFIX + "z" == "did:aqua:z";
  }

  lemma AquaDidAccepted(did: string, mh: seq<byte>)
    requires IsMultihash(mh) && did == AquaDid(mh)
    ensures MultihashFromAquaDid(did) == Ok(mh)
  {
    var head, body := DID_AQUA_PREFIX + "z", Encode(mh);
    assert mh == [MULTIHASH_SHA2_256, MULTIHASH_DIGEST_LEN] + mh[2..];
    MultihashText(mh[2..]);
    EncodeIsBase58(mh);
    EncodeDecode(mh);
    Base58Ascii(body);
    AquaDidParts(did, head, body);
  }

  lemma AquaDidParts(did: string, head: string, body: string)
    requires head == DID_AQUA_PREFIX + "z" && did == head + body && IsBase58(body) && |body| == 46
    ensures Index(did, {'/', '?', '#', ';'}) == |did| && Utf8Len(did) == DID_AQUA_LEN
    ensures DID_AQUA_PREFIX <= did && "z" <= did[9..] && did[10..] == body
  {
    AquaDidPlain(did, head, body);
    AquaDidSlices(did, body);
    Base58Ascii(body);
    Utf8Ascii(head);
    Utf8Ascii(body);
    Utf8Concat(head, body);
  }

  lemma AquaDidPlain(did: string, head: string, body: string)
    requires head == DID_AQUA_PREFIX + "z" && did == head + body && IsBase58(body)
    ensures Index(did, {'/', '?', '#', ';'}) == |did| && IsAscii(head)
  {
    assert forall i :: 0 <= i < |head| ==> head[i] == 'd' || head[i] == 'i' || head[i] == ':' || head[i] == 'a' ||
                                           head[i] == 'q' || head[i] == 'u' || head[i] == 'z';
    assert forall i :: |head| <= i < |did| ==> did[i] == body[i - |head|];
    IndexUnique(did, {'/', '?', '#', ';'}, |did|);
  }

  lemma AquaDidSlices(did: string, body: string)
    requires did == DID_AQUA_PREFIX + "z" + body
    ensures DID_AQUA_PREFIX <= did && "z" <= did[9..] && did[10..] == body
  {
    assert did[9..] == "z" + body;
  }

  /** Each refusal has its own cause, in this order. */
  lemma AquaDidRefusals(did: string)
    ensures var r, forbidden := MultihashFromAquaDid(did), exists c :: c in did && c in {'/', '?', '#', ';'};
            if forbidden then r == Err(ForbiddenComponent)
            else if |Utf8(did)| != 56 then r == Err(WrongLength)
            else if !("did:aqua:" <= did) then r == Err(WrongPrefix)
            else if did[9..] == "" || did[9] != 'z' then r == Err(WrongMultibase)
            else if exists c :: c in did[10..] && !InAlphabet(c) then r == Err(BadBase58)
            else
              && Decode(did[10..]).Some?
              && var raw := Decode(did[10..]).value;
                 if raw == [] || raw[0] != 0x12 then r == Err(WrongMultihashCode)
                 else if |raw| < 2 || raw[1] != 0x20 then r == Err(WrongDigestLength)
                 else r == Ok(raw)
  {
    LengthGuardUnreachable(did);
    Utf8Bytes(did);
    IndexSome(did, {'/', '?', '#', ';'});
    if |did| > 9 {
      assert did[9..][0] == did[9];
      Base58Iff(did[10..]);
    }
  }

  lemma IndexSome(s: string, stops: set<char>)
    ensures Index(s, stops) < |s| <==> exists c :: c in s && c in stops
  {
    var n := Index(s, stops);
    if n < |s| {
      assert s[n] in s && s[n] in stops;
    }
  }

  lemma Base58Iff(s: string)
    ensures Decode(s).Some? <==> !exists c :: c in s && !InAlphabet(c)
  {
    assert IsBase58(s) <==> forall c :: c in s ==> InAlphabet(c);
  }

  /** Does `did` commit to `pubkey`? Malformed is an error, another key is `false`. */
  function AquaDidBindsPubkey(c: Primitives, did: string, pubkey: seq<byte>): Result<bool, InvalidDid> {
    var claimed :- MultihashFromAquaDid(did);
    var derived :- MultihashFromAquaDid(AquaDidOf(c, pubkey));
    Ok(claimed == derived)
  }

  /** Binding is string equality with the derived identity, and fails only on a malformed `did`. */
  lemma BindsIff(c: Primitives, did: string, pubkey: seq<byte>)
    requires Lawful(c)
    ensures AquaDidBindsPubkey(c, did, pubkey) == Ok(true) <==> did == AquaDidOf(c, pubkey)
    ensures forall e :: AquaDidBindsPubkey(c, did, pubkey) == Err(e) <==> MultihashFromAquaDid(did) == Err(e)
  {
    var mh := Multihash(c, pubkey);
    MultihashIff(AquaDidOf(c, pubkey), mh);
    if MultihashFromAquaDid(did).Ok? {
      MultihashIff(did, MultihashFromAquaDid(did).value);
    }
  }

  /** Base64url text determines the bytes. */
  ghost predicate Injective(c: Primitives) {
    forall a, b :: c.base64url(a) == c.base64url(b) ==> a == b
  }

  /** Two keys bound to one DID are a collision of the hash, on two different texts. */
  lemma TwoKeysCollide(c: Primitives, did: string, k1: seq<byte>, k2: seq<byte>)
    requires Lawful(c) && Injective(c) && k1 != k2
    requires AquaDidBindsPubkey(c, did, k1) == Ok(true) && AquaDidBindsPubkey(c, did, k2) == Ok(true)
    ensures var t1 := "{\"alg\":\"ML-DSA-87\",\"kty\":\"AKP\",\"pub\":\"" + c.base64url(k1) + "\"}";
            var t2 := "{\"alg\":\"ML-DSA-87\",\"kty\":\"AKP\",\"pub\":\"" + c.base64url(k2) + "\"}";
            t1 != t2 && c.sha256(t1) == c.sha256(t2)
  {
    BindsIff(c, did, k1);
    BindsIff(c, did, k2);
    SameAquaDid(Multihash(c, k1), Multihash(c, k2));
    PubText(c.base64url(k1), c.base64url(k2));
    assert c.sha256(Jwk(c, k1)) == Multihash(c, k1)[2..] && c.sha256(Jwk(c, k2)) == Multihash(c, k2)[2..];
  }

  lemma SameAquaDid(a: seq<byte>, b: seq<byte>)
    requires AquaDid(a) == AquaDid(b)
    ensures a == b
  {
    EncodeDecode(a);
    EncodeDecode(b);
    DropPrefix(DID_AQUA_PREFIX + "z", Encode(a), Encode(b));
  }

  lemma PubText(a: string, b: string)
    requires a != b
    ensures "{\"alg\":\"ML-DSA-87\",\"kty\":\"AKP\",\"pub\":\"" + a + "\"}" !=
            "{\"alg\":\"ML-DSA-87\",\"kty\":\"AKP\",\"pub\":\"" + b + "\"}"
  {
    var head := "{\"alg\":\"ML-DSA-87\",\"kty\":\"AKP\",\"pub\":\"";
    if head + a + "\"}" == head + b + "\"}" {
      SameMiddle(head, a, b, "\"}");
    }
  }

  lemma SameMiddle(head: string, a: string, b: string, tail: string)
    requires head + a + tail == head + b + tail
    ensures a == b
  {
    assert |a| == |b|;
    assert a == (head + a + tail)[|head|..|head| + |a|] && b == (head + b + tail)[|head|..|head| + |b|];
  }

  /** The hash does not collide on the texts it is given here. */
  ghost predicate NoCollision(c: Primitives) {
    forall k1, k2 ::
      c.sha256("{\"alg\":\"ML-DSA-87\",\"kty\":\"AKP\",\"pub\":\"" + c.base64url(k1) + "\"}") ==
      c.sha256("{\"alg\":\"ML-DSA-87\",\"kty\":\"AKP\",\"pub\":\"" + c.base64url(k2) + "\"}") ==>
      c.base64url(k1) == c.base64url(k2)
  }

  /** So without collisions a did:aqua commits to one key. */
  lemma BindsOneKey(c: Primitives, did: string, k1: seq<byte>, k2: seq<byte>)
    requires Lawful(c) && Injective(c) && NoCollision(c)
    requires AquaDidBindsPubkey(c, did, k1) == Ok(true) && AquaDidBindsPubkey(c, did, k2) == Ok(true)
    ensures k1 == k2
  {
    if k1 != k2 {
      TwoKeysCollide(c, did, k1, k2);
    }
  }

  // ---------- did:key ----------

  const ED25519_PREFIX: seq<byte> := [0xED, 0x01]
  const P256_PREFIX: seq<byte> := [0x80, 0x24]
  const DID_KEY_PREFIX := "did:key:z"

  datatype KeyType = Ed25519(raw: seq<byte>) | P256(raw: seq<byte>)

  function DidKey(prefix: seq<byte>, pubkey: seq<byte>): string {
    DID_KEY_PREFIX + Encode(prefix + pubkey)
  }

  method EncodeDidKey(prefix: seq<byte>, pubkey: seq<byte>) returns (did: string)
    ensures did == DidKey(prefix, pubkey)
  {
    var bytes: seq<byte> := [];
    bytes := bytes + prefix;
    bytes := bytes + pubkey;
    assert bytes == prefix + pubkey;
    did := DID_KEY_PREFIX + Encode(bytes);
  }

  function DecodeMultibaseKey(c: Primitives, body: string): Result<KeyType, InvalidDid> {
    match Decode(body)
    case None => Err(BadBase58)
    case Some(bytes) =>
      if ED25519_PREFIX <= bytes then
        if |bytes| == 34 && !c.strictEd25519(bytes[2..]) then Err(WeakKey) else Ok(Ed25519(bytes[2..]))
      else if P256_PREFIX <= bytes then Ok(P256(bytes[2..]))
      else Err(UnknownMulticodec)
  }

  function Ed25519FromDidKey(c: Primitives, did: string): Result<seq<byte>, InvalidDid> {
    if !(DID_KEY_PREFIX <= did) then Err(NotDidKey) else
    var key :- DecodeMultibaseKey(c, did[9..]);
    if key.P256? then Err(OtherKeyType) else if |key.raw| != 32 then Err(WrongKeyLength) else Ok(key.raw)
  }

  function P256FromDidKey(c: Primitives, did: string): Result<seq<byte>, InvalidDid> {
    if !(DID_KEY_PREFIX <= did) then Err(NotDidKey) else
    var key :- DecodeMultibaseKey(c, did[9..]);
    if key.Ed25519? then Err(OtherKeyType)
    else if |key.raw| != 33 then Err(WrongKeyLength)
    else if !c.onP256(key.raw) then Err(NotOnCurve)
    else Ok(key.raw)
  }

  lemma DidKeyBody(did: string)
    requires DID_KEY_PREFIX <= did
    ensures |did| >= 9 && did == DID_KEY_PREFIX + did[9..]
  {
  }

  lemma DidKeyRead(prefix: seq<byte>, pubkey: seq<byte>)
    requires |prefix| == 2
    ensures var did := DidKey(prefix, pubkey);
            DID_KEY_PREFIX <= did && Decode(did[9..]) == Some(prefix + pubkey) &&
            prefix <= prefix + pubkey && (prefix + pubkey)[2..] == pubkey
  {
    EncodeDecode(prefix + pubkey);
    assert DidKey(prefix, pubkey)[9..] == Encode(prefix + pubkey);
  }

  /** A decodable body is the encoding of its bytes, so the DID has one spelling. */
  lemma DidKeySpelling(did: string, prefix: seq<byte>, key: seq<byte>)
    requires DID_KEY_PREFIX <= did && Decode(did[9..]) == Some(prefix + key)
    ensures did == DidKey(prefix, key)
  {
    DidKeyBody(did);
    DecodeEncode(did[9..]);
  }

  lemma SplitPrefix(prefix: seq<byte>, bytes: seq<byte>)
    requires |prefix| == 2 && prefix <= bytes
    ensures bytes == prefix + bytes[2..]
  {
  }

  /** What the multicodec dispatch makes of the bytes behind a body. */
  lemma DispatchOf(c: Primitives, body: string)
    ensures var r := DecodeMultibaseKey(c, body);
            && (r.Ok? && r.value.Ed25519? ==> Decode(body) == Some(ED25519_PREFIX + r.value.raw) &&
                                              (|r.value.raw| == 32 ==> c.strictEd25519(r.value.raw)))
            && (r.Ok? && r.value.P256? ==> Decode(body) == Some(P256_PREFIX + r.value.raw))
  {
    if Decode(body).Some? {
      var bytes := Decode(body).value;
      if ED25519_PREFIX <= bytes {
        SplitPrefix(ED25519_PREFIX, bytes);
      } else if P256_PREFIX <= bytes {
        SplitPrefix(P256_PREFIX, bytes);
      }
    }
  }

  lemma PrefixesDiffer(key: seq<byte>)
    ensures !(ED25519_PREFIX <= P256_PREFIX + key)
  {
    assert (P256_PREFIX + key)[0] == 0x80;
  }

  lemma DecodeEd25519(c: Primitives, body: string, key: seq<byte>, bytes: seq<byte>)
    requires Decode(body) == Some(bytes) && bytes == ED25519_PREFIX + key
    ensures DecodeMultibaseKey(c, body) ==
            if |key| == 32 && !c.strictEd25519(key) then Err(WeakKey) else Ok(Ed25519(key))
  {
    assert bytes[2..] == key && ED25519_PREFIX <= bytes;
  }

  lemma DecodeP256(c: Primitives, body: string, key: seq<byte>, bytes: seq<byte>)
    requires Decode(body) == Some(bytes) && bytes == P256_PREFIX + key
    ensures DecodeMultibaseKey(c, body) == Ok(P256(key))
  {
    PrefixesDiffer(key);
    assert bytes[2..] == key && P256_PREFIX <= bytes;
  }

  /** The bodies that read as a key, of any length; only a 32-byte Ed25519 key is checked for strength. */
  lemma MultibaseIff(c: Primitives, body: string, k: KeyType)
    ensures DecodeMultibaseKey(c, body) == Ok(k) <==>
            match k
            case Ed25519(raw) => body == Encode([0xED, 0x01] + raw) && (|raw| == 32 ==> c.strictEd25519(raw))
            case P256(raw) => body == Encode([0x80, 0x24] + raw)
  {
    DispatchOf(c, body);
    if DecodeMultibaseKey(c, body).Ok? {
      DecodeEncode(body);
    }
    match k
    case Ed25519(raw) =>
      EncodeDecode(ED25519_PREFIX + raw);
      if body == Encode(ED25519_PREFIX + raw) {
        DecodeEd25519(c, body, raw, ED25519_PREFIX + raw);
      }
    case P256(raw) =>
      EncodeDecode(P256_PREFIX + raw);
      if body == Encode(P256_PREFIX + raw) {
        DecodeP256(c, body, raw, P256_PREFIX + raw);
      }
  }

  lemma Ed25519Read(c: Primitives, did: string)
    requires Ed25519FromDidKey(c, did).Ok?
    ensures var key := Ed25519FromDidKey(c, did).value;
            |key| == 32 && c.strictEd25519(key) && did == DidKey(ED25519_PREFIX, key)
  {
    DispatchOf(c, did[9..]);
    DidKeySpelling(did, ED25519_PREFIX, DecodeMultibaseKey(c, did[9..]).value.raw);
  }

  lemma P256Read(c: Primitives, did: string)
    requires P256FromDidKey(c, did).Ok?
    ensures var key := P256FromDidKey(c, did).value;
            |key| == 33 && c.onP256(key) && did == DidKey(P256_PREFIX, key)
  {
    DispatchOf(c, did[9..]);
    DidKeySpelling(did, P256_PREFIX, DecodeMultibaseKey(c, did[9..]).value.raw);
  }

  lemma Ed25519Written(c: Primitives, did: string, key: seq<byte>)
    requires |key| == 32 && c.strictEd25519(key) && did == DidKey(ED25519_PREFIX, key)
    ensures Ed25519FromDidKey(c, did) == Ok(key)
  {
    DidKeyRead(ED25519_PREFIX, key);
    DecodeEd25519(c, did[9..], key, ED25519_PREFIX + key);
  }

  lemma P256Written(c: Primitives, did: string, key: seq<byte>)
    requires |key| == 33 && c.onP256(key) && did == DidKey(P256_PREFIX, key)
    ensures P256FromDidKey(c, did) == Ok(key)
  {
    DidKeyRead(P256_PREFIX, key);
    DecodeP256(c, did[9..], key, P256_PREFIX + key);
  }

  /** Decoding an Ed25519 did:key inverts encoding, on exactly the strict 32-byte keys. */
  lemma Ed25519DidKeyIff(c: Primitives, did: string, pubkey: seq<byte>)
    ensures Ed25519FromDidKey(c, did) == Ok(pubkey) <==>
            |pubkey| == 32 && c.strictEd25519(pubkey) && did == "did:key:z" + Encode([0xED, 0x01] + pubkey)
  {
    if Ed25519FromDidKey(c, did) == Ok(pubkey) {
      Ed25519Read(c, did);
    }
    if |pubkey| == 32 && c.strictEd25519(pubkey) && did == DidKey(ED25519_PREFIX, pubkey) {
      Ed25519Written(c, did, pubkey);
    }
  }

  /** Decoding a P-256 did:key inverts encoding, on exactly the 33-byte points of the curve. */
  lemma P256DidKeyIff(c: Primitives, did: string, pubkey: seq<byte>)
    ensures P256FromDidKey(c, did) == Ok(pubkey) <==>
            |pubkey| == 33 && c.onP256(pubkey) && did == "did:key:z" + Encode([0x80, 0x24] + pubkey)
  {
    if P256FromDidKey(c, did) == Ok(pubkey) {
      P256Read(c, did);
    }
    if |pubkey| == 33 && c.onP256(pubkey) && did == DidKey(P256_PREFIX, pubkey) {
      P256Written(c, did, pubkey);
    }
  }

  /** Each refusal of a did:key has its own cause; only the key type looked for and the last checks differ. */
  lemma DidKeyRefusals(c: Primitives, did: string)
    ensures var ed, p256 := Ed25519FromDidKey(c, did), P256FromDidKey(c, did);
            if !("did:key:z" <= did) then ed == Err(NotDidKey) && p256 == Err(NotDidKey)
            else if Decode(did[9..]).None? then ed == Err(BadBase58) && p256 == Err(BadBase58)
            else
              var raw := Decode(did[9..]).value;
              if [0xED, 0x01] <= raw then
                if |raw| == 34 && !c.strictEd25519(raw[2..]) then ed == Err(WeakKey) && p256 == Err(WeakKey)
                else p256 == Err(OtherKeyType) && ed == if |raw| != 34 then Err(WrongKeyLength) else Ok(raw[2..])
              else if [0x80, 0x24] <= raw then
                && ed == Err(OtherKeyType)
                && p256 == if |raw| != 35 then Err(WrongKeyLength)
                           else if !c.onP256(raw[2..]) then Err(NotOnCurve) else Ok(raw[2..])
              else ed == Err(UnknownMulticodec) && p256 == Err(UnknownMulticodec)
  {
  }

  /** Two keys never share a did:key spelling. */
  lemma DidKeyInjective(prefix1: seq<byte>, key1: seq<byte>, prefix2: seq<byte>, key2: seq<byte>)
    requires |prefix1| == 2 && |prefix2| == 2 && DidKey(prefix1, key1) == DidKey(prefix2, key2)
    ensures prefix1 == prefix2 && key1 == key2
  {
    DidKeyRead(prefix1, key1);
    DidKeyRead(prefix2, key2);
    assert prefix1 == (prefix1 + key1)[..2] && prefix2 == (prefix2 + key2)[..2];
  }

  /** Ed25519 did:keys start `z6Mk`, P-256 ones `zDn`, and their lengths are fixed. */
  lemma DidKeyShapes(ed: seq<byte>, p: seq<byte>)
    requires |ed| == 32 && |p| == 33
    ensures var d := DidKey(ED25519_PREFIX, ed); |d| == 56 && d[9..12] == "6Mk"
    ensures var d := DidKey(P256_PREFIX, p); |d| == 57 && d[9..11] == "Dn"
  {
    Ed25519Text(ed);
    P256Text(p);
    assert DidKey(ED25519_PREFIX, ed)[9..12] == Encode(ED25519_PREFIX + ed)[..3];
    assert DidKey(P256_PREFIX, p)[9..11] == Encode(P256_PREFIX + p)[..2];
  }

  // ---------- Hints ----------

  /** A selector is a P-256 did:key whose spelling survives re-encoding. */
  function ParseHint(c: Primitives, s: string): Option<string> {
    match P256FromDidKey(c, s)
    case Err(_) => None
    case Ok(point) => if DidKey(P256_PREFIX, point) == s then Some(s) else None
  }

  /** The re-encoding check never refuses: decodable spellings are already canonical. */
  lemma HintIff(c: Primitives, s: string)
    ensures ParseHint(c, s) == (if P256FromDidKey(c, s).Ok? then Some(s) else None)
  {
    if P256FromDidKey(c, s).Ok? {
      P256DidKeyIff(c, s, P256FromDidKey(c, s).value);
    }
  }
}
