/** What the DID methods put on the identifier line of a sign-in message. */
module DidMethods {
  import opened Wrappers
  import opened Bytes
  import opened Text
  import opened Base58
  import Hex
  import Identity
  import opened Message

  type Digest = b: seq<byte> | |b| == 32 witness seq(32, i => 0)

  // Ethereum addresses.

  predicate IsHexText(s: string) {
    forall i :: 0 <= i < |s| ==> Hex.IsHex(s[i])
  }

  predicate LowerHex(s: string) {
    forall i :: 0 <= i < |s| ==> IsDigit(s[i]) || 'a' <= s[i] <= 'f'
  }

  function Upper(c: char): char {
    if 'a' <= c <= 'z' then (c as int - 32) as char else c
  }

  /** The `i`-th half-byte of a digest. */
  function Nibble(d: Digest, i: nat): int
    requires i < 64
  {
    if i % 2 == 0 then d[i / 2] / 16 else d[i / 2] % 16
  }

  /** EIP-55: a letter is upper case where the digest's half-byte is at least 8. */
  ghost predicate Checksummed(d: Digest, lower: string, s: string) {
    && |s| == |lower| <= 64 && ToLower(s) == lower
    && (forall i :: 0 <= i < |s| && !IsDigit(s[i]) ==> ('A' <= s[i] <= 'F' <==> Nibble(d, i) >= 8))
  }

  function Checksum(d: Digest, lower: string): string
    requires |lower| <= 64
  {
    seq(|lower|, i requires 0 <= i < |lower| =>
      if IsDigit(lower[i]) || Nibble(d, i) < 8 then lower[i] else Upper(lower[i]))
  }

  method Eip55Checksum(keccak: string -> Digest, lower: string) returns (result: string)
    requires |lower| == 40 && LowerHex(lower)
    ensures result == Checksum(keccak(lower), lower)
    ensures Checksummed(keccak(lower), lower, result)
  {
    var hash := keccak(lower);
    result := "";
    for i := 0 to |lower|
      invariant result == Checksum(hash, lower)[..i]
    {
      var c := lower[i];
      if IsDigit(c) {
        result := result + [c];
      } else {
        var nibble := if i % 2 == 0 then hash[i / 2] / 16 else hash[i / 2] % 16;
        if nibble >= 8 {
          result := result + [Upper(c)];
        } else {
          result := result + [c];
        }
      }
    }
    ChecksumIs(hash, lower);
  }

  /** The checksum spells the same address. */
  lemma ChecksumIs(d: Digest, lower: string)
    requires |lower| <= 64 && LowerHex(lower)
    ensures Checksummed(d, lower, Checksum(d, lower))
  {
    var s := Checksum(d, lower);
    forall i | 0 <= i < |s| ensures Lower(s[i]) == lower[i] {
      assert IsDigit(lower[i]) || 'a' <= lower[i] <= 'f';
    }
    assert ToLower(s) == lower;
  }

  /** And it is the only spelling of the address that does so. */
  lemma ChecksumUnique(d: Digest, lower: string, s: string)
    requires LowerHex(lower) && Checksummed(d, lower, s)
    ensures s == Checksum(d, lower)
  {
    forall i | 0 <= i < |s| ensures s[i] == Checksum(d, lower)[i] {
      assert Lower(s[i]) == lower[i];
    }
  }

  /** The 40 hexadecimal digits after the last colon, lower-cased as decoding and encoding leaves them. */
  function AddressFromDid(rest: string): Option<string> {
    var text := rest[LastIndex(rest, ':') + 1..];
    if "0x" <= text && |text| == 42 && IsHexText(text[2..]) then Some(ToLower(text[2..])) else None
  }

  lemma LowerHexOf(s: string)
    requires IsHexText(s)
    ensures LowerHex(ToLower(s))
  {
  }

  function AccountText(keccak: string -> Digest, lower: string): string
    requires |lower| <= 64
  {
    "0x" + Checksum(keccak(lower), lower)
  }

  // The four methods.

  const NOTHING := DidMethod(None, None, None)

  /** The namespace of a `did:pkh` and what follows it. */
  function Namespace(did: string): Option<(string, string)>
    requires "did:pkh:" <= did
  {
    var rest := did[8..];
    var colon := Index(rest, {':'});
    if colon == |rest| then None else Some((rest[..colon], rest[colon + 1..]))
  }

  function Account(keccak: string -> Digest, remainder: string): DidMethod {
    var colon := Index(remainder, {':'});
    if colon == |remainder| then DidMethod(None, Some("Ethereum"), None) else
    var chainId := Some("eip155:" + remainder[..colon]);
    match AddressFromDid(remainder)
    case None => DidMethod(None, Some("Ethereum"), chainId)
    case Some(lower) => DidMethod(Some(AccountText(keccak, lower)), Some("Ethereum"), chainId)
  }

  /** Raw key namespaces put the text of the DID on the identifier line, unread. */
  function Pkh(keccak: string -> Digest, did: string): DidMethod
    requires "did:pkh:" <= did
  {
    match Namespace(did)
    case None => NOTHING
    case Some((ns, remainder)) =>
      if ns == "eip155" then Account(keccak, remainder)
      else if ns == "ed25519" then DidMethod(Some(remainder), Some("Ed25519"), None)
      else if ns == "p256" then DidMethod(Some(remainder), Some("P-256"), None)
      else NOTHING
  }

  function KeyLabel(k: Identity.KeyType): string {
    match k case Ed25519(_) => "Ed25519" case P256(_) => "P-256"
  }

  function BodyLabel(c: Identity.Primitives, body: Option<string>): Option<string> {
    match body
    case None => None
    case Some(b) => (match Identity.DecodeMultibaseKey(c, b) case Ok(k) => Some(KeyLabel(k)) case Err(_) => None)
  }

  /** Only the label reads the key of a `did:key`. */
  function Key(c: Identity.Primitives, did: string): DidMethod
    requires "did:key:" <= did
  {
    DidMethod(Some(did[8..]), BodyLabel(c, KeyBody(did)), None)
  }

  function KeyBody(did: string): Option<string> {
    if Identity.DID_KEY_PREFIX <= did then Some(did[9..]) else None
  }

  predicate PeerSupported(did: string) {
    "did:peer:0z" <= did || "did:peer:2." <= did
  }

  /** The key of the first verification element. */
  function FirstElement(components: seq<string>): Option<string> {
    if components == [] then None else
    var z := Index(components[0], {'z'});
    if "V" <= components[0] && z < |components[0]| then Some(components[0][z + 1..]) else FirstElement(components[1..])
  }

  function PeerBody(did: string): Option<string> {
    if "did:peer:0z" <= did then Some(did[11..])
    else if "did:peer:2" <= did then FirstElement(Split(did[10..], '.'))
    else None
  }

  function Peer(c: Identity.Primitives, did: string): DidMethod {
    match PeerBody(did)
    case None => NOTHING
    case Some(body) => DidMethod(Some("z" + body), BodyLabel(c, Some(body)), None)
  }

  function Aqua(did: string): DidMethod
    requires "did:aqua:" <= did
  {
    if Identity.MultihashFromAquaDid(did).Ok? then DidMethod(Some(did[9..]), Some("ML-DSA-87"), None) else NOTHING
  }

  /** The registered methods, in the order they are asked. */
  function Methods(c: Identity.Primitives, keccak: string -> Digest, did: string): Option<DidMethod> {
    if "did:pkh:" <= did then Some(Pkh(keccak, did))
    else if "did:key:" <= did then Some(Key(c, did))
    else if PeerSupported(did) then Some(Peer(c, did))
    else if "did:aqua:" <= did then Some(Aqua(did))
    else None
  }

  /** What a message shows of a DID, for a DID a message can be built for. */
  function Info(c: Identity.Primitives, keccak: string -> Digest, did: string): Option<MethodInfo> {
    Shows(Methods(c, keccak, did))
  }

  // What a DID carries, whichever method spells it.

  /** The multibase body of a DID that has one. */
  function BodyIn(did: string): Option<string> {
    if "did:pkh:" <= did || "did:aqua:" <= did then None
    else if "did:key:" <= did then KeyBody(did)
    else if PeerSupported(did) then PeerBody(did) else None
  }

  /** The key in a `did:key` or `did:peer`. */
  function KeyIn(c: Identity.Primitives, did: string): Option<Identity.KeyType> {
    match BodyIn(did)
    case None => None
    case Some(b) => (match Identity.DecodeMultibaseKey(c, b) case Ok(k) => Some(k) case Err(_) => None)
  }

  /** The chain and the address of a `did:pkh:eip155`. */
  function AccountIn(did: string): Option<(string, string)> {
    if !("did:pkh:" <= did) || Namespace(did).None? || Namespace(did).value.0 != "eip155" then None else
    var remainder := Namespace(did).value.1;
    var colon := Index(remainder, {':'});
    if colon == |remainder| then None else
    match AddressFromDid(remainder) case None => None case Some(lower) => Some((remainder[..colon], lower))
  }

  /** The label and the unread text of the other `did:pkh` namespaces. */
  function RawIn(did: string): Option<(string, string)> {
    if !("did:pkh:" <= did) || Namespace(did).None? then None else
    var (ns, text) := Namespace(did).value;
    if ns == "ed25519" then Some(("Ed25519", text)) else if ns == "p256" then Some(("P-256", text)) else None
  }

  function ThumbprintIn(did: string): Option<seq<byte>> {
    match Identity.MultihashFromAquaDid(did) case Ok(mh) => Some(mh) case Err(_) => None
  }

  function BodyOf(k: Identity.KeyType): string {
    match k
    case Ed25519(raw) => Encode(Identity.ED25519_PREFIX + raw)
    case P256(raw) => Encode(Identity.P256_PREFIX + raw)
  }

  /** What a message shows of a key depends on the key alone. */
  lemma KeyInfo(c: Identity.Primitives, keccak: string -> Digest, did: string)
    requires KeyIn(c, did).Some?
    ensures var k := KeyIn(c, did).value; Info(c, keccak, did) == Some(MethodInfo("z" + BodyOf(k), KeyLabel(k), None))
  {
    Apart(did);
    var body := if "did:key:" <= did then did[9..] else PeerBody(did).value;
    BodySpelling(c, body);
    if "did:key:" <= did {
      KeyText(did);
    }
  }

  lemma BodySpelling(c: Identity.Primitives, body: string)
    requires Identity.DecodeMultibaseKey(c, body).Ok?
    ensures body == BodyOf(Identity.DecodeMultibaseKey(c, body).value)
  {
    Identity.DispatchOf(c, body);
    DecodeEncode(body);
  }

  lemma KeyText(did: string)
    requires Identity.DID_KEY_PREFIX <= did
    ensures did[8..] == "z" + did[9..] && did == "did:key:" + did[8..]
  {
    assert did[8] == 'z';
    assert did[..8] == Identity.DID_KEY_PREFIX[..8];
    assert did == did[..8] + did[8..];
  }

  /** The method prefixes exclude each other. */
  lemma Apart(did: string)
    ensures "did:pkh:" <= did ==> !("did:key:" <= did) && !PeerSupported(did) && !("did:aqua:" <= did)
    ensures "did:key:" <= did ==> !PeerSupported(did) && !("did:aqua:" <= did)
    ensures PeerSupported(did) ==> !("did:aqua:" <= did)
  {
    assert |did| > 5 ==> forall p :: p <= did && |p| > 5 ==> p[4] == did[4] && p[5] == did[5];
  }

  lemma ThumbprintInfo(c: Identity.Primitives, keccak: string -> Digest, did: string)
    requires ThumbprintIn(did).Some?
    ensures "did:aqua:" <= did && did == "did:aqua:" + ("z" + Encode(ThumbprintIn(did).value))
    ensures Info(c, keccak, did) == Some(MethodInfo("z" + Encode(ThumbprintIn(did).value), "ML-DSA-87", None))
  {
    Identity.MultihashIff(did, ThumbprintIn(did).value);
    Apart(did);
    AquaText(did, "z" + Encode(ThumbprintIn(did).value));
  }

  lemma AquaText(did: string, identifier: string)
    requires identifier != "" && identifier[0] == 'z' && did == "did:aqua:z" + identifier[1..]
    ensures did == "did:aqua:" + identifier && did[9..] == identifier && "did:aqua:" <= did
  {
  }

  lemma AccountInfo(c: Identity.Primitives, keccak: string -> Digest, did: string)
    requires AccountIn(did).Some?
    ensures var (chain, lower) := AccountIn(did).value;
            && |lower| == 40 && LowerHex(lower)
            && Info(c, keccak, did) == Some(MethodInfo(AccountText(keccak, lower), "Ethereum", Some("eip155:" + chain)))
  {
    AddressLower(Namespace(did).value.1);
    Apart(did);
  }

  lemma AddressLower(rest: string)
    requires AddressFromDid(rest).Some?
    ensures |AddressFromDid(rest).value| == 40 && LowerHex(AddressFromDid(rest).value)
  {
    LowerHexOf(rest[LastIndex(rest, ':') + 1..][2..]);
  }

  lemma RawInfo(c: Identity.Primitives, keccak: string -> Digest, did: string)
    requires RawIn(did).Some?
    ensures Info(c, keccak, did) == Some(MethodInfo(RawIn(did).value.1, RawIn(did).value.0, None))
  {
  }

  /** A message can be built for exactly the DIDs that carry one of the four. */
  lemma SupportedIff(c: Identity.Primitives, keccak: string -> Digest, did: string)
    ensures Info(c, keccak, did).Some? <==>
            KeyIn(c, did).Some? || AccountIn(did).Some? || RawIn(did).Some? || ThumbprintIn(did).Some?
    ensures KeyIn(c, did).Some? ==> AccountIn(did).None? && RawIn(did).None? && ThumbprintIn(did).None?
    ensures AccountIn(did).Some? || RawIn(did).Some? ==> ThumbprintIn(did).None?
  {
    Apart(did);
    if KeyIn(c, did).Some? {
      KeyInfo(c, keccak, did);
    }
    if ThumbprintIn(did).Some? {
      ThumbprintInfo(c, keccak, did);
    }
    if AccountIn(did).Some? {
      AccountInfo(c, keccak, did);
    }
    if RawIn(did).Some? {
      RawInfo(c, keccak, did);
    }
  }

  // What each DID carries, spelt out.

  /** A component of a `did:peer:2` that holds a verification key. */
  predicate HoldsKey(component: string) {
    "V" <= component && 'z' in component
  }

  /** The key of a `did:peer:2` is what follows the first `z` of the first component that holds one. */
  lemma {:induction false} FirstElementIff(components: seq<string>, body: string)
    ensures FirstElement(components) == Some(body) <==>
            exists i, head :: 0 <= i < |components| && (forall j :: 0 <= j < i ==> !HoldsKey(components[j])) &&
                              HoldsKey(components[i]) && 'z' !in head && components[i] == head + ("z" + body)
  {
    if components != [] {
      var first, rest := components[0], components[1..];
      assert components == [first] + rest;
      AfterZ(first, body);
      FirstElementIff(rest, body);
      if HoldsKey(first) {
        assert FirstElement(components) == Some(first[Index(first, {'z'}) + 1..]);
      } else {
        assert FirstElement(components) == FirstElement(rest);
        LaterElement(components, body);
      }
    }
  }

  lemma AfterZ(component: string, body: string)
    ensures Index(component, {'z'}) < |component| <==> 'z' in component
    ensures 'z' in component ==>
      (component[Index(component, {'z'}) + 1..] == body <==>
       exists head :: 'z' !in head && component == head + ("z" + body))
  {
    var z := Index(component, {'z'});
    ZIndex(component, z);
    forall head | 'z' !in head && component == head + ("z" + body)
      ensures z < |component| && component[z + 1..] == body
    {
      FirstZ(head, body);
    }
  }

  lemma ZIndex(s: string, z: nat)
    requires z == Index(s, {'z'})
    ensures z < |s| <==> 'z' in s
    ensures z < |s| ==> s == s[..z] + ("z" + s[z + 1..]) && 'z' !in s[..z]
  {
    IndexOne(s, 'z', z);
    if z < |s| {
      CutAt(s, z);
    }
  }

  lemma FirstZ(head: string, body: string)
    requires 'z' !in head
    ensures var s := head + ("z" + body); Index(s, {'z'}) == |head| && s[|head| + 1..] == body
  {
    var s := head + ("z" + body);
    assert s[|head|] == 'z' && forall i :: 0 <= i < |head| ==> s[i] == head[i];
    IndexUnique(s, {'z'}, |head|);
  }

  lemma LaterElement(components: seq<string>, body: string)
    requires components != [] && !HoldsKey(components[0])
    ensures var rest := components[1..];
            (exists i, head :: 0 <= i < |components| && (forall j :: 0 <= j < i ==> !HoldsKey(components[j])) &&
                               HoldsKey(components[i]) && 'z' !in head && components[i] == head + ("z" + body)) <==>
            (exists i, head :: 0 <= i < |rest| && (forall j :: 0 <= j < i ==> !HoldsKey(rest[j])) &&
                               HoldsKey(rest[i]) && 'z' !in head && rest[i] == head + ("z" + body))
  {
    var rest := components[1..];
    assert forall i :: 0 <= i < |rest| ==> rest[i] == components[i + 1];
    if i, head :| 0 <= i < |components| && (forall j :: 0 <= j < i ==> !HoldsKey(components[j])) &&
                  HoldsKey(components[i]) && 'z' !in head && components[i] == head + ("z" + body) {
      assert rest[i - 1] == head + ("z" + body);
    }
    if i, head :| 0 <= i < |rest| && (forall j :: 0 <= j < i ==> !HoldsKey(rest[j])) &&
                  HoldsKey(rest[i]) && 'z' !in head && rest[i] == head + ("z" + body) {
      assert components[i + 1] == head + ("z" + body);
    }
  }

  /** `did` spells the key body `body`, under one of the two methods for keys. */
  ghost predicate SpellsBody(did: string, body: string) {
    || did == "did:key:z" + body
    || did == "did:peer:0z" + body
    || (exists rest, i, head ::
          && did == "did:peer:2." + rest
          && 0 <= i < |Split(rest, '.')| && (forall j :: 0 <= j < i ==> !HoldsKey(Split(rest, '.')[j]))
          && HoldsKey(Split(rest, '.')[i]) && 'z' !in head && Split(rest, '.')[i] == head + ("z" + body))
  }

  lemma KeyInIff(c: Identity.Primitives, did: string, k: Identity.KeyType)
    ensures KeyIn(c, did) == Some(k) <==>
            exists body :: SpellsBody(did, body) && Identity.DecodeMultibaseKey(c, body) == Ok(k)
  {
    forall body ensures SpellsBody(did, body) <==> BodyIn(did) == Some(body) {
      BodyIs(did, body);
    }
  }

  lemma BodyIs(did: string, body: string)
    ensures SpellsBody(did, body) <==> BodyIn(did) == Some(body)
  {
    Apart(did);
    if did == "did:key:z" + body {
      KeySpelled(did, body);
    } else if did == "did:peer:0z" + body {
      PeerSpelled(did, body);
    }
    if "did:peer:2." <= did {
      PeerTwo(did, did[11..], body);
    }
    forall rest | did == "did:peer:2." + rest ensures "did:peer:2." <= did && did[11..] == rest {
    }
    if "did:key:z" <= did {
      assert did == "did:key:z" + did[9..];
    }
    if "did:peer:0z" <= did {
      assert did == "did:peer:0z" + did[11..];
    }
  }

  lemma PeerTwo(did: string, rest: string, body: string)
    requires did == "did:peer:2." + rest
    ensures BodyIn(did) == Some(body) <==>
            exists i, head ::
              && 0 <= i < |Split(rest, '.')| && (forall j :: 0 <= j < i ==> !HoldsKey(Split(rest, '.')[j]))
              && HoldsKey(Split(rest, '.')[i]) && 'z' !in head && Split(rest, '.')[i] == head + ("z" + body)
  {
    PeerTwoText(did, rest);
    FirstElementIff(Split(rest, '.'), body);
  }

  lemma PeerTwoText(did: string, rest: string)
    requires did == "did:peer:2." + rest
    ensures BodyIn(did) == FirstElement(Split(rest, '.'))
  {
    Apart(did);
    assert did[..11] == "did:peer:2." && did[4] == 'p' && did[5] == 'e' && did[9] == '2';
    assert did[10..] == "." + rest && (("." + rest)[1..]) == rest;
    assert Split("." + rest, '.') == [""] + Split(rest, '.');
    Uncons("", Split(rest, '.'));
  }

  /** The account of a `did:pkh:eip155` is its first segment and the 40 hex digits of its last. */
  lemma AccountIff(did: string, chain: string, lower: string)
    ensures AccountIn(did) == Some((chain, lower)) <==>
            ':' !in chain && exists front, hex ::
              && did == "did:pkh:eip155:" + (chain + (":" + (front + ("0x" + hex))))
              && |hex| == 40 && IsHexText(hex) && lower == ToLower(hex)
              && (front == "" || front[|front| - 1] == ':')
  {
    if AccountIn(did) == Some((chain, lower)) {
      var front, hex := AccountRead(did, chain, lower);
    }
    forall front, hex | ':' !in chain && did == "did:pkh:eip155:" + (chain + (":" + (front + ("0x" + hex)))) &&
                        |hex| == 40 && IsHexText(hex) && lower == ToLower(hex) &&
                        (front == "" || front[|front| - 1] == ':')
      ensures AccountIn(did) == Some((chain, lower))
    {
      AccountSpelled(did, chain + (":" + (front + ("0x" + hex))), chain, front + ("0x" + hex), front, hex);
    }
  }

  lemma AccountRead(did: string, chain: string, lower: string) returns (front: string, hex: string)
    requires AccountIn(did) == Some((chain, lower))
    ensures ':' !in chain && did == "did:pkh:eip155:" + (chain + (":" + (front + ("0x" + hex))))
    ensures |hex| == 40 && IsHexText(hex) && lower == ToLower(hex) && (front == "" || front[|front| - 1] == ':')
  {
    var remainder := Eip155Remainder(did);
    front, hex := RemainderRead(remainder, chain, lower);
  }

  lemma Eip155Remainder(did: string) returns (remainder: string)
    requires AccountIn(did).Some?
    ensures did == "did:pkh:eip155:" + remainder && Namespace(did) == Some(("eip155", remainder))
  {
    remainder := Namespace(did).value.1;
    Eip155Spelt(did, remainder);
  }

  lemma Eip155Spelt(did: string, remainder: string)
    requires "did:pkh:" <= did && Namespace(did) == Some(("eip155", remainder))
    ensures did == "did:pkh:eip155:" + remainder
  {
    NamespaceIs(did, "eip155", remainder);
    RawText(remainder);
  }

  lemma RemainderRead(remainder: string, chain: string, lower: string) returns (front: string, hex: string)
    requires Index(remainder, {':'}) == |chain| < |remainder| && remainder[..|chain|] == chain
    requires AddressFromDid(remainder) == Some(lower)
    ensures ':' !in chain && remainder == chain + (":" + (front + ("0x" + hex)))
    ensures |hex| == 40 && IsHexText(hex) && lower == ToLower(hex) && (front == "" || front[|front| - 1] == ':')
  {
    var n := LastIndex(remainder, ':');
    var rest := remainder[|chain| + 1..];
    AddressText(remainder, lower, n);
    AtColon(remainder, chain, rest, n);
    hex := remainder[n + 1..][2..];
    front := rest[..n - |chain|];
    AfterFront(remainder, rest, |chain|, n);
  }

  lemma AddressText(s: string, lower: string, n: int)
    requires AddressFromDid(s) == Some(lower) && n == LastIndex(s, ':')
    ensures "0x" <= s[n + 1..] && |s[n + 1..][2..]| == 40 && IsHexText(s[n + 1..][2..])
    ensures lower == ToLower(s[n + 1..][2..])
  {
  }

  lemma AtColon(s: string, chain: string, rest: string, n: int)
    requires Index(s, {':'}) == |chain| < |s| && s[..|chain|] == chain && rest == s[|chain| + 1..]
    requires n == LastIndex(s, ':')
    ensures s == chain + (":" + rest) && ':' !in chain && |chain| <= n && s[n] == ':'
  {
    IndexOne(s, ':', |chain|);
    CutAt(s, |chain|);
  }

  lemma AfterFront(s: string, rest: string, k: nat, n: nat)
    requires k <= n < |s| && rest == s[k + 1..] && s[n] == ':' && "0x" <= s[n + 1..]
    ensures rest == rest[..n - k] + ("0x" + s[n + 1..][2..]) && (n > k ==> rest[n - k - 1] == ':')
  {
    assert rest[n - k..] == s[n + 1..] && s[n + 1..] == "0x" + s[n + 1..][2..];
  }

  lemma NamespaceIs(did: string, ns: string, text: string)
    requires "did:pkh:" <= did
    ensures Namespace(did) == Some((ns, text)) <==> ':' !in ns && did == "did:pkh:" + (ns + (":" + text))
  {
    var rest := did[8..];
    assert did == "did:pkh:" + rest;
    ColonSplit(rest, ns, text);
    if did == "did:pkh:" + (ns + (":" + text)) {
      DropPrefix("did:pkh:", rest, ns + (":" + text));
    }
  }

  lemma ColonSplit(rest: string, ns: string, text: string)
    ensures var colon := Index(rest, {':'});
            colon < |rest| && rest[..colon] == ns && rest[colon + 1..] == text <==>
            ':' !in ns && rest == ns + (":" + text)
  {
    var colon := Index(rest, {':'});
    IndexOne(rest, ':', colon);
    if colon < |rest| {
      CutAt(rest, colon);
    }
    if ':' !in ns {
      FirstColon(ns, text);
    }
  }

  /** The text of the two raw key namespaces is everything after their name. */
  lemma RawIff(did: string, methodLabel: string, text: string)
    ensures RawIn(did) == Some((methodLabel, text)) <==>
            (methodLabel == "Ed25519" && did == "did:pkh:ed25519:" + text) ||
            (methodLabel == "P-256" && did == "did:pkh:p256:" + text)
  {
    RawText(text);
    forall ns: string {:trigger ns + (":" + text)} | "did:pkh:" <= did
      ensures Namespace(did) == Some((ns, text)) <==> ':' !in ns && did == "did:pkh:" + (ns + (":" + text))
    {
      NamespaceIs(did, ns, text);
    }
    assert ':' !in "ed25519" && ':' !in "p256";
  }

  lemma RawText(text: string)
    ensures "did:pkh:" + ("eip155" + (":" + text)) == "did:pkh:eip155:" + text
    ensures "did:pkh:" + ("ed25519" + (":" + text)) == "did:pkh:ed25519:" + text
    ensures "did:pkh:" + ("p256" + (":" + text)) == "did:pkh:p256:" + text
  {
  }

  /** What a message shows of each. */
  lemma InfoText(c: Identity.Primitives, keccak: string -> Digest, did: string)
    ensures forall raw :: KeyIn(c, did) == Some(Identity.Ed25519(raw)) ==>
      Info(c, keccak, did) == Some(MethodInfo("z" + Encode([0xED, 0x01] + raw), "Ed25519", None))
    ensures forall raw :: KeyIn(c, did) == Some(Identity.P256(raw)) ==>
      Info(c, keccak, did) == Some(MethodInfo("z" + Encode([0x80, 0x24] + raw), "P-256", None))
    ensures forall mh :: ThumbprintIn(did) == Some(mh) ==>
      Info(c, keccak, did) == Some(MethodInfo("z" + Encode(mh), "ML-DSA-87", None))
    ensures forall chain, lower :: AccountIn(did) == Some((chain, lower)) ==>
      |lower| == 40 &&
      Info(c, keccak, did) ==
        Some(MethodInfo("0x" + Checksum(keccak(lower), lower), "Ethereum", Some("eip155:" + chain)))
    ensures forall methodLabel, text :: RawIn(did) == Some((methodLabel, text)) ==>
      Info(c, keccak, did) == Some(MethodInfo(text, methodLabel, None))
  {
    if KeyIn(c, did).Some? {
      KeyInfo(c, keccak, did);
    }
    if ThumbprintIn(did).Some? {
      ThumbprintInfo(c, keccak, did);
    }
    if AccountIn(did).Some? {
      AccountInfo(c, keccak, did);
    }
    if RawIn(did).Some? {
      RawInfo(c, keccak, did);
    }
  }

  // Which DIDs share a message.

  lemma EncodeInjective(a: seq<byte>, b: seq<byte>)
    ensures Encode(a) == Encode(b) <==> a == b
  {
    EncodeDecode(a);
    EncodeDecode(b);
  }

  lemma BodyInjective(j: Identity.KeyType, k: Identity.KeyType)
    ensures BodyOf(j) == BodyOf(k) <==> j == k
  {
    var p, q := if j.Ed25519? then Identity.ED25519_PREFIX else Identity.P256_PREFIX,
                if k.Ed25519? then Identity.ED25519_PREFIX else Identity.P256_PREFIX;
    EncodeInjective(p + j.raw, q + k.raw);
    SamePrefixed(p, j.raw, q, k.raw);
  }

  lemma SamePrefixed(p: seq<byte>, a: seq<byte>, q: seq<byte>, b: seq<byte>)
    requires |p| == |q| == 2
    ensures p + a == q + b <==> p == q && a == b
  {
    assert p == (p + a)[..2] && a == (p + a)[2..] && q == (q + b)[..2] && b == (q + b)[2..];
  }

  lemma AccountInjective(keccak: string -> Digest, lower1: string, lower2: string)
    requires |lower1| == |lower2| == 40 && LowerHex(lower1) && LowerHex(lower2)
    ensures AccountText(keccak, lower1) == AccountText(keccak, lower2) <==> lower1 == lower2
  {
    ChecksumIs(keccak(lower1), lower1);
    ChecksumIs(keccak(lower2), lower2);
    if AccountText(keccak, lower1) == AccountText(keccak, lower2) {
      DropPrefix("0x", Checksum(keccak(lower1), lower1), Checksum(keccak(lower2), lower2));
    }
  }

  lemma ZText(a: string, b: string)
    ensures "z" + a == "z" + b <==> a == b
  {
    if "z" + a == "z" + b {
      DropPrefix("z", a, b);
    }
  }

  /** A thumbprint is never spelt like a key: their first bytes differ. */
  lemma BodiesApart(k: Identity.KeyType, mh: seq<byte>)
    requires Identity.IsMultihash(mh)
    ensures BodyOf(k) != Encode(mh)
  {
    var p := if k.Ed25519? then Identity.ED25519_PREFIX else Identity.P256_PREFIX;
    EncodeInjective(p + k.raw, mh);
    assert (p + k.raw)[0] == p[0];
  }

  /** `raw` is a `did:pkh` whose unread text happens to be the line of the key in `did`. */
  predicate RawSpells(c: Identity.Primitives, raw: string, did: string) {
    RawIn(raw).Some? && KeyIn(c, did).Some? &&
    RawIn(raw).value == (KeyLabel(KeyIn(c, did).value), "z" + BodyOf(KeyIn(c, did).value))
  }

  /** The same key, the same thumbprint, the same account on the same chain, or the same raw text. */
  predicate SameCredential(c: Identity.Primitives, did1: string, did2: string) {
    || (KeyIn(c, did1).Some? && KeyIn(c, did1) == KeyIn(c, did2))
    || (ThumbprintIn(did1).Some? && ThumbprintIn(did1) == ThumbprintIn(did2))
    || (AccountIn(did1).Some? && AccountIn(did1) == AccountIn(did2))
    || (RawIn(did1).Some? && RawIn(did1) == RawIn(did2))
    || RawSpells(c, did1, did2) || RawSpells(c, did2, did1)
  }

  lemma LabelsApart()
    ensures "Ethereum" != "Ed25519" && "Ethereum" != "P-256" && "Ethereum" != "ML-DSA-87"
    ensures "ML-DSA-87" != "Ed25519" && "ML-DSA-87" != "P-256" && "Ed25519" != "P-256"
  {
    assert |"Ethereum"| == 8 && |"Ed25519"| == 7 && |"P-256"| == 5 && |"ML-DSA-87"| == 9;
  }

  /** Two DIDs look the same in a message exactly when they carry the same credential. */
  lemma SameInfoIff(c: Identity.Primitives, keccak: string -> Digest, did1: string, did2: string)
    requires Info(c, keccak, did1).Some? && Info(c, keccak, did2).Some?
    ensures Info(c, keccak, did1) == Info(c, keccak, did2) <==> SameCredential(c, did1, did2)
  {
    SupportedIff(c, keccak, did1);
    SupportedIff(c, keccak, did2);
    if KeyIn(c, did1).Some? {
      KeySide(c, keccak, did1, did2);
    } else if KeyIn(c, did2).Some? {
      KeySide(c, keccak, did2, did1);
    } else {
      KeylessSide(c, keccak, did1, did2);
    }
  }

  lemma KeylessSide(c: Identity.Primitives, keccak: string -> Digest, did1: string, did2: string)
    requires Info(c, keccak, did1).Some? && Info(c, keccak, did2).Some? && KeyIn(c, did1).None? && KeyIn(c, did2).None?
    ensures Info(c, keccak, did1) == Info(c, keccak, did2) <==> SameCredential(c, did1, did2)
  {
    SupportedIff(c, keccak, did1);
    SupportedIff(c, keccak, did2);
    if ThumbprintIn(did1).Some? {
      ThumbprintSide(c, keccak, did1, did2);
    } else if ThumbprintIn(did2).Some? {
      ThumbprintSide(c, keccak, did2, did1);
    } else {
      PkhSide(c, keccak, did1, did2);
    }
  }

  lemma KeySide(c: Identity.Primitives, keccak: string -> Digest, did1: string, did2: string)
    requires KeyIn(c, did1).Some? && Info(c, keccak, did2).Some?
    ensures Info(c, keccak, did1) == Info(c, keccak, did2) <==>
            (KeyIn(c, did2).Some? && KeyIn(c, did1) == KeyIn(c, did2)) || RawSpells(c, did2, did1)
  {
    LabelsApart();
    KeyInfo(c, keccak, did1);
    SupportedIff(c, keccak, did2);
    if KeyIn(c, did2).Some? {
      KeyInfo(c, keccak, did2);
      BodyInjective(KeyIn(c, did1).value, KeyIn(c, did2).value);
      ZText(BodyOf(KeyIn(c, did1).value), BodyOf(KeyIn(c, did2).value));
    } else if RawIn(did2).Some? {
      RawInfo(c, keccak, did2);
    } else if AccountIn(did2).Some? {
      AccountInfo(c, keccak, did2);
    } else {
      ThumbprintInfo(c, keccak, did2);
    }
  }

  lemma ThumbprintSide(c: Identity.Primitives, keccak: string -> Digest, did1: string, did2: string)
    requires ThumbprintIn(did1).Some? && Info(c, keccak, did2).Some? && KeyIn(c, did2).None?
    ensures Info(c, keccak, did1) == Info(c, keccak, did2) <==> ThumbprintIn(did1) == ThumbprintIn(did2)
  {
    LabelsApart();
    ThumbprintInfo(c, keccak, did1);
    SupportedIff(c, keccak, did2);
    if ThumbprintIn(did2).Some? {
      ThumbprintInfo(c, keccak, did2);
      EncodeInjective(ThumbprintIn(did1).value, ThumbprintIn(did2).value);
      ZText(Encode(ThumbprintIn(did1).value), Encode(ThumbprintIn(did2).value));
    } else if RawIn(did2).Some? {
      RawInfo(c, keccak, did2);
    } else {
      AccountInfo(c, keccak, did2);
    }
  }

  lemma PkhSide(c: Identity.Primitives, keccak: string -> Digest, did1: string, did2: string)
    requires (AccountIn(did1).Some? || RawIn(did1).Some?) && (AccountIn(did2).Some? || RawIn(did2).Some?)
    ensures Info(c, keccak, did1) == Info(c, keccak, did2) <==>
            (AccountIn(did1).Some? && AccountIn(did1) == AccountIn(did2)) ||
            (RawIn(did1).Some? && RawIn(did1) == RawIn(did2))
  {
    if AccountIn(did1).Some? && AccountIn(did2).Some? {
      AccountSide(c, keccak, did1, did2);
    } else if AccountIn(did1).Some? {
      MixedSide(c, keccak, did1, did2);
    } else if AccountIn(did2).Some? {
      MixedSide(c, keccak, did2, did1);
    } else {
      RawInfo(c, keccak, did1);
      RawInfo(c, keccak, did2);
    }
    OnePkh(did1);
    OnePkh(did2);
  }

  lemma MixedSide(c: Identity.Primitives, keccak: string -> Digest, account: string, raw: string)
    requires AccountIn(account).Some? && RawIn(raw).Some?
    ensures Info(c, keccak, account) != Info(c, keccak, raw)
  {
    LabelsApart();
    AccountInfo(c, keccak, account);
    RawInfo(c, keccak, raw);
  }

  /** A `did:pkh` has one namespace. */
  lemma OnePkh(did: string)
    ensures AccountIn(did).None? || RawIn(did).None?
  {
  }

  lemma AccountSide(c: Identity.Primitives, keccak: string -> Digest, did1: string, did2: string)
    requires AccountIn(did1).Some? && AccountIn(did2).Some?
    ensures Info(c, keccak, did1) == Info(c, keccak, did2) <==> AccountIn(did1) == AccountIn(did2)
  {
    AccountInfo(c, keccak, did1);
    AccountInfo(c, keccak, did2);
    AccountInjective(keccak, AccountIn(did1).value.1, AccountIn(did2).value.1);
    ChainText(AccountIn(did1).value.0, AccountIn(did2).value.0);
  }

  lemma ChainText(a: string, b: string)
    ensures "eip155:" + a == "eip155:" + b <==> a == b
  {
    if "eip155:" + a == "eip155:" + b {
      DropPrefix("eip155:", a, b);
    }
  }

  /** Within `did:key`, and within `did:aqua`, the DID itself is fixed by what it carries. */
  lemma OneSpelling(c: Identity.Primitives, did1: string, did2: string)
    requires ("did:key:" <= did1 && "did:key:" <= did2) || ("did:aqua:" <= did1 && "did:aqua:" <= did2)
    requires KeyIn(c, did1).Some? || ThumbprintIn(did1).Some?
    ensures SameCredential(c, did1, did2) <==> did1 == did2
  {
    Apart(did1);
    Apart(did2);
    if "did:key:" <= did1 {
      OneKeySpelling(c, did1, did2);
    } else if ThumbprintIn(did1) == ThumbprintIn(did2) {
      Identity.MultihashIff(did1, ThumbprintIn(did1).value);
      Identity.MultihashIff(did2, ThumbprintIn(did1).value);
    }
  }

  lemma OneKeySpelling(c: Identity.Primitives, did1: string, did2: string)
    requires "did:key:" <= did1 && "did:key:" <= did2
    ensures KeyIn(c, did1).Some? && KeyIn(c, did1) == KeyIn(c, did2) ==> did1 == did2
    ensures ThumbprintIn(did1).None?
  {
    Apart(did1);
    Apart(did2);
    if ThumbprintIn(did1).Some? {
      Identity.MultihashIff(did1, ThumbprintIn(did1).value);
    }
    if KeyIn(c, did1).Some? && KeyIn(c, did1) == KeyIn(c, did2) {
      BodySpelling(c, did1[9..]);
      BodySpelling(c, did2[9..]);
      KeyText(did1);
      KeyText(did2);
    }
  }

  /** A `did:peer` and the `did:key` of its key look the same, though they are two principals. */
  lemma PeerSharesMessage(c: Identity.Primitives, keccak: string -> Digest, body: string)
    requires Identity.DecodeMultibaseKey(c, body).Ok?
    ensures var key, peer := "did:key:z" + body, "did:peer:0z" + body;
            key != peer && Info(c, keccak, key).Some? && Info(c, keccak, key) == Info(c, keccak, peer)
  {
    TwoSpellings(c, "did:key:z" + body, "did:peer:0z" + body, body);
    KeyInfo(c, keccak, "did:key:z" + body);
    KeyInfo(c, keccak, "did:peer:0z" + body);
  }

  lemma TwoSpellings(c: Identity.Primitives, key: string, peer: string, body: string)
    requires Identity.DecodeMultibaseKey(c, body).Ok? && key == "did:key:z" + body && peer == "did:peer:0z" + body
    ensures key != peer && KeyIn(c, key).Some? && KeyIn(c, key) == KeyIn(c, peer)
  {
    KeySpelled(key, body);
    PeerSpelled(peer, body);
  }

  lemma KeySpelled(did: string, body: string)
    requires did == "did:key:z" + body
    ensures did[4] == 'k' && "did:key:" <= did && KeyBody(did) == Some(body)
    ensures !("did:pkh:" <= did) && !("did:aqua:" <= did)
  {
    assert did[..9] == Identity.DID_KEY_PREFIX && did[9..] == body;
    Apart(did);
  }

  lemma PeerSpelled(did: string, body: string)
    requires did == "did:peer:0z" + body
    ensures did[4] == 'p' && PeerSupported(did) && PeerBody(did) == Some(body)
    ensures !("did:pkh:" <= did) && !("did:aqua:" <= did) && !("did:key:" <= did)
  {
    assert did[..11] == "did:peer:0z" && did[11..] == body;
    Apart(did);
  }

  /** So do two spellings of an account, one with an extra segment; the address may differ in case. */
  lemma SegmentSharesMessage(c: Identity.Primitives, keccak: string -> Digest, chain: string, junk: string,
                             hex1: string, hex2: string)
    requires |hex1| == |hex2| == 40 && IsHexText(hex1) && IsHexText(hex2)
    requires ':' !in chain && ToLower(hex1) == ToLower(hex2)
    ensures var plain, long := "did:pkh:eip155:" + (chain + (":" + ("0x" + hex1))),
                               "did:pkh:eip155:" + (chain + (":" + (junk + (":" + ("0x" + hex2)))));
            plain != long && Info(c, keccak, plain).Some? && Info(c, keccak, plain) == Info(c, keccak, long)
  {
    var r1, r2 := chain + (":" + ("0x" + hex1)), chain + (":" + (junk + (":" + ("0x" + hex2))));
    var plain, long := "did:pkh:eip155:" + r1, "did:pkh:eip155:" + r2;
    AccountSpelled(plain, r1, chain, "0x" + hex1, "", hex1);
    AccountSpelled(long, r2, chain, junk + (":" + ("0x" + hex2)), junk + ":", hex2);
    AccountInfo(c, keccak, plain);
    AccountInfo(c, keccak, long);
  }

  lemma AccountSpelled(did: string, remainder: string, chain: string, rest: string, front: string, hex: string)
    requires did == "did:pkh:eip155:" + remainder && remainder == chain + (":" + rest) && rest == front + ("0x" + hex)
    requires ':' !in chain && |hex| == 40 && IsHexText(hex) && (front == "" || front[|front| - 1] == ':')
    ensures AccountIn(did) == Some((chain, ToLower(hex)))
  {
    NamespaceText(did, remainder);
    FirstColon(chain, rest);
    Assoc(":", front, "0x" + hex);
    Assoc(chain, ":" + front, "0x" + hex);
    LastColon(remainder, chain + (":" + front), hex);
    RemainderAccount(did, remainder, chain, ToLower(hex));
  }

  lemma RemainderAccount(did: string, remainder: string, chain: string, lower: string)
    requires "did:pkh:" <= did && Namespace(did) == Some(("eip155", remainder))
    requires Index(remainder, {':'}) == |chain| < |remainder| && remainder[..|chain|] == chain
    requires AddressFromDid(remainder) == Some(lower)
    ensures AccountIn(did) == Some((chain, lower))
  {
  }

  lemma NamespaceText(did: string, remainder: string)
    requires did == "did:pkh:eip155:" + remainder
    ensures "did:pkh:" <= did && Namespace(did) == Some(("eip155", remainder))
  {
    assert did[8..] == "eip155" + (":" + remainder);
    FirstColon("eip155", remainder);
  }

  lemma FirstColon(a: string, rest: string)
    requires ':' !in a
    ensures var s := a + (":" + rest); Index(s, {':'}) == |a| < |s| && s[..|a|] == a && s[|a| + 1..] == rest
  {
    var s := a + (":" + rest);
    assert s[|a|] == ':' && forall i :: 0 <= i < |a| ==> s[i] == a[i];
    IndexUnique(s, {':'}, |a|);
  }

  lemma LastColon(s: string, front: string, hex: string)
    requires s == front + ("0x" + hex) && front != "" && front[|front| - 1] == ':' && |hex| == 40 && IsHexText(hex)
    ensures AddressFromDid(s) == Some(ToLower(hex))
  {
    var n := |front| - 1;
    assert s[n] == ':' && forall i :: n < i < |s| ==> s[i] == ("0x" + hex)[i - n - 1];
    HexTail(hex);
    LastIndexUnique(s, ':', n);
    assert s[n + 1..] == "0x" + hex;
  }

  lemma HexTail(hex: string)
    requires IsHexText(hex)
    ensures ':' !in "0x" + hex && ("0x" + hex)[2..] == hex
  {
  }

  // What the identifier line alone tells.

  /** The same key, thumbprint or address, whatever the chain; or raw text that is the other's line. */
  predicate SameIdentifier(c: Identity.Primitives, did1: string, did2: string, line1: string, line2: string) {
    || (KeyIn(c, did1).Some? && KeyIn(c, did1) == KeyIn(c, did2))
    || (ThumbprintIn(did1).Some? && ThumbprintIn(did1) == ThumbprintIn(did2))
    || (AccountIn(did1).Some? && AccountIn(did2).Some? && AccountIn(did1).value.1 == AccountIn(did2).value.1)
    || (RawIn(did1).Some? && RawIn(did1).value.1 == line2)
    || (RawIn(did2).Some? && RawIn(did2).value.1 == line1)
  }

  /** The lines of two supported DIDs are equal for no other reason. */
  lemma SameIdentifierIff(c: Identity.Primitives, keccak: string -> Digest, did1: string, did2: string)
    requires Info(c, keccak, did1).Some? && Info(c, keccak, did2).Some?
    ensures var line1, line2 := Info(c, keccak, did1).value.identifier, Info(c, keccak, did2).value.identifier;
            line1 == line2 <==> SameIdentifier(c, did1, did2, line1, line2)
  {
    SupportedIff(c, keccak, did1);
    SupportedIff(c, keccak, did2);
    if RawIn(did1).Some? {
      RawInfo(c, keccak, did1);
    } else if RawIn(did2).Some? {
      RawInfo(c, keccak, did2);
    } else if AccountIn(did1).Some? {
      AccountLine(c, keccak, did1, did2);
    } else if AccountIn(did2).Some? {
      AccountLine(c, keccak, did2, did1);
    } else {
      ZLines(c, keccak, did1, did2);
    }
  }

  lemma AccountLine(c: Identity.Primitives, keccak: string -> Digest, did1: string, did2: string)
    requires AccountIn(did1).Some? && Info(c, keccak, did1).Some? && Info(c, keccak, did2).Some? && RawIn(did2).None?
    ensures Info(c, keccak, did1).value.identifier == Info(c, keccak, did2).value.identifier <==>
            AccountIn(did2).Some? && AccountIn(did1).value.1 == AccountIn(did2).value.1
  {
    AccountInfo(c, keccak, did1);
    SupportedIff(c, keccak, did2);
    assert AccountText(keccak, AccountIn(did1).value.1)[0] == '0';
    if AccountIn(did2).Some? {
      AccountInfo(c, keccak, did2);
      AccountInjective(keccak, AccountIn(did1).value.1, AccountIn(did2).value.1);
    } else if KeyIn(c, did2).Some? {
      KeyInfo(c, keccak, did2);
      assert ("z" + BodyOf(KeyIn(c, did2).value))[0] == 'z';
    } else {
      ThumbprintInfo(c, keccak, did2);
      assert ("z" + Encode(ThumbprintIn(did2).value))[0] == 'z';
    }
  }

  lemma ZLines(c: Identity.Primitives, keccak: string -> Digest, did1: string, did2: string)
    requires (KeyIn(c, did1).Some? || ThumbprintIn(did1).Some?) && Info(c, keccak, did1).Some?
    requires (KeyIn(c, did2).Some? || ThumbprintIn(did2).Some?) && Info(c, keccak, did2).Some?
    ensures Info(c, keccak, did1).value.identifier == Info(c, keccak, did2).value.identifier <==>
            (KeyIn(c, did1).Some? && KeyIn(c, did1) == KeyIn(c, did2)) ||
            (ThumbprintIn(did1).Some? && ThumbprintIn(did1) == ThumbprintIn(did2))
  {
    SupportedIff(c, keccak, did1);
    SupportedIff(c, keccak, did2);
    var b1, b2 := ZLine(c, keccak, did1), ZLine(c, keccak, did2);
    ZText(b1, b2);
    if KeyIn(c, did1).Some? && KeyIn(c, did2).Some? {
      BodyInjective(KeyIn(c, did1).value, KeyIn(c, did2).value);
    } else if KeyIn(c, did1).Some? {
      Identity.MultihashIff(did2, ThumbprintIn(did2).value);
      BodiesApart(KeyIn(c, did1).value, ThumbprintIn(did2).value);
    } else if KeyIn(c, did2).Some? {
      Identity.MultihashIff(did1, ThumbprintIn(did1).value);
      BodiesApart(KeyIn(c, did2).value, ThumbprintIn(did1).value);
    } else {
      EncodeInjective(ThumbprintIn(did1).value, ThumbprintIn(did2).value);
    }
  }

  /** The text after the multibase prefix. */
  function ZLine(c: Identity.Primitives, keccak: string -> Digest, did: string): (body: string)
    requires KeyIn(c, did).Some? || ThumbprintIn(did).Some?
    ensures Info(c, keccak, did).Some? && Info(c, keccak, did).value.identifier == "z" + body
  {
    if KeyIn(c, did).Some? then KeyInfo(c, keccak, did); BodyOf(KeyIn(c, did).value)
    else ThumbprintInfo(c, keccak, did); Encode(ThumbprintIn(did).value)
  }

  // Identifier lines the extractors can work with.

  lemma Plain(c: char)
    requires InAlphabet(c) || Hex.IsHex(c) || c == 'x'
    ensures !White(c) && c != '\n'
  {
  }

  lemma PlainText(head: char, body: string)
    requires head == 'z' || head == '0'
    requires forall i :: 0 <= i < |body| ==> InAlphabet(body[i]) || Hex.IsHex(body[i]) || body[i] == 'x'
    ensures Identifying([head] + body)
  {
    var s := [head] + body;
    forall i | 0 <= i < |s| ensures !White(s[i]) && s[i] != '\n' {
      Plain(s[i]);
    }
    assert s[0] != 'U';
  }

  lemma AddressPlain(d: Digest, lower: string)
    requires |lower| <= 64 && LowerHex(lower)
    ensures Identifying("0x" + Checksum(d, lower))
  {
    var body := "x" + Checksum(d, lower);
    assert "0x" + Checksum(d, lower) == ['0'] + body;
    PlainText('0', body);
  }

  lemma EncodedPlain(b: seq<byte>)
    ensures Identifying("z" + Encode(b))
  {
    EncodeIsBase58(b);
    PlainText('z', Encode(b));
  }

  /** Raw text aside, every supported DID has a line both extractors can work with. */
  lemma SupportedIdentifying(c: Identity.Primitives, keccak: string -> Digest, did: string)
    requires Info(c, keccak, did).Some?
    ensures Identifying(Info(c, keccak, did).value.identifier) <==>
            (RawIn(did).Some? ==> Identifying(RawIn(did).value.1))
  {
    SupportedIff(c, keccak, did);
    if KeyIn(c, did).Some? {
      KeyInfo(c, keccak, did);
      match KeyIn(c, did).value
      case Ed25519(raw) => EncodedPlain(Identity.ED25519_PREFIX + raw);
      case P256(raw) => EncodedPlain(Identity.P256_PREFIX + raw);
    } else if ThumbprintIn(did).Some? {
      ThumbprintInfo(c, keccak, did);
      EncodedPlain(ThumbprintIn(did).value);
    } else if AccountIn(did).Some? {
      AccountInfo(c, keccak, did);
      AddressPlain(keccak(AccountIn(did).value.1), AccountIn(did).value.1);
    } else {
      RawInfo(c, keccak, did);
    }
  }

  /** Raw text is not read when a message is built, so its line may be blank or broken. */
  lemma RawTextUnread(c: Identity.Primitives, keccak: string -> Digest, text: string)
    ensures var info := Info(c, keccak, "did:pkh:ed25519:" + text);
            info == Some(MethodInfo(text, "Ed25519", None)) &&
            (Identifying(info.value.identifier) <==> Identifying(text))
  {
    var did := "did:pkh:ed25519:" + text;
    assert did[8..] == "ed25519" + (":" + text);
    FirstColon("ed25519", text);
    assert RawIn(did) == Some(("Ed25519", text));
    RawInfo(c, keccak, did);
  }

  lemma LabelPlain(c: Identity.Primitives, keccak: string -> Digest, did: string)
    requires Info(c, keccak, did).Some?
    ensures var info := Info(c, keccak, did).value;
            OneLine(info.methodLabel) && ' ' !in info.methodLabel &&
            (info.chainId.Some? ==> CHAIN_PREFIX <= info.chainId.value)
  {
    SupportedIff(c, keccak, did);
    PlainLabels("Ethereum");
    PlainLabels("Ed25519");
    PlainLabels("P-256");
    PlainLabels("ML-DSA-87");
    if KeyIn(c, did).Some? {
      KeyInfo(c, keccak, did);
    } else if ThumbprintIn(did).Some? {
      ThumbprintInfo(c, keccak, did);
    } else if AccountIn(did).Some? {
      AccountInfo(c, keccak, did);
      assert CHAIN_PREFIX <= "eip155:" + AccountIn(did).value.0;
    } else {
      RawInfo(c, keccak, did);
    }
  }

  lemma PlainLabels(l: string)
    requires l in {"Ethereum", "Ed25519", "P-256", "ML-DSA-87"}
    ensures OneLine(l) && ' ' !in l
  {
  }

  /** The chain line gives the chain back. */
  lemma ChainOf(a: Option<string>, b: Option<string>)
    requires (a.Some? ==> CHAIN_PREFIX <= a.value) && (b.Some? ==> CHAIN_PREFIX <= b.value)
    requires ChainLine(a) == ChainLine(b)
    ensures a == b
  {
    if a.Some? && b.Some? {
      DropPrefix("\nChain ID: ", a.value[|CHAIN_PREFIX|..], b.value[|CHAIN_PREFIX|..]);
      assert a.value == CHAIN_PREFIX + a.value[|CHAIN_PREFIX|..] && b.value == CHAIN_PREFIX + b.value[|CHAIN_PREFIX|..];
    }
  }

  /** One message is for two requests exactly when they agree in every field and name one credential. */
  lemma SameMessageIff(c: Identity.Primitives, keccak: string -> Digest, m1: MessageParams, m2: MessageParams)
    requires Info(c, keccak, m1.did).Some? && OneLineFields(m1, Info(c, keccak, m1.did).value)
    requires Info(c, keccak, m2.did).Some? && OneLineFields(m2, Info(c, keccak, m2.did).value)
    ensures var methods := did => Methods(c, keccak, did);
            BuildMessage(methods, m1) == BuildMessage(methods, m2) <==>
              SameCredential(c, m1.did, m2.did) && m1.(did := m2.did) == m2
  {
    var i1, i2 := Info(c, keccak, m1.did).value, Info(c, keccak, m2.did).value;
    SameInfoIff(c, keccak, m1.did, m2.did);
    if Compose(m1, i1) == Compose(m2, i2) {
      LabelPlain(c, keccak, m1.did);
      LabelPlain(c, keccak, m2.did);
      MessageInjective(m1, i1, m2, i2);
      HeadInjective(m1.domain, i1.methodLabel, m2.domain, i2.methodLabel);
      ChainOf(i1.chainId, i2.chainId);
    }
    if m1.(did := m2.did) == m2 && i1 == i2 {
      ComposeIgnoresDid(m1, m2, i1);
    }
  }

  lemma ComposeIgnoresDid(m1: MessageParams, m2: MessageParams, info: MethodInfo)
    requires m1.(did := m2.did) == m2
    ensures Compose(m1, info) == Compose(m2, info)
  {
  }
}
