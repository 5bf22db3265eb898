/** Reading `Signature-Input` and `Signature`, and the canonical-form check. */
module SignatureInput {
  import opened Wrappers
  import opened Bytes
  import opened Text
  import opened Decimal
  import opened StructuredFields
  import opened HttpSigErrors
  import opened SignatureBase

  const PARAM_ORDER: seq<string> := ["created", "expires", "keyid", "alg", "nonce", "tag"]

  function Lookup<V>(m: seq<(string, V)>, k: string): Option<V> {
    if m == [] then None else if m[0].0 == k then Some(m[0].1) else Lookup(m[1..], k)
  }

  function Keys<V>(m: seq<(string, V)>): (r: seq<string>)
    ensures |r| == |m| && forall i :: 0 <= i < |m| ==> r[i] == m[i].0
  {
    seq(|m|, i requires 0 <= i < |m| => m[i].0)
  }

  /** The name a covered component item stands for in this profile. */
  function CoveredName(item: Item): Result<string, HttpSigError> {
    if item.params != [] then Err(MalformedSignatureInput)
    else if !item.value.Str? then Err(MalformedSignatureInput)
    else if item.value.s !in ALLOWED then Err(UnsupportedComponent)
    else Ok(item.value.s)
  }

  function CoveredNames(items: seq<Item>): Result<seq<string>, HttpSigError> {
    if items == [] then Ok([])
    else
      match CoveredName(items[0])
      case Err(e) => Err(e)
      case Ok(name) =>
        match CoveredNames(items[1..])
        case Err(e) => Err(e)
        case Ok(rest) => Ok([name] + rest)
  }

  function Extend(covered: seq<string>, r: Result<seq<string>, HttpSigError>): Result<seq<string>, HttpSigError> {
    match r case Err(e) => Err(e) case Ok(rest) => Ok(covered + rest)
  }

  method ReadCovered(items: seq<Item>) returns (r: Result<seq<string>, HttpSigError>)
    ensures r == CoveredNames(items)
  {
    var covered, i := [], 0;
    ExtendNothing(CoveredNames(items));
    assert items[0..] == items;
    while i < |items|
      invariant 0 <= i <= |items|
      invariant CoveredNames(items) == Extend(covered, CoveredNames(items[i..]))
    {
      assert items[i..][0] == items[i] && items[i..][1..] == items[i + 1..];
      var name := CoveredName(items[i]);
      if name.Err? {
        return Err(name.error);
      }
      ExtendStep(covered, name.value, CoveredNames(items[i + 1..]));
      covered := covered + [name.value];
      i := i + 1;
    }
    assert covered + [] == covered;
    return Ok(covered);
  }

  lemma ExtendNothing(r: Result<seq<string>, HttpSigError>)
    ensures Extend([], r) == r
  {
    if r.Ok? {
      assert [] + r.value == r.value;
    }
  }

  lemma ExtendStep(covered: seq<string>, name: string, r: Result<seq<string>, HttpSigError>)
    ensures Extend(covered, Extend([name], r)) == Extend(covered + [name], r)
  {
    if r.Ok? {
      Assoc(covered, [name], r.value);
    }
  }

  function IntegerParam(ps: Params, name: string): Result<int, HttpSigError> {
    var found: Option<BareItem> := Lookup(ps, name);
    match found
    case Some(Integer(i)) => Ok(i)
    case _ => Err(MalformedSignatureInput)
  }

  function StringParam(ps: Params, name: string): Result<string, HttpSigError> {
    var found: Option<BareItem> := Lookup(ps, name);
    match found
    case Some(Str(s)) => Ok(s)
    case _ => Err(MalformedSignatureInput)
  }

  function ReadParams(covered: seq<string>, ps: Params): Result<SignatureParams, HttpSigError> {
    var created :- IntegerParam(ps, "created");
    var expires :- IntegerParam(ps, "expires");
    var keyid :- StringParam(ps, "keyid");
    var alg :- StringParam(ps, "alg");
    var nonce :- StringParam(ps, "nonce");
    var tag :- StringParam(ps, "tag");
    Ok(SignatureParams(covered, created, expires, keyid, alg, nonce, tag))
  }

  /** The profile's checks on a parsed dictionary. */
  function ReadMember(m: Member): Result<SignatureParams, HttpSigError> {
    if m.Single? then Err(MalformedSignatureInput) else
    var covered :- CoveredNames(m.items);
    if AUTHORITY !in covered then Err(MissingComponent)
    else if Keys(m.params) != PARAM_ORDER then Err(MalformedSignatureInput)
    else ReadParams(covered, m.params)
  }

  function ParseSignatureInput(header: string, codec: Codec): Result<(string, SignatureParams), HttpSigError> {
    match ParseDictionary(header, codec)
    case None => Err(MalformedSignatureInput)
    case Some(dict) =>
      if |dict| != 1 then Err(MalformedSignatureInput) else
      var params :- ReadMember(dict[0].1);
      Ok((dict[0].0, params))
  }

  /** The bytes stored under the signature's key. */
  function ParseSignature(header: string, key: string, codec: Codec): Result<seq<byte>, HttpSigError> {
    match ParseDictionary(header, codec)
    case None => Err(MalformedSignature)
    case Some(dict) =>
      var found: Option<Member> := Lookup(dict, key);
      match found
      case Some(Single(Item(Bytes(b), _))) => Ok(b)
      case _ => Err(MalformedSignature)
  }

  /** Printable parameters that cover only this profile's components, the authority among them. */
  predicate InProfile(p: SignatureParams) {
    Serializable(p) && AllowedNames(p.covered)
  }

  lemma {:induction false} NamesReadBack(names: seq<string>)
    requires forall i :: 0 <= i < |names| ==> names[i] in ALLOWED
    ensures CoveredNames(NameItems(names)) == Ok(names)
  {
    var items := NameItems(names);
    if names != [] {
      assert items[1..] == NameItems(names[1..]);
      NamesReadBack(names[1..]);
      assert names == [names[0]] + names[1..];
    }
  }

  lemma KeysOfParams(p: SignatureParams)
    ensures Keys(ParamList(p)) == PARAM_ORDER
  {
  }

  lemma ParamNamesDiffer()
    ensures "created"[0] == 'c' && "expires"[0] == 'e' && "keyid"[0] == 'k' && "alg"[0] == 'a' &&
            "nonce"[0] == 'n' && "tag"[0] == 't'
  {
  }

  lemma LookupAt<V>(m: seq<(string, V)>, i: nat)
    requires i < |m| && forall j :: 0 <= j < i ==> m[j].0 != m[i].0
    ensures Lookup(m, m[i].0) == Some(m[i].1)
  {
    if i > 0 {
      assert m[1..][i - 1] == m[i];
      assert m[0].0 != m[i].0;
      assert forall j :: 0 <= j < i - 1 ==> m[1..][j] == m[j + 1];
      LookupAt(m[1..], i - 1);
    }
  }

  lemma ParamsReadBack(p: SignatureParams)
    ensures ReadParams(p.covered, ParamList(p)) == Ok(p)
  {
    var ps := ParamList(p);
    ParamNamesDiffer();
    LookupAt(ps, 0);
    LookupAt(ps, 1);
    LookupAt(ps, 2);
    LookupAt(ps, 3);
    LookupAt(ps, 4);
    LookupAt(ps, 5);
  }

  lemma MemberReadsBack(p: SignatureParams)
    requires InProfile(p)
    ensures ReadMember(InnerList(NameItems(p.covered), ParamList(p))) == Ok(p)
  {
    NamesReadBack(p.covered);
    KeysOfParams(p);
    ParamsReadBack(p);
  }

  // ---------- The canonical form ----------

  /** `header` is the canonical text of `p` under `key`, with only the padding the parser skips. */
  predicate Spells(header: string, pre: string, post: string, key: string, p: SignatureParams)
    requires Serializable(p)
  {
    AllIn(pre, SpaceClass) && AllIn(post, OwsClass) && header == pre + (key + (['='] + (ParamsText(p) + post)))
  }

  lemma BlankPost(post: string)
    requires Blank(post)
    ensures AfterParams(post)
  {
    assert post != [] ==> post[0] in post;
  }

  lemma OwsBlank(post: string)
    requires AllIn(post, OwsClass)
    ensures Blank(post)
  {
  }

  lemma SpaceBlank(pre: string)
    requires AllIn(pre, SpaceClass)
    ensures Blank(pre)
  {
  }

  /** Parsing inverts printing for every in-profile parameter set, every key and any padding. */
  lemma ParseInvertsPrint(header: string, pre: string, post: string, key: string, p: SignatureParams, codec: Codec)
    requires InProfile(p) && IsKey(key) && Spells(header, pre, post, key, p)
    ensures ParseSignatureInput(header, codec) == Ok((key, p))
  {
    OwsBlank(post);
    BlankPost(post);
    ParamsTextParses(p, post, codec);
    var m := InnerList(NameItems(p.covered), ParamList(p));
    ParseOneMember(pre, key, ParamsText(p) + post, post, m, codec);
    MemberReadsBack(p);
  }

  /** The two checks a header passes before its signature base is built. */
  predicate Canonical(header: string, key: string, p: SignatureParams, codec: Codec) {
    ParseSignatureInput(header, codec) == Ok((key, p)) && SignatureInputHeader(key, p) == Ok(Trim(header))
  }

  lemma ParsedInProfile(header: string, codec: Codec)
    requires ParseSignatureInput(header, codec).Ok?
    ensures AllowedNames(ParseSignatureInput(header, codec).value.1.covered)
  {
    ReadInProfile(ParseDictionary(header, codec).value[0].1);
  }

  predicate AllowedNames(names: seq<string>) {
    AUTHORITY in names && forall i :: 0 <= i < |names| ==> names[i] in ALLOWED
  }

  lemma ReadInProfile(m: Member)
    requires ReadMember(m).Ok?
    ensures AllowedNames(ReadMember(m).value.covered)
  {
    CoveredAllowed(m.items);
  }

  lemma {:induction false} CoveredAllowed(items: seq<Item>)
    requires CoveredNames(items).Ok?
    ensures var names := CoveredNames(items).value; forall i :: 0 <= i < |names| ==> names[i] in ALLOWED
  {
    if items != [] {
      CoveredAllowed(items[1..]);
    }
  }

  /** The canonical text starts with its key and ends with the quote that closes `tag`. */
  lemma CanonicalTrimmed(key: string, p: SignatureParams)
    requires IsKey(key) && Serializable(p)
    ensures Trimmed(key + (['='] + ParamsText(p)))
  {
    ParamListOk(p);
    ParamsEndQuote(ParamList(p));
    var t := key + (['='] + ParamsText(p));
    assert t[0] == key[0] && t[|t| - 1] == '"';
  }

  lemma {:induction false} ParamsEndQuote(ps: Params)
    requires PrintableParams(ps) && ps != [] && ps[|ps| - 1].1.Str?
    ensures PrintParams(ps) != [] && PrintParams(ps)[|PrintParams(ps)| - 1] == '"'
  {
    if |ps| > 1 {
      PrintParamsStep(ps, []);
      ParamsEndQuote(ps[1..]);
    } else {
      var v := ps[0].1;
      assert PrintBareItem(v)[|PrintBareItem(v)| - 1] == '"';
      assert PrintParams(ps[1..]) == [];
    }
  }

  /** White space other than spaces before the key is refused. */
  lemma BadLead(pre: string, rest: string, codec: Codec)
    requires Blank(pre) && !AllIn(pre, SpaceClass)
    ensures ParseDictionary(pre + rest, codec) == None
  {
    var n := Span(pre, SpaceClass);
    var header := pre + rest;
    SpanUnique(header, SpaceClass, n);
    assert Skip(header, SpaceClass)[0] == pre[n] && pre[n] in pre;
  }

  lemma Regroup(pre: string, key: string, text: string, post: string)
    ensures pre + (key + (['='] + text)) + post == pre + (key + (['='] + (text + post)))
  {
  }

  /**
   A header passes exactly when it is the canonical text of in-profile parameters, padded only
   with spaces before and optional white space after: parsing adds no second spelling.
   */
  lemma CanonicalIff(header: string, key: string, p: SignatureParams, codec: Codec)
    ensures Canonical(header, key, p, codec) <==>
            IsKey(key) && InProfile(p) && exists pre, post :: Spells(header, pre, post, key, p)
  {
    if Canonical(header, key, p, codec) {
      var pre, post := CanonicalSpelling(header, key, p, codec);
    }
    if IsKey(key) && InProfile(p) {
      forall pre, post | Spells(header, pre, post, key, p) ensures Canonical(header, key, p, codec) {
        SpellingCanonical(header, pre, post, key, p, codec);
      }
    }
  }

  lemma CanonicalSpelling(header: string, key: string, p: SignatureParams, codec: Codec)
    returns (pre: string, post: string)
    requires Canonical(header, key, p, codec)
    ensures IsKey(key) && InProfile(p) && Spells(header, pre, post, key, p)
  {
    ParsedInProfile(header, codec);
    pre, post := TrimSplits(header);
    Regroup(pre, key, ParamsText(p), post);
    if !AllIn(pre, SpaceClass) {
      BadLead(pre, key + (['='] + (ParamsText(p) + post)), codec);
    }
    BlankPost(post);
    ParamsTextParses(p, post, codec);
    var m := InnerList(NameItems(p.covered), ParamList(p));
    ParseOneMember(pre, key, ParamsText(p) + post, post, m, codec);
  }

  lemma SpellingCanonical(header: string, pre: string, post: string, key: string, p: SignatureParams, codec: Codec)
    requires IsKey(key) && InProfile(p) && Spells(header, pre, post, key, p)
    ensures Canonical(header, key, p, codec)
  {
    ParseInvertsPrint(header, pre, post, key, p, codec);
    Regroup(pre, key, ParamsText(p), post);
    CanonicalTrimmed(key, p);
    OwsBlank(post);
    SpaceBlank(pre);
    TrimPadded(pre, key + (['='] + ParamsText(p)), post);
  }

  lemma AfterKey(key: string, text: string)
    ensures var h := key + (['='] + text); h[|key|] == '=' && h[..|key|] == key && h[|key| + 1..] == text
  {
  }

  /** The last line of the base is the received header, byte for byte, after the key and `=`. */
  lemma BaseCarriesHeader(header: string, key: string, p: SignatureParams, parts: RequestParts, codec: Codec)
    requires Canonical(header, key, p, codec) && Base(parts, p).Ok?
    ensures |key| < |Trim(header)| && Trim(header)[..|key|] == key && Trim(header)[|key|] == '='
    ensures Base(parts, p).value == BaseLines(p.covered, {}, parts).value + (PARAMS_KEY + Trim(header)[|key| + 1..])
  {
    AfterKey(key, ParamsText(p));
  }

  /** What a lawful codec gives the signature bytes: an inverse that never writes a colon. */
  ghost predicate Lawful(codec: Codec) {
    forall b :: codec.decode(codec.encode(b)) == Some(b) && ':' !in codec.encode(b)
  }

  lemma ParseSignatureInvertsPrint(key: string, signature: seq<byte>, codec: Codec)
    requires Lawful(codec) && IsKey(key)
    ensures ParseSignature(SignatureHeader(key, signature, codec).value, key, codec) == Ok(signature)
  {
    var text := ":" + codec.encode(signature) + ":";
    var m := Single(Item(Bytes(signature), []));
    ParseBytesOf(signature, [], codec);
    assert text + [] == text;
    assert text[0] == ':';
    assert ParseMember(text, codec) == Got(m, []);
    var whole := key + (['='] + text);
    ParseOneMember([], key, text, [], m, codec);
    assert [] + whole == whole;
  }

  // Several signatures in one header.

  /** A `Signature` header with these members, in order. */
  function SignaturesText(sigs: seq<(string, seq<byte>)>, codec: Codec): string {
    if sigs == [] then ""
    else
      var first := sigs[0].0 + "=:" + codec.encode(sigs[0].1) + ":";
      if |sigs| == 1 then first else first + ", " + SignaturesText(sigs[1..], codec)
  }

  /** The bytes of the last of the signatures under a key are read, whatever stands before and after it. */
  lemma SignatureAmong(sigs: seq<(string, seq<byte>)>, key: string, codec: Codec)
    requires Lawful(codec) && sigs != [] && forall i :: 0 <= i < |sigs| ==> IsKey(sigs[i].0)
    ensures forall i :: 0 <= i < |sigs| && sigs[i].0 == key && (forall j :: i < j < |sigs| ==> sigs[j].0 != key) ==>
      ParseSignature(SignaturesText(sigs, codec), key, codec) == Ok(sigs[i].1)
    ensures (forall i :: 0 <= i < |sigs| ==> sigs[i].0 != key) ==>
      ParseSignature(SignaturesText(sigs, codec), key, codec) == Err(MalformedSignature)
  {
    MembersOf(sigs, [], codec);
    SkipNone(SignaturesText(sigs, codec), SpaceClass);
    forall i | 0 <= i < |sigs| && sigs[i].0 == key && (forall j :: i < j < |sigs| ==> sigs[j].0 != key)
      ensures ParseSignature(SignaturesText(sigs, codec), key, codec) == Ok(sigs[i].1)
    {
      LastOf(sigs, [], key, i);
    }
    if forall i :: 0 <= i < |sigs| ==> sigs[i].0 != key {
      NoneOf(sigs, [], key);
    }
  }

  function SignatureMember(b: seq<byte>): Member {
    Single(Item(Bytes(b), []))
  }

  /** The members put into a dictionary one after the other. */
  function PutAll(acc: Dictionary, sigs: seq<(string, seq<byte>)>): Dictionary
    decreases |sigs|
  {
    if sigs == [] then acc else PutAll(Put(acc, sigs[0].0, SignatureMember(sigs[0].1)), sigs[1..])
  }

  lemma SignatureText(key: string, text: string, rest: string)
    ensures key + "=:" + text + ":" + rest == key + (['='] + (":" + text + ":" + rest))
  {
  }

  lemma SignatureMemberOf(b: seq<byte>, rest: string, codec: Codec)
    requires Lawful(codec) && (rest == [] || rest[0] != ';')
    ensures ParseMember(":" + codec.encode(b) + ":" + rest, codec) == Got(SignatureMember(b), rest)
  {
    ParseBytesOf(b, rest, codec);
    assert (":" + codec.encode(b) + ":" + rest)[0] == ':';
  }

  lemma {:induction false} MembersOf(sigs: seq<(string, seq<byte>)>, acc: Dictionary, codec: Codec)
    requires Lawful(codec) && sigs != [] && forall i :: 0 <= i < |sigs| ==> IsKey(sigs[i].0)
    ensures ParseMembers(SignaturesText(sigs, codec), acc, codec) == Some(PutAll(acc, sigs))
    ensures SignaturesText(sigs, codec) != [] && IsKeyStart(SignaturesText(sigs, codec)[0])
    decreases |sigs|
  {
    var (key, b) := sigs[0];
    var more := SignaturesText(sigs[1..], codec);
    if |sigs| == 1 {
      SignatureMemberOf(b, [], codec);
      SignatureText(key, codec.encode(b), []);
      LastMember(key, codec.encode(b), SignatureMember(b), acc, codec);
      assert PutAll(acc, sigs) == Put(acc, key, SignatureMember(b));
    } else {
      assert forall i :: 0 <= i < |sigs[1..]| ==> sigs[1..][i] == sigs[i + 1];
      MembersOf(sigs[1..], Put(acc, key, SignatureMember(b)), codec);
      SignatureMemberOf(b, ", " + more, codec);
      NextMember(key, codec.encode(b), SignatureMember(b), more, acc, codec);
    }
  }

  lemma LastMember(key: string, text: string, m: Member, acc: Dictionary, codec: Codec)
    requires IsKey(key) && ParseMember(":" + text + ":" + [], codec) == Got(m, [])
    ensures ParseMembers(key + "=:" + text + ":", acc, codec) == Some(Put(acc, key, m))
  {
    SignatureText(key, text, []);
    assert key + "=:" + text + ":" + [] == key + "=:" + text + ":";
    ParseMembersLast(key, ":" + text + ":" + [], m, acc, codec);
  }

  lemma NextMember(key: string, text: string, m: Member, more: string, acc: Dictionary, codec: Codec)
    requires IsKey(key) && ParseMember(":" + text + ":" + (", " + more), codec) == Got(m, ", " + more)
    requires more != [] && IsKeyStart(more[0])
    ensures ParseMembers(key + "=:" + text + ":" + ", " + more, acc, codec) ==
            ParseMembers(more, Put(acc, key, m), codec)
  {
    NextText(key, text, more);
    CommaText(more);
    ParseMembersNext(key, ":" + text + ":" + (", " + more), m, [], [' '], more, acc, codec);
  }

  lemma NextText(key: string, text: string, more: string)
    ensures key + "=:" + text + ":" + ", " + more == key + (['='] + (":" + text + ":" + (", " + more)))
  {
  }

  lemma CommaText(more: string)
    ensures ", " + more == [] + ([','] + ([' '] + more))
  {
  }

  lemma {:induction false} LookupPut<V>(m: seq<(string, V)>, k: string, v: V, key: string)
    ensures Lookup(Put(m, k, v), key) == if key == k then Some(v) else Lookup(m, key)
  {
    if m != [] && m[0].0 != k {
      LookupPut(m[1..], k, v, key);
      Uncons(m[0], Put(m[1..], k, v));
    } else if m != [] {
      Uncons((k, v), m[1..]);
    }
  }

  lemma {:induction false} NoneOf(sigs: seq<(string, seq<byte>)>, acc: Dictionary, key: string)
    requires forall i :: 0 <= i < |sigs| ==> sigs[i].0 != key
    ensures Lookup(PutAll(acc, sigs), key) == Lookup(acc, key)
    decreases |sigs|
  {
    if sigs != [] {
      LookupPut(acc, sigs[0].0, SignatureMember(sigs[0].1), key);
      NoneOf(sigs[1..], Put(acc, sigs[0].0, SignatureMember(sigs[0].1)), key);
    }
  }

  lemma {:induction false} LastOf(sigs: seq<(string, seq<byte>)>, acc: Dictionary, key: string, i: nat)
    requires i < |sigs| && sigs[i].0 == key && forall j :: i < j < |sigs| ==> sigs[j].0 != key
    ensures Lookup(PutAll(acc, sigs), key) == Some(SignatureMember(sigs[i].1))
    decreases |sigs|
  {
    var next := Put(acc, sigs[0].0, SignatureMember(sigs[0].1));
    if i == 0 {
      LookupPut(acc, key, SignatureMember(sigs[0].1), key);
      NoneOf(sigs[1..], next, key);
    } else {
      LastOf(sigs[1..], next, key, i - 1);
    }
  }

  // Whatever parses can be printed.

  /** What the parser can make of an integer or a string is what the printer accepts. */
  predicate ItemPrints(v: BareItem) {
    (v.Integer? ==> InRange(v.i)) && (v.Str? ==> Printable(v.s))
  }

  lemma {:induction false} ParseNatBound(s: string)
    requires Digits(s)
    ensures ParseNat(s) < Pow10(|s|)
  {
    if s != [] {
      ParseNatBound(s[..|s| - 1]);
    }
  }

  lemma {:induction false} Pow10Grows(j: nat, k: nat)
    requires j <= k
    ensures Pow10(j) <= Pow10(k)
  {
    if j < k {
      Pow10Grows(j, k - 1);
    }
  }

  lemma {:induction false} ParsedStringPrints(s: string)
    requires ParseStringBody(s).Got?
    ensures Printable(ParseStringBody(s).value)
  {
    if s[0] == '\\' {
      ParsedStringPrints(s[2..]);
    } else if s[0] != '"' {
      ParsedStringPrints(s[1..]);
    }
  }

  lemma UnsignedPrints(t: string, negative: bool)
    requires ParseUnsigned(t, negative).Got?
    ensures ItemPrints(ParseUnsigned(t, negative).value)
  {
    var n := Span(t, DigitClass);
    SpanDigits(t);
    if n <= 15 {
      ParseNatBound(t[..n]);
      Pow10Grows(n, 15);
      IntegerDigits();
    }
  }

  lemma ParsedItemPrints(s: string, codec: Codec)
    requires ParseBareItem(s, codec).Got?
    ensures ItemPrints(ParseBareItem(s, codec).value)
  {
    if s[0] == '"' {
      ParsedStringPrints(s[1..]);
    } else if s[0] == '-' {
      UnsignedPrints(s[1..], true);
    } else if IsDigit(s[0]) {
      UnsignedPrints(s, false);
    }
  }

  predicate ParamsPrint(ps: Params) {
    forall i :: 0 <= i < |ps| ==> ItemPrints(ps[i].1)
  }

  lemma {:induction false} PutPrints(ps: Params, k: string, v: BareItem)
    requires ParamsPrint(ps) && ItemPrints(v)
    ensures ParamsPrint(Put(ps, k, v))
  {
    if ps != [] && ps[0].0 != k {
      assert forall i :: 0 <= i < |ps[1..]| ==> ps[1..][i] == ps[i + 1];
      PutPrints(ps[1..], k, v);
      var more := Put(ps[1..], k, v);
      assert forall i :: 0 <= i < |more| ==> ([ps[0]] + more)[i + 1] == more[i];
    }
  }

  lemma {:induction false} ParsedParamsPrint(s: string, acc: Params, codec: Codec)
    requires ParamsPrint(acc) && ParseParams(s, acc, codec).Got?
    ensures ParamsPrint(ParseParams(s, acc, codec).value)
    decreases |s|
  {
    if s != [] && s[0] == ';' {
      var key := ParseKey(Skip(s[1..], SpaceClass));
      if key.rest != [] && key.rest[0] == '=' {
        var item := ParseBareItem(key.rest[1..], codec);
        ParsedItemPrints(key.rest[1..], codec);
        PutPrints(acc, key.value, item.value);
        ParsedParamsPrint(item.rest, Put(acc, key.value, item.value), codec);
      } else {
        PutPrints(acc, key.value, Boolean(true));
        ParsedParamsPrint(key.rest, Put(acc, key.value, Boolean(true)), codec);
      }
    }
  }

  lemma {:induction false} InnerListPrints(s: string, acc: seq<Item>, codec: Codec)
    requires ParseInnerList(s, acc, codec).Got?
    ensures ParseInnerList(s, acc, codec).value.InnerList? && ParamsPrint(ParseInnerList(s, acc, codec).value.params)
    decreases |s|
  {
    var t := Skip(s, SpaceClass);
    if t[0] == ')' {
      ParsedParamsPrint(t[1..], [], codec);
    } else {
      var item := ParseItem(t, codec);
      InnerListPrints(item.rest, acc + [item.value], codec);
    }
  }

  predicate MemberPrints(m: Member) {
    m.InnerList? ==> ParamsPrint(m.params)
  }

  lemma ValuePrints(s: string, codec: Codec)
    requires ParseValue(s, codec).Got?
    ensures MemberPrints(ParseValue(s, codec).value)
  {
    if s != [] && s[0] == '=' && s[1..] != [] && s[1] == '(' {
      InnerListPrints(s[1..][1..], [], codec);
    }
  }

  predicate DictionaryPrints(dict: Dictionary) {
    forall i :: 0 <= i < |dict| ==> MemberPrints(dict[i].1)
  }

  lemma {:induction false} PutMember(dict: Dictionary, k: string, m: Member)
    requires DictionaryPrints(dict) && MemberPrints(m)
    ensures DictionaryPrints(Put(dict, k, m))
  {
    if dict != [] && dict[0].0 != k {
      assert forall i :: 0 <= i < |dict[1..]| ==> dict[1..][i] == dict[i + 1];
      PutMember(dict[1..], k, m);
      var more := Put(dict[1..], k, m);
      assert forall i :: 0 <= i < |more| ==> ([dict[0]] + more)[i + 1] == more[i];
    }
  }

  lemma {:induction false} MembersPrint(s: string, acc: Dictionary, codec: Codec)
    requires DictionaryPrints(acc) && ParseMembers(s, acc, codec).Some?
    ensures DictionaryPrints(ParseMembers(s, acc, codec).value)
    decreases |s|
  {
    var key := ParseKey(s);
    var value := ParseValue(key.rest, codec);
    ValuePrints(key.rest, codec);
    PutMember(acc, key.value, value.value);
    var t := Skip(value.rest, OwsClass);
    if t != [] {
      MembersPrint(Skip(t[1..], OwsClass), Put(acc, key.value, value.value), codec);
    }
  }

  lemma {:induction false} LookupPrints(ps: Params, k: string)
    requires ParamsPrint(ps)
    ensures var found: Option<BareItem> := Lookup(ps, k); found.Some? ==> ItemPrints(found.value)
  {
    if ps != [] && ps[0].0 != k {
      assert forall i :: 0 <= i < |ps[1..]| ==> ps[1..][i] == ps[i + 1];
      LookupPrints(ps[1..], k);
    }
  }

  lemma ReadPrints(m: Member)
    requires MemberPrints(m) && ReadMember(m).Ok?
    ensures Serializable(ReadMember(m).value)
  {
    CoveredAllowed(m.items);
    ParamsReadPrint(CoveredNames(m.items).value, m.params);
  }

  lemma AllowedPrint(names: seq<string>)
    requires forall i :: 0 <= i < |names| ==> names[i] in ALLOWED
    ensures PrintableNames(names)
  {
    assert Printable(AUTHORITY) && Printable(AGENT);
  }

  lemma ParamsReadPrint(covered: seq<string>, ps: Params)
    requires ParamsPrint(ps) && ReadParams(covered, ps).Ok? && forall i :: 0 <= i < |covered| ==> covered[i] in ALLOWED
    ensures Serializable(ReadParams(covered, ps).value)
  {
    AllowedPrint(covered);
    LookupPrints(ps, "created");
    LookupPrints(ps, "expires");
    LookupPrints(ps, "keyid");
    LookupPrints(ps, "alg");
    LookupPrints(ps, "nonce");
    LookupPrints(ps, "tag");
  }

  /** Parameters that parse can be printed, so writing the canonical text never fails. */
  lemma ParsedSerializable(header: string, codec: Codec)
    requires ParseSignatureInput(header, codec).Ok?
    ensures var (key, p) := ParseSignatureInput(header, codec).value; IsKey(key) && Serializable(p)
  {
    MembersPrint(Skip(header, SpaceClass), [], codec);
    var dict := ParseDictionary(header, codec).value;
    ReadPrints(dict[0].1);
    MemberKeys(Skip(header, SpaceClass), [], codec);
  }

  predicate KeysOk(dict: Dictionary) {
    forall i :: 0 <= i < |dict| ==> IsKey(dict[i].0)
  }

  lemma {:induction false} PutKey(dict: Dictionary, k: string, m: Member)
    requires KeysOk(dict) && IsKey(k)
    ensures KeysOk(Put(dict, k, m))
  {
    if dict != [] && dict[0].0 != k {
      assert forall i :: 0 <= i < |dict[1..]| ==> dict[1..][i] == dict[i + 1];
      PutKey(dict[1..], k, m);
      var more := Put(dict[1..], k, m);
      assert forall i :: 0 <= i < |more| ==> ([dict[0]] + more)[i + 1] == more[i];
    }
  }

  lemma ParsedKey(s: string)
    requires ParseKey(s).Got?
    ensures IsKey(ParseKey(s).value)
  {
    assert Span(s, KeyClass) >= 1;
  }

  lemma {:induction false} MemberKeys(s: string, acc: Dictionary, codec: Codec)
    requires KeysOk(acc) && ParseMembers(s, acc, codec).Some?
    ensures KeysOk(ParseMembers(s, acc, codec).value)
    decreases |s|
  {
    var key := ParseKey(s);
    var value := ParseValue(key.rest, codec);
    ParsedKey(s);
    PutKey(acc, key.value, value.value);
    var t := Skip(value.rest, OwsClass);
    if t != [] {
      MemberKeys(Skip(t[1..], OwsClass), Put(acc, key.value, value.value), codec);
    }
  }

  // Refusals.

  /** What is wrong with a covered item, if anything: it has to be a plain string this profile knows. */
  function ItemFault(item: Item): Option<HttpSigError> {
    if item.params != [] || !item.value.Str? then Some(MalformedSignatureInput)
    else if item.value.s != "@authority" && item.value.s != "signature-agent" then Some(UnsupportedComponent)
    else None
  }

  lemma {:induction false} CoveredFault(items: seq<Item>, i: nat)
    requires i < |items| && (forall j :: 0 <= j < i ==> ItemFault(items[j]).None?) && ItemFault(items[i]).Some?
    ensures CoveredNames(items) == Err(ItemFault(items[i]).value)
  {
    NameKnown(items[0]);
    if i > 0 {
      assert forall j :: 0 <= j < |items[1..]| ==> items[1..][j] == items[j + 1];
      CoveredFault(items[1..], i - 1);
    }
  }

  lemma NameKnown(item: Item)
    ensures match CoveredName(item)
            case Ok(_) => ItemFault(item).None?
            case Err(e) => ItemFault(item) == Some(e)
  {
  }

  /** Two integers, then four strings. */
  predicate TypesOk(ps: Params)
    requires |ps| == 6
  {
    ps[0].1.Integer? && ps[1].1.Integer? && ps[2].1.Str? && ps[3].1.Str? && ps[4].1.Str? && ps[5].1.Str?
  }

  /** A header that is not one signature with an inner list is malformed. */
  lemma NotOneSignature(header: string, codec: Codec)
    requires ParseDictionary(header, codec).None? || |ParseDictionary(header, codec).value| != 1 ||
             ParseDictionary(header, codec).value[0].1.Single?
    ensures ParseSignatureInput(header, codec) == Err(MalformedSignatureInput)
  {
  }

  /** The first faulty item of the list names the error. */
  lemma ItemRefused(header: string, codec: Codec, key: string, items: seq<Item>, ps: Params, i: nat)
    requires ParseDictionary(header, codec) == Some([(key, InnerList(items, ps))])
    requires i < |items| && (forall j :: 0 <= j < i ==> ItemFault(items[j]).None?) && ItemFault(items[i]).Some?
    ensures ParseSignatureInput(header, codec) == Err(ItemFault(items[i]).value)
  {
    CoveredFault(items, i);
  }

  /** Without one, the authority has to be among the names, and the six parameters have to be these, in order. */
  lemma NamesRead(header: string, codec: Codec, key: string, names: seq<string>, ps: Params)
    requires ParseDictionary(header, codec) == Some([(key, InnerList(NameItems(names), ps))])
    requires forall i :: 0 <= i < |names| ==> names[i] == "@authority" || names[i] == "signature-agent"
    ensures ParseSignatureInput(header, codec) ==
            if "@authority" !in names then Err(MissingComponent)
            else if Keys(ps) != ["created", "expires", "keyid", "alg", "nonce", "tag"] || !TypesOk(ps) then
              Err(MalformedSignatureInput)
            else
              Ok((key, SignatureParams(names, ps[0].1.i, ps[1].1.i, ps[2].1.s, ps[3].1.s, ps[4].1.s, ps[5].1.s)))
  {
    NamesReadBack(names);
    if Keys(ps) == PARAM_ORDER {
      SixRead(names, ps);
    }
  }

  lemma SixRead(names: seq<string>, ps: Params)
    requires Keys(ps) == PARAM_ORDER
    ensures |ps| == 6
    ensures TypesOk(ps) ==>
      ReadParams(names, ps) ==
        Ok(SignatureParams(names, ps[0].1.i, ps[1].1.i, ps[2].1.s, ps[3].1.s, ps[4].1.s, ps[5].1.s))
    ensures !TypesOk(ps) ==> ReadParams(names, ps) == Err(MalformedSignatureInput)
  {
    ParamNamesDiffer();
    assert forall k :: 0 <= k < 6 ==> ps[k].0 == PARAM_ORDER[k];
    LookupAt(ps, 0);
    LookupAt(ps, 1);
    LookupAt(ps, 2);
    LookupAt(ps, 3);
    LookupAt(ps, 4);
    LookupAt(ps, 5);
  }

  /** The member under a key is the first, and holds these bytes. */
  predicate HoldsBytes(dict: Dictionary, key: string, i: int, b: seq<byte>) {
    && 0 <= i < |dict| && dict[i].0 == key && (forall j :: 0 <= j < i ==> dict[j].0 != key)
    && dict[i].1.Single? && dict[i].1.item.value == Bytes(b)
  }

  /** A `Signature` header gives exactly the bytes of the member under the key, whatever parameters that has. */
  lemma SignatureIff(header: string, key: string, codec: Codec, b: seq<byte>)
    ensures ParseSignature(header, key, codec) == Ok(b) <==>
            ParseDictionary(header, codec).Some? &&
            exists i :: HoldsBytes(ParseDictionary(header, codec).value, key, i, b)
    ensures ParseSignature(header, key, codec).Err? ==> ParseSignature(header, key, codec) == Err(MalformedSignature)
  {
    if ParseDictionary(header, codec).Some? {
      var dict := ParseDictionary(header, codec).value;
      var i := LookupFirst(dict, key);
      assert forall j :: HoldsBytes(dict, key, j, b) ==> j == i;
      assert i < |dict| ==> (HoldsBytes(dict, key, i, b) <==> dict[i].1.Single? && dict[i].1.item.value == Bytes(b));
    }
  }

  /** Where a key stands first. */
  lemma {:induction false} LookupFirst<V>(m: seq<(string, V)>, k: string) returns (i: nat)
    ensures i <= |m| && forall j :: 0 <= j < i ==> m[j].0 != k
    ensures var found: Option<V> := Lookup(m, k);
            if i == |m| then found.None? else m[i].0 == k && found == Some(m[i].1)
  {
    if m == [] || m[0].0 == k {
      i := 0;
    } else {
      var n := LookupFirst(m[1..], k);
      assert forall j :: 0 <= j < |m[1..]| ==> m[1..][j] == m[j + 1];
      i := n + 1;
    }
  }
}
