/** Signature parameters and the signature base: section 2.5 of RFC 9421. */
module SignatureBase {
  import opened Wrappers
  import opened Bytes
  import opened Text
  import opened StructuredFields
  import opened HttpSigErrors
  import Authority

  const AUTHORITY := "@authority"
  const AGENT := "signature-agent"
  const ALLOWED: seq<string> := [AUTHORITY, AGENT]

  datatype RequestParts = RequestParts(httpMethod: string, targetUri: string, signatureAgent: Option<string>)

  datatype SignatureParams = SignatureParams(
    covered: seq<string>, created: int, expires: int, keyid: string, alg: string, nonce: string, tag: string)

  /** `@authority` always, plus `signature-agent` when the request carries it. */
  function CoveredComponents(parts: RequestParts): seq<string> {
    if parts.signatureAgent.Some? then [AUTHORITY, AGENT] else [AUTHORITY]
  }

  // ---------- Serialisation ----------

  /** The six parameters in the order the profile fixes. */
  function ParamList(p: SignatureParams): Params {
    [("created", Integer(p.created)), ("expires", Integer(p.expires)), ("keyid", Str(p.keyid)),
     ("alg", Str(p.alg)), ("nonce", Str(p.nonce)), ("tag", Str(p.tag))]
  }

  predicate Serializable(p: SignatureParams) {
    PrintableNames(p.covered) && InRange(p.created) && InRange(p.expires) &&
    Printable(p.keyid) && Printable(p.alg) && Printable(p.nonce) && Printable(p.tag)
  }

  lemma ParamListOk(p: SignatureParams)
    requires Serializable(p)
    ensures PrintableParams(ParamList(p)) && Fresh(ParamList(p), [])
  {
    assert AllIn("created", KeyClass) && AllIn("expires", KeyClass) && AllIn("keyid", KeyClass);
    assert AllIn("alg", KeyClass) && AllIn("nonce", KeyClass) && AllIn("tag", KeyClass);
    assert "created"[0] == 'c' && "expires"[0] == 'e' && "keyid"[0] == 'k' && "alg"[0] == 'a' &&
           "nonce"[0] == 'n' && "tag"[0] == 't';
  }

  /** The `@signature-params` value. */
  function ParamsText(p: SignatureParams): string
    requires Serializable(p)
  {
    ParamListOk(p);
    PrintInnerList(p.covered, ParamList(p))
  }

  function SerializeSignatureParams(p: SignatureParams): Result<string, HttpSigError> {
    if Serializable(p) then Ok(ParamsText(p)) else Err(StructuredField)
  }

  /** `Signature-Input`: the same inner list under a label. */
  function SignatureInputHeader(key: string, p: SignatureParams): Result<string, HttpSigError> {
    if IsKey(key) && Serializable(p) then Ok(key + (['='] + ParamsText(p))) else Err(StructuredField)
  }

  /** `Signature`: the raw signature as a byte sequence under a label. */
  function SignatureHeader(key: string, signature: seq<byte>, codec: Codec): Result<string, HttpSigError> {
    if IsKey(key) then Ok(key + (['='] + (":" + codec.encode(signature) + ":"))) else Err(StructuredField)
  }

  lemma {:induction false} PrintNamesSnoc(names: seq<string>, name: string)
    ensures PrintNames(names + [name]) ==
            if names == [] then PrintString(name) else PrintNames(names) + " " + PrintString(name)
  {
    if names != [] {
      assert (names + [name])[1..] == names[1..] + [name];
      PrintNamesSnoc(names[1..], name);
      if |names| > 1 {
        PrintTail(PrintString(names[0]), PrintNames(names[1..]), PrintString(name));
      } else {
        assert names[1..] == [];
      }
    }
  }

  lemma PrintTail(a: string, b: string, c: string)
    ensures a + " " + (b + " " + c) == a + " " + b + " " + c
  {
  }

  /** The serializer's loop over the covered names, each a quoted string. */
  method WriteNames(names: seq<string>) returns (r: Result<string, HttpSigError>)
    ensures r == if PrintableNames(names) then Ok(PrintNames(names)) else Err(StructuredField)
  {
    var out, i := "", 0;
    while i < |names|
      invariant 0 <= i <= |names|
      invariant PrintableNames(names[..i]) && out == PrintNames(names[..i])
    {
      NamesStep(names, i);
      if !Printable(names[i]) {
        return Err(StructuredField);
      }
      out := if i == 0 then PrintString(names[i]) else out + " " + PrintString(names[i]);
      i := i + 1;
    }
    assert names[..i] == names;
    return Ok(out);
  }

  lemma NamesStep(names: seq<string>, i: nat)
    requires i < |names|
    ensures PrintableNames(names[..i + 1]) <==> PrintableNames(names[..i]) && Printable(names[i])
    ensures PrintableNames(names) ==> Printable(names[i])
    ensures var s := PrintString(names[i]);
            PrintNames(names[..i + 1]) == if i == 0 then s else PrintNames(names[..i]) + " " + s
  {
    var init := names[..i];
    assert names[..i + 1] == init + [names[i]];
    PrintNamesSnoc(init, names[i]);
    assert forall j :: 0 <= j < i ==> init[j] == names[j];
  }

  /** The inner list of covered names, then the six parameters. */
  method WriteParamsInnerList(p: SignatureParams) returns (r: Result<string, HttpSigError>)
    ensures r == SerializeSignatureParams(p)
  {
    var names := WriteNames(p.covered);
    if names.Err? {
      return Err(StructuredField);
    }
    if !(InRange(p.created) && InRange(p.expires) && Printable(p.keyid) && Printable(p.alg) &&
         Printable(p.nonce) && Printable(p.tag)) {
      return Err(StructuredField);
    }
    ParamListOk(p);
    return Ok("(" + names.value + ")" + PrintParams(ParamList(p)));
  }

  // ---------- Building the base ----------

  predicate HasLineBreak(s: string) {
    exists i :: 0 <= i < |s| && (s[i] == '\r' || s[i] == '\n')
  }

  function AgentValue(parts: RequestParts): Result<string, HttpSigError> {
    match parts.signatureAgent
    case None => Err(MissingComponent)
    case Some(raw) =>
      var value := Trim(raw);
      if value == [] then Err(MissingComponent)
      else if HasLineBreak(value) then Err(InvalidComponentValue)
      else Ok(value)
  }

  function ComponentValue(name: string, parts: RequestParts): Result<string, HttpSigError> {
    if name == AUTHORITY then Authority.AuthorityFromUri(parts.targetUri)
    else if name == AGENT then AgentValue(parts)
    else Err(UnsupportedComponent)
  }

  function Key(name: string): string {
    "\"" + name + "\": "
  }

  function Line(name: string, value: string): string {
    Key(name) + value + "\n"
  }

  /** One line for each covered component that is allowed, new and present. */
  function BaseLines(covered: seq<string>, seen: set<string>, parts: RequestParts): Result<string, HttpSigError> {
    if covered == [] then Ok("")
    else if covered[0] !in ALLOWED then Err(UnsupportedComponent)
    else if covered[0] in seen then Err(DuplicateComponent)
    else
      match ComponentValue(covered[0], parts)
      case Err(e) => Err(e)
      case Ok(value) =>
        match BaseLines(covered[1..], seen + {covered[0]}, parts)
        case Err(e) => Err(e)
        case Ok(rest) => Ok(Line(covered[0], value) + rest)
  }

  const PARAMS_KEY := "\"@signature-params\": "

  function Base(parts: RequestParts, p: SignatureParams): Result<string, HttpSigError> {
    match BaseLines(p.covered, {}, parts)
    case Err(e) => Err(e)
    case Ok(lines) =>
      if AUTHORITY !in p.covered then Err(MissingComponent)
      else if !Serializable(p) then Err(StructuredField)
      else if !IsAscii(lines + (PARAMS_KEY + ParamsText(p))) then Err(NonAsciiBase)
      else Ok(lines + (PARAMS_KEY + ParamsText(p)))
  }

  /** Prefix a result's text, keeping an error as it is. */
  function Prefix(out: string, r: Result<string, HttpSigError>): Result<string, HttpSigError> {
    match r case Err(e) => Err(e) case Ok(rest) => Ok(out + rest)
  }

  /** The loop over the covered components, which also remembers the names it has seen. */
  method BuildLines(parts: RequestParts, covered: seq<string>)
    returns (r: Result<string, HttpSigError>, seen: set<string>)
    ensures r == BaseLines(covered, {}, parts)
    ensures r.Ok? ==> seen == set j | 0 <= j < |covered| :: covered[j]
  {
    var out, i := "", 0;
    seen := {};
    PrefixNothing(BaseLines(covered, {}, parts));
    assert covered[0..] == covered;
    while i < |covered|
      invariant 0 <= i <= |covered|
      invariant seen == set j | 0 <= j < i :: covered[j]
      invariant BaseLines(covered, {}, parts) == Prefix(out, BaseLines(covered[i..], seen, parts))
    {
      var name := covered[i];
      LinesStep(covered, i, seen, parts);
      if name !in ALLOWED {
        return Err(UnsupportedComponent), seen;
      }
      if name in seen {
        return Err(DuplicateComponent), seen;
      }
      var value := ComponentValue(name, parts);
      if value.Err? {
        return Err(value.error), seen;
      }
      PrefixStep(out, Line(name, value.value), BaseLines(covered[i + 1..], seen + {name}, parts));
      out := out + Line(name, value.value);
      seen := seen + {name};
      i := i + 1;
    }
    assert out + "" == out;
    return Ok(out), seen;
  }

  lemma LinesStep(covered: seq<string>, i: nat, seen: set<string>, parts: RequestParts)
    requires i < |covered|
    ensures var name, r := covered[i], BaseLines(covered[i..], seen, parts);
            r == if name !in ALLOWED then Err(UnsupportedComponent)
                 else if name in seen then Err(DuplicateComponent)
                 else if ComponentValue(name, parts).Err? then Err(ComponentValue(name, parts).error)
                 else Prefix(Line(name, ComponentValue(name, parts).value),
                             BaseLines(covered[i + 1..], seen + {name}, parts))
  {
    assert covered[i..][0] == covered[i] && covered[i..][1..] == covered[i + 1..];
  }

  method BuildSignatureBase(parts: RequestParts, p: SignatureParams) returns (r: Result<string, HttpSigError>)
    ensures r == Base(parts, p)
  {
    var lines, seen := BuildLines(parts, p.covered);
    if lines.Err? {
      return lines;
    }
    if AUTHORITY !in seen {
      return Err(MissingComponent);
    }
    var text := WriteParamsInnerList(p);
    if text.Err? {
      return Err(text.error);
    }
    var out := lines.value + (PARAMS_KEY + text.value);
    if !IsAscii(out) {
      return Err(NonAsciiBase);
    }
    return Ok(out);
  }

  lemma PrefixNothing(r: Result<string, HttpSigError>)
    ensures Prefix("", r) == r
  {
    if r.Ok? {
      assert "" + r.value == r.value;
    }
  }

  lemma PrefixStep(out: string, line: string, r: Result<string, HttpSigError>)
    ensures Prefix(out, Prefix(line, r)) == Prefix(out + line, r)
  {
    if r.Ok? {
      Assoc(out, line, r.value);
    }
  }

  // ---------- The base is unambiguous ----------

  lemma SameLastLine(a1: string, t1: string, a2: string, t2: string)
    requires a1 != [] && a1[|a1| - 1] == '\n' && a2 != [] && a2[|a2| - 1] == '\n'
    requires OneLine(t1) && OneLine(t2) && a1 + t1 == a2 + t2
    ensures a1 == a2 && t1 == t2
  {
    LastBreak(a1, t1);
    LastBreak(a2, t2);
    var s := a1 + t1;
    assert |a1| == |a2|;
    assert a1 == s[..|a1|] && t1 == s[|a1|..];
  }

  lemma LastBreak(a: string, t: string)
    requires a != [] && a[|a| - 1] == '\n' && OneLine(t)
    ensures (a + t)[|a| - 1] == '\n' && forall i :: |a| <= i < |a + t| ==> (a + t)[i] != '\n'
  {
    assert forall i :: |a| <= i < |a + t| ==> (a + t)[i] == t[i - |a|];
  }

  lemma CancelSuffix(a: string, b: string, k: string)
    requires a + k == b + k
    ensures a == b
  {
    assert a == (a + k)[..|a|];
  }

  lemma {:induction false} EscapePrintable(s: string)
    requires Printable(s)
    ensures Printable(Escape(s))
  {
    if s != [] {
      assert IsPrintable(s[0]);
      assert forall i :: 0 <= i < |s[1..]| ==> s[1..][i] == s[i + 1];
      EscapePrintable(s[1..]);
    }
  }

  lemma PrintableConcat(a: string, b: string)
    requires Printable(a) && Printable(b)
    ensures Printable(a + b)
  {
  }

  lemma StringPrintable(s: string)
    requires Printable(s)
    ensures Printable(PrintString(s))
  {
    EscapePrintable(s);
  }

  lemma {:induction false} NamesPrintable(names: seq<string>)
    requires PrintableNames(names)
    ensures Printable(PrintNames(names))
  {
    if names != [] {
      assert Printable(names[0]);
      StringPrintable(names[0]);
      if |names| > 1 {
        NamesPrintable(names[1..]);
        PrintableConcat(PrintString(names[0]), " ");
        PrintableConcat(PrintString(names[0]) + " ", PrintNames(names[1..]));
      }
    }
  }

  lemma KeyPrintable(k: string)
    requires IsKey(k)
    ensures Printable(k)
  {
    assert forall i :: 0 <= i < |k| ==> InClass(k[i], KeyClass);
  }

  lemma BareItemPrintable(v: BareItem)
    requires PrintableItem(v)
    ensures Printable(PrintBareItem(v))
  {
    if v.Str? {
      StringPrintable(v.s);
    }
  }

  lemma ParamPrintable(k: string, v: BareItem)
    requires IsKey(k) && PrintableItem(v)
    ensures Printable(PrintParam(k, v))
  {
    KeyPrintable(k);
    BareItemPrintable(v);
    PrintableConcat(";" + k, "=");
    PrintableConcat(";" + k + "=", PrintBareItem(v));
  }

  lemma {:induction false} ParamsPrintable(ps: Params)
    requires PrintableParams(ps)
    ensures Printable(PrintParams(ps))
  {
    if ps != [] {
      assert forall i :: 0 <= i < |ps[1..]| ==> ps[1..][i] == ps[i + 1];
      ParamPrintable(ps[0].0, ps[0].1);
      ParamsPrintable(ps[1..]);
      PrintableConcat(PrintParam(ps[0].0, ps[0].1), PrintParams(ps[1..]));
    }
  }

  lemma ParamsTextPrintable(p: SignatureParams)
    requires Serializable(p)
    ensures Printable(ParamsText(p)) && OneLine(ParamsText(p))
  {
    ParamListOk(p);
    NamesPrintable(p.covered);
    ParamsPrintable(ParamList(p));
    PrintableConcat("(" + PrintNames(p.covered), ")");
    PrintableConcat("(" + PrintNames(p.covered) + ")", PrintParams(ParamList(p)));
  }

  /** Printing parameters is injective, because parsing undoes it. */
  lemma ParamsTextInjective(p1: SignatureParams, p2: SignatureParams)
    requires Serializable(p1) && Serializable(p2) && ParamsText(p1) == ParamsText(p2)
    ensures p1 == p2
  {
    var codec := Codec((b: seq<byte>) => "", (s: string) => None, (b: seq<byte>) => None);
    ParamsTextParses(p1, [], codec);
    ParamsTextParses(p2, [], codec);
    NamesOfItems(p1.covered, p2.covered);
    var l1, l2 := ParamList(p1), ParamList(p2);
    assert l1[0] == l2[0] && l1[1] == l2[1] && l1[2] == l2[2];
    assert l1[3] == l2[3] && l1[4] == l2[4] && l1[5] == l2[5];
  }

  lemma ParamsTextParses(p: SignatureParams, rest: string, codec: Codec)
    requires Serializable(p) && AfterParams(rest)
    ensures ParseMember(ParamsText(p) + rest, codec) == Got(InnerList(NameItems(p.covered), ParamList(p)), rest)
  {
    ParamListOk(p);
    InnerListRoundTrip(p.covered, ParamList(p), rest, codec);
  }

  lemma NamesOfItems(a: seq<string>, b: seq<string>)
    requires NameItems(a) == NameItems(b)
    ensures a == b
  {
    assert |a| == |b|;
    assert forall i :: 0 <= i < |a| ==> NameItems(a)[i] == NameItems(b)[i];
  }

  /** Allowed names, none of them in `seen` or repeated. */
  predicate NewNames(covered: seq<string>, seen: set<string>) {
    && (forall i :: 0 <= i < |covered| ==> covered[i] in ALLOWED && covered[i] !in seen)
    && (forall i, j :: 0 <= i < j < |covered| ==> covered[i] != covered[j])
  }

  lemma BaseTail(covered: seq<string>, seen: set<string>, parts: RequestParts)
    requires BaseLines(covered, seen, parts).Ok? && covered != []
    ensures covered[0] in ALLOWED && covered[0] !in seen && BaseLines(covered[1..], seen + {covered[0]}, parts).Ok?
  {
  }

  lemma NewNamesCons(name: string, rest: seq<string>, seen: set<string>)
    requires name in ALLOWED && name !in seen && NewNames(rest, seen + {name})
    ensures NewNames([name] + rest, seen)
  {
    var all := [name] + rest;
    assert forall i :: 1 <= i < |all| ==> all[i] == rest[i - 1];
  }

  lemma {:induction false} BaseDistinct(covered: seq<string>, seen: set<string>, parts: RequestParts)
    requires BaseLines(covered, seen, parts).Ok?
    ensures NewNames(covered, seen)
  {
    if covered != [] {
      BaseTail(covered, seen, parts);
      BaseDistinct(covered[1..], seen + {covered[0]}, parts);
      NewNamesCons(covered[0], covered[1..], seen);
      assert covered == [covered[0]] + covered[1..];
    }
  }

  /** A successful base covers the authority once and the agent at most once, in either order. */
  lemma CoveredShape(covered: seq<string>, parts: RequestParts)
    requires BaseLines(covered, {}, parts).Ok? && AUTHORITY in covered
    ensures covered == [AUTHORITY] || covered == [AUTHORITY, AGENT] || covered == [AGENT, AUTHORITY]
  {
    BaseDistinct(covered, {}, parts);
    BaseBounded(covered, {}, parts);
    TwoNames(covered);
  }

  lemma TwoNames(covered: seq<string>)
    requires forall i :: 0 <= i < |covered| ==> covered[i] == AUTHORITY || covered[i] == AGENT
    requires forall i, j :: 0 <= i < j < |covered| ==> covered[i] != covered[j]
    requires AUTHORITY in covered && |covered| <= 2
    ensures covered == [AUTHORITY] || covered == [AUTHORITY, AGENT] || covered == [AGENT, AUTHORITY]
  {
    if |covered| == 2 {
      assert covered[0] != covered[1];
    }
  }

  /** At most the two allowed names, so `covered` has at most two entries. */
  lemma {:induction false} BaseBounded(covered: seq<string>, seen: set<string>, parts: RequestParts)
    requires BaseLines(covered, seen, parts).Ok? && seen <= {AUTHORITY, AGENT}
    ensures |covered| + |seen| <= 2
  {
    if covered == [] {
      assert seen - {AUTHORITY} - {AGENT} == {};
    } else {
      BaseBounded(covered[1..], seen + {covered[0]}, parts);
    }
  }

  lemma NamesDiffer()
    ensures AUTHORITY != AGENT && OneLine(Key(AUTHORITY)) && OneLine(Key(AGENT)) && OneLine(PARAMS_KEY)
  {
    assert AUTHORITY[0] == '@' && AGENT[0] == 's';
  }

  lemma LinesOf(covered: seq<string>, parts: RequestParts, auth: string, agent: string)
    requires BaseLines(covered, {}, parts).Ok?
    requires AUTHORITY in covered ==> ComponentValue(AUTHORITY, parts) == Ok(auth)
    requires AGENT in covered ==> ComponentValue(AGENT, parts) == Ok(agent)
    ensures covered == [AUTHORITY] ==> BaseLines(covered, {}, parts).value == Line(AUTHORITY, auth)
    ensures covered == [AUTHORITY, AGENT] ==>
      BaseLines(covered, {}, parts).value == Line(AUTHORITY, auth) + Line(AGENT, agent)
    ensures covered == [AGENT, AUTHORITY] ==>
      BaseLines(covered, {}, parts).value == Line(AGENT, agent) + Line(AUTHORITY, auth)
  {
    if covered == [AUTHORITY] {
      assert covered[1..] == [];
    } else if covered == [AUTHORITY, AGENT] {
      assert covered[1..] == [AGENT] && [AGENT][1..] == [];
      assert BaseLines([AGENT], {} + {AUTHORITY}, parts).value == Line(AGENT, agent) + "";
    } else if covered == [AGENT, AUTHORITY] {
      assert covered[1..] == [AUTHORITY] && [AUTHORITY][1..] == [];
      assert BaseLines([AUTHORITY], {} + {AGENT}, parts).value == Line(AUTHORITY, auth) + "";
    }
  }

  lemma SameAuthorityLine(a1: string, a2: string)
    requires Line(AUTHORITY, a1) == Line(AUTHORITY, a2)
    ensures a1 == a2
  {
    CancelSuffix(Key(AUTHORITY) + a1, Key(AUTHORITY) + a2, "\n");
    DropPrefix(Key(AUTHORITY), a1, a2);
  }

  lemma KeyOneLine(value: string)
    requires OneLine(value)
    ensures OneLine(Key(AGENT) + value) && OneLine(PARAMS_KEY + value)
  {
    NamesDiffer();
  }

  lemma SameAgentLast(a1: string, v1: string, a2: string, v2: string)
    requires OneLine(v1) && OneLine(v2)
    requires Line(AUTHORITY, a1) + Line(AGENT, v1) == Line(AUTHORITY, a2) + Line(AGENT, v2)
    ensures a1 == a2 && v1 == v2
  {
    var h1, h2, t1, t2 := Line(AUTHORITY, a1), Line(AUTHORITY, a2), Key(AGENT) + v1, Key(AGENT) + v2;
    Assoc(h1, t1, "\n");
    Assoc(h2, t2, "\n");
    CancelSuffix(h1 + t1, h2 + t2, "\n");
    KeyOneLine(v1);
    KeyOneLine(v2);
    SameLastLine(h1, t1, h2, t2);
    SameAuthorityLine(a1, a2);
    DropPrefix(Key(AGENT), v1, v2);
  }

  lemma SameAgentFirst(a1: string, v1: string, a2: string, v2: string)
    requires OneLine(v1) && OneLine(v2)
    requires Line(AGENT, v1) + Line(AUTHORITY, a1) == Line(AGENT, v2) + Line(AUTHORITY, a2)
    ensures a1 == a2 && v1 == v2
  {
    KeyOneLine(v1);
    KeyOneLine(v2);
    SameFirstLine(Key(AGENT) + v1, Line(AUTHORITY, a1), Key(AGENT) + v2, Line(AUTHORITY, a2));
    SameAuthorityLine(a1, a2);
    DropPrefix(Key(AGENT), v1, v2);
  }

  lemma AgentOneLine(parts: RequestParts)
    requires AgentValue(parts).Ok?
    ensures OneLine(AgentValue(parts).value)
  {
  }

  /** The part of a request that a base with these covered components carries. */
  function Covered(parts: RequestParts, covered: seq<string>): (Result<string, HttpSigError>, Option<string>) {
    (ComponentValue(AUTHORITY, parts),
     if AGENT in covered && AgentValue(parts).Ok? then Some(AgentValue(parts).value) else None)
  }

  lemma {:induction false} LinesValues(covered: seq<string>, seen: set<string>, parts: RequestParts)
    requires BaseLines(covered, seen, parts).Ok?
    ensures forall i :: 0 <= i < |covered| ==> ComponentValue(covered[i], parts).Ok?
    ensures covered != [] ==> BaseLines(covered, seen, parts).value != [] &&
                              BaseLines(covered, seen, parts).value[|BaseLines(covered, seen, parts).value| - 1] == '\n'
  {
    if covered != [] {
      LinesValues(covered[1..], seen + {covered[0]}, parts);
      assert forall i :: 1 <= i < |covered| ==> covered[i] == covered[1..][i - 1];
    }
  }

  lemma BaseParts(parts: RequestParts, p: SignatureParams)
    requires Base(parts, p).Ok?
    ensures Serializable(p) && AUTHORITY in p.covered && BaseLines(p.covered, {}, parts).Ok?
    ensures Base(parts, p).value == BaseLines(p.covered, {}, parts).value + (PARAMS_KEY + ParamsText(p))
    ensures var lines := BaseLines(p.covered, {}, parts).value; lines != [] && lines[|lines| - 1] == '\n'
    ensures OneLine(PARAMS_KEY + ParamsText(p))
  {
    LinesValues(p.covered, {}, parts);
    ParamsTextPrintable(p);
    KeyOneLine(ParamsText(p));
  }

  lemma SameLines(covered: seq<string>, parts1: RequestParts, parts2: RequestParts)
    requires BaseLines(covered, {}, parts1).Ok? && BaseLines(covered, {}, parts1) == BaseLines(covered, {}, parts2)
    requires AUTHORITY in covered
    ensures Covered(parts1, covered) == Covered(parts2, covered)
  {
    CoveredShape(covered, parts1);
    LinesValues(covered, {}, parts1);
    LinesValues(covered, {}, parts2);
    NamesDiffer();
    var a1, a2 := ComponentValue(AUTHORITY, parts1).value, ComponentValue(AUTHORITY, parts2).value;
    if covered == [AUTHORITY] {
      LinesOf(covered, parts1, a1, "");
      LinesOf(covered, parts2, a2, "");
      SameAuthorityLine(a1, a2);
    } else {
      assert AGENT == covered[0] || AGENT == covered[1];
      SameTwoLines(covered, parts1, parts2, a1, a2);
    }
  }

  lemma SameTwoLines(covered: seq<string>, parts1: RequestParts, parts2: RequestParts, a1: string, a2: string)
    requires BaseLines(covered, {}, parts1).Ok? && BaseLines(covered, {}, parts1) == BaseLines(covered, {}, parts2)
    requires covered == [AUTHORITY, AGENT] || covered == [AGENT, AUTHORITY]
    requires ComponentValue(AUTHORITY, parts1) == Ok(a1) && ComponentValue(AUTHORITY, parts2) == Ok(a2)
    requires ComponentValue(AGENT, parts1).Ok? && ComponentValue(AGENT, parts2).Ok?
    ensures a1 == a2 && AgentValue(parts1) == AgentValue(parts2)
  {
    NamesDiffer();
    var v1, v2 := AgentValue(parts1).value, AgentValue(parts2).value;
    AgentOneLine(parts1);
    AgentOneLine(parts2);
    LinesOf(covered, parts1, a1, v1);
    LinesOf(covered, parts2, a2, v2);
    if covered == [AUTHORITY, AGENT] {
      SameAgentLast(a1, v1, a2, v2);
    } else {
      SameAgentFirst(a1, v1, a2, v2);
    }
  }

  /**
   One base belongs to one set of parameters, one authority and, when covered, one agent value.
   The authority is not assumed to be a single line: a target URI may put line breaks in its host.
   */
  lemma BaseUnambiguous(parts1: RequestParts, p1: SignatureParams, parts2: RequestParts, p2: SignatureParams)
    requires Base(parts1, p1).Ok? && Base(parts1, p1) == Base(parts2, p2)
    ensures p1 == p2
    ensures Authority.AuthorityFromUri(parts1.targetUri) == Authority.AuthorityFromUri(parts2.targetUri)
    ensures AGENT in p1.covered ==>
      parts1.signatureAgent.Some? && parts2.signatureAgent.Some? &&
      Trim(parts1.signatureAgent.value) == Trim(parts2.signatureAgent.value)
  {
    BaseParts(parts1, p1);
    BaseParts(parts2, p2);
    var l1, l2 := BaseLines(p1.covered, {}, parts1).value, BaseLines(p2.covered, {}, parts2).value;
    SameLastLine(l1, PARAMS_KEY + ParamsText(p1), l2, PARAMS_KEY + ParamsText(p2));
    DropPrefix(PARAMS_KEY, ParamsText(p1), ParamsText(p2));
    ParamsTextInjective(p1, p2);
    SameLines(p1.covered, parts1, parts2);
    LinesValues(p1.covered, {}, parts1);
    LinesValues(p1.covered, {}, parts2);
    if AGENT in p1.covered {
      NamesDiffer();
      AgentTextIff(parts1, AgentValue(parts1).value);
      AgentTextIff(parts2, AgentValue(parts1).value);
    }
  }

  // The base as text.

  /** The agent header without surrounding white space, when that is one non-empty line. */
  predicate AgentText(parts: RequestParts, agent: string) {
    && parts.signatureAgent.Some? && agent == Trim(parts.signatureAgent.value)
    && agent != "" && '\r' !in agent && '\n' !in agent
  }

  /** A base spelt out, for each of the three covered lists. */
  predicate BaseSpelt(parts: RequestParts, covered: seq<string>, auth: string, agent: string, params: string,
                      text: string)
  {
    || (covered == ["@authority"] &&
        text == "\"@authority\": " + auth + "\n\"@signature-params\": " + params)
    || (covered == ["@authority", "signature-agent"] && AgentText(parts, agent) &&
        text == "\"@authority\": " + auth + "\n\"signature-agent\": " + agent +
                "\n\"@signature-params\": " + params)
    || (covered == ["signature-agent", "@authority"] && AgentText(parts, agent) &&
        text == "\"signature-agent\": " + agent + "\n\"@authority\": " + auth +
                "\n\"@signature-params\": " + params)
  }

  /** A request has a base exactly when its parameters print and the text below is ASCII; the base is that text. */
  lemma BaseIff(parts: RequestParts, p: SignatureParams, text: string)
    ensures Base(parts, p) == Ok(text) <==>
            Serializable(p) && IsAscii(text) &&
            exists auth, agent :: Authority.AuthorityFromUri(parts.targetUri) == Ok(auth) &&
                                  BaseSpelt(parts, p.covered, auth, agent, ParamsText(p), text)
  {
    if Base(parts, p) == Ok(text) {
      var auth, agent := BaseIsSpelt(parts, p, text);
    }
    if Serializable(p) && IsAscii(text) {
      forall auth, agent | Authority.AuthorityFromUri(parts.targetUri) == Ok(auth) &&
                           BaseSpelt(parts, p.covered, auth, agent, ParamsText(p), text)
        ensures Base(parts, p) == Ok(text)
      {
        SpeltIsBase(parts, p, auth, agent, text);
      }
    }
  }

  lemma AgentTextIff(parts: RequestParts, agent: string)
    ensures AgentText(parts, agent) <==> ComponentValue(AGENT, parts) == Ok(agent)
  {
    NamesDiffer();
    assert HasLineBreak(agent) <==> '\r' in agent || '\n' in agent;
  }

  lemma BaseIsSpelt(parts: RequestParts, p: SignatureParams, text: string) returns (auth: string, agent: string)
    requires Base(parts, p) == Ok(text)
    ensures Serializable(p) && IsAscii(text) && Authority.AuthorityFromUri(parts.targetUri) == Ok(auth)
    ensures BaseSpelt(parts, p.covered, auth, agent, ParamsText(p), text)
  {
    BaseParts(parts, p);
    CoveredShape(p.covered, parts);
    LinesValues(p.covered, {}, parts);
    NamesDiffer();
    auth := ComponentValue(AUTHORITY, parts).value;
    agent := "";
    if AGENT in p.covered {
      agent := ComponentValue(AGENT, parts).value;
      AgentTextIff(parts, agent);
    }
    LinesOf(p.covered, parts, auth, agent);
    LinesText(auth, agent, ParamsText(p));
  }

  lemma SpeltIsBase(parts: RequestParts, p: SignatureParams, auth: string, agent: string, text: string)
    requires Serializable(p) && IsAscii(text) && Authority.AuthorityFromUri(parts.targetUri) == Ok(auth)
    requires BaseSpelt(parts, p.covered, auth, agent, ParamsText(p), text)
    ensures Base(parts, p) == Ok(text)
  {
    AgentTextIff(parts, agent);
    ShapeHasLines(p.covered, parts);
    assert p.covered[0] == AUTHORITY || p.covered[1] == AUTHORITY;
    LinesOf(p.covered, parts, auth, agent);
    LinesText(auth, agent, ParamsText(p));
  }

  lemma ShapeHasLines(covered: seq<string>, parts: RequestParts)
    requires covered == [AUTHORITY] || covered == [AUTHORITY, AGENT] || covered == [AGENT, AUTHORITY]
    requires forall name <- covered :: ComponentValue(name, parts).Ok?
    ensures BaseLines(covered, {}, parts).Ok?
  {
    NamesDiffer();
    assert covered[0] in covered;
    if |covered| == 1 {
      assert covered[1..] == [];
    } else {
      assert covered[1] in covered && covered[1..] == [covered[1]];
      OneHasLine(covered[1], {} + {covered[0]}, parts);
    }
  }

  lemma OneHasLine(name: string, seen: set<string>, parts: RequestParts)
    requires name in ALLOWED && name !in seen && ComponentValue(name, parts).Ok?
    ensures BaseLines([name], seen, parts).Ok?
  {
    assert [name][1..] == [];
  }

  lemma KeysSpelt()
    ensures Key(AUTHORITY) == "\"@authority\": " && Key(AGENT) == "\"signature-agent\": "
    ensures "\n" + PARAMS_KEY == "\n\"@signature-params\": "
  {
  }

  lemma KeysAfterBreak()
    ensures "\n" + Key(AUTHORITY) == "\n\"@authority\": " && "\n" + Key(AGENT) == "\n\"signature-agent\": "
  {
    KeysSpelt();
  }

  lemma Join2<T>(k1: seq<T>, a: seq<T>, nl: seq<T>, k2: seq<T>, b: seq<T>)
    ensures (k1 + a + nl) + (k2 + b) == k1 + a + (nl + k2) + b
  {
  }

  lemma Join3<T>(k1: seq<T>, a: seq<T>, nl: seq<T>, k2: seq<T>, b: seq<T>, k3: seq<T>, d: seq<T>)
    ensures (k1 + a + nl) + (k2 + b + nl) + (k3 + d) == k1 + a + (nl + k2) + b + (nl + k3) + d
  {
  }

  lemma LinesText(auth: string, agent: string, params: string)
    ensures Line(AUTHORITY, auth) + (PARAMS_KEY + params) ==
            "\"@authority\": " + auth + "\n\"@signature-params\": " + params
    ensures Line(AUTHORITY, auth) + Line(AGENT, agent) + (PARAMS_KEY + params) ==
            "\"@authority\": " + auth + "\n\"signature-agent\": " + agent + "\n\"@signature-params\": " + params
    ensures Line(AGENT, agent) + Line(AUTHORITY, auth) + (PARAMS_KEY + params) ==
            "\"signature-agent\": " + agent + "\n\"@authority\": " + auth + "\n\"@signature-params\": " + params
  {
    KeysSpelt();
    KeysAfterBreak();
    Join2(Key(AUTHORITY), auth, "\n", PARAMS_KEY, params);
    Join3(Key(AUTHORITY), auth, "\n", Key(AGENT), agent, PARAMS_KEY, params);
    Join3(Key(AGENT), agent, "\n", Key(AUTHORITY), auth, PARAMS_KEY, params);
  }

  /** The parameters spelt out after the covered list. */
  lemma ParamsSpelt(p: SignatureParams, names: string)
    requires Serializable(p) && names == PrintNames(p.covered)
    ensures ParamsText(p) ==
            "(" + names + ")" + (";created=" + PrintInt(p.created) + (";expires=" + PrintInt(p.expires) +
            (";keyid=" + PrintString(p.keyid) + (";alg=" + PrintString(p.alg) +
            (";nonce=" + PrintString(p.nonce) + (";tag=" + PrintString(p.tag)))))))
  {
    EachSpelt(p);
    SixParams(p);
  }

  lemma EachSpelt(p: SignatureParams)
    requires Serializable(p)
    ensures PrintParam("created", Integer(p.created)) == ";created=" + PrintInt(p.created)
    ensures PrintParam("expires", Integer(p.expires)) == ";expires=" + PrintInt(p.expires)
    ensures PrintParam("keyid", Str(p.keyid)) == ";keyid=" + PrintString(p.keyid)
    ensures PrintParam("alg", Str(p.alg)) == ";alg=" + PrintString(p.alg)
    ensures PrintParam("nonce", Str(p.nonce)) == ";nonce=" + PrintString(p.nonce)
    ensures PrintParam("tag", Str(p.tag)) == ";tag=" + PrintString(p.tag)
  {
    ParamKeys();
  }

  lemma SixParams(p: SignatureParams)
    requires Serializable(p)
    ensures PrintableParams(ParamList(p))
    ensures PrintParams(ParamList(p)) ==
            PrintParam("created", Integer(p.created)) + (PrintParam("expires", Integer(p.expires)) +
            (PrintParam("keyid", Str(p.keyid)) + (PrintParam("alg", Str(p.alg)) +
            (PrintParam("nonce", Str(p.nonce)) + PrintParam("tag", Str(p.tag))))))
  {
    ParamListOk(p);
    assert ParamList(p) == [("created", Integer(p.created))] + ([("expires", Integer(p.expires))] + LastFour(p));
    OneMore("created", Integer(p.created), [("expires", Integer(p.expires))] + LastFour(p));
    OneMore("expires", Integer(p.expires), LastFour(p));
    MiddleParams(p);
    LastParams(p.nonce, p.tag);
  }

  function LastFour(p: SignatureParams): Params {
    [("keyid", Str(p.keyid))] + ([("alg", Str(p.alg))] + [("nonce", Str(p.nonce)), ("tag", Str(p.tag))])
  }

  lemma MiddleParams(p: SignatureParams)
    requires Serializable(p) && PrintableParams(LastFour(p))
    ensures PrintableParams([("nonce", Str(p.nonce)), ("tag", Str(p.tag))])
    ensures PrintParams(LastFour(p)) ==
            PrintParam("keyid", Str(p.keyid)) + (PrintParam("alg", Str(p.alg)) +
            PrintParams([("nonce", Str(p.nonce)), ("tag", Str(p.tag))]))
  {
    OneMore("keyid", Str(p.keyid), [("alg", Str(p.alg))] + [("nonce", Str(p.nonce)), ("tag", Str(p.tag))]);
    OneMore("alg", Str(p.alg), [("nonce", Str(p.nonce)), ("tag", Str(p.tag))]);
  }

  lemma ParamKeys()
    ensures ";" + "created" + "=" == ";created=" && ";" + "expires" + "=" == ";expires="
    ensures ";" + "keyid" + "=" == ";keyid=" && ";" + "alg" + "=" == ";alg="
    ensures ";" + "nonce" + "=" == ";nonce=" && ";" + "tag" + "=" == ";tag="
  {
  }

  lemma OneMore(k: string, v: BareItem, rest: Params)
    requires PrintableItem(v) && PrintableParams([(k, v)] + rest)
    ensures PrintableParams(rest) && PrintParams([(k, v)] + rest) == PrintParam(k, v) + PrintParams(rest)
  {
    var all := [(k, v)] + rest;
    assert all[1..] == rest && forall i :: 0 <= i < |rest| ==> rest[i] == all[i + 1];
  }

  lemma LastParams(nonce: string, tag: string)
    requires PrintableParams([("nonce", Str(nonce)), ("tag", Str(tag))])
    ensures Printable(nonce) && Printable(tag)
    ensures PrintParams([("nonce", Str(nonce)), ("tag", Str(tag))]) ==
            PrintParam("nonce", Str(nonce)) + PrintParam("tag", Str(tag))
  {
    var last: Params := [("nonce", Str(nonce)), ("tag", Str(tag))];
    assert PrintableItem(last[0].1) && PrintableItem(last[1].1);
    assert last == [("nonce", Str(nonce))] + ([("tag", Str(tag))] + []);
    OneMore("nonce", Str(nonce), [("tag", Str(tag))] + []);
    OneMore("tag", Str(tag), []);
    assert PrintParams([]) == "";
  }

  /** The covered lists of a base, as they print. */
  lemma NamesSpelt()
    ensures PrintNames(["@authority"]) == "\"@authority\""
    ensures PrintNames(["@authority", "signature-agent"]) == "\"@authority\" \"signature-agent\""
    ensures PrintNames(["signature-agent", "@authority"]) == "\"signature-agent\" \"@authority\""
  {
    NoEscapes();
    QuotedNames();
    TwoPrinted(AUTHORITY, AGENT);
    TwoPrinted(AGENT, AUTHORITY);
  }

  lemma TwoPrinted(a: string, b: string)
    ensures PrintNames([a]) == PrintString(a) && PrintNames([a, b]) == PrintString(a) + " " + PrintString(b)
  {
    assert [a, b][1..] == [b];
  }

  lemma QuotedNames()
    ensures "\"" + "@authority" + "\"" == "\"@authority\""
    ensures "\"@authority\"" + " " + ("\"" + "signature-agent" + "\"") == "\"@authority\" \"signature-agent\""
    ensures ("\"" + "signature-agent" + "\"") + " " + "\"@authority\"" == "\"signature-agent\" \"@authority\""
  {
  }

  lemma NoEscapes()
    ensures PrintString(AUTHORITY) == "\"" + AUTHORITY + "\"" && PrintString(AGENT) == "\"" + AGENT + "\""
  {
    PlainNames();
    EscapePlain(AUTHORITY);
    EscapePlain(AGENT);
  }

  lemma PlainNames()
    ensures '"' !in AUTHORITY && '\\' !in AUTHORITY && '"' !in AGENT && '\\' !in AGENT
  {
  }

  // Refusals.

  /** What is wrong with the `i`-th covered name, if anything. */
  function FaultAt(parts: RequestParts, covered: seq<string>, i: nat): Option<HttpSigError>
    requires i < |covered|
  {
    if covered[i] == "@authority" then
      if covered[i] in covered[..i] then Some(DuplicateComponent)
      else match Authority.AuthorityFromUri(parts.targetUri) case Ok(_) => None case Err(e) => Some(e)
    else if covered[i] == "signature-agent" then
      if covered[i] in covered[..i] then Some(DuplicateComponent)
      else if parts.signatureAgent.None? || Blank(parts.signatureAgent.value) then Some(MissingComponent)
      else if AgentText(parts, Trim(parts.signatureAgent.value)) then None
      else Some(InvalidComponentValue)
    else Some(UnsupportedComponent)
  }

  /** The first fault of a covered list is the error; without one, what is left is checked in this order. */
  lemma BaseRefusal(parts: RequestParts, p: SignatureParams, i: nat)
    requires i <= |p.covered| && forall j :: 0 <= j < i ==> FaultAt(parts, p.covered, j).None?
    ensures i < |p.covered| && FaultAt(parts, p.covered, i).Some? ==>
      Base(parts, p) == Err(FaultAt(parts, p.covered, i).value)
    ensures i == |p.covered| && "@authority" !in p.covered ==> Base(parts, p) == Err(MissingComponent)
    ensures i == |p.covered| && "@authority" in p.covered && !Serializable(p) ==> Base(parts, p) == Err(StructuredField)
    ensures i == |p.covered| && Serializable(p) && Base(parts, p).Err? && "@authority" in p.covered ==>
      Base(parts, p) == Err(NonAsciiBase)
  {
    assert p.covered[0..] == p.covered;
    LinesFault(parts, p.covered, 0, i, {});
  }

  lemma {:induction false} LinesFault(parts: RequestParts, covered: seq<string>, k: nat, i: nat, seen: set<string>)
    requires k <= i <= |covered| && (forall name :: name in seen <==> name in covered[..k])
    requires forall j :: k <= j < i ==> FaultAt(parts, covered, j).None?
    ensures i < |covered| && FaultAt(parts, covered, i).Some? ==>
      BaseLines(covered[k..], seen, parts) == Err(FaultAt(parts, covered, i).value)
    ensures i == |covered| ==> BaseLines(covered[k..], seen, parts).Ok?
    decreases i - k
  {
    if k < |covered| {
      assert covered[k..][0] == covered[k] && covered[k..][1..] == covered[k + 1..];
      assert covered[..k + 1] == covered[..k] + [covered[k]];
      FaultStep(parts, covered, k, seen);
      if k < i {
        LinesFault(parts, covered, k + 1, i, seen + {covered[k]});
      }
    }
  }

  lemma FaultStep(parts: RequestParts, covered: seq<string>, k: nat, seen: set<string>)
    requires k < |covered| && (covered[k] in seen <==> covered[k] in covered[..k])
    ensures FaultAt(parts, covered, k) ==
            if covered[k] !in ALLOWED then Some(UnsupportedComponent)
            else if covered[k] in seen then Some(DuplicateComponent)
            else if ComponentValue(covered[k], parts).Err? then Some(ComponentValue(covered[k], parts).error)
            else None
  {
    NamesDiffer();
    if covered[k] == AGENT && parts.signatureAgent.Some? {
      var raw := parts.signatureAgent.value;
      BlankTrims(raw);
      AgentTextIff(parts, Trim(raw));
    }
  }
}
