/** Errors of the RFC 9421 request-signature profile, without their diagnostic payloads. */
module HttpSigErrors {
  datatype HttpSigError =
    | InvalidTargetUri | UnsupportedScheme
    | UnsupportedComponent | MissingComponent | DuplicateComponent | InvalidComponentValue
    | NonAsciiBase | StructuredField | MalformedSignatureInput | MalformedSignature
    | ValidityTooLong | ValidityZero | InvalidWindow
    | ProfileRequiresEd25519 | EmptyThumbprint | TagMismatch | AlgMismatch
    | CreatedInFuture | Expired | NonceReplayed | Sign | Crypto
}

/** `@authority` derivation: section 2.2.3 of RFC 9421 over section 4.2.3 of RFC 9110. */
module Authority {
  import opened Wrappers
  import opened Bytes
  import opened Text
  import opened Decimal
  import opened HttpSigErrors

  const DELIMITERS: set<char> := {'/', '?', '#'}

  function DefaultPort(scheme: string): Option<nat> {
    if scheme == "http" then Some(80) else if scheme == "https" then Some(443) else None
  }

  /** `u16::from_str`, which accepts a leading `+` and leading zeros. */
  function ParsePort(s: string): Option<nat> {
    var digits := if s != [] && s[0] == '+' then s[1..] else s;
    if digits == [] || !Digits(digits) || ParseNat(digits) > 65535 then None else Some(ParseNat(digits))
  }

  /** The authority between the scheme and the first delimiter, without its userinfo. */
  function HostPort(rest: string): string {
    var authority := rest[..Index(rest, DELIMITERS)];
    authority[LastIndex(authority, '@') + 1..]
  }

  /** `[host]` or `[host]:port`, whose last bracket is at `close`. */
  function SplitBracketed(hp: string, close: nat): Option<(string, Option<string>)>
    requires close < |hp|
  {
    var tail := hp[close + 1..];
    if hp[0] != '[' then None
    else if tail == [] then Some((hp[..close + 1], None))
    else if tail[0] == ':' then Some((hp[..close + 1], Some(tail[1..])))
    else None
  }

  /** Split the port off; a bracketed IPv6 literal may hold colons. */
  function SplitPort(hp: string): Option<(string, Option<string>)> {
    var close := LastIndex(hp, ']');
    if close >= 0 then SplitBracketed(hp, close)
    else
      var colon := Index(hp, {':'});
      if colon < |hp| then Some((hp[..colon], Some(hp[colon + 1..]))) else Some((hp, None))
  }

  /** Drop a default port, keep any other in canonical decimal. */
  function Finish(host: string, port: Option<string>, defaultPort: nat): Result<string, HttpSigError> {
    if host == [] || host == "[]" then Err(InvalidTargetUri) else
    match port
    case None => Ok(host)
    case Some(text) =>
      match ParsePort(text)
      case None => Err(InvalidTargetUri)
      case Some(p) => if p == defaultPort then Ok(host) else Ok(host + ":" + PrintNat(p))
  }

  function Normalise(hp: string, defaultPort: nat): Result<string, HttpSigError> {
    if hp == [] then Err(InvalidTargetUri) else
    match SplitPort(hp)
    case None => Err(InvalidTargetUri)
    case Some((host, port)) => Finish(ToLower(host), port, defaultPort)
  }

  function AuthorityFromUri(uri: string): Result<string, HttpSigError> {
    match Find(uri, "://")
    case None => Err(InvalidTargetUri)
    case Some(i) =>
      match DefaultPort(ToLower(uri[..i]))
      case None => Err(UnsupportedScheme)
      case Some(port) => Normalise(HostPort(uri[i + 3..]), port)
  }

  /** A host the split leaves whole: without colons and brackets, or one bracketed literal. */
  predicate WholeHost(h: string) {
    if h != [] && h[0] == '[' && h[|h| - 1] == ']' then true else ':' !in h && ']' !in h
  }

  predicate InnerChar(c: char) {
    c !in DELIMITERS && c != '@'
  }

  /** No character of `s` ends the authority or introduces userinfo. */
  predicate Inner(s: string) {
    forall i :: 0 <= i < |s| ==> InnerChar(s[i])
  }

  lemma InnerConcat(a: string, b: string)
    ensures Inner(a + b) <==> Inner(a) && Inner(b)
  {
    if Inner(a + b) {
      assert forall i :: 0 <= i < |a| ==> a[i] == (a + b)[i];
      assert forall i :: 0 <= i < |b| ==> b[i] == (a + b)[|a| + i];
    }
  }

  lemma LowerKeeps(s: string)
    ensures forall i :: 0 <= i < |s| && !('A' <= s[i] <= 'Z') ==> ToLower(s)[i] == s[i]
    ensures forall i :: 0 <= i < |s| && 'A' <= s[i] <= 'Z' ==> 'a' <= ToLower(s)[i] <= 'z'
    ensures Inner(s) ==> Inner(ToLower(s))
    ensures WholeHost(s) ==> WholeHost(ToLower(s))
  {
  }

  lemma SplitPortHost(hp: string)
    requires SplitPort(hp).Some?
    ensures WholeHost(SplitPort(hp).value.0)
    ensures var (h, p) := SplitPort(hp).value; hp == if p.None? then h else h + ":" + p.value
  {
    var close := LastIndex(hp, ']');
    if close >= 0 {
      BracketedHost(hp, close);
    } else {
      PlainHost(hp, Index(hp, {':'}));
    }
  }

  lemma BracketedHost(hp: string, close: nat)
    requires close < |hp| && hp[close] == ']' && SplitBracketed(hp, close).Some?
    ensures var (h, p) := SplitBracketed(hp, close).value;
            WholeHost(h) && hp == if p.None? then h else h + ":" + p.value
  {
    var tail := hp[close + 1..];
    assert hp == hp[..close + 1] + tail;
    assert tail != [] ==> tail == [tail[0]] + tail[1..];
  }

  lemma PlainHost(hp: string, colon: nat)
    requires colon == Index(hp, {':'}) && ']' !in hp
    ensures WholeHost(hp[..colon]) && (colon < |hp| ==> hp == hp[..colon] + ":" + hp[colon + 1..])
    ensures colon == |hp| ==> WholeHost(hp)
  {
    IndexOne(hp, ':', colon);
    if colon < |hp| {
      CutAt(hp, colon);
      Assoc(hp[..colon], ":", hp[colon + 1..]);
    }
    NotInPrefix(hp, ']', colon);
  }

  lemma NotInPrefix(s: string, c: char, n: nat)
    requires n <= |s| && c !in s
    ensures c !in s[..n]
  {
  }

  /** Joining a whole host with a port is undone by the split. */
  lemma SplitPortJoin(h: string, port: string)
    requires WholeHost(h) && h != [] && ']' !in port
    ensures SplitPort(h) == Some((h, None))
    ensures SplitPort(h + ":" + port) == Some((h, Some(port)))
  {
    var hp := h + ":" + port;
    assert hp[..|h|] == h && hp[|h|..] == ":" + port && hp[|h| + 1..] == port && h[..|h|] == h;
    if h[0] == '[' && h[|h| - 1] == ']' {
      JoinBracketed(h, port, hp);
    } else {
      JoinPlain(h, port, hp);
    }
  }

  lemma JoinBracketed(h: string, port: string, hp: string)
    requires h != [] && h[0] == '[' && h[|h| - 1] == ']' && ']' !in port && hp == h + ":" + port
    requires hp[..|h|] == h && hp[|h|..] == ":" + port && hp[|h| + 1..] == port && h[..|h|] == h
    ensures SplitPort(h) == Some((h, None)) && SplitPort(hp) == Some((h, Some(port)))
  {
    LastIndexUnique(h, ']', |h| - 1);
    LastIndexUnique(hp, ']', |h| - 1);
  }

  lemma JoinPlain(h: string, port: string, hp: string)
    requires h != [] && ':' !in h && ']' !in h && ']' !in port && hp == h + ":" + port
    requires hp[..|h|] == h && hp[|h| + 1..] == port
    ensures SplitPort(h) == Some((h, None)) && SplitPort(hp) == Some((h, Some(port)))
  {
    assert ':' in {':'} && hp[|h|] == ':';
    IndexUnique(hp, {':'}, |h|);
    IndexUnique(h, {':'}, |h|);
    LastIndexUnique(hp, ']', -1);
    LastIndexUnique(h, ']', -1);
  }

  lemma DigitsInner(p: nat)
    ensures Inner(PrintNat(p)) && ']' !in PrintNat(p)
    ensures p <= 65535 ==> ParsePort(PrintNat(p)) == Some(p)
  {
    ParsePrint(p);
    var s := PrintNat(p);
    assert IsDigit(s[0]);
  }

  /** Normalising is idempotent: a printed non-default port reads back and prints the same. */
  lemma NormaliseFixed(hp: string, d: nat)
    requires Inner(hp) && Normalise(hp, d).Ok?
    ensures var a := Normalise(hp, d).value; a != [] && Inner(a) && Normalise(a, d) == Ok(a)
  {
    SplitPortHost(hp);
    var (raw, port) := SplitPort(hp).value;
    if port.Some? {
      HostInner(raw, port.value);
    }
    FinishFixed(raw, ToLower(raw), port, d);
  }

  lemma FinishFixed(raw: string, host: string, port: Option<string>, d: nat)
    requires WholeHost(raw) && Inner(raw) && host == ToLower(raw) && Finish(host, port, d).Ok?
    ensures var a := Finish(host, port, d).value; a != [] && Inner(a) && Normalise(a, d) == Ok(a)
  {
    LowerKeeps(raw);
    ToLowerIdempotent(raw);
    if port.None? {
      FinishPlain(host, d);
    } else {
      FinishPort(host, port.value, d);
    }
  }

  lemma HostInner(host: string, port: string)
    requires Inner(host + ":" + port)
    ensures Inner(host)
  {
    InnerConcat(host + ":", port);
    InnerConcat(host, ":");
  }

  lemma FinishPlain(host: string, d: nat)
    requires WholeHost(host) && ToLower(host) == host && Finish(host, None, d).Ok?
    ensures Normalise(host, d) == Ok(host)
  {
    SplitPortJoin(host, []);
  }

  lemma FinishPort(host: string, port: string, d: nat)
    requires WholeHost(host) && ToLower(host) == host && Finish(host, Some(port), d).Ok? && Inner(host)
    ensures var a := Finish(host, Some(port), d).value; a != [] && Inner(a) && Normalise(a, d) == Ok(a)
  {
    var p := ParsePort(port).value;
    if p == d {
      FinishPlain(host, d);
    } else {
      DigitsInner(p);
      FinishPrinted(host, p, PrintNat(p), d);
    }
  }

  lemma FinishPrinted(host: string, p: nat, text: string, d: nat)
    requires WholeHost(host) && ToLower(host) == host && host != [] && host != "[]" && Inner(host)
    requires text == PrintNat(p) && ParsePort(text) == Some(p) && Inner(text) && ']' !in text && p != d
    ensures var a := host + ":" + text; Inner(a) && Normalise(a, d) == Ok(a)
  {
    SplitPortJoin(host, text);
    JoinInner(host, text);
  }

  lemma HostPortInner(rest: string)
    ensures Inner(HostPort(rest))
  {
  }

  /** The part of a target URI that matters: everything else may be wrapped around `hp`. */
  lemma HostPortOf(user: string, hp: string, tail: string)
    requires Inner(hp)
    requires forall i :: 0 <= i < |user| ==> user[i] !in DELIMITERS
    requires user == [] || user[|user| - 1] == '@'
    requires tail == [] || tail[0] in DELIMITERS
    ensures HostPort(user + hp + tail) == hp
  {
    var rest := user + hp + tail;
    IndexUnique(rest, DELIMITERS, |user + hp|);
    assert rest[..|user + hp|] == user + hp;
    LastIndexUnique(user + hp, '@', |user| - 1);
  }

  lemma SchemeSplit(scheme: string, rest: string)
    requires DefaultPort(ToLower(scheme)).Some?
    ensures Find(scheme + "://" + rest, "://") == Some(|scheme|)
  {
    var uri := scheme + "://" + rest;
    assert uri[|scheme|..] == "://" + rest;
    forall j | 0 <= j < |scheme| ensures !At(uri, "://", j) {
      assert ToLower(scheme)[j] == Lower(scheme[j]);
      NoPrefixAt(uri, "://", j);
    }
    FindUnique(uri, "://", |scheme|);
  }

  lemma AuthorityOf(scheme: string, user: string, hp: string, tail: string)
    requires DefaultPort(ToLower(scheme)).Some? && Inner(hp)
    requires forall i :: 0 <= i < |user| ==> user[i] !in DELIMITERS
    requires user == [] || user[|user| - 1] == '@'
    requires tail == [] || tail[0] in DELIMITERS
    ensures AuthorityFromUri(scheme + "://" + user + hp + tail) ==
            Normalise(hp, DefaultPort(ToLower(scheme)).value)
  {
    var uri := scheme + "://" + user + hp + tail;
    assert uri == scheme + "://" + (user + hp + tail);
    SchemeSplit(scheme, user + hp + tail);
    assert uri[..|scheme|] == scheme && uri[|scheme| + 3..] == user + hp + tail;
    HostPortOf(user, hp, tail);
  }

  /** Feeding the derived authority back under the same scheme changes nothing. */
  lemma AuthorityIdempotent(uri: string)
    requires AuthorityFromUri(uri).Ok?
    ensures var a := AuthorityFromUri(uri).value;
            AuthorityFromUri(ToLower(uri[..Find(uri, "://").value]) + "://" + a) == Ok(a)
  {
    var i := Find(uri, "://").value;
    var scheme := ToLower(uri[..i]);
    HostPortInner(uri[i + 3..]);
    NormaliseFixed(HostPort(uri[i + 3..]), DefaultPort(scheme).value);
    var a := AuthorityFromUri(uri).value;
    ToLowerIdempotent(uri[..i]);
    AuthorityPlain(scheme, a);
  }

  lemma AuthorityPlain(scheme: string, hp: string)
    requires DefaultPort(ToLower(scheme)).Some? && Inner(hp)
    ensures AuthorityFromUri(scheme + "://" + hp) == Normalise(hp, DefaultPort(ToLower(scheme)).value)
  {
    ConcatNothing(scheme + "://", hp);
    AuthorityOf(scheme, [], hp, []);
  }

  lemma ConcatNothing(a: string, b: string)
    ensures a + [] + b + [] == a + b
  {
  }

  lemma BracketLast(hp: string, low: string, close: nat)
    requires low == ToLower(hp) && close < |hp| && LastIndex(hp, ']') == close
    ensures LastIndex(low, ']') == close
  {
    LowerKeeps(hp);
    LastIndexUnique(low, ']', close);
  }

  lemma LowerHead(s: string, i: nat)
    requires i <= |s|
    ensures ToLower(s[..i]) == ToLower(s)[..i]
  {
  }

  lemma ColonCase(hp: string, low: string)
    requires low == ToLower(hp) && LastIndex(hp, ']') < 0
    ensures LastIndex(low, ']') < 0 && Index(low, {':'}) == Index(hp, {':'})
  {
    LowerKeeps(hp);
    LastIndexUnique(low, ']', -1);
    IndexUnique(low, {':'}, Index(hp, {':'}));
  }

  lemma LowerTail(s: string, i: nat)
    requires i < |s|
    ensures ToLower(s[i + 1..]) == ToLower(s)[i + 1..] && ToLower(s[..i]) == ToLower(s)[..i]
  {
  }

  /** The two splits agree up to letter case. */
  predicate SameSplit(a: Option<(string, Option<string>)>, b: Option<(string, Option<string>)>) {
    match a
    case None => b.None?
    case Some((h, None)) => b == Some((ToLower(h), None))
    case Some((h, Some(p))) => b == Some((ToLower(h), Some(ToLower(p))))
  }

  lemma SplitBracketedCase(hp: string, low: string, close: nat)
    requires low == ToLower(hp) && close < |hp|
    ensures SameSplit(SplitBracketed(hp, close), SplitBracketed(low, close))
  {
    LowerTail(hp, close);
    LowerHead(hp, close + 1);
    TailCase(hp[close + 1..], low[close + 1..]);
  }

  lemma SplitBracketCase(hp: string, low: string)
    requires low == ToLower(hp) && LastIndex(hp, ']') >= 0
    ensures SameSplit(SplitPort(hp), SplitPort(low))
  {
    var close := LastIndex(hp, ']');
    BracketLast(hp, low, close);
    SplitBracketedCase(hp, low, close);
  }

  lemma TailCase(tail: string, low: string)
    requires low == ToLower(tail)
    ensures tail != [] ==> (low[0] == ':' <==> tail[0] == ':') && ToLower(tail[1..]) == low[1..]
  {
    if tail != [] {
      LowerTail(tail, 0);
    }
  }

  lemma SplitColonCase(hp: string, low: string)
    requires low == ToLower(hp) && LastIndex(hp, ']') < 0
    ensures SameSplit(SplitPort(hp), SplitPort(low))
  {
    ColonCase(hp, low);
    if Index(hp, {':'}) < |hp| {
      LowerTail(hp, Index(hp, {':'}));
    }
  }

  lemma NormaliseCase(hp: string, d: nat)
    ensures Normalise(hp, d) == Normalise(ToLower(hp), d)
  {
    if LastIndex(hp, ']') >= 0 {
      SplitBracketCase(hp, ToLower(hp));
    } else {
      SplitColonCase(hp, ToLower(hp));
    }
    if SplitPort(hp).Some? {
      FinishCase(SplitPort(hp).value.0, SplitPort(hp).value.1, d);
    }
  }

  lemma FinishCase(host: string, port: Option<string>, d: nat)
    ensures Finish(ToLower(host), port, d) == Finish(ToLower(ToLower(host)), port, d)
    ensures port.Some? ==>
      Finish(ToLower(host), port, d) == Finish(ToLower(ToLower(host)), Some(ToLower(port.value)), d)
  {
    ToLowerIdempotent(host);
    if port.Some? {
      ParsePortCase(port.value);
    }
  }

  lemma ParsePortCase(s: string)
    ensures ParsePort(s) == ParsePort(ToLower(s))
  {
    var low := ToLower(s);
    var digits := if s != [] && s[0] == '+' then s[1..] else s;
    var lowDigits := if low != [] && low[0] == '+' then low[1..] else low;
    assert lowDigits == ToLower(digits);
    if Digits(lowDigits) {
      forall i | 0 <= i < |digits| ensures digits[i] == lowDigits[i] {
        assert IsDigit(lowDigits[i]);
      }
    }
    if Digits(digits) {
      forall i | 0 <= i < |digits| ensures digits[i] == lowDigits[i] {
        assert IsDigit(digits[i]);
      }
      assert digits == lowDigits;
    }
  }

  /** Scheme case, host case, userinfo, path, query and fragment do not reach the authority. */
  lemma AuthorityInsensitive(scheme1: string, user1: string, hp1: string, tail1: string,
                             scheme2: string, user2: string, hp2: string, tail2: string)
    requires ToLower(scheme1) == ToLower(scheme2) && DefaultPort(ToLower(scheme1)).Some?
    requires ToLower(hp1) == ToLower(hp2) && Inner(hp1) && Inner(hp2)
    requires forall i :: 0 <= i < |user1| ==> user1[i] !in DELIMITERS
    requires forall i :: 0 <= i < |user2| ==> user2[i] !in DELIMITERS
    requires user1 == [] || user1[|user1| - 1] == '@'
    requires user2 == [] || user2[|user2| - 1] == '@'
    requires tail1 == [] || tail1[0] in DELIMITERS
    requires tail2 == [] || tail2[0] in DELIMITERS
    ensures AuthorityFromUri(scheme1 + "://" + user1 + hp1 + tail1) ==
            AuthorityFromUri(scheme2 + "://" + user2 + hp2 + tail2)
  {
    AuthorityOf(scheme1, user1, hp1, tail1);
    AuthorityOf(scheme2, user2, hp2, tail2);
    NormaliseCase(hp1, DefaultPort(ToLower(scheme1)).value);
    NormaliseCase(hp2, DefaultPort(ToLower(scheme1)).value);
  }

  lemma PortInner(port: string)
    requires ParsePort(port).Some?
    ensures Inner(port) && ']' !in port
  {
    var digits := if port[0] == '+' then port[1..] else port;
    assert forall i :: 0 <= i < |port| ==> port[i] == '+' || IsDigit(port[i]) by {
      forall i | 0 <= i < |port| ensures port[i] == '+' || IsDigit(port[i]) {
        if port[0] != '+' { assert digits[i] == port[i]; }
        else if i > 0 { assert digits[i - 1] == port[i]; }
      }
    }
  }

  /** A port that reads as the scheme's default, however it is spelt, is the same as no port. */
  lemma ExplicitDefaultPort(scheme: string, host: string, port: string)
    requires DefaultPort(ToLower(scheme)).Some? && ParsePort(port) == DefaultPort(ToLower(scheme))
    requires Inner(host) && WholeHost(host) && host != []
    ensures AuthorityFromUri(scheme + "://" + (host + ":" + port)) == AuthorityFromUri(scheme + "://" + host)
  {
    PortInner(port);
    JoinInner(host, port);
    AuthorityPlain(scheme, host + ":" + port);
    AuthorityPlain(scheme, host);
    DropPort(host, port, DefaultPort(ToLower(scheme)).value);
  }

  lemma JoinInner(host: string, port: string)
    requires Inner(host) && Inner(port)
    ensures Inner(host + ":" + port)
  {
    InnerConcat(host, ":");
    InnerConcat(host + ":", port);
  }

  lemma DropPort(host: string, port: string, d: nat)
    requires WholeHost(host) && host != [] && ']' !in port && ParsePort(port) == Some(d)
    ensures Normalise(host + ":" + port, d) == Normalise(host, d)
  {
    SplitPortJoin(host, port);
  }

  /** A lower-case host without a port is its own authority, whatever else it holds. */
  lemma HostIsAuthority(scheme: string, host: string)
    requires DefaultPort(ToLower(scheme)).Some? && Inner(host) && WholeHost(host) && ToLower(host) == host
    requires host != [] && host != "[]"
    ensures AuthorityFromUri(scheme + "://" + host) == Ok(host)
  {
    AuthorityPlain(scheme, host);
    FinishPlain(host, DefaultPort(ToLower(scheme)).value);
  }

  // Line breaks.

  lemma LowerBreak(s: string)
    ensures OneLine(ToLower(s)) <==> OneLine(s)
  {
    var t := ToLower(s);
    assert forall i :: 0 <= i < |s| ==> (t[i] == '\n' <==> s[i] == '\n');
    if OneLine(t) {
      assert forall i :: 0 <= i < |s| ==> t[i] in t;
    }
    if OneLine(s) {
      assert forall i :: 0 <= i < |s| ==> s[i] in s;
    }
  }

  lemma JoinBreak(host: string, port: string)
    requires OneLine(port)
    ensures OneLine(host + ":" + port) <==> OneLine(host)
  {
    var hp := host + ":" + port;
    if OneLine(hp) {
      assert forall i :: 0 <= i < |host| ==> host[i] == hp[i] && hp[i] in hp;
    }
  }

  /** A port that can be read holds no line break, and neither does a printed one. */
  lemma PortOneLine(port: string)
    requires ParsePort(port).Some?
    ensures OneLine(port)
  {
    var digits := if port[0] == '+' then port[1..] else port;
    assert port == (if port[0] == '+' then ['+'] else []) + digits;
  }

  lemma PrintOneLine(p: nat)
    ensures OneLine(PrintNat(p))
  {
  }

  lemma FinishBreak(host: string, port: Option<string>, d: nat)
    requires Finish(host, port, d).Ok?
    ensures OneLine(Finish(host, port, d).value) <==> OneLine(host)
    ensures port.Some? ==> OneLine(port.value)
  {
    if port.Some? {
      PortOneLine(port.value);
      PrintOneLine(ParsePort(port.value).value);
      JoinBreak(host, PrintNat(ParsePort(port.value).value));
    }
  }

  lemma NormaliseBreak(hp: string, d: nat)
    requires Normalise(hp, d).Ok?
    ensures OneLine(Normalise(hp, d).value) <==> OneLine(hp)
  {
    SplitPortHost(hp);
    var (host, port) := SplitPort(hp).value;
    LowerBreak(host);
    FinishBreak(ToLower(host), port, d);
    if port.Some? {
      JoinBreak(host, port.value);
    }
  }

  /**
   Nothing checks a host for line breaks. The derived authority holds one exactly when the host and
   port of the URI do: one in the userinfo, path, query or fragment never reaches it, and one in
   the port is refused.
   */
  lemma AuthorityLineBreakIff(uri: string)
    requires AuthorityFromUri(uri).Ok?
    ensures '\n' in AuthorityFromUri(uri).value <==> '\n' in HostPort(uri[Find(uri, "://").value + 3..])
  {
    var i := Find(uri, "://").value;
    NormaliseBreak(HostPort(uri[i + 3..]), DefaultPort(ToLower(uri[..i])).value);
  }

  /** So it may hold one. */
  lemma AuthorityMayHoldLineBreak(scheme: string, host: string)
    requires DefaultPort(ToLower(scheme)).Some? && host == "a\nb"
    ensures AuthorityFromUri(scheme + "://" + host) == Ok(host) && '\n' in host
  {
    assert host[1] == '\n';
    HostIsAuthority(scheme, host);
  }

  // The derivation, exactly.

  /** What reads as the port `n`: an optional plus sign, leading zeros, and its decimal digits. */
  ghost predicate PortSpelling(text: string, n: nat) {
    n < 65536 && exists plus, zeros :: (plus == "" || plus == "+") && text == plus + (Zeros(zeros) + PrintNat(n))
  }

  function Zeros(k: nat): string {
    Repeat('0', k)
  }

  lemma PortIff(text: string, n: nat)
    ensures ParsePort(text) == Some(n) <==> PortSpelling(text, n)
  {
    if ParsePort(text) == Some(n) {
      PortRead(text, n);
    }
    if PortSpelling(text, n) {
      var plus, zeros :| (plus == "" || plus == "+") && text == plus + (Zeros(zeros) + PrintNat(n));
      PortWritten(text, plus, zeros, Zeros(zeros) + PrintNat(n), n);
    }
  }

  lemma PortRead(text: string, n: nat)
    requires ParsePort(text) == Some(n)
    ensures PortSpelling(text, n)
  {
    var digits := if text[0] == '+' then text[1..] else text;
    var k := DigitsAre(digits);
    SignedDigits(text, digits);
    if text[0] == '+' {
      assert text == "+" + (Zeros(k) + PrintNat(n));
    } else {
      assert text == "" + (Zeros(k) + PrintNat(n));
    }
  }

  lemma SignedDigits(text: string, digits: string)
    requires text != "" && digits == if text[0] == '+' then text[1..] else text
    ensures text == if text[0] == '+' then "+" + digits else "" + digits
  {
  }

  lemma PortWritten(text: string, plus: string, zeros: nat, digits: string, n: nat)
    requires n < 65536 && (plus == "" || plus == "+") && text == plus + digits && digits == Zeros(zeros) + PrintNat(n)
    ensures ParsePort(text) == Some(n)
  {
    ZerosRead(zeros, PrintNat(n));
    ParsePrint(n);
    assert IsDigit(digits[0]);
    assert plus == "+" ==> text[1..] == digits;
    assert plus == "" ==> text == digits;
  }

  lemma {:induction false} ZerosRead(k: nat, digits: string)
    requires Digits(digits)
    ensures Digits(Zeros(k) + digits) && ParseNat(Zeros(k) + digits) == ParseNat(digits)
    decreases |digits| + k
  {
    var s := Zeros(k) + digits;
    if digits != [] {
      assert s[..|s| - 1] == Zeros(k) + digits[..|digits| - 1];
      ZerosRead(k, digits[..|digits| - 1]);
    } else if k > 0 {
      assert s[..|s| - 1] == Zeros(k - 1) + digits;
      ZerosRead(k - 1, digits);
    } else {
      assert s == digits;
    }
  }

  /** Digits are zeros followed by the number they spell. */
  lemma {:induction false} DigitsAre(s: string) returns (k: nat)
    requires s != [] && Digits(s)
    ensures s == Zeros(k) + PrintNat(ParseNat(s))
  {
    var init, d := s[..|s| - 1], s[|s| - 1] as int - 48;
    assert IsDigit(s[|s| - 1]) && [DigitChar(d)] == [s[|s| - 1]] && s == init + [DigitChar(d)];
    if init == [] {
      k := 0;
      OneDigit(s, d);
    } else {
      k := DigitsAre(init);
      var v := ParseNat(init);
      if v == 0 {
        ZerosMore(k, d);
        k := k + 1;
      } else {
        PrintMore(v, d);
        Assoc(Zeros(k), PrintNat(v), [DigitChar(d)]);
      }
    }
  }

  lemma OneDigit(s: string, d: int)
    requires 0 <= d < 10 && s == [] + [DigitChar(d)]
    ensures Digits(s) && s == Zeros(0) + PrintNat(ParseNat(s))
  {
    assert s[..|s| - 1] == [];
  }

  lemma ZerosMore(k: nat, d: int)
    requires 0 <= d < 10
    ensures Zeros(k) + PrintNat(0) + [DigitChar(d)] == Zeros(k + 1) + PrintNat(d)
  {
  }

  lemma PrintMore(v: nat, d: int)
    requires 0 < v && 0 <= d < 10
    ensures PrintNat(10 * v + d) == PrintNat(v) + [DigitChar(d)]
  {
  }

  /** The default port of each scheme, as a number. */
  predicate DefaultOf(scheme: string, n: nat) {
    (ToLower(scheme) == "http" && n == 80) || (ToLower(scheme) == "https" && n == 443)
  }

  /** The port as the authority shows it. */
  function Shown(scheme: string, host: string, n: nat): string {
    if DefaultOf(scheme, n) then host else host + ":" + PrintNat(n)
  }

  /** A host, with or without a readable port, and the authority it stands for. */
  ghost predicate Derives(scheme: string, hp: string, a: string) {
    exists host :: WholeHost(host) && host != "" && host != "[]" &&
      ((hp == host && a == ToLower(host)) ||
       exists text, n :: hp == host + ":" + text && PortSpelling(text, n) && a == Shown(scheme, ToLower(host), n))
  }

  /**
   The authority of a URI, spelt out: the lower-case host, and the port in decimal unless it is 80 for
   http or 443 for https. Nothing else gives an authority.
   */
  lemma AuthorityIff(scheme: string, user: string, hp: string, tail: string, a: string)
    requires ToLower(scheme) == "http" || ToLower(scheme) == "https"
    requires forall i :: 0 <= i < |hp| ==> hp[i] !in {'/', '?', '#', '@'}
    requires forall i :: 0 <= i < |user| ==> user[i] !in {'/', '?', '#'}
    requires user == [] || user[|user| - 1] == '@'
    requires tail == [] || tail[0] in {'/', '?', '#'}
    ensures AuthorityFromUri(scheme + "://" + user + hp + tail) == Ok(a) <==> Derives(scheme, hp, a)
    ensures AuthorityFromUri(scheme + "://" + user + hp + tail).Err? ==>
      AuthorityFromUri(scheme + "://" + user + hp + tail) == Err(InvalidTargetUri)
  {
    AuthorityOf(scheme, user, hp, tail);
    var d := DefaultPort(ToLower(scheme)).value;
    if Normalise(hp, d) == Ok(a) {
      NormalisedDerives(scheme, hp, d, a);
    }
    if Derives(scheme, hp, a) {
      DerivedNormalised(scheme, hp, d, a);
    }
  }

  lemma DerivedNormalised(scheme: string, hp: string, d: nat, a: string)
    requires DefaultPort(ToLower(scheme)) == Some(d) && Derives(scheme, hp, a)
    ensures Normalise(hp, d) == Ok(a)
  {
    var host :| WholeHost(host) && host != "" && host != "[]" &&
      ((hp == host && a == ToLower(host)) ||
       exists text, n :: hp == host + ":" + text && PortSpelling(text, n) && a == Shown(scheme, ToLower(host), n));
    LowerEmpty(host);
    if hp == host && a == ToLower(host) {
      SplitPortJoin(host, []);
    } else {
      var text, n :| hp == host + ":" + text && PortSpelling(text, n) && a == Shown(scheme, ToLower(host), n);
      PortDerived(scheme, host, text, n, d);
    }
  }

  lemma PortDerived(scheme: string, host: string, text: string, n: nat, d: nat)
    requires DefaultPort(ToLower(scheme)) == Some(d) && WholeHost(host) && host != "" && PortSpelling(text, n)
    requires ToLower(host) != "" && ToLower(host) != "[]"
    ensures Normalise(host + ":" + text, d) == Ok(Shown(scheme, ToLower(host), n))
  {
    PortIff(text, n);
    PortInner(text);
    SplitPortJoin(host, text);
    DefaultIs(scheme, d, n);
  }

  lemma DefaultIs(scheme: string, d: nat, n: nat)
    requires DefaultPort(ToLower(scheme)) == Some(d)
    ensures DefaultOf(scheme, n) <==> n == d
  {
  }

  lemma LowerEmpty(host: string)
    ensures (ToLower(host) == "" <==> host == "") && (ToLower(host) == "[]" <==> host == "[]")
  {
    if ToLower(host) == "[]" {
      assert ToLower(host)[0] == Lower(host[0]) && ToLower(host)[1] == Lower(host[1]);
    }
  }

  lemma NormalisedDerives(scheme: string, hp: string, d: nat, a: string)
    requires DefaultPort(ToLower(scheme)) == Some(d) && Normalise(hp, d) == Ok(a)
    ensures Derives(scheme, hp, a)
  {
    SplitPortHost(hp);
    var (host, port) := SplitPort(hp).value;
    LowerEmpty(host);
    if port.Some? {
      PortIff(port.value, ParsePort(port.value).value);
    }
  }

  /** Without `://` there is no scheme, and no other scheme is supported. */
  lemma SchemeRefused(uri: string)
    ensures Find(uri, "://").None? ==> AuthorityFromUri(uri) == Err(InvalidTargetUri)
    ensures Find(uri, "://").Some? && ToLower(uri[..Find(uri, "://").value]) !in {"http", "https"} ==>
      AuthorityFromUri(uri) == Err(UnsupportedScheme)
  {
  }
}
