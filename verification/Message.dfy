/** The sign-in message and the client that checks it before signing. */
module Message {
  import opened Wrappers
  import opened Text

  /** What a DID method answers for a DID: its line in the message, its label and its chain; None where it errs. */
  datatype DidMethod = DidMethod(address: Option<string>, methodLabel: Option<string>, chainId: Option<string>)

  /** What a message shows of a DID. */
  datatype MethodInfo = MethodInfo(identifier: string, methodLabel: string, chainId: Option<string>)

  /** Times are given as they are printed. */
  datatype MessageParams = MessageParams(
    did: string, domain: string, uri: string, nonce: string, issuedAt: string, expirationTime: string)

  /** The registered DID methods; None for a DID none of them supports. */
  type Registry = string -> Option<DidMethod>

  const CHAIN_PREFIX := "eip155:"

  function Line(l: string, rest: string): string {
    l + ['\n'] + rest
  }

  function Head(domain: string, methodLabel: string): string {
    domain + " wants you to sign in with your " + methodLabel + " account:"
  }

  function ChainLine(chainId: Option<string>): string {
    match chainId
    case None => ""
    case Some(chain) => if CHAIN_PREFIX <= chain then "\nChain ID: " + chain[|CHAIN_PREFIX|..] else ""
  }

  function Details(m: MessageParams, chainId: Option<string>): string {
    Line("URI: " + m.uri,
      Line("Version: 1",
        Line("Nonce: " + m.nonce,
          Line("Issued At: " + m.issuedAt, "Expiration Time: " + m.expirationTime + ChainLine(chainId)))))
  }

  function Compose(m: MessageParams, info: MethodInfo): string {
    Line(Head(m.domain, info.methodLabel),
      Line(info.identifier, Line("", Line("Sign in to Aqua Node", Line("", Details(m, info.chainId))))))
  }

  function Shows(answers: Option<DidMethod>): Option<MethodInfo> {
    match answers
    case Some(DidMethod(Some(address), Some(methodLabel), chainId)) => Some(MethodInfo(address, methodLabel, chainId))
    case _ => None
  }

  function BuildMessage(methods: Registry, m: MessageParams): Option<string> {
    match Shows(methods(m.did)) case None => None case Some(info) => Some(Compose(m, info))
  }

  /** The message, line by line; only an eip155 chain adds a last line. */
  lemma MessageText(methods: Registry, m: MessageParams, info: MethodInfo, chain: string)
    requires Shows(methods(m.did)) == Some(info)
    requires if info.chainId.Some? && "eip155:" <= info.chainId.value
             then chain == "\nChain ID: " + info.chainId.value[7..]
             else chain == ""
    ensures BuildMessage(methods, m) ==
            Some(m.domain + " wants you to sign in with your " + info.methodLabel + " account:" + "\n" +
                 info.identifier + "\n\nSign in to Aqua Node\n\nURI: " + m.uri + "\nVersion: 1\nNonce: " + m.nonce +
                 "\nIssued At: " + m.issuedAt + "\nExpiration Time: " + m.expirationTime + chain)
  {
    var details := Details(m, info.chainId);
    assert ChainLine(info.chainId) == chain;
    DetailsText(m, info.chainId, chain);
    UriMark();
    TopLines(Head(m.domain, info.methodLabel), info.identifier, details);
    Flatten(Head(m.domain, info.methodLabel) + "\n" + info.identifier, "\n\nSign in to Aqua Node\n\n", "URI: ", m.uri,
            "\nVersion: 1\nNonce: ", m.nonce, "\nIssued At: ", m.issuedAt, "\nExpiration Time: ", m.expirationTime,
            chain);
  }

  lemma UriMark()
    ensures "\n\nSign in to Aqua Node\n\n" + "URI: " == "\n\nSign in to Aqua Node\n\nURI: "
  {
  }

  lemma DetailsText(m: MessageParams, chainId: Option<string>, chain: string)
    requires chain == ChainLine(chainId)
    ensures Details(m, chainId) ==
            "URI: " + m.uri + "\nVersion: 1\nNonce: " + m.nonce + "\nIssued At: " + m.issuedAt +
            "\nExpiration Time: " + m.expirationTime + chain
  {
    Nested("URI: ", m.uri, "\n", "Version: 1", "Nonce: ", m.nonce, "Issued At: ", m.issuedAt, "Expiration Time: ",
           m.expirationTime, chain);
    assert "\n" + "Version: 1" + "\n" + "Nonce: " == "\nVersion: 1\nNonce: ";
    assert "\n" + "Issued At: " == "\nIssued At: ";
    assert "\n" + "Expiration Time: " == "\nExpiration Time: ";
  }

  lemma Nested(u: string, uri: string, nl: string, v: string, n: string, nonce: string, i: string, issued: string,
               e: string, expires: string, chain: string)
    ensures (u + uri) + nl + (v + nl + ((n + nonce) + nl + ((i + issued) + nl + (e + expires + chain)))) ==
            u + uri + (nl + v + nl + n) + nonce + (nl + i) + issued + (nl + e) + expires + chain
  {
  }

  lemma TopLines(head: string, identifier: string, details: string)
    ensures Line(head, Line(identifier, Line("", Line("Sign in to Aqua Node", Line("", details))))) ==
            head + "\n" + identifier + ("\n\nSign in to Aqua Node\n\n" + details)
  {
    Lines(head, identifier, "\n", "Sign in to Aqua Node", details);
    assert "\n" + "\n" + "Sign in to Aqua Node" + "\n" + "\n" == "\n\nSign in to Aqua Node\n\n";
  }

  lemma Lines(head: string, identifier: string, nl: string, sentence: string, details: string)
    ensures head + nl + (identifier + nl + ("" + nl + (sentence + nl + ("" + nl + details)))) ==
            head + nl + identifier + (nl + nl + sentence + nl + nl + details)
  {
  }

  lemma Flatten(front: string, preamble: string, u: string, uri: string, v: string, nonce: string, i: string,
                issued: string, e: string, expires: string, chain: string)
    ensures front + (preamble + (u + uri + v + nonce + i + issued + e + expires + chain)) ==
            front + (preamble + u) + uri + v + nonce + i + issued + e + expires + chain
  {
  }

  // What the client reads back.

  function NonBlank(s: string): Option<string> {
    if s == "" then None else Some(s)
  }

  function IdentifierFromMessage(message: string): Option<string> {
    var lines := Split(message, '\n');
    if |lines| < 2 then None else NonBlank(Trim(TrimEndChar(lines[1], '\r')))
  }

  /** What follows `URI:` on the first line that starts with it. */
  function UriValue(lines: seq<string>): Option<string> {
    if lines == [] then None
    else if "URI:" <= TrimEndChar(lines[0], '\r') then Some(TrimEndChar(lines[0], '\r')[4..])
    else UriValue(lines[1..])
  }

  function UriLine(message: string): Option<string> {
    match UriValue(Split(message, '\n')) case None => None case Some(v) => NonBlank(Trim(v))
  }

  // The lines of a message.

  predicate OneLineFields(m: MessageParams, info: MethodInfo) {
    OneLine(m.domain) && OneLine(m.uri) && OneLine(m.nonce) && OneLine(m.issuedAt) && OneLine(m.expirationTime) &&
    OneLine(info.methodLabel) && OneLine(info.identifier)
  }

  lemma SplitLine(l: string, rest: string)
    requires OneLine(l)
    ensures Split(Line(l, rest), '\n') == [l] + Split(rest, '\n')
  {
    SplitConcat(l, '\n', rest);
    SplitPlain(l, '\n');
  }

  lemma OneLinePair(a: string, b: string)
    requires OneLine(a) && OneLine(b)
    ensures OneLine(a + b)
  {
  }

  lemma HeadLine(domain: string, methodLabel: string)
    requires OneLine(domain) && OneLine(methodLabel)
    ensures OneLine(Head(domain, methodLabel))
  {
    OneLinePair(domain, " wants you to sign in with your ");
    OneLinePair(domain + " wants you to sign in with your ", methodLabel);
    OneLinePair(domain + " wants you to sign in with your " + methodLabel, " account:");
  }

  function LastLines(m: MessageParams, chainId: Option<string>): seq<string> {
    Split("Expiration Time: " + m.expirationTime + ChainLine(chainId), '\n')
  }

  lemma DetailLines(m: MessageParams, chainId: Option<string>)
    requires OneLine(m.uri) && OneLine(m.nonce) && OneLine(m.issuedAt)
    ensures Split(Details(m, chainId), '\n') ==
            ["URI: " + m.uri, "Version: 1", "Nonce: " + m.nonce, "Issued At: " + m.issuedAt] + LastLines(m, chainId)
  {
    FourLines("URI: " + m.uri, "Nonce: " + m.nonce, "Issued At: " + m.issuedAt,
              "Expiration Time: " + m.expirationTime + ChainLine(chainId));
  }

  lemma FourLines(uri: string, nonce: string, issued: string, last: string)
    requires OneLine(uri) && OneLine(nonce) && OneLine(issued)
    ensures Split(Line(uri, Line("Version: 1", Line(nonce, Line(issued, last)))), '\n') ==
            [uri, "Version: 1", nonce, issued] + Split(last, '\n')
  {
    SplitLine(issued, last);
    SplitLine(nonce, Line(issued, last));
    SplitLine("Version: 1", Line(nonce, Line(issued, last)));
    SplitLine(uri, Line("Version: 1", Line(nonce, Line(issued, last))));
  }

  /** Every field stays on its own line. */
  lemma MessageLines(m: MessageParams, info: MethodInfo)
    requires OneLineFields(m, info)
    ensures Split(Compose(m, info), '\n') ==
            [Head(m.domain, info.methodLabel), info.identifier, "", "Sign in to Aqua Node", ""] +
            Split(Details(m, info.chainId), '\n')
  {
    HeadLine(m.domain, info.methodLabel);
    FiveLines(Head(m.domain, info.methodLabel), info.identifier, Details(m, info.chainId));
  }

  lemma FiveLines(head: string, identifier: string, rest: string)
    requires OneLine(head) && OneLine(identifier)
    ensures Split(Line(head, Line(identifier, Line("", Line("Sign in to Aqua Node", Line("", rest))))), '\n') ==
            [head, identifier, "", "Sign in to Aqua Node", ""] + Split(rest, '\n')
  {
    var e1 := Line("", Line("Sign in to Aqua Node", Line("", rest)));
    ThreeLines(rest);
    SplitLine(identifier, e1);
    SplitLine(head, Line(identifier, e1));
  }

  lemma ThreeLines(rest: string)
    ensures Split(Line("", Line("Sign in to Aqua Node", Line("", rest))), '\n') ==
            ["", "Sign in to Aqua Node", ""] + Split(rest, '\n')
  {
    var e3 := Line("", rest);
    SplitLine("", rest);
    SplitLine("Sign in to Aqua Node", e3);
    SplitLine("", Line("Sign in to Aqua Node", e3));
  }

  // Trimming.

  /** Blank text around `s` does not change what trimming leaves. */
  lemma TrimIgnores(pre: string, s: string, post: string)
    requires Blank(pre) && Blank(post)
    ensures Trim(pre + s + post) == Trim(s)
  {
    var p, q := TrimSplits(s);
    TrimPadded(pre + p, Trim(s), q + post);
    assert pre + s + post == (pre + p) + Trim(s) + (q + post);
  }

  lemma TrimReturn(pre: string, s: string)
    requires Blank(pre)
    ensures Trim(pre + TrimEndChar(s, '\r')) == Trim(s)
  {
    var t := TrimEndChar(s, '\r');
    assert s == t + s[|t|..] && Blank(s[|t|..]);
    TrimIgnores("", t, s[|t|..]);
    TrimIgnores(pre, t, "");
    assert "" + t + s[|t|..] == s && pre + t + "" == pre + t;
  }

  lemma TrimFixed(s: string)
    requires Trimmed(s)
    ensures Trim(s) == s
  {
    TrimPadded("", s, "");
    assert "" + s + "" == s;
  }

  /** An identifier line both extractors can work with. */
  predicate Identifying(identifier: string) {
    identifier != "" && Trimmed(identifier) && OneLine(identifier) && !("URI:" <= identifier)
  }

  /** The first extractor reads the identifier back exactly when there is one and it is trimmed. */
  lemma IdentifierIff(m: MessageParams, info: MethodInfo)
    requires OneLineFields(m, info)
    ensures IdentifierFromMessage(Compose(m, info)) == NonBlank(Trim(info.identifier))
    ensures IdentifierFromMessage(Compose(m, info)) == Some(info.identifier) <==>
            info.identifier != "" && Trimmed(info.identifier)
  {
    MessageLines(m, info);
    SecondLine(Compose(m, info), info.identifier);
    var p, q := TrimSplits(info.identifier);
    if Trimmed(info.identifier) {
      TrimFixed(info.identifier);
    }
  }

  lemma SecondLine(message: string, identifier: string)
    requires |Split(message, '\n')| >= 2 && Split(message, '\n')[1] == identifier
    ensures IdentifierFromMessage(message) == NonBlank(Trim(identifier))
  {
    TrimReturn("", identifier);
    assert "" + TrimEndChar(identifier, '\r') == TrimEndChar(identifier, '\r');
  }

  lemma PlainEnd(l: string)
    requires l == "" || l[|l| - 1] != '\r'
    ensures TrimEndChar(l, '\r') == l
  {
  }

  lemma PrefixReturn(uri: string)
    ensures TrimEndChar("URI: " + uri, '\r') == "URI: " + TrimEndChar(uri, '\r')
  {
    var t := TrimEndChar(uri, '\r');
    assert uri == t + uri[|t|..];
    var l := "URI: " + uri;
    assert l == ("URI: " + t) + uri[|t|..];
    EndUnique(l, "URI: " + t, uri[|t|..]);
  }

  lemma {:induction false} EndUnique(l: string, t: string, post: string)
    requires l == t + post && (t == "" || t[|t| - 1] != '\r') && forall i :: 0 <= i < |post| ==> post[i] == '\r'
    ensures TrimEndChar(l, '\r') == t
  {
    if post != "" {
      assert l[|l| - 1] == post[|post| - 1];
      assert l[..|l| - 1] == t + post[..|post| - 1];
      EndUnique(l[..|l| - 1], t, post[..|post| - 1]);
    } else {
      assert l == t;
    }
  }

  /** The value on a `URI:` line of the message's own. */
  lemma UriOfDetails(uri: string, rest: seq<string>)
    ensures UriValue(["URI: " + uri] + rest) == Some(" " + TrimEndChar(uri, '\r'))
  {
    PrefixReturn(uri);
    var t := TrimEndChar(uri, '\r');
    assert ("URI: " + t)[4..] == " " + t;
    assert ("URI: " + t)[..4] == "URI:";
  }

  lemma NotUri(l: string, rest: seq<string>)
    requires l == "" || l[0] != 'U'
    ensures UriValue([l] + rest) == UriValue(rest)
  {
    Uncons(l, rest);
  }

  /** A trailing carriage return neither makes nor unmakes a URI line. */
  lemma ReturnKeepsPrefix(l: string)
    ensures var t := TrimEndChar(l, '\r');
            ("URI:" <= t <==> "URI:" <= l) && ("URI:" <= l ==> Trim(t[4..]) == Trim(l[4..]))
  {
    if "URI:" <= l {
      var rest := l[4..];
      assert l == "URI:" + rest;
      var t := TrimEndChar(rest, '\r');
      assert l == ("URI:" + t) + rest[|t|..];
      EndUnique(l, "URI:" + t, rest[|t|..]);
      assert ("URI:" + t)[4..] == t;
      TrimReturn("", rest);
      assert "" + t == t;
    }
  }

  lemma HeadEnd(domain: string, methodLabel: string)
    ensures TrimEndChar(Head(domain, methodLabel), '\r') == Head(domain, methodLabel)
  {
    var h := Head(domain, methodLabel);
    assert h[|h| - 1] == ':';
    PlainEnd(h);
  }

  /** The head line starts with `URI:` exactly when the domain does. */
  lemma HeadPrefix(domain: string, methodLabel: string)
    ensures "URI:" <= Head(domain, methodLabel) <==> "URI:" <= domain
    ensures "URI:" <= domain ==> Head(domain, methodLabel)[4..] == Head(domain[4..], methodLabel)
  {
    var rest := " wants you to sign in with your " + methodLabel + " account:";
    assert Head(domain, methodLabel) == domain + rest;
    PrefixText(domain, rest);
    if "URI:" <= domain {
      assert (domain + rest)[4..] == domain[4..] + rest;
      assert Head(domain[4..], methodLabel) == domain[4..] + rest;
    }
  }

  lemma PrefixText(domain: string, rest: string)
    requires |rest| >= 5 && rest[0] == ' ' && rest[1] == 'w' && rest[2] == 'a'
    ensures "URI:" <= domain + rest <==> "URI:" <= domain
  {
    var s := domain + rest;
    assert s[|domain|] == ' ';
    if "URI:" <= s {
      assert s[0] == 'U' && s[1] == 'R' && s[2] == 'I' && s[3] == ':';
    }
  }

  /** The text the second extractor takes its value from: the first line that starts with `URI:`. */
  function UriSource(m: MessageParams, info: MethodInfo): string {
    if "URI:" <= m.domain then Head(m.domain[4..], info.methodLabel)
    else if "URI:" <= info.identifier then info.identifier[4..]
    else m.uri
  }

  /** What the second extractor reads: the message's URI, trimmed, unless an earlier line shadows it. */
  lemma UriRead(m: MessageParams, info: MethodInfo)
    requires OneLineFields(m, info)
    ensures UriLine(Compose(m, info)) == NonBlank(Trim(UriSource(m, info)))
  {
    var more := ["Version: 1", "Nonce: " + m.nonce, "Issued At: " + m.issuedAt] + LastLines(m, info.chainId);
    UriLines(m, info, Head(m.domain, info.methodLabel), more);
    HeadEnd(m.domain, info.methodLabel);
    HeadPrefix(m.domain, info.methodLabel);
    UriOf(Head(m.domain, info.methodLabel), info.identifier, m.uri, more);
  }

  lemma UriLines(m: MessageParams, info: MethodInfo, head: string, more: seq<string>)
    requires OneLineFields(m, info) && head == Head(m.domain, info.methodLabel)
    requires more == ["Version: 1", "Nonce: " + m.nonce, "Issued At: " + m.issuedAt] + LastLines(m, info.chainId)
    ensures Split(Compose(m, info), '\n') ==
            [head] + ([info.identifier, "", "Sign in to Aqua Node", ""] + (["URI: " + m.uri] + more))
  {
    var rest := ["Version: 1", "Nonce: " + m.nonce, "Issued At: " + m.issuedAt];
    MessageLines(m, info);
    DetailLines(m, info.chainId);
    Uncons("URI: " + m.uri, rest);
    assert ["URI: " + m.uri] + rest == ["URI: " + m.uri, "Version: 1", "Nonce: " + m.nonce, "Issued At: " + m.issuedAt];
    Regroup(head, info.identifier, "URI: " + m.uri, rest, LastLines(m, info.chainId));
  }

  lemma Regroup(head: string, identifier: string, uri: string, rest: seq<string>, last: seq<string>)
    ensures [head, identifier, "", "Sign in to Aqua Node", ""] + ([uri] + rest + last) ==
            [head] + ([identifier, "", "Sign in to Aqua Node", ""] + ([uri] + (rest + last)))
  {
  }

  lemma UriOf(head: string, identifier: string, uri: string, more: seq<string>)
    requires TrimEndChar(head, '\r') == head
    ensures var v := UriValue([head] + ([identifier, "", "Sign in to Aqua Node", ""] + (["URI: " + uri] + more)));
            v.Some? && Trim(v.value) == Trim(if "URI:" <= head then head[4..]
                                             else if "URI:" <= identifier then identifier[4..] else uri)
  {
    var rest := ["", "Sign in to Aqua Node", ""] + (["URI: " + uri] + more);
    assert [identifier, "", "Sign in to Aqua Node", ""] + (["URI: " + uri] + more) == [identifier] + rest;
    Uncons(head, [identifier] + rest);
    Uncons(identifier, rest);
    ReturnKeepsPrefix(identifier);
    PastPreamble(["URI: " + uri] + more);
    UriOfDetails(uri, more);
    TrimReturn(" ", uri);
  }

  lemma PastPreamble(ds: seq<string>)
    ensures UriValue(["", "Sign in to Aqua Node", ""] + ds) == UriValue(ds)
  {
    var t3 := [""] + ds;
    var t2 := ["Sign in to Aqua Node"] + t3;
    assert ["", "Sign in to Aqua Node", ""] + ds == [""] + t2;
    NotUri("", t2);
    NotUri("Sign in to Aqua Node", t3);
    NotUri("", ds);
  }

  /**
   When the URI holds no space and the identifier is no URI line, the client reads the message's URI
   exactly when the domain does not start with `URI:`.
   */
  lemma UriIff(m: MessageParams, info: MethodInfo)
    requires OneLineFields(m, info) && !("URI:" <= info.identifier) && ' ' !in m.uri
    ensures UriLine(Compose(m, info)) == NonBlank(Trim(m.uri)) <==> !("URI:" <= m.domain)
  {
    UriRead(m, info);
    if "URI:" <= m.domain {
      var h := Head(m.domain[4..], info.methodLabel);
      SpaceKept(m.domain[4..], info.methodLabel);
      var p, q := TrimSplits(m.uri);
      assert forall c <- Trim(m.uri) :: c in m.uri;
    }
  }

  lemma SpaceKept(domain: string, methodLabel: string)
    ensures ' ' in Trim(Head(domain, methodLabel))
  {
    var h, k := Head(domain, methodLabel), |domain| + 1;
    var p, q := TrimSplits(h);
    assert h[k] == 'w' && h[k + 5] == ' ' && h[|h| - 1] == ':';
    InsideKept(h, p, Trim(h), q, k, k + 5);
  }

  /** A character between two that are not white space survives trimming. */
  lemma InsideKept(h: string, p: string, t: string, q: string, i: nat, j: nat)
    requires h == p + t + q && Blank(p) && Blank(q)
    requires i < j < |h| - 1 && !White(h[i]) && !White(h[|h| - 1])
    ensures h[j] in t
  {
    assert forall k :: 0 <= k < |p| ==> White(h[k]);
    NoBlankEnd(h, p + t, q);
    assert h[j] == t[j - |p|];
  }

  lemma NoBlankEnd(h: string, front: string, q: string)
    requires h == front + q && Blank(q) && h != "" && !White(h[|h| - 1])
    ensures q == ""
  {
    assert h[|h| - 1] == (front + q)[|h| - 1];
  }

  /** And shadowing does happen. */
  lemma DomainCanShadow()
    ensures var m := MessageParams("d", "URI:a", "b", "n", "t", "u");
            UriLine(Compose(m, MethodInfo("z", "L", None))) != Some("b")
  {
    TrimFixed("b");
    UriIff(MessageParams("d", "URI:a", "b", "n", "t", "u"), MethodInfo("z", "L", None));
  }

  // Different requests have different messages.

  /** The label ends at the last space but one, so the head line gives domain and label. */
  lemma HeadInjective(d1: string, l1: string, d2: string, l2: string)
    requires ' ' !in l1 && ' ' !in l2 && Head(d1, l1) == Head(d2, l2)
    ensures d1 == d2 && l1 == l2
  {
    var s1, s2 := d1 + " wants you to sign in with your", d2 + " wants you to sign in with your";
    HeadText(d1, l1, s1);
    HeadText(d2, l2, s2);
    var h := Head(d1, l1);
    var body := h[..|h| - 9];
    assert body == s1 + [' '] + l1 && body == s2 + [' '] + l2;
    LastIndexUnique(body, ' ', |s1|);
    LastIndexUnique(body, ' ', |s2|);
    assert s1 == body[..|s1|] && s2 == body[..|s2|] && l1 == body[|s1| + 1..] && l2 == body[|s2| + 1..];
    assert d1 == s1[..|d1|] && d2 == s2[..|d2|];
  }

  lemma HeadText(d: string, l: string, s: string)
    requires s == d + " wants you to sign in with your"
    ensures Head(d, l) == s + [' '] + l + " account:" && |" account:"| == 9
  {
  }

  /** Equal text from some line on: the lines are equal, and what follows them. */
  lemma SameLine(p: string, a1: string, r1: string, a2: string, r2: string)
    requires OneLine(p) && OneLine(a1) && OneLine(a2) && Line(p + a1, r1) == Line(p + a2, r2)
    ensures a1 == a2 && r1 == r2
  {
    OneLinePair(p, a1);
    OneLinePair(p, a2);
    SameFirstLine(p + a1, r1, p + a2, r2);
    DropPrefix(p, a1, a2);
  }

  lemma ChainLineStart(chainId: Option<string>) returns (rest: string)
    ensures ChainLine(chainId) == "" || ChainLine(chainId) == ['\n'] + rest
  {
    rest := if ChainLine(chainId) == "" then "" else ChainLine(chainId)[1..];
    if chainId.Some? && CHAIN_PREFIX <= chainId.value {
      assert ("\nChain ID: " + chainId.value[|CHAIN_PREFIX|..])[0] == '\n';
    }
  }

  lemma NotShorter(a1: string, t1: string, a2: string, t2: string)
    requires OneLine(a2) && a1 + t1 == a2 + t2 && (t1 == "" || t1[0] == '\n')
    ensures |a1| >= |a2|
  {
    var s := a1 + t1;
    assert t1 == "" || s[|a1|] == '\n';
    assert forall i :: 0 <= i < |a2| ==> s[i] == a2[i];
  }

  /** One line followed by nothing, or by a line break and more, is determined by the text. */
  lemma SameTail(a1: string, t1: string, a2: string, t2: string)
    requires OneLine(a1) && OneLine(a2) && a1 + t1 == a2 + t2
    requires (t1 == "" || t1[0] == '\n') && (t2 == "" || t2[0] == '\n')
    ensures a1 == a2 && t1 == t2
  {
    NotShorter(a1, t1, a2, t2);
    NotShorter(a2, t2, a1, t1);
    assert a1 == (a1 + t1)[..|a1|] && t1 == (a1 + t1)[|a1|..];
  }

  lemma DetailsInjective(m1: MessageParams, c1: Option<string>, m2: MessageParams, c2: Option<string>)
    requires OneLine(m1.uri) && OneLine(m1.nonce) && OneLine(m1.issuedAt) && OneLine(m1.expirationTime)
    requires OneLine(m2.uri) && OneLine(m2.nonce) && OneLine(m2.issuedAt) && OneLine(m2.expirationTime)
    requires Details(m1, c1) == Details(m2, c2)
    ensures m1.uri == m2.uri && m1.nonce == m2.nonce && m1.issuedAt == m2.issuedAt
    ensures m1.expirationTime == m2.expirationTime && ChainLine(c1) == ChainLine(c2)
  {
    var e1, e2 := "Expiration Time: " + m1.expirationTime, "Expiration Time: " + m2.expirationTime;
    var i1 := Line("Issued At: " + m1.issuedAt, e1 + ChainLine(c1));
    var i2 := Line("Issued At: " + m2.issuedAt, e2 + ChainLine(c2));
    var n1, n2 := Line("Nonce: " + m1.nonce, i1), Line("Nonce: " + m2.nonce, i2);
    SameLine("URI: ", m1.uri, Line("Version: 1", n1), m2.uri, Line("Version: 1", n2));
    SameFirstLine("Version: 1", n1, "Version: 1", n2);
    SameLine("Nonce: ", m1.nonce, i1, m2.nonce, i2);
    SameLine("Issued At: ", m1.issuedAt, e1 + ChainLine(c1), m2.issuedAt, e2 + ChainLine(c2));
    OneLinePair("Expiration Time: ", m1.expirationTime);
    OneLinePair("Expiration Time: ", m2.expirationTime);
    var r1 := ChainLineStart(c1);
    var r2 := ChainLineStart(c2);
    SameTail(e1, ChainLine(c1), e2, ChainLine(c2));
    DropPrefix("Expiration Time: ", m1.expirationTime, m2.expirationTime);
  }

  /**
   The signed text determines the request: the same message means the same head line, identifier,
   URI, nonce, both times and chain line.
   */
  lemma MessageInjective(m1: MessageParams, i1: MethodInfo, m2: MessageParams, i2: MethodInfo)
    requires OneLineFields(m1, i1) && OneLineFields(m2, i2) && Compose(m1, i1) == Compose(m2, i2)
    ensures Head(m1.domain, i1.methodLabel) == Head(m2.domain, i2.methodLabel) && i1.identifier == i2.identifier
    ensures m1.uri == m2.uri && m1.nonce == m2.nonce && m1.issuedAt == m2.issuedAt
    ensures m1.expirationTime == m2.expirationTime && ChainLine(i1.chainId) == ChainLine(i2.chainId)
  {
    var d1, d2 := Details(m1, i1.chainId), Details(m2, i2.chainId);
    HeadLine(m1.domain, i1.methodLabel);
    HeadLine(m2.domain, i2.methodLabel);
    PreambleInjective(Head(m1.domain, i1.methodLabel), i1.identifier, d1,
                      Head(m2.domain, i2.methodLabel), i2.identifier, d2);
    DetailsInjective(m1, i1.chainId, m2, i2.chainId);
  }

  lemma PreambleInjective(h1: string, id1: string, d1: string, h2: string, id2: string, d2: string)
    requires OneLine(h1) && OneLine(h2) && OneLine(id1) && OneLine(id2)
    requires Line(h1, Line(id1, Line("", Line("Sign in to Aqua Node", Line("", d1))))) ==
             Line(h2, Line(id2, Line("", Line("Sign in to Aqua Node", Line("", d2)))))
    ensures h1 == h2 && id1 == id2 && d1 == d2
  {
    var c1, c2 := Line("Sign in to Aqua Node", Line("", d1)), Line("Sign in to Aqua Node", Line("", d2));
    SameFirstLine(h1, Line(id1, Line("", c1)), h2, Line(id2, Line("", c2)));
    SameFirstLine(id1, Line("", c1), id2, Line("", c2));
    SameFirstLine("", c1, "", c2);
    SameFirstLine("Sign in to Aqua Node", Line("", d1), "Sign in to Aqua Node", Line("", d2));
    SameFirstLine("", d1, "", d2);
  }
}
