/** Which relying parties and origins an assertion may come from. */
module RpPolicy {
  import opened Wrappers
  import opened Bytes
  import opened Text

  datatype PolicyError = InvalidRpId | InvalidOrigin | OriginOutsideRpId | NoOrigins | DuplicateRpId | NoRp

  /** SHA-256, the URL library's origin and host of a configured origin, and the IP address parser. */
  datatype Platform = Platform(
    sha256: string -> seq<byte>,
    normaliseOrigin: string -> Result<(string, string), PolicyError>,
    isIp: string -> bool)

  // Containment of hosts.

  predicate EndsWith(s: string, t: string) {
    |t| <= |s| && s[|s| - |t|..] == t
  }

  function NormalHost(host: string): string {
    ToLower(TrimEndChar(host, '.'))
  }

  predicate HostWithin(host: string, rpId: string) {
    var h := NormalHost(host);
    h == rpId || EndsWith(h, "." + rpId)
  }

  function Labels(host: string): seq<string> {
    Split(host, '.')
  }

  predicate IsSuffix<T(==)>(tail: seq<T>, s: seq<T>) {
    |tail| <= |s| && s[|s| - |tail|..] == tail
  }

  function Join(labels: seq<string>): string
    requires labels != []
  {
    if |labels| == 1 then labels[0] else labels[0] + "." + Join(labels[1..])
  }

  lemma {:induction false} JoinSplit(s: string)
    ensures Join(Labels(s)) == s
  {
    if s != [] {
      JoinSplit(s[1..]);
      JoinStep(s[0], s[1..], Labels(s[1..]));
    }
  }

  lemma JoinStep(c: char, rest: string, labels: seq<string>)
    requires labels != [] && Join(labels) == rest
    ensures Join([""] + labels) == "." + rest && Join([[c] + labels[0]] + labels[1..]) == [c] + rest
  {
    Uncons("", labels);
    Uncons([c] + labels[0], labels[1..]);
    JoinHead(c, labels);
  }

  lemma JoinHead(c: char, labels: seq<string>)
    requires labels != []
    ensures Join([[c] + labels[0]] + labels[1..]) == [c] + Join(labels)
  {
    Uncons([c] + labels[0], labels[1..]);
    if |labels| > 1 {
      Assoc([c], labels[0], ".");
      Assoc([c], labels[0] + ".", Join(labels[1..]));
    }
  }

  lemma {:induction false} JoinConcat(a: seq<string>, b: seq<string>)
    requires a != [] && b != []
    ensures Join(a + b) == Join(a) + "." + Join(b)
  {
    Uncons(a[0], a[1..] + b);
    assert a + b == [a[0]] + (a[1..] + b);
    if |a| > 1 {
      JoinConcat(a[1..], b);
      Assoc(a[0] + ".", Join(a[1..]), "." + Join(b));
    }
  }

  /** Containment is containment of labels, never of part of a label. */
  lemma WithinIsLabelSuffix(host: string, rpId: string)
    ensures HostWithin(host, rpId) <==> IsSuffix(Labels(rpId), Labels(NormalHost(host)))
  {
    var h := NormalHost(host);
    if EndsWith(h, "." + rpId) {
      SuffixSplits(h, rpId);
    }
    var hs, rs := Labels(h), Labels(rpId);
    if IsSuffix(rs, hs) {
      JoinSplit(h);
      JoinSplit(rpId);
      SuffixJoins(hs, rs);
    }
  }

  lemma SuffixSplits(h: string, rpId: string)
    requires EndsWith(h, "." + rpId)
    ensures IsSuffix(Labels(rpId), Labels(h))
  {
    var p := h[..|h| - |rpId| - 1];
    assert h == p + ['.'] + rpId;
    SplitConcat(p, '.', rpId);
  }

  lemma SuffixJoins(hs: seq<string>, rs: seq<string>)
    requires rs != [] && IsSuffix(rs, hs)
    ensures Join(hs) == Join(rs) || EndsWith(Join(hs), "." + Join(rs))
  {
    var p := hs[..|hs| - |rs|];
    assert hs == p + rs;
    if p == [] {
      assert hs == rs;
    } else {
      JoinConcat(p, rs);
    }
  }

  lemma SuffixTransitive<T>(a: seq<T>, b: seq<T>, c: seq<T>)
    requires IsSuffix(a, b) && IsSuffix(b, c)
    ensures IsSuffix(a, c)
  {
    assert c[|c| - |b|..][|b| - |a|..] == c[|c| - |a|..];
  }

  // RP IDs.

  predicate PlainChar(c: char) {
    'a' <= c <= 'z' || 'A' <= c <= 'Z' || IsDigit(c) || c == '.' || c == '-'
  }

  predicate PlainHostname(host: string) {
    host != "" && forall c <- host :: PlainChar(c)
  }

  function ValidateRpId(p: Platform, raw: string): Result<string, PolicyError> {
    var r := ToLower(TrimEndChar(Trim(raw), '.'));
    if !PlainHostname(r) then Err(InvalidRpId)
    else if r[0] == '.' || (exists l <- Labels(r) :: l == "") then Err(InvalidRpId)
    else if p.isIp(r) then Err(InvalidRpId)
    else if '.' !in r && r != "localhost" then Err(InvalidRpId)
    else Ok(r)
  }

  /** What validation promises of an RP ID: lower-case labels, at least two, and no address. */
  predicate RpId(p: Platform, r: string) {
    && (forall l <- Labels(r) :: l != "" && forall c <- l :: 'a' <= c <= 'z' || IsDigit(c) || c == '-')
    && !p.isIp(r) && (|Labels(r)| >= 2 || r == "localhost")
  }

  lemma {:induction false} LabelChars(s: string)
    ensures forall l <- Labels(s), c <- l :: c in s && c != '.'
    ensures forall c <- s :: c == '.' || exists l <- Labels(s) :: c in l
    ensures |Labels(s)| >= 2 <==> '.' in s
  {
    if s != [] {
      LabelChars(s[1..]);
      assert s == [s[0]] + s[1..];
      LabelStep(s[0], s[1..], Labels(s[1..]), Labels(s));
    }
  }

  lemma LabelStep(a: char, rest: string, tail: seq<string>, all: seq<string>)
    requires tail != [] && all == if a == '.' then [""] + tail else [[a] + tail[0]] + tail[1..]
    requires forall l <- tail, c <- l :: c in rest && c != '.'
    requires forall c <- rest :: c == '.' || exists l <- tail :: c in l
    ensures forall l <- all, c <- l :: c in [a] + rest && c != '.'
    ensures forall c <- [a] + rest :: c == '.' || exists l <- all :: c in l
  {
    if a == '.' {
      assert forall l <- tail :: l in all by { assert all[1..] == tail; }
    } else {
      assert all[0] == [a] + tail[0] && all[1..] == tail[1..];
      assert forall l <- tail :: l == tail[0] || l in all[1..];
      assert a in all[0];
      forall c | c in rest && c != '.' ensures exists l <- all :: c in l {
        var l :| l in tail && c in l;
        assert l == tail[0] ==> c in all[0];
      }
    }
  }

  lemma NotTrimmed(s: string, c: char)
    requires s == "" || s[|s| - 1] != c
    ensures TrimEndChar(s, c) == s
  {
  }

  lemma LowerFixed(s: string)
    requires forall c <- s :: Lower(c) == c
    ensures ToLower(s) == s
  {
  }

  lemma EmptyLabels(r: string)
    requires r == "" || r[0] == '.' || r[|r| - 1] == '.'
    ensures "" in Labels(r)
  {
    if r == "" || r[0] == '.' {
      assert Labels(r)[0] == "";
    } else {
      var k := |r| - 1;
      assert r == r[..k] + ['.'] + "";
      SplitConcat(r[..k], '.', "");
      assert Labels(r) == Labels(r[..k]) + [""];
    }
  }

  /** An RP ID is in the form validation produces. */
  lemma RpIdChars(p: Platform, r: string)
    requires RpId(p, r)
    ensures r != "" && r[0] != '.' && r[|r| - 1] != '.'
    ensures forall c <- r :: c == '.' || 'a' <= c <= 'z' || IsDigit(c) || c == '-'
  {
    if r == "" || r[0] == '.' || r[|r| - 1] == '.' {
      EmptyLabels(r);
    }
    LabelChars(r);
  }

  lemma RpIdNormal(p: Platform, r: string)
    requires RpId(p, r)
    ensures NormalHost(r) == r && Trim(r) == r
  {
    RpIdChars(p, r);
    NotTrimmed(r, '.');
    LowerFixed(r);
    assert r[0] in r && r[|r| - 1] in r;
    TrimPadded("", r, "");
    assert "" + r + "" == r;
  }

  /** Validation accepts exactly the raw strings whose normal form is an RP ID, and returns that. */
  lemma ValidateIff(p: Platform, raw: string, r: string)
    ensures ValidateRpId(p, raw) == Ok(r) <==> r == NormalHost(Trim(raw)) && RpId(p, r)
  {
    LabelChars(r);
    if RpId(p, r) {
      RpIdChars(p, r);
      assert PlainHostname(r);
    }
    if ValidateRpId(p, raw) == Ok(r) {
      assert forall c <- r :: PlainChar(c);
      LowerChars(TrimEndChar(Trim(raw), '.'));
    }
  }

  lemma LowerChars(s: string)
    ensures forall c <- ToLower(s) :: !('A' <= c <= 'Z')
  {
  }

  /** A validated RP ID validates to itself and contains itself. */
  lemma ValidateIdempotent(p: Platform, raw: string)
    requires ValidateRpId(p, raw).Ok?
    ensures var r := ValidateRpId(p, raw).value; ValidateRpId(p, r) == Ok(r) && HostWithin(r, r)
  {
    var r := ValidateRpId(p, raw).value;
    ValidateIff(p, raw, r);
    RpIdNormal(p, r);
    ValidateIff(p, r, r);
  }

  /** A host within an RP ID that is within another is within that one too. */
  lemma WithinTransitive(p: Platform, host: string, inner: string, outer: string)
    requires RpId(p, inner) && HostWithin(host, inner) && HostWithin(inner, outer)
    ensures HostWithin(host, outer)
  {
    RpIdNormal(p, inner);
    WithinIsLabelSuffix(host, inner);
    WithinIsLabelSuffix(inner, outer);
    WithinIsLabelSuffix(host, outer);
    SuffixTransitive(Labels(outer), Labels(inner), Labels(NormalHost(host)));
  }

  // Policies.

  datatype RpEntry = RpEntry(rpId: string, rpIdHash: seq<byte>, origins: seq<string>)

  datatype Policy = Policy(entries: seq<RpEntry>, requireUv: bool)

  predicate AllowsOrigin(e: RpEntry, origin: string) {
    origin in e.origins
  }

  /** `s` without repetitions, each element at its first place. */
  function Distinct(s: seq<string>): (r: seq<string>)
    ensures forall x :: x in r <==> x in s
  {
    if s == [] then [] else
    var x := s[|s| - 1];
    var r := Distinct(s[..|s| - 1]);
    assert s == s[..|s| - 1] + [x];
    if x in r then r else r + [x]
  }

  lemma {:induction false} DistinctUnique(s: seq<string>)
    ensures forall i, j :: 0 <= i < j < |Distinct(s)| ==> Distinct(s)[i] != Distinct(s)[j]
  {
    if s != [] {
      DistinctUnique(s[..|s| - 1]);
    }
  }

  function Fault(p: Platform, rpId: string, raw: string): Option<PolicyError> {
    match p.normaliseOrigin(raw)
    case Err(e) => Some(e)
    case Ok((_, host)) => if HostWithin(host, rpId) then None else Some(OriginOutsideRpId)
  }

  function RelatedFault(p: Platform, raw: string): Option<PolicyError> {
    match p.normaliseOrigin(raw)
    case Err(e) => Some(e)
    case Ok((_, host)) => if p.isIp(host) then Some(InvalidOrigin) else None
  }

  /** `e` is the first fault reported. */
  predicate FirstFault(faults: seq<Option<PolicyError>>, e: PolicyError) {
    exists i :: 0 <= i < |faults| && faults[i] == Some(e) && NoFault(faults[..i])
  }

  predicate NoFault(faults: seq<Option<PolicyError>>) {
    forall i :: 0 <= i < |faults| ==> faults[i].None?
  }

  function Faults(p: Platform, rpId: string, origins: seq<string>, related: seq<string>): seq<Option<PolicyError>> {
    seq(|origins|, i requires 0 <= i < |origins| => Fault(p, rpId, origins[i])) +
    seq(|related|, i requires 0 <= i < |related| => RelatedFault(p, related[i]))
  }

  function Serialised(p: Platform, raw: string): string {
    match p.normaliseOrigin(raw) case Ok((o, _)) => o case Err(_) => ""
  }

  function Origins(p: Platform, raws: seq<string>): (r: seq<string>)
    ensures |r| == |raws|
  {
    seq(|raws|, i requires 0 <= i < |raws| => Serialised(p, raws[i]))
  }

  /** What one `add_rp` call may answer. */
  predicate Added(p: Platform, b: Policy, raw: string, origins: seq<string>, related: seq<string>,
                  r: Result<Policy, PolicyError>)
  {
    var id := ValidateRpId(p, raw);
    if id.Err? then r == Err(InvalidRpId)
    else if exists e <- b.entries :: e.rpId == id.value then r == Err(DuplicateRpId)
    else if origins == [] && related == [] then r == Err(NoOrigins)
    else match r
      case Ok(after) =>
        && NoFault(Faults(p, id.value, origins, related))
        && after == b.(entries := b.entries + [NewEntry(p, id.value, Distinct(Origins(p, origins + related)))])
      case Err(e) => FirstFault(Faults(p, id.value, origins, related), e)
  }

  function NewEntry(p: Platform, rpId: string, origins: seq<string>): RpEntry {
    RpEntry(rpId, p.sha256(rpId), origins)
  }

  method AddRp(p: Platform, b: Policy, raw: string, origins: seq<string>, related: seq<string>)
    returns (r: Result<Policy, PolicyError>)
    ensures Added(p, b, raw, origins, related, r)
  {
    var rpId :- ValidateRpId(p, raw);
    if exists e <- b.entries :: e.rpId == rpId {
      return Err(DuplicateRpId);
    }
    if origins == [] && related == [] {
      return Err(NoOrigins);
    }
    ghost var faults, all := Faults(p, rpId, origins, related), origins + related;
    FaultsDescribed(p, rpId, origins, related);
    var normalised :- MergeBoth(p, rpId, origins, related, faults, all);
    r := Ok(b.(entries := b.entries + [NewEntry(p, rpId, normalised)]));
  }

  /** `faults` and `all` list the faults and the raw texts of the origins, then of the related ones. */
  ghost predicate Described(p: Platform, rpId: string, origins: seq<string>, related: seq<string>,
                            faults: seq<Option<PolicyError>>, all: seq<string>)
  {
    && |faults| == |all| == |origins| + |related|
    && (forall i :: 0 <= i < |origins| ==> faults[i] == Fault(p, rpId, origins[i]) && all[i] == origins[i])
    && (forall i :: 0 <= i < |related| ==> faults[|origins| + i] == RelatedFault(p, related[i]))
    && (forall i :: 0 <= i < |related| ==> all[|origins| + i] == related[i])
  }

  lemma FaultsDescribed(p: Platform, rpId: string, origins: seq<string>, related: seq<string>)
    ensures Described(p, rpId, origins, related, Faults(p, rpId, origins, related), origins + related)
  {
  }

  /** Both loops of `add_rp`: the merged origins, or the first fault. */
  method MergeBoth(p: Platform, rpId: string, origins: seq<string>, related: seq<string>,
                   ghost faults: seq<Option<PolicyError>>, ghost all: seq<string>)
    returns (r: Result<seq<string>, PolicyError>)
    requires Described(p, rpId, origins, related, faults, all)
    ensures MergedOr(p, faults, all, r)
  {
    var own := MergeOrigins(p, rpId, origins, faults, all);
    if own.Err? {
      return own;
    }
    r := MergeRelated(p, related, own.value, faults, all, |origins|);
  }

  /** All the origins merged when there is no fault, else the first fault. */
  ghost predicate MergedOr(p: Platform, faults: seq<Option<PolicyError>>, all: seq<string>,
                           r: Result<seq<string>, PolicyError>)
  {
    match r
    case Ok(normalised) => NoFault(faults) && normalised == Distinct(Origins(p, all))
    case Err(e) => FirstFault(faults, e) && !NoFault(faults)
  }

  /** The first loop of `add_rp`. */
  method MergeOrigins(p: Platform, rpId: string, origins: seq<string>,
                      ghost faults: seq<Option<PolicyError>>, ghost all: seq<string>)
    returns (r: Result<seq<string>, PolicyError>)
    requires |origins| <= |faults| == |all|
    requires forall i :: 0 <= i < |origins| ==> faults[i] == Fault(p, rpId, origins[i]) && all[i] == origins[i]
    ensures match r
      case Ok(normalised) => NoFault(faults[..|origins|]) && normalised == Merged(p, all, |origins|)
      case Err(e) => FirstFault(faults, e) && !NoFault(faults)
  {
    var normalised: seq<string> := [];
    var i := 0;
    MergedAll(p, all);
    while i < |origins|
      invariant 0 <= i <= |origins| && NoFault(faults[..i])
      invariant normalised == Merged(p, all, i)
    {
      FaultStep(faults, i);
      assert faults[i] == Fault(p, rpId, origins[i]);
      var o := p.normaliseOrigin(origins[i]);
      if o.Err? {
        return Err(o.error);
      }
      var (origin, host) := o.value;
      if !HostWithin(host, rpId) {
        return Err(OriginOutsideRpId);
      }
      MergedStep(p, all, i);
      if origin !in normalised {
        normalised := normalised + [origin];
      }
      i := i + 1;
    }
    r := Ok(normalised);
  }

  /** The second loop of `add_rp`, with the origins before it already merged. */
  method MergeRelated(p: Platform, related: seq<string>, own: seq<string>,
                      ghost faults: seq<Option<PolicyError>>, ghost all: seq<string>, ghost from: nat)
    returns (r: Result<seq<string>, PolicyError>)
    requires |faults| == |all| == from + |related|
    requires forall i :: 0 <= i < |related| ==> faults[from + i] == RelatedFault(p, related[i])
    requires forall i :: 0 <= i < |related| ==> all[from + i] == related[i]
    requires NoFault(faults[..from]) && own == Merged(p, all, from)
    ensures MergedOr(p, faults, all, r)
  {
    var normalised := own;
    var i := 0;
    while i < |related|
      invariant 0 <= i <= |related| && NoFault(faults[..from + i])
      invariant normalised == Merged(p, all, from + i)
    {
      FaultStep(faults, from + i);
      assert faults[from + i] == RelatedFault(p, related[i]);
      var o := p.normaliseOrigin(related[i]);
      if o.Err? {
        return Err(o.error);
      }
      var (origin, host) := o.value;
      if p.isIp(host) {
        return Err(InvalidOrigin);
      }
      MergedStep(p, all, from + i);
      if origin !in normalised {
        normalised := normalised + [origin];
      }
      i := i + 1;
    }
    MergedAll(p, all);
    Whole(faults, from + |related|);
    r := Ok(normalised);
  }

  lemma Whole(faults: seq<Option<PolicyError>>, k: nat)
    requires k == |faults| && NoFault(faults[..k])
    ensures NoFault(faults)
  {
    assert faults[..k] == faults;
  }

  /** The origins merged after the first `i` configured ones. */
  ghost function Merged(p: Platform, raws: seq<string>, i: nat): seq<string>
    requires i <= |raws|
  {
    Distinct(Origins(p, raws[..i]))
  }

  lemma MergedAll(p: Platform, raws: seq<string>)
    ensures Merged(p, raws, |raws|) == Distinct(Origins(p, raws)) && Merged(p, raws, 0) == []
  {
    assert raws[..|raws|] == raws;
  }

  lemma FaultStep(faults: seq<Option<PolicyError>>, i: nat)
    requires i < |faults| && NoFault(faults[..i])
    ensures faults[i].None? ==> NoFault(faults[..i + 1])
    ensures faults[i].Some? ==> FirstFault(faults, faults[i].value) && !NoFault(faults)
  {
  }

  lemma MergedStep(p: Platform, raws: seq<string>, i: nat)
    requires i < |raws|
    ensures var r, x := Merged(p, raws, i), Serialised(p, raws[i]);
            Merged(p, raws, i + 1) == if x in r then r else r + [x]
  {
    var s := Origins(p, raws[..i + 1]);
    assert s[..i] == Origins(p, raws[..i]);
  }

  /** The answer is determined: at most one fault is the first. */
  lemma AddedUnique(p: Platform, b: Policy, raw: string, origins: seq<string>, related: seq<string>,
                    r1: Result<Policy, PolicyError>, r2: Result<Policy, PolicyError>)
    requires Added(p, b, raw, origins, related, r1) && Added(p, b, raw, origins, related, r2)
    ensures r1 == r2
  {
    if r1.Err? && r2.Err? && ValidateRpId(p, raw).Ok? {
      FirstFaultUnique(Faults(p, ValidateRpId(p, raw).value, origins, related), r1.error, r2.error);
    }
  }

  /** What is wrong with the `i`-th of the origins and related origins. */
  predicate Wrong(p: Platform, rpId: string, origins: seq<string>, related: seq<string>, i: nat, e: PolicyError)
    requires i < |origins| + |related|
  {
    match p.normaliseOrigin((origins + related)[i])
    case Err(x) => e == x
    case Ok((_, host)) =>
      (i < |origins| && !HostWithin(host, rpId) && e == OriginOutsideRpId) ||
      (i >= |origins| && p.isIp(host) && e == InvalidOrigin)
  }

  /** None of the first `i` is. */
  ghost predicate NoneWrong(p: Platform, rpId: string, origins: seq<string>, related: seq<string>, i: nat)
    requires i <= |origins| + |related|
  {
    forall j, f :: 0 <= j < i ==> !Wrong(p, rpId, origins, related, j, f)
  }

  /** The cause of each refusal; of several origins the first that is wrong counts. */
  lemma AddedRefusal(p: Platform, b: Policy, raw: string, origins: seq<string>, related: seq<string>, e: PolicyError)
    ensures Added(p, b, raw, origins, related, Err(e)) <==>
            if ValidateRpId(p, raw).Err? then e == InvalidRpId
            else if exists x <- b.entries :: x.rpId == ValidateRpId(p, raw).value then e == DuplicateRpId
            else if origins == [] && related == [] then e == NoOrigins
            else
              var id := ValidateRpId(p, raw).value;
              exists i :: 0 <= i < |origins| + |related| && Wrong(p, id, origins, related, i, e) &&
                          NoneWrong(p, id, origins, related, i)
  {
    if ValidateRpId(p, raw).Ok? {
      WrongFirst(p, ValidateRpId(p, raw).value, origins, related, e);
    }
  }

  lemma WrongFirst(p: Platform, rpId: string, origins: seq<string>, related: seq<string>, e: PolicyError)
    ensures FirstFault(Faults(p, rpId, origins, related), e) <==>
            exists i :: 0 <= i < |origins| + |related| && Wrong(p, rpId, origins, related, i, e) &&
                        NoneWrong(p, rpId, origins, related, i)
  {
    var faults := Faults(p, rpId, origins, related);
    forall i: nat | i < |faults|
      ensures faults[i] == Some(e) && NoFault(faults[..i]) <==>
              Wrong(p, rpId, origins, related, i, e) && NoneWrong(p, rpId, origins, related, i)
    {
      WrongIs(p, rpId, origins, related, i, e);
      NoneWrongIs(p, rpId, origins, related, i);
    }
  }

  lemma NoneWrongIs(p: Platform, rpId: string, origins: seq<string>, related: seq<string>, i: nat)
    requires i <= |origins| + |related|
    ensures NoFault(Faults(p, rpId, origins, related)[..i]) <==> NoneWrong(p, rpId, origins, related, i)
  {
    var faults := Faults(p, rpId, origins, related);
    forall j: nat, f | j < i ensures faults[j] == Some(f) <==> Wrong(p, rpId, origins, related, j, f) {
      WrongIs(p, rpId, origins, related, j, f);
    }
    if !NoFault(faults[..i]) {
      var j :| 0 <= j < i && faults[j].Some?;
      assert Wrong(p, rpId, origins, related, j, faults[j].value);
    }
  }

  lemma WrongIs(p: Platform, rpId: string, origins: seq<string>, related: seq<string>, i: nat, f: PolicyError)
    requires i < |origins| + |related|
    ensures Faults(p, rpId, origins, related)[i] == Some(f) <==> Wrong(p, rpId, origins, related, i, f)
  {
    FaultsDescribed(p, rpId, origins, related);
    if i < |origins| {
      assert (origins + related)[i] == origins[i];
    } else {
      assert (origins + related)[i] == related[i - |origins|];
    }
  }

  lemma FirstFaultUnique(faults: seq<Option<PolicyError>>, e: PolicyError, f: PolicyError)
    ensures FirstFault(faults, e) && FirstFault(faults, f) ==> e == f
  {
    if FirstFault(faults, e) && FirstFault(faults, f) {
      var i :| 0 <= i < |faults| && faults[i] == Some(e) && NoFault(faults[..i]);
      var j :| 0 <= j < |faults| && faults[j] == Some(f) && NoFault(faults[..j]);
    }
  }

  /** The first place of `x` in `s`. */
  function FirstAt(s: seq<string>, x: string): (i: nat)
    requires x in s
    ensures i < |s| && s[i] == x && x !in s[..i]
  {
    if s[0] == x then 0 else
    assert s == [s[0]] + s[1..];
    1 + FirstAt(s[1..], x)
  }

  lemma FirstAtPrefix(s: seq<string>, x: string)
    requires s != [] && x in s[..|s| - 1]
    ensures x in s && FirstAt(s, x) == FirstAt(s[..|s| - 1], x)
  {
    var i, j := FirstAt(s, x), FirstAt(s[..|s| - 1], x);
    assert s[..|s| - 1][..j] == s[..j];
    SameFirst(s, x, i, j);
  }

  lemma SameFirst(s: seq<string>, x: string, i: nat, j: nat)
    requires i < |s| && j < |s| && s[i] == x == s[j] && x !in s[..i] && x !in s[..j]
    ensures i == j
  {
    assert forall k :: 0 <= k < i ==> s[k] == s[..i][k] && s[k] in s[..i];
    assert forall k :: 0 <= k < j ==> s[k] == s[..j][k] && s[k] in s[..j];
  }

  lemma NewLast(s: seq<string>, x: string)
    requires s != [] && s[|s| - 1] == x && x !in s[..|s| - 1]
    ensures FirstAt(s, x) == |s| - 1
  {
    assert s[|s| - 1] == x;
    SameFirst(s, x, FirstAt(s, x), |s| - 1);
  }

  /** Removing repetitions keeps the configured order. */
  lemma {:induction false} DistinctOrder(s: seq<string>, i: nat, j: nat)
    requires i < j < |Distinct(s)|
    ensures Distinct(s)[i] in s && Distinct(s)[j] in s && FirstAt(s, Distinct(s)[i]) < FirstAt(s, Distinct(s)[j])
  {
    var t, x := s[..|s| - 1], s[|s| - 1];
    var d := Distinct(t);
    assert d[i] in d;
    FirstAtPrefix(s, d[i]);
    if j < |d| {
      DistinctOrder(t, i, j);
      assert d[j] in d;
      FirstAtPrefix(s, d[j]);
    } else {
      NewLast(s, x);
    }
  }

  predicate NoRepeats(s: seq<string>) {
    forall i, j :: 0 <= i < j < |s| ==> s[i] != s[j]
  }

  predicate EntryOk(p: Platform, e: RpEntry) {
    RpId(p, e.rpId) && e.rpIdHash == p.sha256(e.rpId) && e.origins != [] && NoRepeats(e.origins)
  }

  predicate WellFormed(p: Platform, b: Policy) {
    && (forall e <- b.entries :: EntryOk(p, e))
    && (forall i, j :: 0 <= i < j < |b.entries| ==> b.entries[i].rpId != b.entries[j].rpId)
  }

  datatype Rp = Rp(rpId: string, origins: seq<string>, related: seq<string>)

  /** `b` is the outcome of configuring `rps` one after the other. */
  ghost predicate Built(p: Platform, rps: seq<Rp>, b: Policy) {
    if rps == [] then b.entries == [] else
    var rp := rps[|rps| - 1];
    exists prev :: Built(p, rps[..|rps| - 1], prev) && Added(p, prev, rp.rpId, rp.origins, rp.related, Ok(b))
  }

  function Build(b: Policy): Result<Policy, PolicyError> {
    if b.entries == [] then Err(NoRp) else Ok(b)
  }

  lemma {:induction false} DistinctNonEmpty(s: seq<string>)
    requires s != []
    ensures Distinct(s) != []
  {
    assert s[0] in Distinct(s);
  }

  lemma AddedKeeps(p: Platform, b: Policy, rp: Rp, after: Policy)
    requires WellFormed(p, b) && Added(p, b, rp.rpId, rp.origins, rp.related, Ok(after))
    ensures WellFormed(p, after)
  {
    var id, all := ValidateRpId(p, rp.rpId).value, Origins(p, rp.origins + rp.related);
    ValidateIff(p, rp.rpId, id);
    DistinctUnique(all);
    DistinctNonEmpty(all);
    var e := RpEntry(id, p.sha256(id), Distinct(all));
    assert EntryOk(p, e);
    assert after.entries == b.entries + [e];
    assert forall i :: 0 <= i < |b.entries| ==> b.entries[i] in b.entries;
  }

  /** Every policy ever built has distinct RP IDs, each with origins, none of them twice. */
  lemma {:induction false} BuiltWellFormed(p: Platform, rps: seq<Rp>, b: Policy)
    requires Built(p, rps, b)
    ensures WellFormed(p, b) && |b.entries| == |rps|
    ensures Build(b) == if rps == [] then Err(NoRp) else Ok(b)
  {
    if rps != [] {
      var rp, init := rps[|rps| - 1], rps[..|rps| - 1];
      var prev :| Built(p, init, prev) && Added(p, prev, rp.rpId, rp.origins, rp.related, Ok(b));
      BuiltWellFormed(p, init, prev);
      AddedKeeps(p, prev, rp, b);
    }
  }

  predicate Serves(p: Platform, rp: Rp, e: RpEntry, origin: string) {
    || (exists raw <- rp.origins :: p.normaliseOrigin(raw).Ok? && p.normaliseOrigin(raw).value.0 == origin &&
                                    HostWithin(p.normaliseOrigin(raw).value.1, e.rpId))
    || (exists raw <- rp.related :: p.normaliseOrigin(raw).Ok? && p.normaliseOrigin(raw).value.0 == origin &&
                                    !p.isIp(p.normaliseOrigin(raw).value.1))
  }

  /** `e` is the entry for `rp`, and allows exactly the origins configured for it. */
  ghost predicate EntryOf(p: Platform, rp: Rp, e: RpEntry) {
    && ValidateRpId(p, rp.rpId) == Ok(e.rpId)
    && e.origins == Distinct(Origins(p, rp.origins + rp.related))
    && (forall o :: AllowsOrigin(e, o) <==> Serves(p, rp, e, o))
  }

  /** The `k`-th entry is the one of the `k`-th configured party. */
  lemma {:induction false} BuiltInOrder(p: Platform, rps: seq<Rp>, b: Policy, k: nat)
    requires Built(p, rps, b) && k < |rps|
    ensures |b.entries| == |rps| && EntryOf(p, rps[k], b.entries[k])
  {
    var prev := LastAdded(p, rps, b);
    if k < |rps| - 1 {
      BuiltInOrder(p, rps[..|rps| - 1], prev, k);
    }
  }

  lemma LastAdded(p: Platform, rps: seq<Rp>, b: Policy) returns (prev: Policy)
    requires rps != [] && Built(p, rps, b)
    ensures Built(p, rps[..|rps| - 1], prev) && |prev.entries| == |rps| - 1 && |b.entries| == |rps|
    ensures forall k :: 0 <= k < |prev.entries| ==> b.entries[k] == prev.entries[k]
    ensures EntryOf(p, rps[|rps| - 1], b.entries[|rps| - 1])
  {
    var rp, init := rps[|rps| - 1], rps[..|rps| - 1];
    prev :| Built(p, init, prev) && Added(p, prev, rp.rpId, rp.origins, rp.related, Ok(b));
    BuiltWellFormed(p, init, prev);
    AddedEntry(p, prev, rp, b);
  }

  lemma AddedEntry(p: Platform, b: Policy, rp: Rp, after: Policy)
    requires Added(p, b, rp.rpId, rp.origins, rp.related, Ok(after))
    ensures |after.entries| == |b.entries| + 1 && EntryOf(p, rp, after.entries[|b.entries|])
    ensures forall k :: 0 <= k < |b.entries| ==> after.entries[k] == b.entries[k]
  {
    var e := after.entries[|b.entries|];
    forall o ensures AllowsOrigin(e, o) <==> Serves(p, rp, e, o) {
      AddedServes(p, rp, e, o);
    }
  }

  lemma AddedServes(p: Platform, rp: Rp, e: RpEntry, o: string)
    requires e.origins == Distinct(Origins(p, rp.origins + rp.related))
    requires NoFault(Faults(p, e.rpId, rp.origins, rp.related))
    ensures AllowsOrigin(e, o) <==> Serves(p, rp, e, o)
  {
    var all, n := rp.origins + rp.related, |rp.origins|;
    var list := Origins(p, all);
    if AllowsOrigin(e, o) {
      var i :| 0 <= i < |list| && list[i] == o;
      RawServes(p, rp, e, i);
    }
    if Serves(p, rp, e, o) {
      ServedListed(p, all, o);
    }
  }

  lemma ServedListed(p: Platform, all: seq<string>, o: string)
    requires exists raw <- all :: p.normaliseOrigin(raw).Ok? && p.normaliseOrigin(raw).value.0 == o
    ensures o in Origins(p, all)
  {
    var i :| 0 <= i < |all| && p.normaliseOrigin(all[i]).Ok? && p.normaliseOrigin(all[i]).value.0 == o;
    assert Origins(p, all)[i] == o;
  }

  lemma RawServes(p: Platform, rp: Rp, e: RpEntry, i: nat)
    requires NoFault(Faults(p, e.rpId, rp.origins, rp.related)) && i < |rp.origins| + |rp.related|
    ensures Serves(p, rp, e, Serialised(p, (rp.origins + rp.related)[i]))
  {
    FaultsDescribed(p, e.rpId, rp.origins, rp.related);
    NoFaultAt(Faults(p, e.rpId, rp.origins, rp.related), i);
    if i < |rp.origins| {
      OwnServes(p, rp, e, rp.origins[i]);
    } else {
      RelatedServes(p, rp, e, rp.related[i - |rp.origins|]);
    }
  }

  lemma NoFaultAt(faults: seq<Option<PolicyError>>, i: nat)
    requires NoFault(faults) && i < |faults|
    ensures faults[i].None?
  {
  }

  lemma OwnServes(p: Platform, rp: Rp, e: RpEntry, raw: string)
    requires raw in rp.origins && Fault(p, e.rpId, raw).None?
    ensures Serves(p, rp, e, Serialised(p, raw))
  {
  }

  lemma RelatedServes(p: Platform, rp: Rp, e: RpEntry, raw: string)
    requires raw in rp.related && RelatedFault(p, raw).None?
    ensures Serves(p, rp, e, Serialised(p, raw))
  {
  }

  /** The entry assertions for an RP ID hash are checked against. */
  function EntryFor(entries: seq<RpEntry>, h: seq<byte>): Option<RpEntry> {
    if entries == [] then None
    else if entries[0].rpIdHash == h then Some(entries[0])
    else EntryFor(entries[1..], h)
  }

  predicate FirstWith(entries: seq<RpEntry>, h: seq<byte>, i: int) {
    0 <= i < |entries| && entries[i].rpIdHash == h && forall j :: 0 <= j < i ==> entries[j].rpIdHash != h
  }

  lemma {:induction false} EntryForFirst(entries: seq<RpEntry>, h: seq<byte>)
    ensures EntryFor(entries, h).None? <==> forall e <- entries :: e.rpIdHash != h
    ensures forall i :: FirstWith(entries, h, i) ==> EntryFor(entries, h) == Some(entries[i])
    ensures EntryFor(entries, h).Some? ==>
      EntryFor(entries, h).value in entries && EntryFor(entries, h).value.rpIdHash == h
  {
    if entries != [] {
      EntryForFirst(entries[1..], h);
      assert entries == [entries[0]] + entries[1..];
      assert forall i :: 1 <= i < |entries| ==> entries[i] == entries[1..][i - 1];
      assert forall i :: i != 0 && FirstWith(entries, h, i) ==> FirstWith(entries[1..], h, i - 1);
    }
  }

  /** When no two configured RP IDs hash alike, the lookup finds the one entry for the hash, if any. */
  lemma EntryForIff(p: Platform, b: Policy, h: seq<byte>, e: RpEntry)
    requires WellFormed(p, b)
    requires forall d, f :: d in b.entries && f in b.entries && p.sha256(d.rpId) == p.sha256(f.rpId) ==>
      d.rpId == f.rpId
    ensures EntryFor(b.entries, h) == Some(e) <==> e in b.entries && e.rpIdHash == h
  {
    EntryForFirst(b.entries, h);
    assert forall d, f :: d in b.entries && f in b.entries && d.rpId == f.rpId ==> d == f by {
      assert forall i, j :: 0 <= i < |b.entries| && 0 <= j < |b.entries| && b.entries[i].rpId == b.entries[j].rpId ==>
        i == j;
    }
    assert forall d <- b.entries :: EntryOk(p, d);
  }
}
