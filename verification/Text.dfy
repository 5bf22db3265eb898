/**
 String operations the modelled code takes from Rust's standard library. A Dafny `char` is a
 Unicode scalar value, as a Rust `char` is.
 */
module Text {
  import opened Wrappers

  predicate IsDigit(c: char) {
    '0' <= c <= '9'
  }

  predicate IsAscii(s: string) {
    forall c <- s :: c < 128 as char
  }

  /** `char::to_ascii_lowercase`. */
  function Lower(c: char): char {
    if 'A' <= c <= 'Z' then (c as int + 32) as char else c
  }

  /** `str::to_ascii_lowercase`. */
  function ToLower(s: string): (r: string)
    ensures |r| == |s| && forall i :: 0 <= i < |s| ==> r[i] == Lower(s[i])
  {
    seq(|s|, i requires 0 <= i < |s| => Lower(s[i]))
  }

  lemma ToLowerIdempotent(s: string)
    ensures ToLower(ToLower(s)) == ToLower(s)
  {
  }

  /** The Unicode White_Space property, which `str::trim` strips. */
  predicate White(c: char) {
    var u := c as int;
    9 <= u <= 13 || u == 0x20 || u == 0x85 || u == 0xA0 || u == 0x1680 || 0x2000 <= u <= 0x200A ||
    u == 0x2028 || u == 0x2029 || u == 0x202F || u == 0x205F || u == 0x3000
  }

  /** The 25 characters of that property, one by one. */
  lemma WhiteSpace(c: char)
    ensures White(c) <==>
            c in {'\U{0009}', '\U{000A}', '\U{000B}', '\U{000C}', '\U{000D}', '\U{0020}', '\U{0085}', '\U{00A0}',
                  '\U{1680}', '\U{2000}', '\U{2001}', '\U{2002}', '\U{2003}', '\U{2004}', '\U{2005}', '\U{2006}',
                  '\U{2007}', '\U{2008}', '\U{2009}', '\U{200A}', '\U{2028}', '\U{2029}', '\U{202F}', '\U{205F}',
                  '\U{3000}'}
  {
  }

  predicate Blank(s: string) {
    forall c <- s :: White(c)
  }

  function TrimStart(s: string): string {
    if s != [] && White(s[0]) then TrimStart(s[1..]) else s
  }

  function TrimEnd(s: string): string {
    if s != [] && White(s[|s| - 1]) then TrimEnd(s[..|s| - 1]) else s
  }

  /** `str::trim`. */
  function Trim(s: string): string {
    TrimEnd(TrimStart(s))
  }

  /** Neither end of `s` is white space. */
  predicate Trimmed(s: string) {
    s == [] || (!White(s[0]) && !White(s[|s| - 1]))
  }

  lemma {:induction false} TrimStartSplits(s: string) returns (pre: string)
    ensures Blank(pre) && s == pre + TrimStart(s)
    ensures TrimStart(s) == [] || !White(TrimStart(s)[0])
  {
    if s != [] && White(s[0]) {
      var rest := TrimStartSplits(s[1..]);
      pre := [s[0]] + rest;
    } else {
      pre := [];
    }
  }

  lemma {:induction false} TrimEndSplits(s: string) returns (post: string)
    ensures Blank(post) && s == TrimEnd(s) + post
    ensures TrimEnd(s) == [] || !White(TrimEnd(s)[|TrimEnd(s)| - 1])
  {
    if s != [] && White(s[|s| - 1]) {
      var rest := TrimEndSplits(s[..|s| - 1]);
      post := rest + [s[|s| - 1]];
    } else {
      post := [];
    }
  }

  lemma TrimSplits(s: string) returns (pre: string, post: string)
    ensures Blank(pre) && Blank(post) && s == pre + Trim(s) + post
    ensures Trimmed(Trim(s))
  {
    pre := TrimStartSplits(s);
    post := TrimEndSplits(TrimStart(s));
    assert Trim(s) != [] ==> Trim(s)[0] == TrimStart(s)[0];
  }

  lemma {:induction false} TrimStartPadded(pre: string, s: string)
    requires Blank(pre)
    ensures TrimStart(pre + s) == TrimStart(s)
  {
    if pre == [] {
      assert pre + s == s;
    } else {
      assert (pre + s)[1..] == pre[1..] + s;
      assert White(pre[0]);
      TrimStartPadded(pre[1..], s);
    }
  }

  lemma {:induction false} TrimEndPadded(s: string, post: string)
    requires Blank(post)
    ensures TrimEnd(s + post) == TrimEnd(s)
  {
    if post == [] {
      assert s + post == s;
    } else {
      var k := |post| - 1;
      assert (s + post)[..|s + post| - 1] == s + post[..k];
      assert (s + post)[|s + post| - 1] == post[k];
      TrimEndPadded(s, post[..k]);
    }
  }

  /** Padding a trimmed string with white space is undone by `Trim`, and by nothing else. */
  lemma TrimPadded(pre: string, s: string, post: string)
    requires Blank(pre) && Blank(post) && Trimmed(s)
    ensures Trim(pre + s + post) == s
  {
    assert pre + s + post == pre + (s + post);
    TrimStartPadded(pre, s + post);
    if s == [] {
      assert s + post == post + [] && [] + post == post;
      TrimStartPadded(post, []);
    } else {
      assert TrimStart(s + post) == s + post;
      TrimEndPadded(s, post);
    }
  }

  lemma BlankTrims(s: string)
    ensures Trim(s) == "" <==> Blank(s)
  {
    if Blank(s) {
      TrimPadded(s, "", "");
      assert s + "" + "" == s;
    } else {
      var pre, post := TrimSplits(s);
      assert Trim(s) == "" ==> s == pre + post;
    }
  }

  /** Index of the first character of `s` in `stops`, or `|s|`. */
  function Index(s: string, stops: set<char>): (n: nat)
    ensures n <= |s|
    ensures forall i :: 0 <= i < n ==> s[i] !in stops
    ensures n < |s| ==> s[n] in stops
  {
    if s == [] || s[0] in stops then 0 else 1 + Index(s[1..], stops)
  }

  /** Index of the last `c` in `s`, or -1. */
  function LastIndex(s: string, c: char): (n: int)
    ensures -1 <= n < |s|
    ensures n >= 0 ==> s[n] == c
    ensures forall i :: n < i < |s| ==> s[i] != c
  {
    if s == [] then -1 else if s[|s| - 1] == c then |s| - 1 else LastIndex(s[..|s| - 1], c)
  }

  lemma IndexUnique(s: string, stops: set<char>, n: nat)
    requires n <= |s| && (n < |s| ==> s[n] in stops)
    requires forall i :: 0 <= i < n ==> s[i] !in stops
    ensures Index(s, stops) == n
  {
  }

  lemma IndexOne(s: string, c: char, n: nat)
    requires n == Index(s, {c})
    ensures n < |s| <==> c in s
    ensures n < |s| ==> s[n] == c && c !in s[..n]
  {
    assert forall i :: 0 <= i < n ==> s[i] !in {c};
  }

  lemma CutAt(s: string, k: nat)
    requires k < |s|
    ensures s == s[..k] + ([s[k]] + s[k + 1..])
  {
  }

  lemma LastIndexUnique(s: string, c: char, n: int)
    requires -1 <= n < |s| && (n >= 0 ==> s[n] == c)
    requires forall i :: n < i < |s| ==> s[i] != c
    ensures LastIndex(s, c) == n
  {
  }

  /** `t` occurs in `s` at index `j`. */
  predicate At(s: string, t: string, j: nat)
    requires j <= |s|
  {
    t <= s[j..]
  }

  /** Start of the first occurrence of `t` in `s`, as `str::find` and `str::split_once` use it. */
  function Find(s: string, t: string): (r: Option<nat>)
    ensures r.Some? ==> r.value + |t| <= |s| && At(s, t, r.value)
    ensures r.Some? ==> forall j :: 0 <= j < r.value ==> !At(s, t, j)
    ensures r.None? ==> forall j :: 0 <= j <= |s| ==> !At(s, t, j)
  {
    FindFrom(s, t, 0)
  }

  function FindFrom(s: string, t: string, from: nat): (r: Option<nat>)
    requires from <= |s|
    ensures r.Some? ==> from <= r.value && r.value + |t| <= |s| && At(s, t, r.value)
    ensures r.Some? ==> forall j :: from <= j < r.value ==> !At(s, t, j)
    ensures r.None? ==> forall j :: from <= j <= |s| ==> !At(s, t, j)
    decreases |s| - from
  {
    if At(s, t, from) then Some(from) else if from == |s| then None else FindFrom(s, t, from + 1)
  }

  lemma FindUnique(s: string, t: string, i: nat)
    requires i + |t| <= |s| && At(s, t, i)
    requires forall j :: 0 <= j < i ==> !At(s, t, j)
    ensures Find(s, t) == Some(i)
  {
  }

  /** `str::split(c)`: never empty, and one more piece than there are separators. */
  function Split(s: string, c: char): (r: seq<string>)
    ensures |r| > 0
  {
    if s == [] then [""]
    else
      var rest := Split(s[1..], c);
      if s[0] == c then [""] + rest else [[s[0]] + rest[0]] + rest[1..]
  }

  lemma {:induction false} SplitPlain(s: string, c: char)
    requires c !in s
    ensures Split(s, c) == [s]
  {
    if s != [] {
      SplitPlain(s[1..], c);
      assert s == [s[0]] + s[1..];
    }
  }

  lemma {:induction false} SplitConcat(a: string, c: char, b: string)
    ensures Split(a + [c] + b, c) == Split(a, c) + Split(b, c)
  {
    var s := a + [c] + b;
    if a == [] {
      assert s[1..] == b;
    } else {
      assert s[1..] == a[1..] + [c] + b;
      SplitConcat(a[1..], c, b);
    }
  }

  /** `trim_end_matches(c)`. */
  function TrimEndChar(s: string, c: char): (r: string)
    ensures r <= s && (r != [] ==> r[|r| - 1] != c)
    ensures forall i :: |r| <= i < |s| ==> s[i] == c
  {
    if s != [] && s[|s| - 1] == c then TrimEndChar(s[..|s| - 1], c) else s
  }

  lemma Assoc<T>(a: seq<T>, b: seq<T>, c: seq<T>)
    ensures a + b + c == a + (b + c)
  {
  }

  lemma Uncons<T>(a: T, s: seq<T>)
    ensures ([a] + s)[0] == a && ([a] + s)[1..] == s
  {
  }

  predicate OneLine(s: string) {
    '\n' !in s
  }

  lemma SameFirstLine(t1: string, r1: string, t2: string, r2: string)
    requires OneLine(t1) && OneLine(t2) && t1 + "\n" + r1 == t2 + "\n" + r2
    ensures t1 == t2 && r1 == r2
  {
    FirstBreak(t1, r1);
    FirstBreak(t2, r2);
    var s := t1 + "\n" + r1;
    assert |t1| == |t2|;
    assert t1 == s[..|t1|] && r1 == s[|t1| + 1..];
  }

  lemma FirstBreak(t: string, r: string)
    requires OneLine(t)
    ensures (t + "\n" + r)[|t|] == '\n' && forall i :: 0 <= i < |t| ==> (t + "\n" + r)[i] != '\n'
  {
    assert forall i :: 0 <= i < |t| ==> (t + "\n" + r)[i] == t[i];
  }

  lemma DropPrefix(p: string, a: string, b: string)
    requires p + a == p + b
    ensures a == b
  {
    assert a == (p + a)[|p|..] && b == (p + b)[|p|..];
  }

  lemma NoPrefixAt(s: string, t: string, j: nat)
    requires t != [] && j < |s| && s[j] != t[0]
    ensures !At(s, t, j)
  {
    assert s[j..][0] == s[j];
  }

  /** Separators cannot appear in a decimal number. */
  predicate Digits(s: string) {
    forall i :: 0 <= i < |s| ==> IsDigit(s[i])
  }
}

/** Decimal numbers as `Display` prints them and `from_str` reads them. */
module Decimal {
  import opened Text

  function DigitChar(d: int): (c: char)
    requires 0 <= d < 10
    ensures IsDigit(c)
  {
    (48 + d) as char
  }

  function PrintNat(n: nat): (s: string)
    ensures s != [] && Digits(s)
  {
    if n < 10 then [DigitChar(n)] else PrintNat(n / 10) + [DigitChar(n % 10)]
  }

  function ParseNat(s: string): nat
    requires Digits(s)
  {
    if s == [] then 0 else 10 * ParseNat(s[..|s| - 1]) + (s[|s| - 1] as int - 48)
  }

  lemma {:induction false} ParsePrint(n: nat)
    ensures ParseNat(PrintNat(n)) == n
  {
    if n >= 10 {
      ParsePrint(n / 10);
      var s := PrintNat(n);
      assert s[..|s| - 1] == PrintNat(n / 10);
    } else {
      assert PrintNat(n)[..0] == [];
    }
  }

  function Pow10(k: nat): (p: nat)
    ensures p >= 1
  {
    if k == 0 then 1 else 10 * Pow10(k - 1)
  }

  lemma {:induction false} PrintLength(n: nat, k: nat)
    requires 0 < k && n < Pow10(k)
    ensures |PrintNat(n)| <= k
  {
    if n >= 10 {
      PrintLength(n / 10, k - 1);
    }
  }
}
